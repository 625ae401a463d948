/** Properties of one machine step. */
module EmulatorProperties {
  import opened Wrappers
  import opened Codec
  import opened Emulator

  /** Every instruction changes at most its destination cell. */
  lemma OnlyDestinationChanges(mem: seq<u32>, i: Instr, a: int)
    requires |mem| == MEMORY_SIZE && 0 <= a < MEMORY_SIZE && a != Destination(i)
    ensures Apply(mem, i)[a] == mem[a]
  {
  }

  /** ZeroPageAdd: the sum modulo 2^32, which is also the signed sum when
      that fits in 32 bits. */
  lemma AddSemantics(mem: seq<u32>, lhs: u8, rhs: u8, out: u8)
    requires |mem| == MEMORY_SIZE
    ensures var r, sum := Apply(mem, Add(lhs, rhs, out))[out], mem[lhs] as int + mem[rhs];
      r == if sum < 0x1_0000_0000 then sum else sum - 0x1_0000_0000
    ensures var s := Signed(mem[lhs]) + Signed(mem[rhs]);
      -0x8000_0000 <= s < 0x8000_0000 ==> Signed(Apply(mem, Add(lhs, rhs, out))[out]) == s
  {
  }

  /** ZeroPageNeg: the two's complement negation, the additive inverse
      modulo 2^32; i32::MIN is its own negation. */
  lemma NegSemantics(mem: seq<u32>, input: u8, out: u8)
    requires |mem| == MEMORY_SIZE
    ensures var r := Apply(mem, Neg(input, out))[out];
      WrappingAdd(mem[input], r) == 0
      && (mem[input] != 0x8000_0000 ==> Signed(r) == -Signed(mem[input]))
      && (mem[input] == 0x8000_0000 ==> r == 0x8000_0000)
  {
  }

  /** ZeroPageLoad, ZeroPageStore and ZeroPageImmediateLoad copy a cell or
      the zero-extended immediate. */
  lemma MoveSemantics(mem: seq<u32>, zp: u8, far: u16)
    requires |mem| == MEMORY_SIZE
    ensures Apply(mem, Load(far, zp))[zp] == mem[far]
    ensures Apply(mem, Store(zp, far))[far] == mem[zp]
    ensures Apply(mem, ImmediateLoad(zp, far))[zp] == far
  {
  }

  /** ZeroPageLoadIfPos copies only when the condition cell, read as a
      signed word, is positive: as an unsigned word, between 1 and 2^31 - 1. */
  lemma LoadIfPosSemantics(mem: seq<u32>, cond: u8, from: u8, to: u8)
    requires |mem| == MEMORY_SIZE
    ensures Apply(mem, LoadIfPos(cond, from, to)) ==
      if 0 < mem[cond] < 0x8000_0000 then mem[to := mem[from]] else mem
  {
  }

  /** ZeroPageXor of a cell with itself clears the destination. */
  lemma XorSelfClears(mem: seq<u32>, a: u8, out: u8)
    requires |mem| == MEMORY_SIZE
    ensures Apply(mem, Xor(a, a, out))[out] == 0
  {
  }

  /** The housekeeping after an instruction fetched from `pc`: at most the
      low byte of DATA is printed, exactly when WRITING was set; WRITING
      ends up clear; PC moves to the next word exactly when its low 16 bits
      still name the fetch address; no other cell changes. */
  lemma FinishSemantics(m: seq<u32>, pc: Address)
    requires |m| == MEMORY_SIZE
    ensures var (m', out) := Finish(m, pc);
      && out == (if m[WRITING] != 0 then [LowByte(m[DATA])] else [])
      && m'[WRITING] == 0
      && m'[PC] == (if m[PC] % 0x1_0000 == pc then pc + 1 else m[PC])
      && forall a :: 0 <= a < MEMORY_SIZE && a != PC && a != WRITING ==> m'[a] == m[a]
  {
  }

  /** The instruction a step executes, when it executes one. */
  function Fetched(mem: seq<u32>): Option<Instr>
    requires |mem| == MEMORY_SIZE
  {
    Decode(mem[FetchAddress(mem)])
  }

  /** A step that executes: the memory is the instruction's effect followed
      by the housekeeping, and the pre-state's breakpoints matter only
      through the fetch address. */
  lemma ExecutedStep(mem: seq<u32>, breakpoints: seq<Address>)
    requires |mem| == MEMORY_SIZE
    ensures Next(mem, breakpoints).outcome == Executed <==>
      FetchAddress(mem) !in breakpoints && OpcodeOf(mem[FetchAddress(mem)]) % 4 != 3 && Fetched(mem).Some?
    ensures Next(mem, breakpoints).outcome == Executed ==>
      var m := Apply(mem, Fetched(mem).value);
      Next(mem, breakpoints).mem == Finish(m, FetchAddress(mem)).0
      && Next(mem, breakpoints).emitted == Finish(m, FetchAddress(mem)).1
  {
    var pc := FetchAddress(mem);
    if pc !in breakpoints && OpcodeOf(mem[pc]) % 4 != 3 {
      assert Decode(mem[pc]).Some? <==> FromU8(OpcodeOf(mem[pc])).Some?;
    }
  }

  /** Straight-line code: an instruction that does not write PC is followed
      by the next word, and the 16-bit fetch address wraps from 0xFFFF to 0
      although PC itself then holds 0x10000. */
  lemma SequentialStep(mem: seq<u32>, breakpoints: seq<Address>)
    requires |mem| == MEMORY_SIZE
    requires Next(mem, breakpoints).outcome == Executed
    requires Destination(Fetched(mem).value) != PC
    ensures Next(mem, breakpoints).mem[PC] == FetchAddress(mem) + 1
    ensures FetchAddress(Next(mem, breakpoints).mem) == (FetchAddress(mem) + 1) % 0x1_0000
  {
    ExecutedStep(mem, breakpoints);
    var i := Fetched(mem).value;
    OnlyDestinationChanges(mem, i, PC);
    FinishSemantics(Apply(mem, i), FetchAddress(mem));
  }

  /** A jump is a write to PC: the written value stands when its low 16 bits
      differ from the fetch address. A "jump" whose low 16 bits equal the
      fetch address is not told apart from no jump, and PC still advances. */
  lemma JumpStep(mem: seq<u32>, breakpoints: seq<Address>)
    requires |mem| == MEMORY_SIZE
    requires Next(mem, breakpoints).outcome == Executed
    ensures var target := Apply(mem, Fetched(mem).value)[PC];
      Next(mem, breakpoints).mem[PC] == if target % 0x1_0000 == FetchAddress(mem) then FetchAddress(mem) + 1 else target
  {
    ExecutedStep(mem, breakpoints);
    FinishSemantics(Apply(mem, Fetched(mem).value), FetchAddress(mem));
  }

  /** `LI 0 target` is an unconditional jump to any other address; a jump to
      itself falls through to the next word. */
  lemma ImmediateJump(mem: seq<u32>, breakpoints: seq<Address>, target: u16)
    requires |mem| == MEMORY_SIZE
    requires FetchAddress(mem) !in breakpoints
    requires mem[FetchAddress(mem)] == ToBytes(ImmediateLoad(0, target))
    ensures Next(mem, breakpoints).outcome == Executed
    ensures Next(mem, breakpoints).mem[PC] == if target == FetchAddress(mem) then target + 1 else target
  {
    RoundTrip(ImmediateLoad(0, target));
    NoOpcodeIsVariableLength(ZeroPageImmediateLoad);
    JumpStep(mem, breakpoints);
  }

  /** Output: storing a non-zero word into WRITING prints the low byte of
      DATA once and clears WRITING again. */
  lemma StrobeOutput(mem: seq<u32>, breakpoints: seq<Address>, from: u8)
    requires |mem| == MEMORY_SIZE
    requires FetchAddress(mem) !in breakpoints
    requires mem[FetchAddress(mem)] == ToBytes(Store(from, WRITING))
    requires mem[from] != 0
    ensures Next(mem, breakpoints).outcome == Executed
    ensures Next(mem, breakpoints).emitted == [LowByte(mem[DATA])]
    ensures Next(mem, breakpoints).mem[WRITING] == 0
  {
    RoundTrip(Store(from, WRITING));
    NoOpcodeIsVariableLength(ZeroPageStore);
    ExecutedStep(mem, breakpoints);
    FinishSemantics(Apply(mem, Store(from, WRITING)), FetchAddress(mem));
  }

  /** Every executed step ends with WRITING clear, and prints a character
      exactly when the instruction left WRITING non-zero. */
  lemma WritingClearAfterStep(mem: seq<u32>, breakpoints: seq<Address>)
    requires |mem| == MEMORY_SIZE
    requires Next(mem, breakpoints).outcome == Executed
    ensures Next(mem, breakpoints).mem[WRITING] == 0
    ensures |Next(mem, breakpoints).emitted| == 1 <==> Apply(mem, Fetched(mem).value)[WRITING] != 0
  {
    ExecutedStep(mem, breakpoints);
    FinishSemantics(Apply(mem, Fetched(mem).value), FetchAddress(mem));
  }

  /** `continue` from the debugger runs the cycle the breakpoint check
      interrupted: exactly the step of a machine without breakpoints. */
  lemma ResumeIgnoresBreakpoints(mem: seq<u32>, breakpoints: seq<Address>)
    requires |mem| == MEMORY_SIZE
    ensures Cycle(mem, FetchAddress(mem)) == Next(mem, [])
    ensures FetchAddress(mem) !in breakpoints ==> Next(mem, breakpoints) == Next(mem, [])
  {
  }

  /** The checks before execution: a breakpoint at the fetch address stops
      the step before the fetch; an opcode with low bits `11` is
      unsupported; a leading byte outside the nine opcodes is rejected. In
      all three cases memory is untouched and nothing is printed. */
  lemma StepOutcomes(mem: seq<u32>, breakpoints: seq<Address>)
    requires |mem| == MEMORY_SIZE
    ensures var t, pc := Next(mem, breakpoints), FetchAddress(mem);
      && (t.outcome == HitBreakpoint(pc) <==> pc in breakpoints)
      && (t.outcome.HitBreakpoint? ==> t.outcome.at == pc)
      && (t.outcome.Unsupported? <==> pc !in breakpoints && OpcodeOf(mem[pc]) % 4 == 3)
      && (t.outcome.BadOpcode? <==> pc !in breakpoints && OpcodeOf(mem[pc]) % 4 != 3 && FromU8(OpcodeOf(mem[pc])).None?)
      && (t.outcome.Unsupported? ==> t.outcome.opcode == OpcodeOf(mem[pc]))
      && (t.outcome.BadOpcode? ==> t.outcome.opcode == OpcodeOf(mem[pc]))
      && (t.outcome != Executed ==> t.mem == mem && t.emitted == [])
      && |t.emitted| <= 1
  {
  }

  /** With a debugger that always continues, breakpoints only add
      announcements: the memory, the output and how the run stops are those
      of the same run without breakpoints. */
  lemma {:induction false} BreakpointsOnlyAnnounce(mem: seq<u32>, breakpoints: seq<Address>, fuel: nat)
    requires |mem| == MEMORY_SIZE
    ensures var r, plain := RunFor(mem, breakpoints, fuel), RunFor(mem, [], fuel);
      r.halt == plain.halt && r.mem == plain.mem && r.emitted == plain.emitted && plain.hits == []
    decreases fuel, 1
  {
    if fuel > 0 {
      assert Hit(mem, []) == [];
      ContinueOnlyAnnounces(Cycle(mem, FetchAddress(mem)), Hit(mem, breakpoints), breakpoints, fuel - 1,
                            RunFor(mem, breakpoints, fuel), RunFor(mem, [], fuel));
    }
  }

  /** The rest of a run, as in `BreakpointsOnlyAnnounce`. */
  lemma {:induction false} ContinueOnlyAnnounces(t: Transition, hit: seq<Address>, breakpoints: seq<Address>, fuel: nat,
                                                 r: Trace, plain: Trace)
    requires |t.mem| == MEMORY_SIZE
    requires r == Continue(t, hit, breakpoints, fuel) && plain == Continue(t, [], [], fuel)
    ensures r.halt == plain.halt && r.mem == plain.mem && r.emitted == plain.emitted && plain.hits == []
    decreases fuel, 2
  {
    if t.outcome == Executed {
      BreakpointsOnlyAnnounce(t.mem, breakpoints, fuel);
    }
  }

  /** A cycle prints at most one character, and a cycle that does not
      execute is a panic that changes nothing. */
  lemma CycleBounds(mem: seq<u32>, pc: Address)
    requires |mem| == MEMORY_SIZE
    ensures var t := Cycle(mem, pc);
      |t.emitted| <= 1
      && (t.outcome != Executed ==> (t.outcome.Unsupported? || t.outcome.BadOpcode?) && t.mem == mem && t.emitted == [])
  {
  }

  /** A run prints at most one character and announces at most one
      breakpoint per iteration, and stops early only on a panic. */
  lemma {:induction false} RunForBounds(mem: seq<u32>, breakpoints: seq<Address>, fuel: nat)
    requires |mem| == MEMORY_SIZE
    ensures var r := RunFor(mem, breakpoints, fuel);
      |r.emitted| <= fuel && |r.hits| <= fuel
      && (r.halt.Panicked? ==> r.halt.reason.Unsupported? || r.halt.reason.BadOpcode?)
    decreases fuel, 1
  {
    if fuel > 0 {
      CycleBounds(mem, FetchAddress(mem));
      ContinueBounds(Cycle(mem, FetchAddress(mem)), Hit(mem, breakpoints), breakpoints, fuel - 1, RunFor(mem, breakpoints, fuel));
    }
  }

  /** The rest of a run, as in `RunForBounds`. */
  lemma {:induction false} ContinueBounds(t: Transition, hit: seq<Address>, breakpoints: seq<Address>, fuel: nat, r: Trace)
    requires |t.mem| == MEMORY_SIZE && |t.emitted| <= 1 && |hit| <= 1
    requires t.outcome != Executed ==> t.outcome.Unsupported? || t.outcome.BadOpcode?
    requires r == Continue(t, hit, breakpoints, fuel)
    ensures |r.emitted| <= fuel + 1 && |r.hits| <= fuel + 1
      && (r.halt.Panicked? ==> r.halt.reason.Unsupported? || r.halt.reason.BadOpcode?)
    decreases fuel, 2
  {
    if t.outcome == Executed {
      RunForBounds(t.mem, breakpoints, fuel);
    }
  }

  /** The load convention of `main`: the first step stops at the implicit
      breakpoint 0x8000 without changing anything, and `continue` then
      executes the first word of the program. */
  lemma BootStopsAtEntry(mem: seq<u32>, breakpoints: seq<Address>, program: seq<u32>, marked: seq<Address>)
    requires Booted(mem, breakpoints, program, marked)
    ensures FetchAddress(mem) == 0x8000
    ensures Next(mem, breakpoints) == Transition(HitBreakpoint(0x8000), mem, [])
    ensures |program| > 0 ==> Cycle(mem, FetchAddress(mem)) == Cycle(mem, 0x8000) && mem[0x8000] == program[0]
  {
    if |program| > 0 {
      assert mem[0x8000] == mem[0x8000..0x8000 + |program|][0];
    }
  }
}
