/** The machine of src/main.rs: a 65,536-word memory whose cell 0 is the
    program counter and whose last two cells are a memory-mapped character
    output, the fetch-decode-execute step of `Machine::run`, breakpoints,
    and the loading convention of `main`.

    Arithmetic wraps modulo 2^32 (the behaviour of a release build; a debug
    build panics on the overflow of ADD and on negating i32::MIN). */
module Emulator {
  import opened Wrappers
  import opened Codec

  /** The reserved cells. */
  const PC: Address := 0x0000
  const WRITING: Address := 0xFFFE
  const DATA: Address := 0xFFFF

  /** `2_usize.pow(16)` words. */
  const MEMORY_SIZE: nat := 0x1_0000


  /** `bytemuck::cast::<u32, i32>`: the word read as two's complement. */
  function Signed(w: u32): (v: int)
    ensures -0x8000_0000 <= v < 0x8000_0000
    ensures v % 0x1_0000_0000 == w
  {
    if w < 0x8000_0000 then w else w - 0x1_0000_0000
  }

  /** `u32 + u32` of ZeroPageAdd, wrapping modulo 2^32. */
  function WrappingAdd(a: u32, b: u32): u32
  {
    (a + b) % 0x1_0000_0000
  }

  /** `-(x as i32)` of ZeroPageNeg on the two's complement bits, wrapping:
      the negation of i32::MIN is i32::MIN again. */
  function WrappingNeg(a: u32): u32
  {
    (0x1_0000_0000 - a) % 0x1_0000_0000
  }

  /** The bitwise operations of ZeroPageAnd, ZeroPageOr and ZeroPageXor. */
  function WordAnd(a: u32, b: u32): u32
  {
    ((a as bv32) & (b as bv32)) as int
  }

  function WordOr(a: u32, b: u32): u32
  {
    ((a as bv32) | (b as bv32)) as int
  }

  function WordXor(a: u32, b: u32): u32
  {
    ((a as bv32) ^ (b as bv32)) as int
  }

  /** `x as u16` of a word: its low 16 bits. */
  function Truncate16(w: u32): Address
  {
    w % 0x1_0000
  }

  /** `x as u8` of a word: its low byte. */
  function LowByte(w: u32): u8
  {
    w % 0x100
  }

  /** What one step of the machine reports. `Executed` is the normal case;
      `HitBreakpoint` is the entry into the debugger before the instruction
      at `at` runs; `Unsupported` is the `todo!` of a variable-length opcode
      (low bits `11`); `BadOpcode` is the failing `Opcodes::from_u8(..)`. */
  datatype StepOutcome =
    | Executed
    | HitBreakpoint(at: Address)
    | Unsupported(opcode: u8)
    | BadOpcode(opcode: u8)

  /** One step's effect: the outcome, the memory afterwards and the
      characters printed (none or one). */
  datatype Transition = Transition(outcome: StepOutcome, mem: seq<u32>, emitted: seq<u8>)

  /** The cell the instruction writes: `out`, `to` or `addr`. */
  function Destination(i: Instr): Address
  {
    match i
    case Add(_, _, out) => out
    case Neg(_, out) => out
    case And(_, _, out) => out
    case Or(_, _, out) => out
    case Xor(_, _, out) => out
    case Load(_, to) => to
    case Store(_, farTo) => farTo
    case ImmediateLoad(addr, _) => addr
    case LoadIfPos(_, _, to) => to
  }

  /** The value the instruction writes, computed from the memory before it. */
  function Result(mem: seq<u32>, i: Instr): u32
    requires |mem| == MEMORY_SIZE
  {
    match i
    case Add(lhs, rhs, _) => WrappingAdd(mem[lhs], mem[rhs])
    case Neg(input, _) => WrappingNeg(mem[input])
    case And(lhs, rhs, _) => WordAnd(mem[lhs], mem[rhs])
    case Or(lhs, rhs, _) => WordOr(mem[lhs], mem[rhs])
    case Xor(lhs, rhs, _) => WordXor(mem[lhs], mem[rhs])
    case Load(farFrom, _) => mem[farFrom]
    case Store(from, _) => mem[from]
    case ImmediateLoad(_, imm) => imm
    case LoadIfPos(_, from, _) => mem[from]
  }

  /** Whether the instruction writes at all: every one does except a
      ZeroPageLoadIfPos whose condition, read as `i32`, is not positive. */
  predicate Writes(mem: seq<u32>, i: Instr)
    requires |mem| == MEMORY_SIZE
  {
    !i.LoadIfPos? || Signed(mem[i.cond]) > 0
  }

  /** The `match` of `run`: the memory after one decoded instruction
      executes, before the output and program-counter housekeeping. */
  function Apply(mem: seq<u32>, i: Instr): (m: seq<u32>)
    requires |mem| == MEMORY_SIZE
    ensures |m| == MEMORY_SIZE
  {
    if Writes(mem, i) then mem[Destination(i) := Result(mem, i)] else mem
  }

  /** After the instruction: if WRITING is non-zero, print the low byte of
      DATA and clear WRITING; then, if the low 16 bits of PC still equal the
      fetch address, move PC to the next word (`pc + 1`, computed in
      32 bits). */
  function Finish(mem: seq<u32>, pc: Address): (r: (seq<u32>, seq<u8>))
    requires |mem| == MEMORY_SIZE
    ensures |r.0| == MEMORY_SIZE
  {
    var (m, emitted) :=
      if mem[WRITING] != 0 then (mem[WRITING := 0], [LowByte(mem[DATA])])
      else (mem, []);
    var m' := if pc == Truncate16(m[PC]) then m[PC := pc + 1] else m;
    (m', emitted)
  }

  /** Fetch, decode, execute and housekeeping at fetch address `pc`: the
      loop body of `run` after its breakpoint check. */
  function Cycle(mem: seq<u32>, pc: Address): (t: Transition)
    requires |mem| == MEMORY_SIZE
    ensures |t.mem| == MEMORY_SIZE
  {
    var word := mem[pc];
    var op := OpcodeOf(word);
    if op % 4 == 3 then Transition(Unsupported(op), mem, [])
    else
      match Decode(word)
      case None => Transition(BadOpcode(op), mem, [])
      case Some(i) =>
        var (m, emitted) := Finish(Apply(mem, i), pc);
        Transition(Executed, m, emitted)
  }

  /** The fetch address: PC read as `u16`. */
  function FetchAddress(mem: seq<u32>): Address
    requires |mem| == MEMORY_SIZE
  {
    Truncate16(mem[PC])
  }

  /** One iteration of `run`: stop at a breakpoint before fetching,
      otherwise run one cycle. */
  function Next(mem: seq<u32>, breakpoints: seq<Address>): (t: Transition)
    requires |mem| == MEMORY_SIZE
    ensures |t.mem| == MEMORY_SIZE
  {
    var pc := FetchAddress(mem);
    if pc in breakpoints then Transition(HitBreakpoint(pc), mem, []) else Cycle(mem, pc)
  }

  /** Why a bounded run of `run`'s loop stopped: the step budget ran out,
      or a step panicked (`Unsupported` or `BadOpcode`). */
  datatype Halt = OutOfFuel | Panicked(reason: StepOutcome)

  /** A bounded run: how it stopped, the final memory, the characters
      printed and the breakpoints announced, in order. */
  datatype Trace = Trace(halt: Halt, mem: seq<u32>, emitted: seq<u8>, hits: seq<Address>)

  /** At most `fuel` iterations of `run`'s loop, with a debugger that always
      answers `continue`: a breakpoint is announced and the same instruction
      then executes. */
  function RunFor(mem: seq<u32>, breakpoints: seq<Address>, fuel: nat): (r: Trace)
    requires |mem| == MEMORY_SIZE
    ensures |r.mem| == MEMORY_SIZE
    decreases fuel, 1
  {
    if fuel == 0 then Trace(OutOfFuel, mem, [], [])
    else Continue(Cycle(mem, FetchAddress(mem)), Hit(mem, breakpoints), breakpoints, fuel - 1)
  }

  /** The rest of a bounded run once an iteration announced `hit` and its
      cycle produced `t`: stop on a panic, otherwise go on with at most
      `fuel` more iterations. */
  function Continue(t: Transition, hit: seq<Address>, breakpoints: seq<Address>, fuel: nat): (r: Trace)
    requires |t.mem| == MEMORY_SIZE
    ensures |r.mem| == MEMORY_SIZE
    decreases fuel, 2
  {
    if t.outcome != Executed then Trace(Panicked(t.outcome), t.mem, t.emitted, hit)
    else
      var r := RunFor(t.mem, breakpoints, fuel);
      Trace(r.halt, r.mem, t.emitted + r.emitted, hit + r.hits)
  }

  /** What an iteration of a bounded run announces at a breakpoint. */
  function Hit(mem: seq<u32>, breakpoints: seq<Address>): (hit: seq<Address>)
    requires |mem| == MEMORY_SIZE
    ensures hit == [] || hit == [FetchAddress(mem)]
    ensures hit == [FetchAddress(mem)] <==> FetchAddress(mem) in breakpoints
  {
    if FetchAddress(mem) in breakpoints then [FetchAddress(mem)] else []
  }

  /** The memory `main` hands to `run`: PC = 0x8000, the program from
      0x8000 on, zero elsewhere. */
  function BootImage(program: seq<u32>): (mem: seq<u32>)
    requires |program| <= 0x8000
    ensures |mem| == MEMORY_SIZE && mem[PC] == 0x8000
    ensures mem[0x8000..0x8000 + |program|] == program
    ensures forall a :: 0 < a < MEMORY_SIZE && !(0x8000 <= a < 0x8000 + |program|) ==> mem[a] == 0
  {
    seq(MEMORY_SIZE, a requires 0 <= a < MEMORY_SIZE =>
      if a == PC then 0x8000 else if 0x8000 <= a < 0x8000 + |program| then program[a - 0x8000] else 0)
  }

  /** `main`'s setup convention: the boot image above, and the breakpoints
      0x8000 followed by the assembler's `marked` ones. */
  ghost predicate Booted(mem: seq<u32>, breakpoints: seq<Address>, program: seq<u32>, marked: seq<Address>)
  {
    |program| <= 0x8000 && mem == BootImage(program) && breakpoints == [0x8000] + marked
  }

  /** The machine. `output` is everything printed so far. */
  class Machine {
    var memory: array<u32>
    var breakpoints: seq<Address>
    ghost var output: seq<u8>

    ghost predicate Valid()
      reads this
    {
      memory.Length == MEMORY_SIZE
    }

    /** `Machine::default`: all memory zero, no breakpoints. */
    constructor ()
      ensures Valid() && fresh(memory)
      ensures memory[..] == seq(MEMORY_SIZE, _ => 0)
      ensures breakpoints == [] && output == []
    {
      memory := new u32[MEMORY_SIZE](_ => 0);
      breakpoints := [];
      output := [];
    }

    /** `read`: every 16-bit address is inside the memory. */
    method Read(addr: Address) returns (v: u32)
      requires Valid()
      ensures v == memory[..][addr]
    {
      v := memory[addr];
    }

    /** `write`. */
    method Write(addr: Address, value: u32)
      requires Valid()
      modifies memory
      ensures memory[..] == old(memory[..])[addr := value]
    {
      memory[addr] := value;
    }

    /** `set`: the builder form of `write`. */
    method Set(addr: Address, value: u32)
      requires Valid()
      modifies memory
      ensures memory[..] == old(memory[..])[addr := value]
    {
      Write(addr, value);
    }

    /** `program`: copy `words` into memory from `addr` on. The slice copy
        panics when the words do not fit below address 65,536; then `ok` is
        false and nothing changes. */
    method Program(words: seq<u32>, addr: Address) returns (ok: bool)
      requires Valid()
      modifies memory
      ensures ok <==> addr as int + |words| <= MEMORY_SIZE
      ensures ok ==> memory[..] == old(memory[..])[..addr] + words + old(memory[..])[addr as int + |words|..]
      ensures !ok ==> memory[..] == old(memory[..])
    {
      if addr as int + |words| > MEMORY_SIZE {
        return false;
      }
      var base := addr as int;
      for k := 0 to |words|
        invariant forall j :: 0 <= j < k ==> memory[base + j] == words[j]
        invariant forall j :: 0 <= j < MEMORY_SIZE && !(base <= j < base + k) ==> memory[j] == old(memory[j])
      {
        memory[base + k] := words[k];
      }
      assert memory[..] == old(memory[..])[..addr] + words + old(memory[..])[addr as int + |words|..];
      return true;
    }

    /** `breakpoint`: one more breakpoint address. */
    method Breakpoint(addr: Address)
      modifies this`breakpoints
      ensures breakpoints == old(breakpoints) + [addr]
    {
      breakpoints := breakpoints + [addr];
    }

    /** The `match` of `run`: execute one decoded instruction in place. */
    method Execute(inst: Instr)
      requires Valid()
      modifies memory
      ensures memory[..] == Apply(old(memory[..]), inst)
    {
      ghost var before := memory[..];
      match inst {
        case Add(lhs, rhs, out) =>
          Write(out, WrappingAdd(memory[lhs], memory[rhs]));
          assert memory[..] == Apply(before, inst);
        case Neg(input, out) =>
          Write(out, WrappingNeg(memory[input]));
          assert memory[..] == Apply(before, inst);
        case And(lhs, rhs, out) =>
          Write(out, WordAnd(memory[lhs], memory[rhs]));
          assert memory[..] == Apply(before, inst);
        case Or(lhs, rhs, out) =>
          Write(out, WordOr(memory[lhs], memory[rhs]));
          assert memory[..] == Apply(before, inst);
        case Xor(lhs, rhs, out) =>
          Write(out, WordXor(memory[lhs], memory[rhs]));
          assert memory[..] == Apply(before, inst);
        case ImmediateLoad(addr, imm) =>
          Write(addr, imm);
          assert memory[..] == Apply(before, inst);
        case Load(farFrom, to) =>
          Write(to, memory[farFrom]);
          assert memory[..] == Apply(before, inst);
        case Store(from, farTo) =>
          Write(farTo, memory[from]);
          assert memory[..] == Apply(before, inst);
        case LoadIfPos(cond, from, to) =>
          if Signed(memory[cond]) > 0 {
            Write(to, memory[from]);
          }
      }
    }

    /** The output check and the program-counter advance after an
        instruction fetched from `pc`. */
    method Housekeep(pc: Address)
      requires Valid()
      modifies memory, this`output
      ensures memory[..] == Finish(old(memory[..]), pc).0
      ensures output == old(output) + Finish(old(memory[..]), pc).1
    {
      if memory[WRITING] != 0 {
        output := output + [LowByte(memory[DATA])];
        Write(WRITING, 0);
      }
      if pc == Truncate16(memory[PC]) {
        Write(PC, pc + 1);
      }
    }

    /** The cycle shared by `Step` and `Resume`. */
    method RunCycle(pc: Address) returns (outcome: StepOutcome)
      requires Valid()
      modifies memory, this`output
      ensures var t := Cycle(old(memory[..]), pc);
        outcome == t.outcome && memory[..] == t.mem && output == old(output) + t.emitted
    {
      var word := memory[pc];
      var op := OpcodeOf(word);
      if op % 4 == 3 {
        return Unsupported(op);
      }
      var inst := Decode(word);
      if inst.None? {
        return BadOpcode(op);
      }
      Execute(inst.value);
      Housekeep(pc);
      return Executed;
    }

    /** One iteration of `run`: report a breakpoint at the fetch address
        without touching memory, otherwise execute one instruction. */
    method Step() returns (outcome: StepOutcome)
      requires Valid()
      modifies memory, this`output
      ensures var t := Next(old(memory[..]), breakpoints);
        outcome == t.outcome && memory[..] == t.mem && output == old(output) + t.emitted
    {
      var pc := Truncate16(memory[PC]);
      if pc in breakpoints {
        return HitBreakpoint(pc);
      }
      outcome := RunCycle(pc);
    }

    /** `continue` from the debugger: execute the instruction at the fetch
        address without checking breakpoints again. */
    method Resume() returns (outcome: StepOutcome)
      requires Valid()
      modifies memory, this`output
      ensures var t := Cycle(old(memory[..]), FetchAddress(old(memory[..])));
        outcome == t.outcome && memory[..] == t.mem && output == old(output) + t.emitted
    {
      var pc := Truncate16(memory[PC]);
      outcome := RunCycle(pc);
    }

    /** One iteration of `run`'s loop with a debugger that answers
        `continue`: announce a breakpoint at the fetch address, if there is
        one, then execute the instruction there. `hit` is the breakpoint
        announced. */
    method Iterate() returns (outcome: StepOutcome, hit: seq<Address>)
      requires Valid()
      modifies memory, this`output
      ensures var t := Cycle(old(memory[..]), FetchAddress(old(memory[..])));
        outcome == t.outcome && hit == Hit(old(memory[..]), breakpoints)
        && memory[..] == t.mem && output == old(output) + t.emitted
    {
      outcome := Step();
      hit := [];
      if outcome.HitBreakpoint? {
        hit := [outcome.at];
        outcome := Resume();
      }
    }
  }

  /** `main`'s setup: a fresh machine, PC = 0x8000, the program copied to
      0x8000, a breakpoint at 0x8000, then the assembler's breakpoints in
      order. `ok` is false when the copy does not fit in memory, where the
      source panics. */
  method Boot(program: seq<u32>, marked: seq<Address>) returns (m: Machine, ok: bool)
    ensures fresh(m) && m.Valid() && m.output == []
    ensures ok <==> |program| <= 0x8000
    ensures ok ==> Booted(m.memory[..], m.breakpoints, program, marked)
  {
    m := new Machine();
    m.Set(PC, 0x8000);
    ok := m.Program(program, 0x8000);
    if !ok {
      return;
    }
    m.Breakpoint(0x8000);
    for k := 0 to |marked|
      invariant m.Valid() && m.output == []
      invariant m.breakpoints == [0x8000] + marked[..k]
      invariant m.memory[..] == BootImage(program)
    {
      m.Breakpoint(marked[k]);
    }
  }
}
