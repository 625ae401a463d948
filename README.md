# rufus: a verified model of the VM and its assembler

rufus is a small virtual machine with a two-pass assembler, written in Rust.
This project models its core in Dafny and proves properties of that model.

The machine has 65,536 words of 32 bits each, and three cells are reserved:

- cell 0 is the program counter;
- cell 0xFFFE (`WRITING`) is an output strobe;
- cell 0xFFFF (`DATA`) holds the byte to print.

Each instruction is one word. The opcode is in the most significant byte, the
8-bit fields follow as single bytes, and a 16-bit field sits little-endian
inside the big-endian word. The assembler reads a text with one instruction
per line, optionally prefixed by `name:` labels and `~` breakpoint marks. It
returns the program words and the breakpoint addresses. `main` copies the
program to 0x8000, starts there, and stops first at a breakpoint on 0x8000.

Files, by module:

| file | module | models |
|---|---|---|
| `wrappers.dfy` | `Wrappers` | `Option` and `Result` |
| `codec.dfy` | `Codec` | `Opcodes`, the nine records with `to_bytes`/`from_bytes`, `Program` (src/main.rs) |
| `emulator.dfy` | `Emulator` | the `Machine` class, one iteration of `run`, bounded runs, `main`'s setup (src/main.rs) |
| `emulator_properties.dfy` | `EmulatorProperties` | what one step does and what a bounded run does |
| `text.dfy` | `Text` | the parts of Rust's `str` the assembler uses: `split`, `join`, `trim`, `from_str_radix` |
| `asm.dfy` | `Asm` | `operand`, `add_inst`, `assemble` (src/asm.rs) |
| `asm_properties.dfy` | `AsmProperties` | what the operand grammar, each mnemonic and the two passes compute |

Modelling decisions:

- **Word types.** `u8`, `u16` and `u32` are ranges of `int`. The memory is an `array<u32>`. AND, OR and XOR go through `bv32` inside `WordAnd`, `WordOr` and `WordXor`.
- **Overflow wraps.** ADD is `+` on `u32` and NEG negates an `i32`. Both wrap modulo 2^32, which is how a release build behaves. The PC advance `pc as u32 + 1` cannot overflow. In the assembler, `0x8000 + len as Address` wraps modulo 2^16 (`Asm.Here`).
- **Step outcomes.** A panic of the machine is a step outcome that changes nothing:
  - `Unsupported` for the `todo!` of an opcode whose low bits are `11`;
  - `BadOpcode` for the failing `Opcodes::from_u8(..).unwrap()`.
- **Debugger stops.** Entering the debugger is the outcome `HitBreakpoint`. `Machine.Resume` is the debugger's `continue`: it executes the instruction without checking the breakpoints again. `Machine.Iterate` is one loop iteration with a debugger that always continues.
- **Printing.** For each character `print!` sends to stdout, its code (the low byte of `DATA`, 0 to 255) is appended to the ghost field `Machine.output`. The UTF-8 encoding that stdout receives is not modelled.
- **Assembler errors.** Every panic of the assembler is an `Err(AsmError)`:
  - `unwrap` of a bad number, a missing operand token or an unknown symbol;
  - `chars().next().unwrap()` of an empty operand;
  - `Unknown opcode`.

  Pass 1 runs first, so when both passes would fail, pass 1's error is the one reported.
- **Tokens and `trim`.** Tokens are cut at each single space, as `split(' ')` does. Two spaces in a row make an empty token, and a tab does not separate tokens. `trim` removes the full Unicode `White_Space` set, as `str::trim` does. Both follow the code.
- **Line preparation.** Both passes strip the label and the `~` mark in the same way. That preparation is one function, `Asm.Prepare`.

## Model

| member | source | states |
|---|---|---|
| Codec.FromU8 | src/main.rs:16-27 | the result is the opcode with that discriminant, and there is one exactly when some opcode has it |
| Codec.FromBeBytes | src/main.rs:41-59 | big-endian packing of four bytes is inverse to `to_be_bytes` |
| Codec.FromLeBytes | src/main.rs:176-195 | little-endian packing of two bytes is inverse to `to_le_bytes` |
| Codec.Fields | src/main.rs:41-274 | the bytes of a record are four, led by the record's own opcode |
| Codec.ToBytes | src/main.rs:41-274 | the word's big-endian bytes are the record's opcode and fields in declaration order |
| Codec.OpcodeOf | src/main.rs:337-339 | the opcode is the word's first big-endian byte |
| Codec.Decode | src/main.rs:349-400 | decoding succeeds exactly when the leading byte is one of the nine opcodes, and returns a record of that opcode |
| Codec.RoundTrip | src/main.rs:41-274 | for every record, `from_bytes` of its kind gives back the record from `to_bytes`, and so does the machine's dispatch |
| Codec.FromBytesChecksOpcode | src/main.rs:51-59 | `from_bytes` of a kind succeeds exactly when the word's top byte is that kind's opcode, otherwise it is the format-violation error naming both |
| Codec.EncodeAfterDecode | src/main.rs:150-168 | re-encoding a decoded word gives the word back, except that NEG zeroes its unused low byte |
| Codec.WideFieldPlacement | src/main.rs:176-247 | LI's `imm` and S's `to` are little-endian in bytes 2-3, and L's `from` is little-endian in bytes 1-2 |
| Codec.NegPadding | src/main.rs:150-168 | NEG writes 0 into its last byte, and decoding ignores whatever that byte holds |
| Codec.NoOpcodeIsVariableLength | src/main.rs:341-343 | no opcode has the variable-length pattern `11` in its low bits |
| Codec.Program.Push | src/main.rs:492-496 | pushing appends one word that decodes back to the pushed record and keeps the earlier words |
| Codec.BuildDecodes | src/main.rs:483-501 | pushing records one by one gives one `to_bytes` word per record, in order, each decoding back to its record |
| Emulator.Signed | src/main.rs:401 | the two's complement reading is in the `i32` range and congruent to the word modulo 2^32 |
| Emulator.Hit | src/main.rs:333-336 | an iteration announces the fetch address exactly when it is a breakpoint, and nothing otherwise |
| Emulator.BootImage | src/main.rs:512-515 | the boot memory holds PC = 0x8000 and the program at 0x8000, with every other cell zero |
| Emulator.Machine.constructor | src/main.rs:467-473 | a default machine has all memory zero, no breakpoints and no output |
| Emulator.Machine.Read | src/main.rs:283-285 | reading returns the cell's content |
| Emulator.Machine.Write | src/main.rs:287-289 | writing replaces exactly the addressed cell |
| Emulator.Machine.Set | src/main.rs:321-325 | `set` replaces exactly the addressed cell |
| Emulator.Machine.Program | src/main.rs:309-313 | the words replace the cells from `addr` on and nothing else, when they fit in memory; otherwise nothing changes and `ok` is false |
| Emulator.Machine.Breakpoint | src/main.rs:315-319 | the address is appended to the breakpoints |
| Emulator.Machine.Execute | src/main.rs:349-405 | the in-place `match` leaves the memory `Apply` describes |
| Emulator.Machine.Housekeep | src/main.rs:407-415 | the output check and the PC advance leave the memory and the output `Finish` describes |
| Emulator.Machine.RunCycle | src/main.rs:337-415 | fetch, decode, execute and housekeeping agree with `Cycle`: outcome, memory and printed characters |
| Emulator.Machine.Step | src/main.rs:330-415 | one iteration of `run` agrees with `Next`: a breakpoint stop before the fetch, or one cycle |
| Emulator.Machine.Resume | src/main.rs:337-415 | `continue` runs the cycle at the fetch address without looking at the breakpoints |
| Emulator.Machine.Iterate | src/main.rs:330-415 | an iteration with a debugger that continues announces the breakpoint, if any, and then runs the cycle |
| Emulator.Boot | src/main.rs:512-520 | `main`'s setup gives the boot image with the breakpoints 0x8000 and then the assembler's, in order, and fails only when the program does not fit |
| EmulatorProperties.OnlyDestinationChanges | src/main.rs:350-404 | an instruction writes no cell but its own destination |
| EmulatorProperties.AddSemantics | src/main.rs:350-356 | ADD stores the sum wrapped modulo 2^32, which is the signed sum whenever that fits in `i32` |
| EmulatorProperties.NegSemantics | src/main.rs:357-365 | NEG stores the additive inverse modulo 2^32, which is the signed negation except that i32::MIN stays i32::MIN |
| EmulatorProperties.MoveSemantics | src/main.rs:387-398 | L copies the far cell to the zero-page cell, S copies back, and LI stores the zero-extended immediate |
| EmulatorProperties.LoadIfPosSemantics | src/main.rs:399-404 | LP copies `from` to `to` exactly when `cond`, read as `i32`, is positive, and changes nothing otherwise |
| EmulatorProperties.XorSelfClears | src/main.rs:380-386 | XOR of a cell with itself stores 0 |
| EmulatorProperties.FinishSemantics | src/main.rs:407-415 | a set strobe prints the low byte of DATA once and clears WRITING, PC advances exactly when its low 16 bits still equal the fetch address, and nothing else changes |
| EmulatorProperties.ExecutedStep | src/main.rs:330-415 | a step executes exactly when there is no breakpoint, the opcode is not variable-length and it decodes; the new state is then the instruction followed by housekeeping |
| EmulatorProperties.SequentialStep | src/main.rs:413-415 | an instruction that does not write PC moves it to the next word |
| EmulatorProperties.JumpStep | src/main.rs:413-415 | a value written into PC stands unless its low 16 bits are the fetch address |
| EmulatorProperties.ImmediateJump | src/main.rs:387-415 | `LI 0 target` jumps to `target`, except that a jump to itself advances |
| EmulatorProperties.StrobeOutput | src/main.rs:395-411 | storing a non-zero value into WRITING prints the low byte of DATA and clears the strobe in the same step |
| EmulatorProperties.WritingClearAfterStep | src/main.rs:407-411 | after an executed step WRITING is 0, and a character was printed exactly when the instruction left it set |
| EmulatorProperties.ResumeIgnoresBreakpoints | src/main.rs:333-336 | resuming is a step without breakpoints, and breakpoints elsewhere do not change a step |
| EmulatorProperties.StepOutcomes | src/main.rs:331-349 | each outcome with its exact condition; a step that does not execute changes no memory and prints nothing |
| EmulatorProperties.BreakpointsOnlyAnnounce | src/main.rs:330-416 | with a debugger that continues, breakpoints add announcements but do not change the memory, the output or how a bounded run stops |
| EmulatorProperties.RunForBounds | src/main.rs:330-416 | a bounded run prints at most one character and announces at most one breakpoint per iteration, and ends early only on `Unsupported` or `BadOpcode` |
| EmulatorProperties.BootStopsAtEntry | src/main.rs:512-520 | after `main`'s setup the first fetch is at 0x8000 and stops at its breakpoint without effect; continuing then runs the program's first word |
| Text.Split | src/asm.rs:29 | `split(' ')` yields at least one piece, and no piece contains the separator |
| Text.JoinSplit | src/asm.rs:102-108 | joining the pieces of a split with the separator gives back the string |
| Text.SplitJoin | src/asm.rs:102-108 | splitting a join of separator-free pieces gives back the pieces |
| Text.SplitFirst | src/asm.rs:95-96 | the first piece is everything before the first separator, and the rest joins back to everything after it |
| Text.TrimStart | src/asm.rs:93 | the result is a suffix, all of the removed characters are whitespace, and it does not start with whitespace |
| Text.TrimEnd | src/asm.rs:93 | the result is a prefix, all of the removed characters are whitespace, and it does not end with whitespace |
| Text.TrimSlice | src/asm.rs:93 | `trim` is the slice between the whitespace prefix and the whitespace suffix |
| Text.TrimIdempotent | src/asm.rs:93 | trimming twice is trimming once |
| Text.TrimBlank | src/asm.rs:93 | a whitespace-only string trims to empty |
| Text.DigitsValid | src/asm.rs:16 | a digit string has a value exactly when every character is a digit of the radix |
| Text.ParseRender | src/asm.rs:15-20 | parsing the digits of `n` gives `n` back when it fits in `u64`, and is an error otherwise |
| Text.ParsePlus | src/asm.rs:16 | `from_str_radix` accepts one leading `+`, rejecting it alone or doubled |
| Asm.KindOf | src/asm.rs:32-74 | a mnemonic names the opcode whose mnemonic it is, and an unlisted one names none |
| Asm.ParseInst | src/asm.rs:29-32 | a record is built only under its own mnemonic, the first space-separated token |
| Asm.AddInst | src/asm.rs:28-76 | `add_inst` succeeds exactly when the line parses, and then pushes the parsed record onto the program |
| Asm.PrepareLine | src/asm.rs:93-116 | the step-by-step rewriting of a line yields its label, its breakpoint mark and its body as `Prepare` defines them |
| Asm.Pass1Fails | src/asm.rs:83-122 | once pass 1 has failed on a prefix of the lines, the later lines do not change the error |
| Asm.Pass2Fails | src/asm.rs:124-154 | once pass 2 has failed on a prefix of the lines, the later lines do not change the error |
| Asm.AssembleSource | src/asm.rs:78-157 | the two imperative folds compute `Assemble` |
| AsmProperties.OperandHex | src/asm.rs:15-16 | `0x` and the hex digits of `n` give `n`, or an error when `n` does not fit in `u64` |
| AsmProperties.OperandDecimal | src/asm.rs:19-20 | the decimal digits of `n` give `n`, or an error when `n` does not fit in `u64` |
| AsmProperties.OperandIndirect | src/asm.rs:17-18 | a leading `:` is dropped and the rest is read as an operand |
| AsmProperties.OperandSymbol | src/asm.rs:21-25 | a name is 0 without a table; with a table it is the recorded address, and an absent name is an error |
| AsmProperties.OperandPasses | src/asm.rs:14-26 | pass 1 rejects every operand a table cannot rescue, and a table adds only unknown-symbol errors |
| AsmProperties.OperandsRead | src/asm.rs:31 | operands are read from tokens 1..n and succeed exactly when those tokens exist and parse, giving their values in order |
| AsmProperties.ParseInstFields | src/asm.rs:28-76 | a line parses exactly when its mnemonic is known and its operand tokens exist and parse; field k is then operand k+1 truncated to the field's width |
| AsmProperties.RecordFields | src/asm.rs:33-73 | the record's fields are the operand values cast to their field widths (mod 256 or mod 65536) |
| AsmProperties.UnknownMnemonic | src/asm.rs:74 | the "Unknown opcode" error happens exactly when the first token is none of the nine mnemonics |
| AsmProperties.EmptyBodyFails | src/asm.rs:74 | an empty line body is an unknown opcode |
| AsmProperties.ParseListing | src/asm.rs:28-76 | writing any record as its mnemonic and its fields in decimal assembles back to that record |
| AsmProperties.PrepareBlank | src/asm.rs:90-93 | a whitespace-only line is not skipped and leaves an empty body |
| AsmProperties.PrepareLabelOnly | src/asm.rs:95-109 | a line holding only `name:` defines `name` and leaves an empty body |
| AsmProperties.PrepareMarkOnly | src/asm.rs:111-116 | a line holding only `~` is marked and leaves an empty body |
| AsmProperties.Statements | src/asm.rs:90-92 | no statement is an empty line, and there are no more statements than lines |
| AsmProperties.StatementsAppend | src/asm.rs:90-92 | the statements of two blocks of lines are those of the first block followed by those of the second, a single line being kept exactly when it is not empty; so only empty lines are dropped and the order is kept |
| AsmProperties.StatementsDropEmpty | src/asm.rs:90-92 | the statements are the lines less every exactly empty one, counted with multiplicity |
| AsmProperties.LabelsSnoc | src/asm.rs:95-101 | inserting a label keeps the table equal to the labels defined so far, each at its last definition, so a duplicate overwrites |
| AsmProperties.Pass1Spec | src/asm.rs:83-122 | pass 1 succeeds exactly when every statement assembles with symbols as 0; it then emits one word per statement, lists the `~` addresses in order, and maps each label to its last definition's address |
| AsmProperties.Pass2Spec | src/asm.rs:124-154 | pass 2 succeeds exactly when every statement assembles against the table, and emits each statement's `to_bytes` in order |
| AsmProperties.AssembleSpec | src/asm.rs:78-157 | `assemble` succeeds exactly when every statement assembles both without and with the complete label table; it then returns pass 2's words and pass 1's breakpoints |
| AsmProperties.AssembleListings | src/asm.rs:78-157 | a source listing records line by line assembles to the words of pushing those records by hand |
| AsmProperties.PassesAgree | src/asm.rs:118 | both passes emit one word per statement, so the pass-1 count is the output length |
| AsmProperties.EmptyBodyRejects | src/asm.rs:90-118 | a label-only, `~`-only or whitespace-only statement makes the whole assembly fail |
| AsmProperties.ParseInstPasses | src/asm.rs:150 | a line that pass 1 accepts can fail in pass 2 only on an unknown symbol |
| AsmProperties.LabelReference | src/asm.rs:124-154 | `LI r name` assembles with the address of `name`'s last definition, even when that definition comes later (a forward reference) |
| AsmProperties.LiLine | src/asm.rs:65-68 | `LI r name` against a table needs `name` in it, and loads its address into `r` |

## Left out

- The interactive debugger `Machine::debug` (src/main.rs:426-464) reads commands from stdin and prints memory. Only its effect on a run is modelled: a `HitBreakpoint` outcome, then `Resume` (`continue`). Its `exit` panic and its memory dump are not modelled.
- Throughput accounting (src/main.rs:417-422) uses a wall clock and an `f64` print. It has no effect on the machine's state.
- `main` (src/main.rs:503-522) reads a path from stdin and the file from disk, and decodes the file as UTF-8. Only its setup convention is modelled, as `Boot`, `BootImage` and `Booted`.
- `print!` and `flush` become appends to the ghost `output`. `output` holds the code of each printed character. A code of 0x80 or more reaches stdout as two UTF-8 bytes in the source, and the model keeps the single code.
- The unbounded `loop` of `run` is not modelled as a method. The machine has `Step`, `Resume` and `Iterate`. A run is the function `RunFor`, bounded by a number of iterations, so non-termination is not modelled.
- Variable-length decoding (src/main.rs:341-346) is only the `Unsupported` outcome, since it is `todo!()`.
- `read_n` is only used with length 1, as the fetch `memory[pc]`. `write_n` (src/main.rs:295-297) is never called and is not modelled. `Program` models the slice copy that `program` (src/main.rs:309-313) does itself. `read_bytes` and `write_bytes` are generic helpers that the core never calls, so they are not modelled.
- Emulator.Hit: announces the 16-bit fetch address, like `HitBreakpoint(at)`. The debugger's message prints the full 32-bit PC word (src/main.rs:427), so the two differ when PC is 0x10000 or more, e.g. after executing at 0xFFFF. The message text is not modelled.
- Debug builds panic on ADD overflow and on negating i32::MIN. The model wraps instead, as release builds do.
- EmulatorProperties: AND, OR and XOR results are stated only as the bitwise operation on the operands, plus `XorSelfClears`. Further algebraic facts about bit operations are not proved.
- `Push` covers one-word records only. `Inst<N>` with N > 1 does not occur in the source.
- Machine panics on a variable-length or unknown opcode end `run` in the source. In the model they are outcomes that change nothing, and the caller stops.
- Assembler panics carry a message in the source. The model keeps only which kind of error occurred and the offending text, not the message.
- `u16` wrap-around of `0x8000 + len` past 32,767 words follows the release build. Debug builds panic there instead.
- `memory: [u32; 65536]` is an `array<u32>` of integer ranges, not an array of `bv32`.
