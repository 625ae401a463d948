/** The two-pass assembler of `src/asm.rs`: `operand`, `add_inst` and the
    two folds of `assemble`. Every `unwrap` or `panic!` of the Rust code is
    an `Err` here. */
module Asm {
  import opened Wrappers
  import opened Codec
  import opened Text

  /** The pass-1 symbol table: label name to address. */
  type Symbols = map<string, Address>

  /** Why assembling stopped (each is a panic in the Rust program). */
  datatype AsmError =
    | EmptyOperand                              // `chars().next().unwrap()` on ""
    | BadNumber(digits: string)                 // `from_str_radix`/`parse` failed
    | UnknownSymbol(name: string)               // `symbols.get(word).unwrap()`
    | MissingOperand(mnemonic: string, position: nat)  // `nth(i).unwrap()`
    | UnknownOpcode(mnemonic: string)           // `panic!("Unknown opcode")`

  /** `operand`: `0x` and hex digits, `:` and an operand, a decimal
      literal, or a symbol; without a table every symbol is 0. */
  function Operand(word: string, symbols: Option<Symbols>): (r: Result<u64, AsmError>)
    decreases |word|
  {
    if |word| >= 2 && word[0] == '0' && word[1] == 'x' then
      match FromStrRadix(word[2..], 16)
      case Some(v) => Ok(v)
      case None => Err(BadNumber(word[2..]))
    else if word != [] && word[0] == ':' then Operand(word[1..], symbols)
    else if word == [] then Err(EmptyOperand)
    else if '0' <= word[0] <= '9' then
      match FromStrRadix(word, 10)
      case Some(v) => Ok(v)
      case None => Err(BadNumber(word))
    else
      match symbols
      case None => Ok(0)
      case Some(table) => if word in table then Ok(table[word]) else Err(UnknownSymbol(word))
  }

  /** The closure `operand(i)` of `add_inst`: token `i` of the line. */
  function Arg(words: seq<string>, i: nat, symbols: Option<Symbols>): Result<u64, AsmError>
    requires |words| >= 1
  {
    if i < |words| then Operand(words[i], symbols) else Err(MissingOperand(words[0], i))
  }

  /** `as u8` and `as u16`: keep the low 8 or 16 bits of a `u64`. */
  function AsU8(v: u64): u8 { v % 0x100 }
  function AsU16(v: u64): u16 { v % 0x1_0000 }

  /** The mnemonic `add_inst` accepts for each instruction kind. */
  function Mnemonic(op: Opcode): string
  {
    match op
    case ZeroPageAdd => "ADD"
    case ZeroPageNeg => "NEG"
    case ZeroPageAnd => "AND"
    case ZeroPageOr => "OR"
    case ZeroPageXor => "XOR"
    case ZeroPageLoad => "L"
    case ZeroPageStore => "S"
    case ZeroPageImmediateLoad => "LI"
    case ZeroPageLoadIfPos => "LP"
  }

  /** The arm of `add_inst`'s `match` a mnemonic selects, if any. */
  function KindOf(m: string): (r: Option<Opcode>)
    ensures r.Some? ==> Mnemonic(r.value) == m
    ensures forall op :: Mnemonic(op) == m ==> r == Some(op)
  {
    if m == "ADD" then Some(ZeroPageAdd)
    else if m == "NEG" then Some(ZeroPageNeg)
    else if m == "AND" then Some(ZeroPageAnd)
    else if m == "OR" then Some(ZeroPageOr)
    else if m == "XOR" then Some(ZeroPageXor)
    else if m == "L" then Some(ZeroPageLoad)
    else if m == "S" then Some(ZeroPageStore)
    else if m == "LI" then Some(ZeroPageImmediateLoad)
    else if m == "LP" then Some(ZeroPageLoadIfPos)
    else None
  }

  /** How many operand tokens each arm reads. */
  function Arity(op: Opcode): nat
  {
    match op
    case ZeroPageNeg | ZeroPageLoad | ZeroPageStore | ZeroPageImmediateLoad => 2
    case _ => 3
  }

  /** Operand tokens `1..n`, evaluated in order; the first failure wins. */
  function Operands(words: seq<string>, n: nat, symbols: Option<Symbols>): (r: Result<seq<u64>, AsmError>)
    requires |words| >= 1
    ensures r.Ok? ==> |r.value| == n
    decreases n
  {
    if n == 0 then Ok([])
    else
      var init :- Operands(words, n - 1, symbols);
      var v :- Arg(words, n, symbols);
      Ok(init + [v])
  }

  /** The record of kind `op` with operand values `vs`, each cast to the
      width of its field (`as u8` or `as u16`). */
  function Record(op: Opcode, vs: seq<u64>): (i: Instr)
    requires |vs| == Arity(op)
    ensures i.Kind() == op
  {
    match op
    case ZeroPageAdd => Add(AsU8(vs[0]), AsU8(vs[1]), AsU8(vs[2]))
    case ZeroPageNeg => Neg(AsU8(vs[0]), AsU8(vs[1]))
    case ZeroPageAnd => And(AsU8(vs[0]), AsU8(vs[1]), AsU8(vs[2]))
    case ZeroPageOr => Or(AsU8(vs[0]), AsU8(vs[1]), AsU8(vs[2]))
    case ZeroPageXor => Xor(AsU8(vs[0]), AsU8(vs[1]), AsU8(vs[2]))
    case ZeroPageLoad => Load(AsU16(vs[0]), AsU8(vs[1]))
    case ZeroPageStore => Store(AsU8(vs[0]), AsU16(vs[1]))
    case ZeroPageImmediateLoad => ImmediateLoad(AsU8(vs[0]), AsU16(vs[1]))
    case ZeroPageLoadIfPos => LoadIfPos(AsU8(vs[0]), AsU8(vs[1]), AsU8(vs[2]))
  }

  /** The record `add_inst` builds from one line (before pushing it): the
      first space-separated token picks the arm, which reads its operand
      tokens in field order. */
  function ParseInst(line: string, symbols: Option<Symbols>): (r: Result<Instr, AsmError>)
    ensures r.Ok? ==> Mnemonic(r.value.Kind()) == Split(line, ' ')[0]
  {
    var words := Split(line, ' ');
    match KindOf(words[0])
    case None => Err(UnknownOpcode(words[0]))
    case Some(op) =>
      var vs :- Operands(words, Arity(op), symbols);
      Ok(Record(op, vs))
  }

  /** `add_inst`: push the line's record onto the program. */
  function AddInst(line: string, program: Program, symbols: Option<Symbols>): (r: Result<Program, AsmError>)
    ensures r.Ok? <==> ParseInst(line, symbols).Ok?
    ensures r.Ok? ==> r.value == program.Push(ParseInst(line, symbols).value)
  {
    var i :- ParseInst(line, symbols);
    Ok(program.Push(i))
  }

  /** A non-empty line after the shared preprocessing of both passes: an
      optional leading `name:` token, an optional `~`, and the rest. */
  datatype Prepared = Prepared(labelName: Option<string>, breakpoint: bool, body: string)

  /** The line rewriting both folds of `assemble` do before `add_inst`. */
  function Prepare(line: string): Prepared
  {
    var trimmed := Trim(line);
    var first := Split(trimmed, ' ')[0];
    var labelled := first != [] && first[|first| - 1] == ':';
    var rest := if labelled then Trim(Join(Split(trimmed, ' ')[1..], ' ')) else trimmed;
    var marked := rest != [] && rest[0] == '~';
    Prepared(if labelled then Some(first[..|first| - 1]) else None, marked,
             if marked then Trim(rest[1..]) else rest)
  }

  /** `0x8000 + len as Address`, wrapping in 16 bits. */
  function Here(count: nat): Address
  {
    (0x8000 + count) % 0x1_0000
  }

  /** `ParseState`: the accumulator of the folds. */
  datatype ParseState = ParseState(symbols: Symbols, program: Program, breakpoints: seq<Address>)

  /** The empty accumulator both folds start from. */
  function Start(symbols: Symbols): ParseState
  {
    ParseState(symbols, Program([]), [])
  }

  /** One line of the first fold. */
  function Pass1Line(st: ParseState, line: string): Result<ParseState, AsmError>
  {
    if line == [] then Ok(st)
    else
      var p := Prepare(line);
      var here := Here(|st.program.words|);
      var symbols := if p.labelName.Some? then st.symbols[p.labelName.value := here] else st.symbols;
      var breakpoints := if p.breakpoint then st.breakpoints + [here] else st.breakpoints;
      var program :- AddInst(p.body, st.program, None);
      Ok(ParseState(symbols, program, breakpoints))
  }

  /** The first fold, over the lines in order. */
  function Pass1(lines: seq<string>): Result<ParseState, AsmError>
    decreases |lines|
  {
    if lines == [] then Ok(Start(map[]))
    else
      var st :- Pass1(lines[..|lines| - 1]);
      Pass1Line(st, lines[|lines| - 1])
  }

  /** One line of the second fold: identifiers resolve against `symbols`. */
  function Pass2Line(program: Program, symbols: Symbols, line: string): Result<Program, AsmError>
  {
    if line == [] then Ok(program) else AddInst(Prepare(line).body, program, Some(symbols))
  }

  /** The second fold, over the same lines. */
  function Pass2(lines: seq<string>, symbols: Symbols): Result<Program, AsmError>
    decreases |lines|
  {
    if lines == [] then Ok(Program([]))
    else
      var program :- Pass2(lines[..|lines| - 1], symbols);
      Pass2Line(program, symbols, lines[|lines| - 1])
  }

  /** What `assemble` returns: the program and the pass-1 breakpoints. */
  datatype Assembled = Assembled(program: Program, breakpoints: seq<Address>)

  /** `assemble`: two folds over the `\n`-separated lines; an error in
      pass 1 stops before pass 2 starts. */
  function Assemble(src: string): Result<Assembled, AsmError>
  {
    var lines := Split(src, '\n');
    var st :- Pass1(lines);
    var program :- Pass2(lines, st.symbols);
    Ok(Assembled(program, st.breakpoints))
  }

  /** The preprocessing of one line, rewriting it step by step. */
  method PrepareLine(line: string) returns (name: Option<string>, marked: bool, body: string)
    ensures Prepared(name, marked, body) == Prepare(line)
  {
    body := Trim(line);
    name := None;
    var first := Split(body, ' ')[0];
    if first != [] && first[|first| - 1] == ':' {
      name := Some(first[..|first| - 1]);
      body := Trim(Join(Split(body, ' ')[1..], ' '));
    }
    marked := body != [] && body[0] == '~';
    if marked {
      body := Trim(body[1..]);
    }
  }

  /** Once a fold has failed on a prefix, the whole fold fails the same way. */
  lemma {:induction false} Pass1Fails(lines: seq<string>, i: nat)
    requires i <= |lines| && Pass1(lines[..i]).Err?
    ensures Pass1(lines) == Pass1(lines[..i])
    decreases |lines| - i
  {
    if i < |lines| {
      assert lines[..i + 1][..i] == lines[..i];
      Pass1Fails(lines, i + 1);
    } else {
      assert lines[..i] == lines;
    }
  }

  lemma {:induction false} Pass2Fails(lines: seq<string>, symbols: Symbols, i: nat)
    requires i <= |lines| && Pass2(lines[..i], symbols).Err?
    ensures Pass2(lines, symbols) == Pass2(lines[..i], symbols)
    decreases |lines| - i
  {
    if i < |lines| {
      assert lines[..i + 1][..i] == lines[..i];
      Pass2Fails(lines, symbols, i + 1);
    } else {
      assert lines[..i] == lines;
    }
  }

  /** Extending the lines by one runs one more step of each fold. */
  lemma PassesSnoc(lines: seq<string>, symbols: Symbols, i: nat)
    requires i < |lines|
    ensures Pass1(lines[..i + 1]) ==
      if Pass1(lines[..i]).Err? then Pass1(lines[..i]) else Pass1Line(Pass1(lines[..i]).value, lines[i])
    ensures Pass2(lines[..i + 1], symbols) ==
      if Pass2(lines[..i], symbols).Err? then Pass2(lines[..i], symbols)
      else Pass2Line(Pass2(lines[..i], symbols).value, symbols, lines[i])
  {
    assert lines[..i + 1][..i] == lines[..i];
  }

  /** `assemble`, with the two folds as loops over the lines that update
      the accumulator in place. */
  method AssembleSource(src: string) returns (r: Result<Assembled, AsmError>)
    ensures r == Assemble(src)
  {
    var lines := Split(src, '\n');
    var symbols: Symbols := map[];
    var program := Program([]);
    var breakpoints: seq<Address> := [];
    var i := 0;
    while i < |lines|
      invariant 0 <= i <= |lines|
      invariant Pass1(lines[..i]) == Ok(ParseState(symbols, program, breakpoints))
    {
      var line := lines[i];
      PassesSnoc(lines, map[], i);
      var next: Result<ParseState, AsmError> := Ok(ParseState(symbols, program, breakpoints));
      if line != [] {
        var name, marked, body := PrepareLine(line);
        var here := Here(|program.words|);
        var symbols' := symbols;
        if name.Some? {
          symbols' := symbols'[name.value := here];
        }
        var breakpoints' := breakpoints;
        if marked {
          breakpoints' := breakpoints' + [here];
        }
        var added := AddInst(body, program, None);
        next := if added.Err? then Err(added.error) else Ok(ParseState(symbols', added.value, breakpoints'));
      }
      assert next == Pass1Line(ParseState(symbols, program, breakpoints), line);
      if next.Err? {
        Pass1Fails(lines, i + 1);
        return Err(next.error);
      }
      symbols, program, breakpoints := next.value.symbols, next.value.program, next.value.breakpoints;
      i := i + 1;
    }
    assert lines[..i] == lines;

    var output := Program([]);
    i := 0;
    while i < |lines|
      invariant 0 <= i <= |lines|
      invariant Pass2(lines[..i], symbols) == Ok(output)
    {
      var line := lines[i];
      PassesSnoc(lines, symbols, i);
      var next: Result<Program, AsmError> := Ok(output);
      if line != [] {
        var name, marked, body := PrepareLine(line);
        next := AddInst(body, output, Some(symbols));
      }
      assert next == Pass2Line(output, symbols, line);
      if next.Err? {
        Pass2Fails(lines, symbols, i + 1);
        return Err(next.error);
      }
      output := next.value;
      i := i + 1;
    }
    assert lines[..i] == lines;
    r := Ok(Assembled(output, breakpoints));
  }
}
