/** What the assembler guarantees: the operand grammar, the fields each
    mnemonic reads, and what the two folds compute line by line. */
module AsmProperties {
  import opened Wrappers
  import opened Codec
  import opened Text
  import opened Asm

  // ---------------------------------------------------------------------
  // Operands
  // ---------------------------------------------------------------------

  /** `0x` followed by the hex digits of `n` is `n`, or an error when `n`
      does not fit in a `u64`. */
  lemma OperandHex(n: nat, symbols: Option<Symbols>)
    ensures Operand("0x" + Render(n, 16), symbols) ==
      if n < U64_LIMIT then Ok(n) else Err(BadNumber(Render(n, 16)))
  {
    var w := "0x" + Render(n, 16);
    assert w[0] == '0' && w[1] == 'x' && w[2..] == Render(n, 16);
    ParseRender(n, 16);
  }

  /** The decimal digits of `n` are `n`, or an error when `n` does not fit
      in a `u64`. */
  lemma OperandDecimal(n: nat, symbols: Option<Symbols>)
    ensures Operand(Render(n, 10), symbols) ==
      if n < U64_LIMIT then Ok(n) else Err(BadNumber(Render(n, 10)))
  {
    var w := Render(n, 10);
    RenderValue(n, 10);
    DigitsValid(w, 10);
    ParseRender(n, 10);
    assert Digit(w[0], 10).Some?;
    if |w| >= 2 {
      assert Digit(w[1], 10).Some?;
    }
  }

  /** A leading `:` is skipped. */
  lemma OperandIndirect(word: string, symbols: Option<Symbols>)
    ensures Operand(":" + word, symbols) == Operand(word, symbols)
  {
    assert (":" + word)[1..] == word;
    assert (":" + word)[0] == ':';
  }

  /** A token that is not a number resolves to 0 without a table, and to
      its recorded address, or an error, with one. */
  lemma OperandSymbol(name: string, table: Symbols)
    requires name != [] && !('0' <= name[0] <= '9') && name[0] != ':'
    ensures Operand(name, None) == Ok(0)
    ensures Operand(name, Some(table)) == if name in table then Ok(table[name]) else Err(UnknownSymbol(name))
  {
  }

  /** Pass 2 fails on an operand where pass 1 does (with the same error),
      and otherwise only on an unknown symbol. */
  lemma {:induction false} OperandPasses(word: string, table: Symbols)
    ensures Operand(word, None).Err? ==> Operand(word, Some(table)) == Operand(word, None)
    ensures Operand(word, None).Ok? && Operand(word, Some(table)).Err? ==>
      Operand(word, Some(table)).error.UnknownSymbol?
    decreases |word|
  {
    if !(|word| >= 2 && word[0] == '0' && word[1] == 'x') && word != [] && word[0] == ':' {
      OperandPasses(word[1..], table);
    }
  }

  // ---------------------------------------------------------------------
  // One instruction line
  // ---------------------------------------------------------------------

  /** The record's fields in the order the assembler reads them. */
  function FieldValues(i: Instr): seq<int>
  {
    match i
    case Add(lhs, rhs, out) => [lhs, rhs, out]
    case Neg(input, out) => [input, out]
    case And(lhs, rhs, out) => [lhs, rhs, out]
    case Or(lhs, rhs, out) => [lhs, rhs, out]
    case Xor(lhs, rhs, out) => [lhs, rhs, out]
    case Load(farFrom, to) => [farFrom, to]
    case Store(from, farTo) => [from, farTo]
    case ImmediateLoad(addr, imm) => [addr, imm]
    case LoadIfPos(cond, from, to) => [cond, from, to]
  }

  /** The number of values field `k` of a record of kind `op` can hold. */
  function Width(op: Opcode, k: nat): nat
  {
    if (op == ZeroPageLoad && k == 0) || (op == ZeroPageStore && k == 1)
       || (op == ZeroPageImmediateLoad && k == 1)
    then 0x1_0000 else 0x100
  }

  /** Reading operands `1..n` succeeds when every one of those tokens exists
      and is a valid operand, and yields their values in order. */
  lemma {:induction false} OperandsRead(words: seq<string>, n: nat, symbols: Option<Symbols>)
    requires |words| >= 1
    ensures Operands(words, n, symbols).Ok? <==>
      n < |words| && forall k :: 1 <= k <= n ==> Operand(words[k], symbols).Ok?
    ensures Operands(words, n, symbols).Ok? ==>
      forall k :: 0 <= k < n ==> Operands(words, n, symbols).value[k] == Operand(words[k + 1], symbols).value
    decreases n
  {
    if n > 0 {
      OperandsRead(words, n - 1, symbols);
    }
  }

  /** A line assembles when its first token is one of the nine mnemonics
      and tokens `1..k` are present and valid operands; the record's fields
      are then those operands in order, each truncated to its width. */
  lemma ParseInstFields(line: string, symbols: Option<Symbols>)
    ensures var words, r := Split(line, ' '), ParseInst(line, symbols);
      r.Ok? <==>
        KindOf(words[0]).Some? && Arity(KindOf(words[0]).value) < |words|
        && forall k :: 1 <= k <= Arity(KindOf(words[0]).value) ==> Operand(words[k], symbols).Ok?
    ensures var words, r := Split(line, ' '), ParseInst(line, symbols);
      r.Ok? ==>
        |FieldValues(r.value)| == Arity(r.value.Kind())
        && forall k :: 0 <= k < Arity(r.value.Kind()) ==>
             FieldValues(r.value)[k] == Operand(words[k + 1], symbols).value % Width(r.value.Kind(), k)
  {
    var words := Split(line, ' ');
    if KindOf(words[0]).Some? {
      var op := KindOf(words[0]).value;
      var vs := Operands(words, Arity(op), symbols);
      OperandsRead(words, Arity(op), symbols);
      ParseInstArm(line, symbols, op);
      if vs.Ok? {
        RecordFields(op, vs.value);
      }
    }
  }

  /** The arm `ParseInst` takes for a known mnemonic. */
  lemma ParseInstArm(line: string, symbols: Option<Symbols>, op: Opcode)
    requires KindOf(Split(line, ' ')[0]) == Some(op)
    ensures var vs := Operands(Split(line, ' '), Arity(op), symbols);
      ParseInst(line, symbols) == if vs.Ok? then Ok(Record(op, vs.value)) else Err(vs.error)
  {
  }

  /** Field `k` of a built record is operand `k` cast to the field's width. */
  lemma RecordFields(op: Opcode, vs: seq<u64>)
    requires |vs| == Arity(op)
    ensures var fields := FieldValues(Record(op, vs));
      |fields| == |vs| && forall k :: 0 <= k < |vs| ==> fields[k] == vs[k] % Width(op, k)
  {
  }

  /** A first token that is not a mnemonic is exactly the case of an
      "Unknown opcode" error, whatever the operands. */
  lemma UnknownMnemonic(line: string, symbols: Option<Symbols>)
    ensures var m := Split(line, ' ')[0];
      ParseInst(line, symbols) == Err(UnknownOpcode(m)) <==> forall op :: Mnemonic(op) != m
  {
    var words := Split(line, ' ');
    if KindOf(words[0]).Some? {
      var op := KindOf(words[0]).value;
      ParseInstArm(line, symbols, op);
      OperandsNeverUnknownOpcode(words, Arity(op), symbols);
      assert Mnemonic(op) == words[0];
    }
  }

  /** Reading operands never reports an unknown opcode. */
  lemma {:induction false} OperandsNeverUnknownOpcode(words: seq<string>, n: nat, symbols: Option<Symbols>)
    requires |words| >= 1
    ensures Operands(words, n, symbols).Err? ==> !Operands(words, n, symbols).error.UnknownOpcode?
    decreases n
  {
    if n > 0 {
      OperandsNeverUnknownOpcode(words, n - 1, symbols);
      if n < |words| {
        OperandNeverUnknownOpcode(words[n], symbols);
      }
    }
  }

  lemma {:induction false} OperandNeverUnknownOpcode(word: string, symbols: Option<Symbols>)
    ensures Operand(word, symbols).Err? ==> !Operand(word, symbols).error.UnknownOpcode?
    decreases |word|
  {
    if !(|word| >= 2 && word[0] == '0' && word[1] == 'x') && word != [] && word[0] == ':' {
      OperandNeverUnknownOpcode(word[1..], symbols);
    }
  }

  /** An empty line body is an unknown (empty) mnemonic. */
  lemma EmptyBodyFails(symbols: Option<Symbols>)
    ensures ParseInst("", symbols) == Err(UnknownOpcode(""))
  {
    assert Split("", ' ') == [""];
    assert Mnemonic(ZeroPageAdd) != "";
  }

  /** A line listing a record: its mnemonic, then its fields in decimal. */
  function Listing(i: Instr): string
  {
    var fields := FieldValues(i);
    Join([Mnemonic(i.Kind())] + seq(|fields|, k requires 0 <= k < |fields| => Render(fields[k], 10)), ' ')
  }

  /** A rendered number contains no space. */
  lemma RenderHasNoSpace(n: nat)
    ensures ' ' !in Render(n, 10)
  {
    RenderValue(n, 10);
    var ds := Render(n, 10);
    DigitsValid(ds, 10);
    forall k | 0 <= k < |ds|
      ensures ds[k] != ' '
    {
      assert Digit(ds[k], 10).Some?;
    }
  }

  /** The tokens of a listing: the mnemonic, then each field in decimal. */
  lemma ListingTokens(i: Instr)
    ensures var words, fields := Split(Listing(i), ' '), FieldValues(i);
      |words| == 1 + |fields| && words[0] == Mnemonic(i.Kind())
      && forall k :: 0 <= k < |fields| ==> words[k + 1] == Render(fields[k], 10)
  {
    var fields := FieldValues(i);
    var rendered := seq(|fields|, k requires 0 <= k < |fields| => Render(fields[k], 10));
    var parts := [Mnemonic(i.Kind())] + rendered;
    forall k | 0 <= k < |parts|
      ensures ' ' !in parts[k]
    {
      if k > 0 {
        RenderHasNoSpace(fields[k - 1]);
      }
    }
    SplitJoin(parts, ' ');
  }

  /** Assembling the listing of a record gives the record back, with or
      without a symbol table. */
  lemma ParseListing(i: Instr, symbols: Option<Symbols>)
    ensures ParseInst(Listing(i), symbols) == Ok(i)
  {
    var fields, op := FieldValues(i), i.Kind();
    var words := Split(Listing(i), ' ');
    ListingTokens(i);
    assert KindOf(words[0]) == Some(op);
    ParseInstArm(Listing(i), symbols, op);
    FieldsFit(i);
    forall k | 0 <= k < |fields|
      ensures Operand(words[k + 1], symbols) == Ok(fields[k])
    {
      OperandDecimal(fields[k], symbols);
    }
    assert |words| == Arity(op) + 1;
    forall k | 1 <= k <= Arity(op)
      ensures Operand(words[k], symbols).Ok?
    {
      assert Operand(words[(k - 1) + 1], symbols) == Ok(fields[k - 1]);
    }
    OperandsRead(words, Arity(op), symbols);
    RebuildRecord(i, Operands(words, Arity(op), symbols).value);
  }

  /** Building a record of `i`'s kind from `i`'s own fields gives `i`. */
  lemma RebuildRecord(i: Instr, vs: seq<u64>)
    requires |vs| == Arity(i.Kind()) == |FieldValues(i)|
    requires forall k :: 0 <= k < |vs| ==> vs[k] == FieldValues(i)[k]
    ensures Record(i.Kind(), vs) == i
  {
    var op, fields := i.Kind(), FieldValues(i);
    FieldsFit(i);
    RecordFields(op, vs);
    var built := FieldValues(Record(op, vs));
    forall k | 0 <= k < |fields|
      ensures built[k] == fields[k]
    {
      ModSmall(fields[k], Width(op, k));
    }
    assert built == fields;
    FieldValuesDetermine(Record(op, vs), i);
  }

  lemma ModSmall(x: int, w: nat)
    requires 0 <= x < w
    ensures x % w == x
  {
  }

  /** Each field of a record is within its width. */
  lemma FieldsFit(i: Instr)
    ensures |FieldValues(i)| == Arity(i.Kind())
    ensures forall k :: 0 <= k < |FieldValues(i)| ==> 0 <= FieldValues(i)[k] < Width(i.Kind(), k)
  {
  }

  /** A record is determined by its kind and field values. */
  lemma FieldValuesDetermine(a: Instr, b: Instr)
    requires a.Kind() == b.Kind() && FieldValues(a) == FieldValues(b)
    ensures a == b
  {
  }

  // ---------------------------------------------------------------------
  // Line preprocessing
  // ---------------------------------------------------------------------

  /** A line of whitespace only (but not empty) leaves an empty body, so it
      is not skipped and fails as an unknown mnemonic. */
  lemma PrepareBlank(line: string)
    requires forall k :: 0 <= k < |line| ==> IsWhitespace(line[k])
    ensures Prepare(line) == Prepared(None, false, "")
  {
    TrimBlank(line);
    assert Split("", ' ') == [""];
  }

  /** A line holding only `name:` defines the label and leaves an empty
      body. */
  lemma PrepareLabelOnly(name: string)
    requires forall k :: 0 <= k < |name| ==> !IsWhitespace(name[k])
    ensures Prepare(name + ":") == Prepared(Some(name), false, "")
  {
    var line := name + ":";
    assert line[|line| - 1] == ':';
    assert name != [] ==> line[0] == name[0];
    TrimmedIsFixed(line);
    assert ' ' !in line by {
      assert IsWhitespace(' ');
      forall k | 0 <= k < |line|
        ensures line[k] != ' '
      {
        if k < |name| {
          assert line[k] == name[k];
        }
      }
    }
    SplitNoSeparator(line, ' ');
    PrepareLabelWord(line);
    assert line[..|line| - 1] == name;
  }

  /** A single trimmed word ending in `:` is a label with an empty body. */
  lemma PrepareLabelWord(line: string)
    requires Trim(line) == line && Split(line, ' ') == [line]
    requires line != [] && line[|line| - 1] == ':'
    ensures Prepare(line) == Prepared(Some(line[..|line| - 1]), false, "")
  {
    var trimmed := Trim(line);
    var parts := Split(trimmed, ' ');
    assert parts == [line];
    var first := parts[0];
    assert first == line;
    var rest := Trim(Join(parts[1..], ' '));
    assert rest == "" by {
      assert parts[1..] == [];
      TrimmedIsFixed("");
    }
    var p := Prepare(line);
    assert p.labelName == Some(first[..|first| - 1]);
    assert !p.breakpoint;
    assert p.body == rest;
  }

  /** A line holding only `~` marks a breakpoint and leaves an empty body. */
  lemma PrepareMarkOnly()
    ensures Prepare("~") == Prepared(None, true, "")
  {
    TrimmedIsFixed("~");
    SplitNoSeparator("~", ' ');
    assert "~"[1..] == "";
    assert Split("", ' ') == [""];
  }

  // ---------------------------------------------------------------------
  // The two folds
  // ---------------------------------------------------------------------

  /** The lines `assemble` does not skip (every line but the exactly empty
      ones), in order. */
  function Statements(lines: seq<string>): (ne: seq<string>)
    ensures |ne| <= |lines|
    ensures forall k :: 0 <= k < |ne| ==> ne[k] != []
    decreases |lines|
  {
    if lines == [] then []
    else
      var init, last := lines[..|lines| - 1], lines[|lines| - 1];
      Statements(init) + (if last == [] then [] else [last])
  }

  /** Every statement's body assembles against `symbols`. */
  ghost predicate AllParse(ne: seq<string>, symbols: Option<Symbols>)
  {
    forall k :: 0 <= k < |ne| ==> ParseInst(Prepare(ne[k]).body, symbols).Ok?
  }

  /** `words` holds, for each statement, its record's `to_bytes`. */
  ghost predicate EncodesAll(words: seq<u32>, ne: seq<string>, symbols: Option<Symbols>)
  {
    |words| == |ne|
    && forall k :: 0 <= k < |ne| ==>
         ParseInst(Prepare(ne[k]).body, symbols).Ok?
         && words[k] == ToBytes(ParseInst(Prepare(ne[k]).body, symbols).value)
  }

  /** The addresses of the statements marked `~`, in order. */
  function Marks(ne: seq<string>): seq<Address>
    decreases |ne|
  {
    if ne == [] then []
    else
      var init := ne[..|ne| - 1];
      Marks(init) + (if Prepare(ne[|ne| - 1]).breakpoint then [Here(|init|)] else [])
  }

  /** The label each statement defines, if any. */
  function LabelNames(ne: seq<string>): (labels: seq<Option<string>>)
    ensures |labels| == |ne|
  {
    seq(|ne|, k requires 0 <= k < |ne| => Prepare(ne[k]).labelName)
  }

  /** Entry `k` is the last definition of label `name`. */
  ghost predicate LastLabel(labels: seq<Option<string>>, name: string, k: nat)
  {
    k < |labels| && labels[k] == Some(name)
    && forall j :: k < j < |labels| ==> labels[j] != Some(name)
  }

  /** The table holds exactly the labels defined, each at the address of
      its last definition. */
  ghost predicate LabelsOf(table: Symbols, labels: seq<Option<string>>)
  {
    (forall name :: name in table <==> Some(name) in labels)
    && (forall name, k: nat :: LastLabel(labels, name, k) ==> name in table && table[name] == Here(k))
  }

  /** Statements are taken line by line: those of two blocks are the
      first block's followed by the second's, and a single line is kept
      exactly when it is not empty. */
  lemma {:induction false} StatementsAppend(a: seq<string>, b: seq<string>, line: string)
    ensures Statements(a + b) == Statements(a) + Statements(b)
    ensures Statements([line]) == if line == [] then [] else [line]
    decreases |b|
  {
    assert [line][..0] == [];
    if b == [] {
      assert a + b == a;
    } else {
      var init, last := b[..|b| - 1], b[|b| - 1];
      assert (a + b)[..|a + b| - 1] == a + init;
      assert (a + b)[|a + b| - 1] == last;
      StatementsAppend(a, init, line);
    }
  }

  lemma StatementsSnoc(lines: seq<string>)
    requires lines != []
    ensures var init, last := lines[..|lines| - 1], lines[|lines| - 1];
      Statements(lines) == Statements(init) + (if last == [] then [] else [last])
  {
  }

  /** One more statement: the encoding extends by that statement's word. */
  lemma EncodesSnoc(words: seq<u32>, ne: seq<string>, symbols: Option<Symbols>, line: string, i: Instr)
    requires EncodesAll(words, ne, symbols)
    requires ParseInst(Prepare(line).body, symbols) == Ok(i)
    ensures EncodesAll(words + [ToBytes(i)], ne + [line], symbols)
  {
    var ws, ls := words + [ToBytes(i)], ne + [line];
    forall k | 0 <= k < |ls|
      ensures ParseInst(Prepare(ls[k]).body, symbols).Ok?
      ensures ws[k] == ToBytes(ParseInst(Prepare(ls[k]).body, symbols).value)
    {
      if k < |ne| {
        assert ls[k] == ne[k] && ws[k] == words[k];
      }
    }
  }

  /** The second fold succeeds exactly when every statement assembles
      against the table, and then emits one word per statement, each the
      `to_bytes` of that statement's record. */
  lemma {:induction false} Pass2Spec(lines: seq<string>, symbols: Symbols)
    ensures Pass2(lines, symbols).Ok? <==> AllParse(Statements(lines), Some(symbols))
    ensures Pass2(lines, symbols).Ok? ==> EncodesAll(Pass2(lines, symbols).value.words, Statements(lines), Some(symbols))
    decreases |lines|
  {
    if lines != [] {
      var init, last := lines[..|lines| - 1], lines[|lines| - 1];
      var ne0 := Statements(init);
      Pass2Spec(init, symbols);
      StatementsSnoc(lines);
      var ne := Statements(lines);
      if Pass2(init, symbols).Ok? && last != [] {
        var prog := Pass2(init, symbols).value;
        var r := ParseInst(Prepare(last).body, Some(symbols));
        assert ne == ne0 + [last];
        assert ne[|ne0|] == last;
        if r.Ok? {
          assert Pass2(lines, symbols) == Ok(prog.Push(r.value));
          EncodesSnoc(prog.words, ne0, Some(symbols), last, r.value);
        }
        assert AllParse(ne, Some(symbols)) <==> AllParse(ne0, Some(symbols)) && r.Ok?;
      } else if Pass2(init, symbols).Err? {
        assert !AllParse(ne0, Some(symbols));
        assert forall k :: 0 <= k < |ne0| ==> ne[k] == ne0[k];
      }
    }
  }

  /** One more statement: its label, if any, now maps to its address. */
  lemma LabelsSnoc(table: Symbols, labels: seq<Option<string>>, defined: Option<string>)
    requires LabelsOf(table, labels)
    ensures LabelsOf(if defined.Some? then table[defined.value := Here(|labels|)] else table, labels + [defined])
  {
    var table' := if defined.Some? then table[defined.value := Here(|labels|)] else table;
    var ls := labels + [defined];
    assert ls[|labels|] == defined;
    forall name
      ensures name in table' <==> Some(name) in ls
    {
      assert Some(name) in ls <==> Some(name) in labels || defined == Some(name);
    }
    forall name, k: nat | LastLabel(ls, name, k)
      ensures name in table' && table'[name] == Here(k)
    {
      if k < |labels| {
        assert ls[|labels|] != Some(name);
        assert forall j :: k < j < |labels| ==> ls[j] == labels[j];
        assert ls[k] == labels[k];
        assert LastLabel(labels, name, k);
      }
    }
  }

  lemma LabelNamesSnoc(ne: seq<string>, line: string)
    ensures LabelNames(ne + [line]) == LabelNames(ne) + [Prepare(line).labelName]
  {
    var ls := ne + [line];
    var a, b := LabelNames(ls), LabelNames(ne) + [Prepare(line).labelName];
    forall k | 0 <= k < |ls|
      ensures a[k] == b[k]
    {
      if k < |ne| {
        assert ls[k] == ne[k];
      } else {
        assert ls[k] == line;
      }
    }
  }

  lemma MarksSnoc(ne: seq<string>, line: string)
    ensures Marks(ne + [line]) == Marks(ne) + (if Prepare(line).breakpoint then [Here(|ne|)] else [])
  {
    assert (ne + [line])[..|ne|] == ne;
  }

  /** The first fold succeeds exactly when every statement assembles with
      every symbol read as 0; it then emits one word per statement, records
      the `~` statements' addresses in order, and maps each label to the
      address of its last definition. */
  lemma {:induction false} Pass1Spec(lines: seq<string>)
    ensures Pass1(lines).Ok? <==> AllParse(Statements(lines), None)
    ensures Pass1(lines).Ok? ==>
      var st, ne := Pass1(lines).value, Statements(lines);
      EncodesAll(st.program.words, ne, None) && st.breakpoints == Marks(ne) && LabelsOf(st.symbols, LabelNames(ne))
    decreases |lines|
  {
    if lines != [] {
      var init, last := lines[..|lines| - 1], lines[|lines| - 1];
      var ne0 := Statements(init);
      Pass1Spec(init);
      StatementsSnoc(lines);
      var ne := Statements(lines);
      if Pass1(init).Ok? && last != [] {
        var st := Pass1(init).value;
        var p := Prepare(last);
        var r := ParseInst(p.body, None);
        assert ne == ne0 + [last];
        assert ne[|ne0|] == last;
        if r.Ok? {
          var here := Here(|ne0|);
          assert Here(|st.program.words|) == here;
          EncodesSnoc(st.program.words, ne0, None, last, r.value);
          MarksSnoc(ne0, last);
          LabelsSnoc(st.symbols, LabelNames(ne0), p.labelName);
          LabelNamesSnoc(ne0, last);
        }
        assert AllParse(ne, None) <==> AllParse(ne0, None) && r.Ok?;
      } else if Pass1(init).Err? {
        assert !AllParse(ne0, None);
        assert forall k :: 0 <= k < |ne0| ==> ne[k] == ne0[k];
      } else {
        assert ne == ne0;
      }
    } else {
      assert LabelsOf(map[], LabelNames([]));
    }
  }

  /** Only the exactly empty lines are dropped: the statements are the
      lines without the empty ones, each non-empty line counted as often
      as it occurs. */
  lemma {:induction false} StatementsDropEmpty(lines: seq<string>)
    ensures multiset(Statements(lines)) == multiset(lines)[[] := 0]
    ensures |Statements(lines)| == |lines| - multiset(lines)[[]]
    decreases |lines|
  {
    if lines != [] {
      var init, last := lines[..|lines| - 1], lines[|lines| - 1];
      StatementsDropEmpty(init);
      assert lines == init + [last];
      assert multiset(lines) == multiset(init) + multiset{last};
    }
  }

  /** The table a successful pass 1 builds is the only one with the
      `LabelsOf` property. */
  lemma LabelsOfUnique(t1: Symbols, t2: Symbols, labels: seq<Option<string>>)
    requires LabelsOf(t1, labels) && LabelsOf(t2, labels)
    ensures t1 == t2
  {
    forall name | name in t1
      ensures name in t2 && t1[name] == t2[name]
    {
      var k := LastIndex(labels, Some(name));
      assert LastLabel(labels, name, k);
    }
  }

  /** The last index holding `x`. */
  function LastIndex<T(==)>(s: seq<T>, x: T): (k: nat)
    requires x in s
    ensures k < |s| && s[k] == x && forall j :: k < j < |s| ==> s[j] != x
    decreases |s|
  {
    if s[|s| - 1] == x then |s| - 1
    else
      assert x in s[..|s| - 1] by {
        var i :| 0 <= i < |s| && s[i] == x;
        assert s[..|s| - 1][i] == x;
      }
      LastIndex(s[..|s| - 1], x)
  }

  /** `assemble` in terms of the statements: it succeeds exactly when every
      statement assembles with symbols read as 0 and again against the
      label table; the program then has one word per statement, the
      `to_bytes` of its record resolved against that table, and the
      breakpoints are the addresses of the `~` statements. */
  lemma AssembleSpec(src: string)
    ensures var ne := Statements(Split(src, '\n'));
      Assemble(src).Ok? <==>
        AllParse(ne, None) && forall table :: LabelsOf(table, LabelNames(ne)) ==> AllParse(ne, Some(table))
    ensures var lines := Split(src, '\n'); var ne := Statements(lines);
      Assemble(src).Ok? ==>
        Pass1(lines).Ok? && LabelsOf(Pass1(lines).value.symbols, LabelNames(ne))
        && EncodesAll(Assemble(src).value.program.words, ne, Some(Pass1(lines).value.symbols))
        && Assemble(src).value.breakpoints == Marks(ne)
  {
    var lines := Split(src, '\n');
    var ne := Statements(lines);
    Pass1Spec(lines);
    if Pass1(lines).Ok? {
      var table := Pass1(lines).value.symbols;
      Pass2Spec(lines, table);
      forall t | LabelsOf(t, LabelNames(ne))
        ensures t == table
      {
        LabelsOfUnique(t, table, LabelNames(ne));
      }
    }
  }

  /** A source whose statements list the records `instrs` (each body is
      the mnemonic followed by the fields in decimal) assembles to exactly
      the words of `Program::push`ing those records by hand. */
  lemma AssembleListings(src: string, instrs: seq<Instr>)
    requires var ne := Statements(Split(src, '\n'));
      |ne| == |instrs| && forall k :: 0 <= k < |ne| ==> Prepare(ne[k]).body == Listing(instrs[k])
    ensures Assemble(src).Ok?
    ensures Assemble(src).value.program.words == Build(instrs).Bytes()
  {
    var ne := Statements(Split(src, '\n'));
    ListingsParse(ne, instrs, None);
    forall table | LabelsOf(table, LabelNames(ne))
      ensures AllParse(ne, Some(table))
    {
      ListingsParse(ne, instrs, Some(table));
    }
    AssembleSpec(src);
    var table := Pass1(Split(src, '\n')).value.symbols;
    ListingsEncode(Assemble(src).value.program.words, ne, Some(table), instrs);
    BuildDecodes(instrs);
  }

  /** Listed records parse whatever the symbol table. */
  lemma ListingsParse(ne: seq<string>, instrs: seq<Instr>, symbols: Option<Symbols>)
    requires |ne| == |instrs| && forall k :: 0 <= k < |ne| ==> Prepare(ne[k]).body == Listing(instrs[k])
    ensures AllParse(ne, symbols)
  {
    forall k | 0 <= k < |ne|
      ensures ParseInst(Prepare(ne[k]).body, symbols).Ok?
    {
      ParseListing(instrs[k], symbols);
    }
  }

  /** The encoding of listed records is their word stream. */
  lemma ListingsEncode(words: seq<u32>, ne: seq<string>, symbols: Option<Symbols>, instrs: seq<Instr>)
    requires |ne| == |instrs| && forall k :: 0 <= k < |ne| ==> Prepare(ne[k]).body == Listing(instrs[k])
    requires EncodesAll(words, ne, symbols)
    ensures words == Words(instrs)
  {
    forall k | 0 <= k < |ne|
      ensures words[k] == Words(instrs)[k]
    {
      ParseListing(instrs[k], symbols);
    }
  }

  /** Both passes emit the same number of words: one per statement. */
  lemma PassesAgree(src: string)
    requires Assemble(src).Ok?
    ensures var lines := Split(src, '\n');
      Pass1(lines).Ok?
      && |Pass1(lines).value.program.words| == |Assemble(src).value.program.words| == |Statements(lines)|
  {
    AssembleSpec(src);
    Pass1Spec(Split(src, '\n'));
  }

  /** A statement whose body is empty (a blank, label-only or `~`-only
      line) makes the whole assembly fail. */
  lemma EmptyBodyRejects(src: string, k: nat)
    requires var ne := Statements(Split(src, '\n')); k < |ne| && Prepare(ne[k]).body == ""
    ensures Assemble(src).Err?
  {
    AssembleSpec(src);
    EmptyBodyFails(None);
  }

  /** An operand valid in pass 1 fails in pass 2 only for want of a symbol,
      so a line that passes pass 1 fails pass 2 only on an unknown symbol. */
  lemma {:induction false} OperandsPasses(words: seq<string>, n: nat, table: Symbols)
    requires |words| >= 1
    ensures Operands(words, n, None).Ok? && Operands(words, n, Some(table)).Err? ==>
      Operands(words, n, Some(table)).error.UnknownSymbol?
    decreases n
  {
    if n > 0 {
      OperandsPasses(words, n - 1, table);
      if n < |words| {
        OperandPasses(words[n], table);
      }
    }
  }

  lemma ParseInstPasses(line: string, table: Symbols)
    ensures ParseInst(line, None).Ok? && ParseInst(line, Some(table)).Err? ==>
      ParseInst(line, Some(table)).error.UnknownSymbol?
  {
    var words := Split(line, ' ');
    if KindOf(words[0]).Some? {
      var op := KindOf(words[0]).value;
      ParseInstArm(line, None, op);
      ParseInstArm(line, Some(table), op);
      OperandsPasses(words, Arity(op), table);
    }
  }

  /** An `LI addr name` statement loads the address of the last line that
      defines `name`, whether that line comes before or after it. */
  lemma LabelReference(src: string, j: nat, k: nat, name: string, addr: nat)
    requires Assemble(src).Ok?
    requires var ne := Statements(Split(src, '\n'));
      j < |ne| && LastLabel(LabelNames(ne), name, k)
      && Prepare(ne[j]).body == "LI " + Render(addr, 10) + " " + name
    requires name != [] && !('0' <= name[0] <= '9') && name[0] != ':' && ' ' !in name
    ensures var words := Assemble(src).value.program.words;
      j < |words| && words[j] == ToBytes(ImmediateLoad(addr % 0x100, Here(k)))
  {
    var lines := Split(src, '\n');
    var ne := Statements(lines);
    AssembleSpec(src);
    var table := Pass1(lines).value.symbols;
    var body := Prepare(ne[j]).body;
    var r := ParseInst(body, Some(table));
    assert r.Ok?;
    LiLine(addr, name, table);
    ModSmall(Here(k), 0x1_0000);
  }

  /** `LI`, a decimal, a symbol: the immediate is the symbol's address. */
  lemma LiLine(addr: nat, name: string, table: Symbols)
    requires name != [] && !('0' <= name[0] <= '9') && name[0] != ':' && ' ' !in name
    requires ParseInst("LI " + Render(addr, 10) + " " + name, Some(table)).Ok?
    ensures name in table
    ensures ParseInst("LI " + Render(addr, 10) + " " + name, Some(table)) ==
      Ok(ImmediateLoad(addr % 0x100, table[name] % 0x1_0000))
  {
    var line := "LI " + Render(addr, 10) + " " + name;
    var parts := ["LI", Render(addr, 10), name];
    RenderHasNoSpace(addr);
    assert line == "LI" + " " + Render(addr, 10) + " " + name;
    ThreeTokens("LI", Render(addr, 10), name);
    assert KindOf(parts[0]) == Some(ZeroPageImmediateLoad);
    ParseInstArm(line, Some(table), ZeroPageImmediateLoad);
    OperandsRead(parts, 2, Some(table));
    OperandDecimal(addr, Some(table));
    OperandSymbol(name, table);
  }

  /** Three space-free words joined by single spaces split back into those words. */
  lemma ThreeTokens(a: string, b: string, c: string)
    requires ' ' !in a && ' ' !in b && ' ' !in c
    ensures Split(a + " " + b + " " + c, ' ') == [a, b, c]
  {
    var parts := [a, b, c];
    assert [b, c][1..] == [c];
    assert Join([b, c], ' ') == b + [' '] + c;
    assert parts[1..] == [b, c];
    assert Join(parts, ' ') == a + [' '] + (b + [' '] + c);
    assert a + " " + b + " " + c == Join(parts, ' ');
    SplitJoin(parts, ' ');
  }
}
