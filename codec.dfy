/** The instruction set of the machine in src/main.rs: the nine opcodes,
    the nine fixed-width instruction records, and their packing into one
    32-bit word (`Inst<1>::to_bytes` / `from_bytes`), plus the `Program`
    word buffer that the assembler appends to. */
module Codec {
  import opened Wrappers

  /** The source's unsigned integer types, as ranges of `int`. */
  type u8 = x: int | 0 <= x < 0x100
  type u16 = x: int | 0 <= x < 0x1_0000
  type u32 = x: int | 0 <= x < 0x1_0000_0000

  /** A word address: the source's `Address = u16`. */
  type Address = u16

  /** The `Opcodes` enum. */
  datatype Opcode =
    | ZeroPageAdd
    | ZeroPageNeg
    | ZeroPageAnd
    | ZeroPageOr
    | ZeroPageXor
    | ZeroPageLoad
    | ZeroPageStore
    | ZeroPageImmediateLoad
    | ZeroPageLoadIfPos

  /** The discriminant of each opcode, `Opcodes::X as u8`. */
  function OpcodeByte(op: Opcode): u8
  {
    match op
    case ZeroPageAdd => 0x00
    case ZeroPageNeg => 0x01
    case ZeroPageAnd => 0x02
    case ZeroPageOr => 0x04
    case ZeroPageXor => 0x05
    case ZeroPageLoad => 0x06
    case ZeroPageStore => 0x09
    case ZeroPageImmediateLoad => 0x0A
    case ZeroPageLoadIfPos => 0x0C
  }

  /** `Opcodes::from_u8`: the opcode whose discriminant is `b`, if any. */
  function FromU8(b: u8): (r: Option<Opcode>)
    ensures r.Some? ==> OpcodeByte(r.value) == b
    ensures forall op :: OpcodeByte(op) == b ==> r == Some(op)
  {
    match b
    case 0x00 => Some(ZeroPageAdd)
    case 0x01 => Some(ZeroPageNeg)
    case 0x02 => Some(ZeroPageAnd)
    case 0x04 => Some(ZeroPageOr)
    case 0x05 => Some(ZeroPageXor)
    case 0x06 => Some(ZeroPageLoad)
    case 0x09 => Some(ZeroPageStore)
    case 0x0A => Some(ZeroPageImmediateLoad)
    case 0x0C => Some(ZeroPageLoadIfPos)
    case _ => None
  }

  /** The nine instruction records. 8-bit fields are zero-page addresses;
      `farFrom` (the `from: u16` of `ZeroPageLoad`) and `farTo` (the
      `to: u16` of `ZeroPageStore`) are full 16-bit addresses, and `imm` is
      the 16-bit immediate of `ZeroPageImmediateLoad`. */
  datatype Instr =
    | Add(lhs: u8, rhs: u8, out: u8)
    | Neg(input: u8, out: u8)
    | And(lhs: u8, rhs: u8, out: u8)
    | Or(lhs: u8, rhs: u8, out: u8)
    | Xor(lhs: u8, rhs: u8, out: u8)
    | Load(farFrom: u16, to: u8)
    | Store(from: u8, farTo: u16)
    | ImmediateLoad(addr: u8, imm: u16)
    | LoadIfPos(cond: u8, from: u8, to: u8)
  {
    /** The opcode of the record's struct. */
    function Kind(): Opcode
    {
      match this
      case Add(_, _, _) => ZeroPageAdd
      case Neg(_, _) => ZeroPageNeg
      case And(_, _, _) => ZeroPageAnd
      case Or(_, _, _) => ZeroPageOr
      case Xor(_, _, _) => ZeroPageXor
      case Load(_, _) => ZeroPageLoad
      case Store(_, _) => ZeroPageStore
      case ImmediateLoad(_, _) => ZeroPageImmediateLoad
      case LoadIfPos(_, _, _) => ZeroPageLoadIfPos
    }
  }

  /** `u32::to_be_bytes`: most significant byte first. */
  function ToBeBytes(w: u32): (b: seq<u8>)
    ensures |b| == 4
  {
    var r1 := w / 0x100;
    var r2 := r1 / 0x100;
    [r2 / 0x100, r2 % 0x100, r1 % 0x100, w % 0x100]
  }

  /** `u32::from_be_bytes`. */
  function FromBeBytes(b: seq<u8>): (w: u32)
    requires |b| == 4
    ensures ToBeBytes(w) == b
  {
    ((b[0] as int * 0x100 + b[1]) * 0x100 + b[2]) * 0x100 + b[3]
  }

  lemma BeBytesRoundTrip(w: u32)
    ensures FromBeBytes(ToBeBytes(w)) == w
  {
  }

  /** `u16::to_le_bytes`: least significant byte first. */
  function ToLeBytes(h: u16): (b: seq<u8>)
    ensures |b| == 2
  {
    [h % 0x100, h / 0x100]
  }

  /** `u16::from_le_bytes`. */
  function FromLeBytes(b: seq<u8>): (h: u16)
    requires |b| == 2
    ensures ToLeBytes(h) == b
  {
    b[0] as int + b[1] as int * 0x100
  }

  lemma LeBytesRoundTrip(h: u16)
    ensures FromLeBytes(ToLeBytes(h)) == h
  {
  }

  /** The four bytes every `to_bytes` hands to `u32::from_be_bytes`: the
      opcode, then the fields in declaration order; a 16-bit field takes two
      bytes, low byte first; `ZeroPageNegate` fills its unused last byte
      with 0. */
  function Fields(i: Instr): (b: seq<u8>)
    ensures |b| == 4 && b[0] == OpcodeByte(i.Kind())
  {
    var op := OpcodeByte(i.Kind());
    match i
    case Add(lhs, rhs, out) => [op, lhs, rhs, out]
    case Neg(input, out) => [op, input, out, 0]
    case And(lhs, rhs, out) => [op, lhs, rhs, out]
    case Or(lhs, rhs, out) => [op, lhs, rhs, out]
    case Xor(lhs, rhs, out) => [op, lhs, rhs, out]
    case Load(farFrom, to) => [op] + ToLeBytes(farFrom) + [to]
    case Store(from, farTo) => [op, from] + ToLeBytes(farTo)
    case ImmediateLoad(addr, imm) => [op, addr] + ToLeBytes(imm)
    case LoadIfPos(cond, from, to) => [op, cond, from, to]
  }

  /** `to_bytes`: one big-endian word. */
  function ToBytes(i: Instr): (w: u32)
    ensures ToBeBytes(w) == Fields(i)
  {
    FromBeBytes(Fields(i))
  }

  /** The `assert_eq!` failure of a `from_bytes`: the word's leading byte is
      not the opcode of the record it was asked to decode. */
  datatype DecodeError = FormatViolation(expected: Opcode, found: u8)

  /** The body of a `from_bytes` once the word is split into its four
      big-endian bytes. */
  function FromFields(kind: Opcode, b: seq<u8>): Result<Instr, DecodeError>
    requires |b| == 4
  {
    if b[0] != OpcodeByte(kind) then Err(FormatViolation(kind, b[0]))
    else
      match kind
      case ZeroPageAdd => Ok(Add(b[1], b[2], b[3]))
      case ZeroPageNeg => Ok(Neg(b[1], b[2]))
      case ZeroPageAnd => Ok(And(b[1], b[2], b[3]))
      case ZeroPageOr => Ok(Or(b[1], b[2], b[3]))
      case ZeroPageXor => Ok(Xor(b[1], b[2], b[3]))
      case ZeroPageLoad => Ok(Load(FromLeBytes(b[1..3]), b[3]))
      case ZeroPageStore => Ok(Store(b[1], FromLeBytes(b[2..4])))
      case ZeroPageImmediateLoad => Ok(ImmediateLoad(b[1], FromLeBytes(b[2..4])))
      case ZeroPageLoadIfPos => Ok(LoadIfPos(b[1], b[2], b[3]))
  }

  /** `from_bytes` of the record whose opcode is `kind`. */
  function FromBytes(kind: Opcode, w: u32): Result<Instr, DecodeError>
  {
    FromFields(kind, ToBeBytes(w))
  }

  /** The leading (opcode) byte of a word, `to_be_bytes()[0]`. */
  function OpcodeOf(w: u32): (op: u8)
    ensures op == ToBeBytes(w)[0]
  {
    w / 0x100_0000
  }

  /** The machine's dispatch: look the leading byte up in `Opcodes` and
      decode with that record's `from_bytes`. `None` is the failing
      `Opcodes::from_u8(..).unwrap()`. */
  function Decode(w: u32): (r: Option<Instr>)
    ensures r.Some? <==> FromU8(OpcodeOf(w)).Some?
    ensures r.Some? ==> r.value.Kind() == FromU8(OpcodeOf(w)).value
  {
    match FromU8(OpcodeOf(w))
    case None => None
    case Some(kind) =>
      FromBytesOwnOpcode(kind, w);
      Some(FromBytes(kind, w).value)
  }

  /** Decoding with the right record never fails, and returns a record of
      that kind. */
  lemma FromBytesOwnOpcode(kind: Opcode, w: u32)
    requires OpcodeOf(w) == OpcodeByte(kind)
    ensures FromBytes(kind, w).Ok? && FromBytes(kind, w).value.Kind() == kind
  {
  }

  /** Round trip: `from_bytes(to_bytes(x)) == x` for every record, both
      through the record's own decoder and through the dispatch. */
  lemma RoundTrip(i: Instr)
    ensures OpcodeOf(ToBytes(i)) == OpcodeByte(i.Kind())
    ensures FromBytes(i.Kind(), ToBytes(i)) == Ok(i)
    ensures Decode(ToBytes(i)) == Some(i)
  {
    var b := Fields(i);
    assert ToBeBytes(ToBytes(i)) == b;
    match i
    case Load(farFrom, to) =>
      LeBytesRoundTrip(farFrom);
      assert b[1..3] == ToLeBytes(farFrom);
    case Store(from, farTo) =>
      LeBytesRoundTrip(farTo);
      assert b[2..4] == ToLeBytes(farTo);
    case ImmediateLoad(addr, imm) =>
      LeBytesRoundTrip(imm);
      assert b[2..4] == ToLeBytes(imm);
    case _ =>
  }

  /** `from_bytes` fails exactly when the leading byte is not the
      record's opcode. */
  lemma FromBytesChecksOpcode(kind: Opcode, w: u32)
    ensures FromBytes(kind, w).Ok? <==> OpcodeOf(w) == OpcodeByte(kind)
    ensures FromBytes(kind, w).Err? ==> FromBytes(kind, w).error == FormatViolation(kind, OpcodeOf(w))
  {
  }

  /** The other round trip: re-encoding a decoded word gives the word back,
      except that `ZeroPageNegate` drops whatever its last byte held. */
  lemma EncodeAfterDecode(kind: Opcode, w: u32)
    requires FromBytes(kind, w).Ok?
    ensures FromBytes(kind, w).value.Kind() == kind
    ensures ToBytes(FromBytes(kind, w).value) == if kind == ZeroPageNeg then w - w % 0x100 else w
  {
    var b := ToBeBytes(w);
    var i := FromBytes(kind, w).value;
    if kind == ZeroPageNeg {
      assert Fields(i) == ToBeBytes(w - w % 0x100);
      BeBytesRoundTrip(w - w % 0x100);
    } else {
      assert Fields(i) == b by {
        match kind
        case ZeroPageLoad => assert ToLeBytes(FromLeBytes(b[1..3])) == b[1..3];
        case ZeroPageStore => assert ToLeBytes(FromLeBytes(b[2..4])) == b[2..4];
        case ZeroPageImmediateLoad => assert ToLeBytes(FromLeBytes(b[2..4])) == b[2..4];
        case _ =>
      }
      BeBytesRoundTrip(w);
    }
  }

  /** Where the 16-bit fields sit: `imm` of LI and `to` of S little-endian in
      bytes 2-3 of the big-endian word, `from` of L little-endian in bytes
      1-2. */
  lemma WideFieldPlacement(a: u8, h: u16)
    ensures ToBeBytes(ToBytes(ImmediateLoad(a, h))) == [0x0A, a, h % 0x100, h / 0x100]
    ensures ToBeBytes(ToBytes(Store(a, h))) == [0x09, a, h % 0x100, h / 0x100]
    ensures ToBeBytes(ToBytes(Load(h, a))) == [0x06, h % 0x100, h / 0x100, a]
    ensures ToBytes(ImmediateLoad(a, h)) == 0x0A00_0000 + a * 0x1_0000 + (h % 0x100) * 0x100 + h / 0x100
  {
  }

  /** `ZeroPageNegate` writes 0 into its unused last byte, and its decoder
      ignores that byte. */
  lemma NegPadding(input: u8, out: u8, w: u32, pad: u8)
    ensures ToBeBytes(ToBytes(Neg(input, out)))[3] == 0
    ensures FromBytes(ZeroPageNeg, w - w % 0x100 + pad) == FromBytes(ZeroPageNeg, w)
  {
  }

  /** None of the nine opcodes has `11` in its two low bits, the pattern the
      machine reserves for variable-length instructions. */
  lemma NoOpcodeIsVariableLength(op: Opcode)
    ensures OpcodeByte(op) % 4 != 3
  {
  }

  /** `Program`: the word buffer of an assembled program. */
  datatype Program = Program(words: seq<u32>) {
    /** `Program::push`: append the record's `to_bytes`. */
    function Push(i: Instr): (p: Program)
      ensures |p.words| == |words| + 1 && p.words[..|words|] == words
      ensures Decode(p.words[|words|]) == Some(i)
    {
      RoundTrip(i);
      Program(words + [ToBytes(i)])
    }

    /** `Program::bytes`. */
    function Bytes(): seq<u32>
    {
      words
    }
  }

  /** A program built by pushing the records `instrs` in order. */
  function Build(instrs: seq<Instr>): Program
  {
    if instrs == [] then Program([]) else Build(instrs[..|instrs| - 1]).Push(instrs[|instrs| - 1])
  }

  /** `Words(instrs)`: the word stream of hand-built records, one word each. */
  function Words(instrs: seq<Instr>): (ws: seq<u32>)
    ensures |ws| == |instrs|
    ensures forall k :: 0 <= k < |instrs| ==> ws[k] == ToBytes(instrs[k])
  {
    seq(|instrs|, k requires 0 <= k < |instrs| => ToBytes(instrs[k]))
  }

  /** Pushing records one at a time gives one word per record, each of which
      decodes back to its record. */
  lemma {:induction false} BuildDecodes(instrs: seq<Instr>)
    ensures Build(instrs).Bytes() == Words(instrs)
    ensures forall k :: 0 <= k < |instrs| ==> Decode(Build(instrs).Bytes()[k]) == Some(instrs[k])
  {
    if instrs != [] {
      var init := instrs[..|instrs| - 1];
      BuildDecodes(init);
      assert Build(instrs).words == Words(init) + [ToBytes(instrs[|instrs| - 1])];
    }
    forall k | 0 <= k < |instrs| ensures Decode(Build(instrs).Bytes()[k]) == Some(instrs[k]) {
      RoundTrip(instrs[k]);
    }
  }
}
