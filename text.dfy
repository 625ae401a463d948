/** The pieces of Rust's `str` API the assembler relies on: `split` on one
    character, `join`, `trim`, and
    `u64::from_str_radix` (which `str::parse::<u64>` is for radix 10). */
module Text {
  import opened Wrappers

  /** `str::split(sep)`: every occurrence of `sep` separates two pieces, so
      a string with `n` separators has `n + 1` pieces, some possibly empty. */
  function Split(s: string, sep: char): (parts: seq<string>)
    ensures |parts| >= 1
    ensures forall k :: 0 <= k < |parts| ==> sep !in parts[k]
    decreases |s|
  {
    if s == [] then [[]]
    else
      var rest := Split(s[1..], sep);
      if s[0] == sep then [[]] + rest else [[s[0]] + rest[0]] + rest[1..]
  }

  /** `join(sep)`: the pieces with `sep` between consecutive ones. */
  function Join(parts: seq<string>, sep: char): string
    decreases |parts|
  {
    if |parts| == 0 then []
    else if |parts| == 1 then parts[0]
    else parts[0] + [sep] + Join(parts[1..], sep)
  }

  /** Joining the pieces of a split gives back the original string. */
  lemma {:induction false} JoinSplit(s: string, sep: char)
    ensures Join(Split(s, sep), sep) == s
    decreases |s|
  {
    if s != [] {
      var rest := Split(s[1..], sep);
      JoinSplit(s[1..], sep);
      if s[0] == sep {
        assert Split(s, sep) == [[]] + rest;
        if |rest| == 1 {
          assert Join(Split(s, sep), sep) == [] + [sep] + rest[0];
        } else {
          assert Join(Split(s, sep), sep) == [] + [sep] + Join(rest, sep);
        }
      } else {
        var parts := Split(s, sep);
        assert parts == [[s[0]] + rest[0]] + rest[1..];
        if |rest| == 1 {
          assert Join(parts, sep) == [s[0]] + rest[0];
        } else {
          assert parts[1..] == rest[1..];
          assert Join(rest, sep) == rest[0] + [sep] + Join(rest[1..], sep);
          assert Join(parts, sep) == [s[0]] + rest[0] + [sep] + Join(rest[1..], sep);
        }
      }
    }
  }

  /** Splitting a join of separator-free pieces gives back the pieces. */
  lemma {:induction false} SplitJoin(parts: seq<string>, sep: char)
    requires |parts| >= 1
    requires forall k :: 0 <= k < |parts| ==> sep !in parts[k]
    ensures Split(Join(parts, sep), sep) == parts
    decreases |parts|
  {
    if |parts| == 1 {
      SplitNoSeparator(parts[0], sep);
    } else {
      SplitJoin(parts[1..], sep);
      SplitPrefix(parts[0], Join(parts[1..], sep), sep);
      assert [parts[0]] + parts[1..] == parts;
    }
  }

  /** A string without `sep` is one piece. */
  lemma {:induction false} SplitNoSeparator(s: string, sep: char)
    requires sep !in s
    ensures Split(s, sep) == [s]
    decreases |s|
  {
    if s != [] {
      SplitNoSeparator(s[1..], sep);
      assert [s[0]] + s[1..] == s;
    }
  }

  /** A separator-free `head`, the separator and `tail` split into `head`
      followed by the pieces of `tail`. */
  lemma {:induction false} SplitPrefix(head: string, tail: string, sep: char)
    requires sep !in head
    ensures Split(head + [sep] + tail, sep) == [head] + Split(tail, sep)
    decreases |head|
  {
    if head == [] {
      assert [] + [sep] + tail == [sep] + tail;
      assert ([sep] + tail)[1..] == tail;
    } else {
      var s := head + [sep] + tail;
      assert s[1..] == head[1..] + [sep] + tail;
      SplitPrefix(head[1..], tail, sep);
      assert [head[0]] + head[1..] == head;
    }
  }

  /** The first piece of a split: everything before the first separator. */
  lemma {:induction false} SplitFirst(s: string, sep: char, i: nat)
    requires i <= |s| && sep !in s[..i] && (i == |s| || s[i] == sep)
    ensures Split(s, sep)[0] == s[..i]
    ensures i < |s| ==> Join(Split(s, sep)[1..], sep) == s[i + 1..]
    ensures i == |s| ==> Split(s, sep) == [s]
  {
    if i == |s| {
      assert s[..i] == s;
      SplitNoSeparator(s, sep);
    } else {
      assert s == s[..i] + [sep] + s[i + 1..];
      SplitPrefix(s[..i], s[i + 1..], sep);
      assert Split(s, sep)[1..] == Split(s[i + 1..], sep);
      JoinSplit(s[i + 1..], sep);
    }
  }

  /** `char::is_whitespace`: the Unicode `White_Space` property. */
  predicate IsWhitespace(c: char)
  {
    ('\t' <= c <= '\r') || c == ' ' || c == '\U{85}' || c == '\U{A0}' || c == '\U{1680}'
    || ('\U{2000}' <= c <= '\U{200A}') || c == '\U{2028}' || c == '\U{2029}'
    || c == '\U{202F}' || c == '\U{205F}' || c == '\U{3000}'
  }

  /** `str::trim_start`: drop the longest whitespace prefix. */
  function TrimStart(s: string): (r: string)
    ensures |r| <= |s| && r == s[|s| - |r|..]
    ensures forall k :: 0 <= k < |s| - |r| ==> IsWhitespace(s[k])
    ensures r == [] || !IsWhitespace(r[0])
    decreases |s|
  {
    if s != [] && IsWhitespace(s[0]) then TrimStart(s[1..]) else s
  }

  /** `str::trim_end`: drop the longest whitespace suffix. */
  function TrimEnd(s: string): (r: string)
    ensures |r| <= |s| && r == s[..|r|]
    ensures forall k :: |r| <= k < |s| ==> IsWhitespace(s[k])
    ensures r == [] || !IsWhitespace(r[|r| - 1])
    decreases |s|
  {
    if s != [] && IsWhitespace(s[|s| - 1]) then TrimEnd(s[..|s| - 1]) else s
  }

  /** `str::trim`: drop whitespace at both ends. */
  function Trim(s: string): string
  {
    TrimEnd(TrimStart(s))
  }

  /** `Trim(s)` is the slice of `s` between its whitespace prefix and its
      whitespace suffix, and has no whitespace at either end. */
  lemma TrimSlice(s: string)
    ensures var r, i := Trim(s), |s| - |TrimStart(s)|;
      i + |r| <= |s| && r == s[i..i + |r|]
      && (forall k :: 0 <= k < i ==> IsWhitespace(s[k]))
      && (forall k :: i + |r| <= k < |s| ==> IsWhitespace(s[k]))
      && (r == [] || (!IsWhitespace(r[0]) && !IsWhitespace(r[|r| - 1])))
  {
    var t := TrimStart(s);
    var i := |s| - |t|;
    var r := TrimEnd(t);
    assert t == s[i..];
    assert s[i..i + |r|] == t[..|r|];
    forall k | i + |r| <= k < |s|
      ensures IsWhitespace(s[k])
    {
      assert s[k] == t[k - i];
    }
  }

  /** A string without whitespace at its ends is its own trim. */
  lemma TrimmedIsFixed(s: string)
    requires s == [] || (!IsWhitespace(s[0]) && !IsWhitespace(s[|s| - 1]))
    ensures Trim(s) == s
  {
  }

  /** Trimming twice is trimming once. */
  lemma TrimIdempotent(s: string)
    ensures Trim(Trim(s)) == Trim(s)
  {
    TrimSlice(s);
    TrimmedIsFixed(Trim(s));
  }

  /** A string of whitespace trims to the empty string. */
  lemma {:induction false} TrimBlank(s: string)
    requires forall k :: 0 <= k < |s| ==> IsWhitespace(s[k])
    ensures Trim(s) == []
  {
    TrimSlice(s);
  }

  /** The largest `u64` plus one. */
  const U64_LIMIT: nat := 0x1_0000_0000_0000_0000

  type u64 = x: int | 0 <= x < U64_LIMIT

  /** `char::to_digit(radix)`: `0`-`9`, then `a`-`z` or `A`-`Z` for 10 on. */
  function Digit(c: char, radix: nat): (d: Option<nat>)
    ensures d.Some? ==> d.value < radix
  {
    var v: int :=
      if '0' <= c <= '9' then c as int - '0' as int
      else if 'a' <= c <= 'z' then c as int - 'a' as int + 10
      else if 'A' <= c <= 'Z' then c as int - 'A' as int + 10
      else 36;
    if v < radix then Some(v) else None
  }

  /** The number the digits `ds` denote, most significant first, as
      `from_str_radix` accumulates it; `None` at the first non-digit. */
  function DigitsValue(ds: string, radix: nat): Option<nat>
    decreases |ds|
  {
    if ds == [] then Some(0)
    else
      match DigitsValue(ds[..|ds| - 1], radix)
      case None => None
      case Some(v) =>
        match Digit(ds[|ds| - 1], radix)
        case None => None
        case Some(d) => Some(v * radix + d)
  }

  /** `u64::from_str_radix`: an optional `+`, then at least one digit, and
      the value must fit in 64 bits; anything else is an error (`None`). */
  function FromStrRadix(s: string, radix: nat): (r: Option<u64>)
    requires 2 <= radix <= 36
  {
    if s == [] then None
    else
      var ds := if s[0] == '+' then s[1..] else s;
      if ds == [] then None
      else
        match DigitsValue(ds, radix)
        case Some(v) => if v < U64_LIMIT then Some(v) else None
        case None => None
  }

  /** The digits are valid exactly when every character is a digit. */
  lemma {:induction false} DigitsValid(ds: string, radix: nat)
    ensures DigitsValue(ds, radix).Some? <==> forall k :: 0 <= k < |ds| ==> Digit(ds[k], radix).Some?
    decreases |ds|
  {
    if ds != [] {
      var init := ds[..|ds| - 1];
      DigitsValid(init, radix);
      assert forall k :: 0 <= k < |init| ==> init[k] == ds[k];
    }
  }

  /** The lower-case digit for `d`. */
  function DigitChar(d: nat): (c: char)
    requires d < 36
    ensures Digit(c, 36) == Some(d)
  {
    if d < 10 then ('0' as int + d) as char else ('a' as int + d - 10) as char
  }

  /** `n` written in `radix` without leading zeros (`0` is written `0`). */
  function Render(n: nat, radix: nat): string
    requires 2 <= radix <= 36
    decreases n
  {
    if n < radix then [DigitChar(n)]
    else
      QuotientSmaller(n, radix);
      Render(n / radix, radix) + [DigitChar(n % radix)]
  }

  /** A rendered number is a non-empty string of digits that denotes it. */
  lemma {:induction false} RenderValue(n: nat, radix: nat)
    requires 2 <= radix <= 36
    ensures var ds := Render(n, radix); ds != [] && DigitsValue(ds, radix) == Some(n)
    decreases n
  {
    if n < radix {
      var last := DigitChar(n);
      assert Digit(last, radix) == Some(n);
      assert Render(n, radix) == [last];
      AppendDigit([], last, radix, 0, n);
      assert [] + [last] == [last];
    } else {
      var q, d := n / radix, n % radix;
      var last := DigitChar(d);
      assert Digit(last, radix) == Some(d);
      QuotientSmaller(n, radix);
      RenderValue(q, radix);
      var init := Render(q, radix);
      assert Render(n, radix) == init + [last];
      AppendDigit(init, last, radix, q, d);
      assert q * radix + d == n;
    }
  }

  lemma QuotientSmaller(n: nat, radix: nat)
    requires 2 <= radix <= n
    ensures 0 < n / radix < n && n == n / radix * radix + n % radix
  {
  }

  /** One more digit on the right multiplies by the radix and adds it. */
  lemma AppendDigit(init: string, last: char, radix: nat, q: nat, d: nat)
    requires Digit(last, radix) == Some(d) && DigitsValue(init, radix) == Some(q)
    ensures DigitsValue(init + [last], radix) == Some(q * radix + d)
  {
    var ds := init + [last];
    assert ds[..|ds| - 1] == init;
  }

  /** Parsing a rendered number gives the number back exactly when it fits
      in a `u64`, and the overflow is an error. */
  lemma ParseRender(n: nat, radix: nat)
    requires 2 <= radix <= 36
    ensures FromStrRadix(Render(n, radix), radix) == if n < U64_LIMIT then Some(n) else None
  {
    var ds := Render(n, radix);
    RenderValue(n, radix);
    DigitsValid(ds, radix);
    assert Digit(ds[0], radix).Some?;
  }

  /** A leading `+` is accepted and changes nothing, except that `+` alone
      (and `+` before another sign) is an error. */
  lemma ParsePlus(ds: string, radix: nat)
    requires 2 <= radix <= 36
    ensures FromStrRadix("+" + ds, radix) ==
      if ds == [] || ds[0] == '+' then None else FromStrRadix(ds, radix)
  {
    assert ("+" + ds)[1..] == ds;
    if ds != [] && ds[0] == '+' {
      DigitsValid(ds, radix);
      assert Digit(ds[0], radix).None?;
    }
  }
}
