/** JSON tokens as Python's json.dumps and str write them: escaped strings and decimal integers. */
module JsonText {
  import opened Common
  import opened Unicode

  // ----- escapes -----------------------------------------------------------

  function HexDigit(d: int): char
    requires 0 <= d < 16
  {
    "0123456789abcdef"[d]
  }

  function HexValue(c: char): Option<int> {
    if '0' <= c <= '9' then Some(c as int - '0' as int)
    else if 'a' <= c <= 'f' then Some(c as int - 'a' as int + 10)
    else None
  }

  lemma HexRoundTrip(d: int)
    requires 0 <= d < 16
    ensures HexValue(HexDigit(d)) == Some(d)
  {
  }

  function Hex4(u: Unit): string {
    [HexDigit(u / 0x1000), HexDigit(u / 0x100 % 16), HexDigit(u / 16 % 16), HexDigit(u % 16)]
  }

  /** The letter of a two-character escape, if json.dumps uses one. */
  function ShortEscape(u: Unit): Option<char> {
    if u == 0x22 then Some('\"') else if u == 0x5C then Some('\\')
    else if u == 0x0A then Some('n') else if u == 0x0D then Some('r') else if u == 0x09 then Some('t')
    else if u == 0x0C then Some('f') else if u == 0x08 then Some('b')
    else None
  }

  function ShortValue(c: char): Option<Unit> {
    if c == '\"' then Some(0x22) else if c == '\\' then Some(0x5C)
    else if c == 'n' then Some(0x0A) else if c == 'r' then Some(0x0D) else if c == 't' then Some(0x09)
    else if c == 'f' then Some(0x0C) else if c == 'b' then Some(0x08)
    else None
  }

  function EscapeUnit(u: Unit): string {
    if ShortEscape(u).Some? then ['\\', ShortEscape(u).value]
    else if 0x20 <= u <= 0x7E then [u as char]
    else "\\u" + Hex4(u)
  }

  function EscapeUnits(u: seq<Unit>): string {
    if u == [] then "" else EscapeUnit(u[0]) + EscapeUnits(u[1..])
  }

  /** json.dumps of a string. */
  function Dumps(s: Str): string {
    "\"" + EscapeUnits(Utf16(s)) + "\""
  }

  const HEX_DIGITS := "0123456789abcdef"

  ghost predicate IsHexEscape(u: Unit, t: string) {
    exists a, b, c, d ::
      && 0 <= a < 16 && 0 <= b < 16 && 0 <= c < 16 && 0 <= d < 16 && u == 0x1000 * a + 0x100 * b + 0x10 * c + d
      && t == ['\\', 'u', HEX_DIGITS[a], HEX_DIGITS[b], HEX_DIGITS[c], HEX_DIGITS[d]]
  }

  /** json.dumps in ASCII: printable characters stand for themselves, but for the quote and the backslash; five control
      characters have a letter of their own; every other unit becomes four lower-case hexadecimal digits. */
  lemma EscapeExactly(u: Unit)
    ensures 0x20 <= u <= 0x7E && u != 0x22 && u != 0x5C ==> EscapeUnit(u) == [u as char]
    ensures u == 0x22 ==> EscapeUnit(u) == ['\\', '\"']
    ensures u == 0x5C ==> EscapeUnit(u) == ['\\', '\\']
    ensures u == 0x0A ==> EscapeUnit(u) == ['\\', 'n']
    ensures u == 0x0D ==> EscapeUnit(u) == ['\\', 'r']
    ensures u == 0x09 ==> EscapeUnit(u) == ['\\', 't']
    ensures u == 0x0C ==> EscapeUnit(u) == ['\\', 'f']
    ensures u == 0x08 ==> EscapeUnit(u) == ['\\', 'b']
    ensures !(0x20 <= u <= 0x7E) && u !in {0x0A, 0x0D, 0x09, 0x0C, 0x08} ==> IsHexEscape(u, EscapeUnit(u))
  {
    hide IsHexEscape, Hex4;
    HexExactly(u);
  }

  lemma HexExactly(u: Unit)
    ensures IsHexEscape(u, "\\u" + Hex4(u))
  {
    var (a, b, c, d) := (u / 0x1000, u / 0x100 % 16, u / 16 % 16, u % 16);
    HexOfUnit(u);
    HexDigitExactly(a);
    HexDigitExactly(b);
    HexDigitExactly(c);
    HexDigitExactly(d);
    hide HexDigit, HEX_DIGITS;
    assert "\\u" + Hex4(u) == ['\\', 'u', HEX_DIGITS[a], HEX_DIGITS[b], HEX_DIGITS[c], HEX_DIGITS[d]];
  }

  lemma HexDigitExactly(d: int)
    requires 0 <= d < 16
    ensures |HEX_DIGITS| == 16 && HexDigit(d) == HEX_DIGITS[d]
  {
  }

  /** A string is quoted, and its units are escaped one after another. */
  lemma {:induction false} DumpsByParts(a: Str, b: Str)
    ensures Dumps(a + b) == ['\"'] + EscapeUnits(Utf16(a)) + EscapeUnits(Utf16(b)) + ['\"']
  {
    Utf16Concat(a, b);
    EscapesConcat(Utf16(a), Utf16(b));
  }

  lemma {:induction false} EscapesConcat(a: seq<Unit>, b: seq<Unit>)
    ensures EscapeUnits(a + b) == EscapeUnits(a) + EscapeUnits(b)
  {
    hide EscapeUnit;
    if a == [] {
      assert a + b == b;
    } else {
      EscapesConcat(a[1..], b);
      assert (a + b)[1..] == a[1..] + b && (a + b)[0] == a[0];
      hide EscapeUnits;
      EscapesFirst(a);
      EscapesFirst(a + b);
    }
  }

  lemma EscapesFirst(a: seq<Unit>)
    requires a != []
    ensures EscapeUnits(a) == EscapeUnit(a[0]) + EscapeUnits(a[1..])
  {
    hide EscapeUnit;
  }

  lemma EscapesOfOne(u: Unit)
    ensures EscapeUnits([u]) == EscapeUnit(u)
  {
    hide EscapeUnit;
    assert [u][1..] == [] && EscapeUnits([]) == "";
  }

  // ----- reading a string back ---------------------------------------------

  /** One unit of a string body and the rest of the text. */
  function ReadUnit(t: string): (r: Option<(Unit, string)>)
    ensures r.Some? ==> |r.value.1| < |t|
  {
    if t == [] || t[0] == '\"' then None
    else if t[0] != '\\' then
      if t[0] as int < 0x10000 then Some((t[0] as int, t[1..])) else None
    else if |t| < 2 then None
    else if ShortValue(t[1]).Some? then Some((ShortValue(t[1]).value, t[2..]))
    else if t[1] == 'u' && |t| >= 6 then
      var a :- HexValue(t[2]);
      var b :- HexValue(t[3]);
      var c :- HexValue(t[4]);
      var d :- HexValue(t[5]);
      Some((((a * 16 + b) * 16 + c) * 16 + d, t[6..]))
    else None
  }

  /** The units up to the closing quote. */
  function ReadUnits(t: string): (r: Option<(seq<Unit>, string)>)
    ensures r.Some? ==> |r.value.1| < |t|
    decreases |t|
  {
    if t != [] && t[0] == '\"' then Some(([], t[1..]))
    else
      var (u, rest) :- ReadUnit(t);
      var (us, end) :- ReadUnits(rest);
      Some(([u] + us, end))
  }

  lemma ReadEscaped(u: Unit, rest: string)
    ensures ReadUnit(EscapeUnit(u) + rest) == Some((u, rest))
    ensures EscapeUnit(u) != [] && EscapeUnit(u)[0] != '\"'
  {
    var t := EscapeUnit(u) + rest;
    if ShortEscape(u).Some? {
      assert t[2..] == rest;
    } else if 0x20 <= u <= 0x7E {
      assert t[1..] == rest;
    } else {
      ReadHexEscape(u, rest);
    }
  }

  lemma ReadHexEscape(u: Unit, rest: string)
    requires ShortEscape(u).None? && !(0x20 <= u <= 0x7E)
    ensures ReadUnit(EscapeUnit(u) + rest) == Some((u, rest)) && EscapeUnit(u)[0] == '\\'
  {
    var t := EscapeUnit(u) + rest;
    Hex4Values(u);
    hide HexValue, HexDigit, Hex4;
    assert t[6..] == rest;
    assert t[0] == '\\' && t[1] == 'u';
    assert t[2] == Hex4(u)[0] && t[3] == Hex4(u)[1] && t[4] == Hex4(u)[2] && t[5] == Hex4(u)[3];
  }

  lemma Hex4Values(u: Unit)
    ensures var t := Hex4(u);
            |t| == 4 && HexValue(t[0]).Some? && HexValue(t[1]).Some? && HexValue(t[2]).Some? && HexValue(t[3]).Some?
            && ((HexValue(t[0]).value * 16 + HexValue(t[1]).value) * 16 + HexValue(t[2]).value) * 16
               + HexValue(t[3]).value == u
  {
    HexRoundTrip(u / 0x1000);
    HexRoundTrip(u / 0x100 % 16);
    HexRoundTrip(u / 16 % 16);
    HexRoundTrip(u % 16);
    hide HexValue, HexDigit;
    HexOfUnit(u);
  }

  lemma HexOfUnit(u: Unit)
    ensures ((u / 0x1000 * 16 + u / 0x100 % 16) * 16 + u / 16 % 16) * 16 + u % 16 == u
  {
    var a, b := u / 16, u / 0x100;
    assert u == a * 16 + u % 16;
    assert b == a / 16 && a == b * 16 + a % 16;
    assert u / 0x1000 == b / 16 && b == b / 16 * 16 + b % 16;
  }

  lemma {:induction false} ReadEscapedUnits(u: seq<Unit>, rest: string)
    ensures ReadUnits(EscapeUnits(u) + "\"" + rest) == Some((u, rest))
    decreases |u|
  {
    var t := EscapeUnits(u) + "\"" + rest;
    if u == [] {
      assert t == "\"" + rest && t[1..] == rest;
    } else {
      var tail := EscapeUnits(u[1..]) + "\"" + rest;
      assert t == EscapeUnit(u[0]) + tail;
      ReadEscaped(u[0], tail);
      ReadEscapedUnits(u[1..], rest);
      assert u == [u[0]] + u[1..];
    }
  }

  /** Two strings are written alike exactly when their UTF-16 forms agree. */
  lemma DumpsExact(a: Str, b: Str)
    ensures Dumps(a) == Dumps(b) <==> Utf16(a) == Utf16(b)
    ensures Plain(a) && Plain(b) && Dumps(a) == Dumps(b) ==> a == b
  {
    hide EscapeUnits, Utf16, FromUtf16, ReadUnits;
    ReadEscapedUnits(Utf16(a), "");
    ReadEscapedUnits(Utf16(b), "");
    assert Dumps(a)[1..] == EscapeUnits(Utf16(a)) + "\"" + "";
    assert Dumps(b)[1..] == EscapeUnits(Utf16(b)) + "\"" + "";
    if Plain(a) && Plain(b) {
      DecodedUtf16(a);
      DecodedUtf16(b);
    }
  }

  /** A split pair and the joined code point are different strings with one spelling. */
  lemma SplitPairSharesSpelling()
    ensures Dumps([0xD83D, 0xDE00]) == Dumps([0x1F600]) && [0xD83D, 0xDE00] != [0x1F600]
  {
    var a: Str, b: Str := [0xD83D, 0xDE00], [0x1F600];
    assert Utf16(a[1..]) == [0xDE00] + Utf16(a[1..][1..]) == [0xDE00];
    assert Utf16(a) == [0xD83D] + Utf16(a[1..]) == [0xD83D, 0xDE00];
    assert Utf16(b) == [0xD83D, 0xDE00] + Utf16(b[1..]) == [0xD83D, 0xDE00];
    assert |a| != |b|;
  }

  // ----- integers ----------------------------------------------------------

  predicate IsDigit(c: char) {
    '0' <= c <= '9'
  }

  function Digits(n: nat): (r: string)
    ensures r != [] && (forall i :: 0 <= i < |r| ==> IsDigit(r[i]))
  {
    if n < 10 then [('0' as int + n) as char] else Digits(n / 10) + [('0' as int + n % 10) as char]
  }

  function NatOf(ds: string): nat
    requires forall i :: 0 <= i < |ds| ==> IsDigit(ds[i])
  {
    if ds == [] then 0 else
      assert IsDigit(ds[|ds| - 1]);
      NatOf(ds[..|ds| - 1]) * 10 + (ds[|ds| - 1] as int - '0' as int)
  }

  lemma {:induction false} NatOfDigits(n: nat)
    ensures NatOf(Digits(n)) == n
  {
    var ds := Digits(n);
    if n < 10 {
      assert ds[..|ds| - 1] == [];
    } else {
      NatOfDigits(n / 10);
      assert ds[..|ds| - 1] == Digits(n / 10);
    }
  }

  /** Decimal, without leading zeros. */
  lemma {:induction false} DigitsPlain(n: nat)
    ensures n == 0 ==> Digits(n) == "0"
    ensures n > 0 ==> Digits(n)[0] != '0'
  {
    if n >= 10 {
      DigitsPlain(n / 10);
    }
  }

  /** The longest digit prefix. */
  function Span(t: string): (n: nat)
    ensures n <= |t| && (forall i :: 0 <= i < n ==> IsDigit(t[i]))
  {
    if t != [] && IsDigit(t[0]) then 1 + Span(t[1..]) else 0
  }

  lemma {:induction false} SpanConcat(ds: string, rest: string)
    requires forall i :: 0 <= i < |ds| ==> IsDigit(ds[i])
    requires rest == [] || !IsDigit(rest[0])
    ensures Span(ds + rest) == |ds|
  {
    if ds == [] {
      assert ds + rest == rest;
    } else {
      assert (ds + rest)[1..] == ds[1..] + rest;
      SpanConcat(ds[1..], rest);
    }
  }

  function IntText(i: int): string {
    if i < 0 then "-" + Digits(-i) else Digits(i)
  }

  function ReadNat(t: string): Option<(nat, string)> {
    var n := Span(t);
    if n == 0 then None else Some((NatOf(t[..n]), t[n..]))
  }

  lemma ReadDigits(n: nat, rest: string)
    requires rest == [] || !IsDigit(rest[0])
    ensures ReadNat(Digits(n) + rest) == Some((n, rest))
  {
    var ds := Digits(n);
    SpanConcat(ds, rest);
    NatOfDigits(n);
    assert (ds + rest)[..|ds|] == ds && (ds + rest)[|ds|..] == rest;
  }
}
