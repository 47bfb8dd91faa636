/** Strings as sequences of code points, as Python sees them, and of UTF-16 units, as JavaScript sees them. */
module Unicode {

  type CodePoint = c: int | 0 <= c < 0x110000

  /** The code points of a string. */
  function Codes(s: string): (r: seq<CodePoint>)
    ensures |r| == |s|
  {
    seq(|s|, i requires 0 <= i < |s| => s[i] as int)
  }

  lemma CodesInjective(a: string, b: string)
    requires Codes(a) == Codes(b)
    ensures a == b
  {
    assert |Codes(a)| == |a| && |Codes(b)| == |b|;
    forall i | 0 <= i < |a| ensures a[i] == b[i] {
      assert Codes(a)[i] == a[i] as int && Codes(b)[i] == b[i] as int;
    }
  }

  /** A Python string is a sequence of code points; surrogates are allowed. */
  type Str = seq<CodePoint>
  type Unit = u: int | 0 <= u < 0x10000

  function High(c: CodePoint): Unit
    requires c >= 0x10000
  {
    0xD800 + (c - 0x10000) / 0x400
  }

  function Low(c: CodePoint): Unit
    requires c >= 0x10000
  {
    0xDC00 + (c - 0x10000) % 0x400
  }

  function PointUnits(c: CodePoint): seq<Unit> {
    if c < 0x10000 then [c] else [High(c), Low(c)]
  }

  function Utf16(s: Str): seq<Unit> {
    if s == [] then [] else PointUnits(s[0]) + Utf16(s[1..])
  }

  predicate IsPair(a: int, b: int) {
    0xD800 <= a < 0xDC00 && 0xDC00 <= b < 0xE000
  }

  function JoinPair(a: int, b: int): CodePoint
    requires IsPair(a, b)
  {
    0x10000 + (a - 0xD800) * 0x400 + (b - 0xDC00)
  }

  /** Decoding joins every high surrogate with a low surrogate that follows it. */
  function FromUtf16(u: seq<Unit>): Str {
    if u == [] then []
    else if |u| >= 2 && IsPair(u[0], u[1]) then
      [JoinPair(u[0], u[1])] + FromUtf16(u[2..])
    else [u[0]] + FromUtf16(u[1..])
  }

  /** No high surrogate is directly followed by a low one. */
  ghost predicate Plain(s: Str) {
    forall i :: 0 <= i < |s| - 1 ==> !IsPair(s[i], s[i + 1])
  }

  lemma {:induction false} Utf16OfDecoded(u: seq<Unit>)
    ensures Utf16(FromUtf16(u)) == u
    decreases |u|
  {
    if |u| >= 2 && IsPair(u[0], u[1]) {
      Utf16OfDecoded(u[2..]);
      var c := JoinPair(u[0], u[1]);
      assert FromUtf16(u)[1..] == FromUtf16(u[2..]);
      assert High(c) == u[0] && Low(c) == u[1];
      assert u == [u[0], u[1]] + u[2..];
    } else if u != [] {
      Utf16OfDecoded(u[1..]);
      assert FromUtf16(u)[1..] == FromUtf16(u[1..]);
      assert u == [u[0]] + u[1..];
    }
  }

  lemma {:induction false} DecodedUtf16(s: Str)
    requires Plain(s)
    ensures FromUtf16(Utf16(s)) == s
  {
    if s != [] {
      DecodedUtf16(s[1..]);
      var rest := Utf16(s[1..]);
      assert s == [s[0]] + s[1..];
      if s[0] < 0x10000 {
        assert Utf16(s) == [s[0]] + rest && Utf16(s)[1..] == rest;
        assert |s| > 1 ==> !IsPair(s[0], s[1]);
        assert rest != [] ==> !IsPair(s[0], rest[0]);
      } else {
        assert Utf16(s) == [High(s[0]), Low(s[0])] + rest && Utf16(s)[2..] == rest;
      }
    }
  }

  /** Units are written one code point after another. */
  lemma {:induction false} Utf16Concat(a: Str, b: Str)
    ensures Utf16(a + b) == Utf16(a) + Utf16(b)
  {
    hide PointUnits;
    if a == [] {
      assert a + b == b;
    } else {
      Utf16Concat(a[1..], b);
      assert (a + b)[1..] == a[1..] + b;
    }
  }

  ghost predicate IsSurrogatePair(c: CodePoint, units: seq<Unit>, high: int, low: int) {
    0 <= high < 0x400 && 0 <= low < 0x400 && c == 0x10000 + 0x400 * high + low
    && units == [0xD800 + high, 0xDC00 + low]
  }

  /** Up to U+FFFF a code point is its own unit; above it two units share the twenty bits of what is left. */
  lemma Utf16OfOne(c: CodePoint)
    ensures c < 0x10000 ==> Utf16([c]) == [c]
    ensures c >= 0x10000 ==> exists high, low :: IsSurrogatePair(c, Utf16([c]), high, low)
  {
    assert [c][1..] == [] && Utf16([]) == [];
    assert Utf16([c]) == PointUnits(c);
    if c >= 0x10000 {
      assert IsSurrogatePair(c, Utf16([c]), (c - 0x10000) / 0x400, (c - 0x10000) % 0x400);
    }
  }

  /** A literal holds Unicode scalars, so no surrogates. */
  lemma CodesPlain(s: string)
    ensures Plain(Codes(s))
  {
  }
}
