/** The DER form of an ECDSA signature built by attestation/tpm-quote-verifier.ts: section 8.3 of
    X.690 for each INTEGER, section 2.2.3 of RFC 3279 for the pair. */
module TpmSignature {
  import opened Common
  import opened TpmBytes

  const MAX_SHORT_LENGTH := 127
  const MAX_ECDSA_PARAMETER := 66

  /** Drop a leading zero byte while the next byte keeps the number non-negative. */
  function Strip(v: Bytes): Bytes {
    if |v| > 1 && v[0] == 0 && v[1] < 128 then Strip(v[1..]) else v
  }

  /** The contents octets: stripped, with a zero byte in front of a set sign bit. */
  function Contents(v: Bytes): Bytes {
    var s := Strip(v);
    if |s| > 0 && s[0] >= 128 then [0] + s else s
  }

  method DerInteger(integer: Bytes) returns (r: Option<Bytes>)
    ensures r.None? <==> |Contents(integer)| > MAX_SHORT_LENGTH
    ensures r.Some? ==> r.value == [0x02, |Contents(integer)|] + Contents(integer)
  {
    var value := integer;
    while |value| > 1 && value[0] == 0 && value[1] < 128
      invariant Strip(value) == Strip(integer)
      decreases |value|
    {
      value := value[1..];
    }
    if |value| > 0 && value[0] >= 128 {
      value := [0] + value;
    }
    if |value| > MAX_SHORT_LENGTH { return None; }
    return Some([0x02, |value|] + value);
  }

  /** The SEQUENCE of the two INTEGERs, or the size error. */
  function EcdsaDerSpec(r: Bytes, s: Bytes): Option<Bytes> {
    var (cr, cs) := (Contents(r), Contents(s));
    if |cr| + |cs| + 4 > MAX_SHORT_LENGTH then None
    else Some([0x30, |cr| + |cs| + 4] + ([0x02, |cr|] + cr) + ([0x02, |cs|] + cs))
  }

  method EcdsaDer(r: Bytes, s: Bytes) returns (der: Option<Bytes>)
    ensures der == EcdsaDerSpec(r, s)
  {
    var dr := DerInteger(r);
    if dr.None? { return None; }
    var ds := DerInteger(s);
    if ds.None? { return None; }
    var body := dr.value + ds.value;
    if |body| > MAX_SHORT_LENGTH { return None; }
    der := Some([0x30, |body|] + body);
    assert [0x30, |body|] + (dr.value + ds.value) == [0x30, |body|] + dr.value + ds.value;
  }

  // ----- an independent DER reader -----------------------------------------

  /** One INTEGER with a short-form length: its value and the rest, canonical forms only. */
  function ReadInteger(b: Bytes): Option<(nat, Bytes)> {
    if |b| < 2 || b[0] != 0x02 || b[1] > MAX_SHORT_LENGTH || |b| < 2 + b[1] then None else
      var c := b[2..2 + b[1]];
      if Minimal(c) && c[0] < 128 then Some((FromBE(c), b[2 + b[1]..])) else None
  }

  /** Section 8.3.2 of X.690: the first nine bits are neither all zero nor all one. */
  predicate Minimal(c: Bytes) {
    |c| > 0 && (|c| > 1 ==> !(c[0] == 0 && c[1] < 128) && !(c[0] == 255 && c[1] >= 128))
  }

  function ReadEcdsa(b: Bytes): Option<(nat, nat)> {
    if |b| < 2 || b[0] != 0x30 || b[1] > MAX_SHORT_LENGTH || |b| != 2 + b[1] then None else
      var (r, rest) :- ReadInteger(b[2..]);
      var (s, end) :- ReadInteger(rest);
      if end == [] then Some((r, s)) else None
  }

  // ----- value and form ----------------------------------------------------

  lemma {:induction false} LeadingZero(v: Bytes)
    requires |v| > 0 && v[0] == 0
    ensures FromBE(v) == FromBE(v[1..])
  {
    FromBEConcat([v[0]], v[1..]);
    assert v == [v[0]] + v[1..];
    assert [v[0]][..0] == [];
    assert FromBE([v[0]]) == 0;
  }

  lemma {:induction false} StripKeepsValue(v: Bytes)
    ensures FromBE(Strip(v)) == FromBE(v)
    ensures |Strip(v)| <= |v| && (v != [] ==> Strip(v) != [])
    ensures |Strip(v)| > 1 ==> !(Strip(v)[0] == 0 && Strip(v)[1] < 128)
  {
    if |v| > 1 && v[0] == 0 && v[1] < 128 {
      StripKeepsValue(v[1..]);
      LeadingZero(v);
    }
  }

  /** The contents octets keep the value, are minimal, and read as a non-negative number. */
  lemma ContentsCanonical(v: Bytes)
    requires v != []
    ensures FromBE(Contents(v)) == FromBE(v)
    ensures Minimal(Contents(v)) && Contents(v)[0] < 128 && |Contents(v)| <= |v| + 1
  {
    StripKeepsValue(v);
    var s := Strip(v);
    if s[0] >= 128 {
      LeadingZero([0] + s);
      assert ([0] + s)[1..] == s;
    }
  }

  /** Minimal non-negative contents octets are determined by the value. */
  lemma MinimalDetermined(a: Bytes, b: Bytes)
    requires Minimal(a) && Minimal(b) && a[0] < 128 && b[0] < 128 && FromBE(a) == FromBE(b)
    ensures a == b
  {
    MinimalRange(a);
    MinimalRange(b);
    if |a| < |b| {
      ShorterIsSmaller(a, b);
    } else if |b| < |a| {
      ShorterIsSmaller(b, a);
    } else {
      ToFromBE(a);
      ToFromBE(b);
    }
  }

  /** `n` octets hold numbers below 128 * 256^(n-1), and need them above half of that. */
  lemma MinimalRange(c: Bytes)
    requires Minimal(c) && c[0] < 128
    ensures FromBE(c) < 128 * Pow256(|c| - 1)
    ensures |c| > 1 ==> FromBE(c) >= 128 * Pow256(|c| - 2)
  {
    var tail := c[1..];
    assert c == [c[0]] + tail;
    FromBEConcat([c[0]], tail);
    assert [c[0]][..0] == [];
    assert FromBE([c[0]]) == c[0];
    FromBEBound(tail);
    Scale(c[0], 127, Pow256(|tail|));
    if |c| > 1 {
      var low := c[2..];
      assert tail == [tail[0]] + low;
      FromBEConcat([tail[0]], low);
      assert [tail[0]][..0] == [];
      assert FromBE([tail[0]]) == tail[0];
      assert Pow256(|tail|) == 256 * Pow256(|low|);
      if c[0] == 0 {
        Scale(128, tail[0], Pow256(|low|));
      } else {
        Scale(1, c[0], Pow256(|tail|));
      }
    }
  }

  lemma Scale(a: nat, b: nat, p: nat)
    requires a <= b
    ensures a * p <= b * p
  {
  }

  lemma ShorterIsSmaller(a: Bytes, b: Bytes)
    requires |a| < |b| && |a| > 0
    requires FromBE(a) < 128 * Pow256(|a| - 1) && FromBE(b) >= 128 * Pow256(|b| - 2)
    ensures FromBE(a) < FromBE(b)
  {
    PowGrows(|a| - 1, |b| - 2);
  }

  lemma {:induction false} PowGrows(m: nat, n: nat)
    requires m <= n
    ensures Pow256(m) <= Pow256(n)
  {
    if m < n {
      PowGrows(m, n - 1);
    }
  }

  // ----- the pair ----------------------------------------------------------

  lemma ReadIntegerConcat(c: Bytes, rest: Bytes)
    requires Minimal(c) && c[0] < 128 && |c| <= MAX_SHORT_LENGTH
    ensures ReadInteger([0x02, |c|] + c + rest) == Some((FromBE(c), rest))
  {
    hide FromBE;
    var tag: Bytes := [0x02, |c|];
    SliceMiddle(tag, c, rest);
    assert (tag + c + rest)[0] == 0x02 && (tag + c + rest)[1] == |c|;
  }

  lemma SliceMiddle(a: Bytes, c: Bytes, rest: Bytes)
    ensures (a + c + rest)[|a|..|a| + |c|] == c && (a + c + rest)[|a| + |c|..] == rest
  {
  }

  /** The output of a successful encoding decodes to the two input numbers, in canonical form. */
  lemma EcdsaDerDecodes(r: Bytes, s: Bytes)
    requires r != [] && s != [] && EcdsaDerSpec(r, s).Some?
    ensures ReadEcdsa(EcdsaDerSpec(r, s).value) == Some((FromBE(r), FromBE(s)))
  {
    hide Contents, ReadEcdsa, FromBE;
    ContentsCanonical(r);
    ContentsCanonical(s);
    SequenceReads(Contents(r), Contents(s));
  }

  lemma SequenceReads(cr: Bytes, cs: Bytes)
    requires Minimal(cr) && cr[0] < 128 && Minimal(cs) && cs[0] < 128 && |cr| + |cs| + 4 <= MAX_SHORT_LENGTH
    ensures ReadEcdsa([0x30, |cr| + |cs| + 4] + ([0x02, |cr|] + cr) + ([0x02, |cs|] + cs))
         == Some((FromBE(cr), FromBE(cs)))
  {
    hide FromBE, Minimal, ReadInteger;
    var head: Bytes, first: Bytes, second: Bytes := [0x30, |cr| + |cs| + 4], [0x02, |cr|] + cr, [0x02, |cs|] + cs;
    DropHead(head, first, second);
    ReadIntegerConcat(cr, second);
    ReadIntegerConcat(cs, []);
    assert second + [] == second;
  }

  lemma DropHead(head: Bytes, first: Bytes, second: Bytes)
    requires |head| == 2
    ensures (head + first + second)[2..] == first + second
    ensures (head + first + second)[0] == head[0] && (head + first + second)[1] == head[1]
  {
  }

  /** The encoding, success included, depends only on the two numbers. */
  lemma EcdsaDerByValue(r: Bytes, s: Bytes, r': Bytes, s': Bytes)
    requires r != [] && s != [] && r' != [] && s' != []
    requires FromBE(r) == FromBE(r') && FromBE(s) == FromBE(s')
    ensures EcdsaDerSpec(r, s) == EcdsaDerSpec(r', s')
  {
    hide FromBE, Contents, Minimal;
    ContentsCanonical(r);
    ContentsCanonical(r');
    ContentsCanonical(s);
    ContentsCanonical(s');
    MinimalDetermined(Contents(r), Contents(r'));
    MinimalDetermined(Contents(s), Contents(s'));
  }

  /** Inputs of at most 60 bytes always encode, and under the parser's limit of 66 bytes a single
      INTEGER never exceeds the short form. */
  lemma EcdsaDerSucceeds(r: Bytes, s: Bytes)
    requires r != [] && s != []
    ensures |r| <= 60 && |s| <= 60 ==> EcdsaDerSpec(r, s).Some?
    ensures |r| <= MAX_ECDSA_PARAMETER ==> |Contents(r)| <= MAX_SHORT_LENGTH
  {
    ContentsCanonical(r);
    ContentsCanonical(s);
  }

  /** The limit that does bite: two full 66-byte parameters, such as P-521 uses, are refused. */
  lemma WideParametersRefused(r: Bytes, s: Bytes)
    requires |r| == MAX_ECDSA_PARAMETER && |s| == MAX_ECDSA_PARAMETER && r[0] != 0 && s[0] != 0
    ensures EcdsaDerSpec(r, s).None?
  {
  }
}
