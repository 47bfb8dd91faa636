/** Bytes, big-endian numbers and bit sets: the ground of the TPM structures. */
module TpmBytes {

  type byte = b: int | 0 <= b < 256
  type Bytes = seq<byte>

  function Pow256(n: nat): (p: nat)
    ensures p >= 1
  {
    if n == 0 then 1 else 256 * Pow256(n - 1)
  }

  // ----- big-endian numbers ------------------------------------------------

  function FromBE(b: Bytes): nat {
    if b == [] then 0 else 256 * FromBE(b[..|b| - 1]) + b[|b| - 1]
  }

  function ToBE(n: nat, len: nat): (b: Bytes)
    ensures |b| == len
  {
    if len == 0 then [] else ToBE(n / 256, len - 1) + [n % 256]
  }

  lemma {:induction false} FromBEBound(b: Bytes)
    ensures FromBE(b) < Pow256(|b|)
  {
    if b != [] {
      FromBEBound(b[..|b| - 1]);
    }
  }

  lemma {:induction false} ToFromBE(b: Bytes)
    ensures ToBE(FromBE(b), |b|) == b
  {
    if b != [] {
      var init, last := b[..|b| - 1], b[|b| - 1];
      ToFromBE(init);
      assert FromBE(b) / 256 == FromBE(init) && FromBE(b) % 256 == last;
      assert b == init + [last];
    }
  }

  lemma {:induction false} FromToBE(n: nat, len: nat)
    requires n < Pow256(len)
    ensures FromBE(ToBE(n, len)) == n
  {
    if len > 0 {
      FromToBE(n / 256, len - 1);
      var b := ToBE(n, len);
      assert b[..len - 1] == ToBE(n / 256, len - 1);
    }
  }

  lemma {:induction false} FromBEConcat(a: Bytes, b: Bytes)
    ensures FromBE(a + b) == FromBE(a) * Pow256(|b|) + FromBE(b)
    decreases |b|
  {
    if b == [] {
      assert a + b == a;
    } else {
      var init := b[..|b| - 1];
      FromBEConcat(a, init);
      assert (a + b)[..|a + b| - 1] == a + init;
      assert FromBE(a) * Pow256(|b|) == 256 * (FromBE(a) * Pow256(|init|));
    }
  }

  // ----- bits --------------------------------------------------------------

  function BitsOf(b: nat, n: nat): (r: seq<bool>)
    ensures |r| == n
  {
    if n == 0 then [] else [b % 2 == 1] + BitsOf(b / 2, n - 1)
  }

  function FromBits(bits: seq<bool>): nat {
    if bits == [] then 0 else (if bits[0] then 1 else 0) + 2 * FromBits(bits[1..])
  }

  function TwoTo(n: nat): nat {
    if n == 0 then 1 else 2 * TwoTo(n - 1)
  }

  lemma {:induction false} FromBitsOf(b: nat, n: nat)
    requires b < TwoTo(n)
    ensures FromBits(BitsOf(b, n)) == b
  {
    if n > 0 {
      FromBitsOf(b / 2, n - 1);
      assert BitsOf(b, n)[1..] == BitsOf(b / 2, n - 1);
    }
  }

  lemma {:induction false} BitsOfFrom(bits: seq<bool>)
    ensures FromBits(bits) < TwoTo(|bits|) && BitsOf(FromBits(bits), |bits|) == bits
  {
    if bits != [] {
      BitsOfFrom(bits[1..]);
      assert FromBits(bits) / 2 == FromBits(bits[1..]);
      assert bits == [bits[0]] + bits[1..];
    }
  }

  lemma EightBits()
    ensures TwoTo(8) == 256
  {
    assert TwoTo(4) == 16;
  }

  /** `(bitmap[i >> 3] & (1 << (i & 7))) != 0`. */
  predicate BitSet(bitmap: Bytes, i: nat)
    requires i < 8 * |bitmap|
  {
    BitsOf(bitmap[i / 8], 8)[i % 8]
  }

  function ByteOf(selected: set<nat>, j: nat): byte {
    var bits := seq(8, k requires 0 <= k < 8 => 8 * j + k in selected);
    BitsOfFrom(bits);
    EightBits();
    FromBits(bits)
  }

  function BitmapOf(selected: set<nat>, width: nat): (r: Bytes)
    ensures |r| == width
  {
    seq(width, j requires 0 <= j < width => ByteOf(selected, j))
  }

  lemma BitmapBits(selected: set<nat>, width: nat, i: nat)
    requires i < 8 * width
    ensures BitSet(BitmapOf(selected, width), i) <==> i in selected
  {
    var j := i / 8;
    var bits := seq(8, k requires 0 <= k < 8 => 8 * j + k in selected);
    BitsOfFrom(bits);
    assert BitmapOf(selected, width)[j] == FromBits(bits);
    assert 8 * j + i % 8 == i;
  }

  lemma BitmapDetermined(a: Bytes, b: Bytes)
    requires |a| == |b| && (forall i :: 0 <= i < 8 * |a| ==> BitSet(a, i) == BitSet(b, i))
    ensures a == b
  {
    hide BitSet, BitsOf;
    forall j | 0 <= j < |a| ensures a[j] == b[j] {
      forall k | 0 <= k < 8 ensures BitsOf(a[j], 8)[k] == BitsOf(b[j], 8)[k] {
        BitOfByte(a, j, k);
        BitOfByte(b, j, k);
      }
      SameBits(a[j], b[j]);
    }
  }

  lemma BitOfByte(a: Bytes, j: nat, k: nat)
    requires j < |a| && k < 8
    ensures BitSet(a, 8 * j + k) == BitsOf(a[j], 8)[k]
  {
    hide BitsOf;
    assert (8 * j + k) / 8 == j && (8 * j + k) % 8 == k;
  }

  lemma SameBits(a: byte, b: byte)
    requires forall k :: 0 <= k < 8 ==> BitsOf(a, 8)[k] == BitsOf(b, 8)[k]
    ensures a == b
  {
    EightBits();
    FromBitsOf(a, 8);
    FromBitsOf(b, 8);
    hide FromBits, BitsOf, TwoTo;
    assert BitsOf(a, 8) == BitsOf(b, 8);
  }

  ghost predicate StrictlyIncreasing(s: seq<nat>) {
    forall i, j :: 0 <= i < j < |s| ==> s[i] < s[j]
  }

  ghost predicate ListsBits(bitmap: Bytes, n: nat, r: seq<nat>)
    requires n <= 8 * |bitmap|
  {
    StrictlyIncreasing(r) && forall i: nat :: i in r <==> i < n && BitSet(bitmap, i)
  }

  /** The set bits below `n`, in increasing order. */
  function SetBits(bitmap: Bytes, n: nat): (r: seq<nat>)
    requires n <= 8 * |bitmap|
    ensures ListsBits(bitmap, n, r)
  {
    if n == 0 then [] else
      var lower := SetBits(bitmap, n - 1);
      NextBit(bitmap, n, lower);
      if BitSet(bitmap, n - 1) then lower + [n - 1] else lower
  }

  lemma NextBit(bitmap: Bytes, n: nat, lower: seq<nat>)
    requires 0 < n <= 8 * |bitmap| && ListsBits(bitmap, n - 1, lower)
    ensures ListsBits(bitmap, n, if BitSet(bitmap, n - 1) then lower + [n - 1] else lower)
  {
    AppendAbove(lower, n - 1);
    hide BitSet;
    if BitSet(bitmap, n - 1) {
      assert ListsBits(bitmap, n, lower + [n - 1]);
    } else {
      assert ListsBits(bitmap, n, lower);
    }
  }

  lemma AppendAbove(s: seq<nat>, n: nat)
    requires StrictlyIncreasing(s) && forall i :: i in s ==> i < n
    ensures StrictlyIncreasing(s + [n]) && forall i :: i in s + [n] <==> i in s || i == n
  {
    assert forall k :: 0 <= k < |s| ==> s[k] in s;
  }

  function Members(s: seq<nat>): set<nat> {
    set i | i in s
  }

  /** A strictly increasing sequence is determined by its members. */
  lemma {:induction false} IncreasingDetermined(s: seq<nat>, t: seq<nat>)
    requires StrictlyIncreasing(s) && StrictlyIncreasing(t) && (forall i :: i in s <==> i in t)
    ensures s == t
  {
    assert t != [] ==> t[0] in t;
    if s != [] {
      assert s[0] in t && t != [] && t[0] in s;
      assert s[0] == t[0];
      assert s == [s[0]] + s[1..] && t == [t[0]] + t[1..];
      assert forall i :: i in s[1..] <==> i in s && i != s[0];
      assert forall i :: i in t[1..] <==> i in t && i != t[0];
      IncreasingDetermined(s[1..], t[1..]);
    }
  }
}
