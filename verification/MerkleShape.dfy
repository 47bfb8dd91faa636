/** The two tree constructions, free of any hash: the layered tree of lib/blockchain.ts
    and the recursive tree of section 2.1 of RFC 6962, over an arbitrary pairing. */
module MerkleShape {

  /** The side a sibling sits on.  `Other` is any label the verifier does not know. */
  datatype Side = Left | Right | Other
  datatype Step<D> = Step(hash: D, position: Side)

  // ----- powers of two -----------------------------------------------------

  function Pow2(d: nat): (p: nat)
    ensures p >= 1
  {
    if d == 0 then 1 else 2 * Pow2(d - 1)
  }

  predicate IsPow2(k: nat) {
    k == 1 || (k > 1 && k % 2 == 0 && IsPow2(k / 2))
  }

  lemma {:induction false} IsPow2Exactly(k: nat)
    ensures IsPow2(k) <==> exists d: nat :: k == Pow2(d)
  {
    if k > 1 {
      IsPow2Exactly(k / 2);
      if IsPow2(k) {
        var d: nat :| k / 2 == Pow2(d);
        assert k == Pow2(d + 1);
      }
      if d: nat :| k == Pow2(d) {
        assert d > 0 && k / 2 == Pow2(d - 1);
      }
    } else if k == 1 {
      assert k == Pow2(0);
    }
  }

  /** The RFC 6962 split point: the largest power of two below `n`. */
  function Split(n: nat): (k: nat)
    ensures k >= 1 && IsPow2(k)
    ensures n >= 2 ==> k < n <= 2 * k
  {
    if n <= 2 then 1 else
      var half := Split((n + 1) / 2);
      assert 2 * half / 2 == half;
      2 * half
  }

  lemma {:induction false} SplitUnique(n: nat, k: nat)
    requires n >= 2 && IsPow2(k) && k < n <= 2 * k
    ensures k == Split(n)
  {
    if n > 2 {
      SplitUnique((n + 1) / 2, k / 2);
    }
  }

  method LargestPowerOfTwoLessThan(n: nat) returns (k: nat)
    ensures IsPow2(k)
    ensures n >= 2 ==> k < n <= 2 * k
    ensures k == Split(n)
  {
    k := 1;
    while k * 2 < n
      invariant IsPow2(k)
      invariant if n >= 2 then k < n else k == 1
      decreases n - k
    {
      k := k * 2;
    }
    if n >= 2 {
      SplitUnique(n, k);
    }
  }

  /** The least `d` with `n <= 2^d`. */
  function CeilLog2(n: nat): (d: nat)
    ensures n <= Pow2(d)
    ensures d > 0 ==> Pow2(d - 1) < n
  {
    if n <= 1 then 0 else 1 + CeilLog2((n + 1) / 2)
  }

  lemma {:induction false} Pow2Monotone(a: nat, b: nat)
    requires a <= b
    ensures Pow2(a) <= Pow2(b)
  {
    if a < b {
      Pow2Monotone(a, b - 1);
    }
  }

  lemma {:induction false} CeilLog2Least(n: nat, d: nat)
    requires n <= Pow2(d)
    ensures CeilLog2(n) <= d
  {
    if n > 1 {
      CeilLog2Least((n + 1) / 2, d - 1);
    }
  }

  function PopCount(n: nat): nat {
    if n == 0 then 0 else n % 2 + PopCount(n / 2)
  }

  // ----- the RFC 6962 tree -------------------------------------------------

  /** MTH(D[n]) of section 2.1 of RFC 6962, with `pair` for the branch hash. */
  function Mth<D>(pair: (D, D) -> D, s: seq<D>): D
    requires |s| > 0
    decreases |s|
  {
    if |s| == 1 then s[0] else
      var k := Split(|s|);
      pair(Mth(pair, s[..k]), Mth(pair, s[k..]))
  }

  lemma MthSplit<D>(pair: (D, D) -> D, s: seq<D>, k: nat)
    requires |s| > 1 && k == Split(|s|)
    ensures Mth(pair, s) == pair(Mth(pair, s[..k]), Mth(pair, s[k..]))
  {
  }

  /** PATH(i, D[n]) of section 2.1.1 of RFC 6962. */
  function InclusionPath<D>(pair: (D, D) -> D, i: nat, s: seq<D>): seq<Step<D>>
    requires i < |s|
    decreases |s|
  {
    if |s| == 1 then [] else
      var k := Split(|s|);
      if i < k then
        InclusionPath(pair, i, s[..k]) + [Step(Mth(pair, s[k..]), Right)]
      else
        InclusionPath(pair, i - k, s[k..]) + [Step(Mth(pair, s[..k]), Left)]
  }

  // ----- the layered tree --------------------------------------------------

  /** One round of pairing neighbours; an odd last node is promoted unchanged. */
  function Up<D>(pair: (D, D) -> D, s: seq<D>): (r: seq<D>)
    ensures |r| == (|s| + 1) / 2
  {
    if |s| <= 1 then s else [pair(s[0], s[1])] + Up(pair, s[2..])
  }

  function Layers<D>(pair: (D, D) -> D, s: seq<D>): (r: seq<seq<D>>)
    requires |s| > 0
    ensures |r| == 1 + CeilLog2(|s|)
    ensures r[0] == s && |r[|r| - 1]| == 1
    decreases |s|
  {
    if |s| == 1 then [s] else [s] + Layers(pair, Up(pair, s))
  }

  /** The sibling of position `i` in one layer: nothing for a promoted node. */
  function Sibling<D>(i: nat, s: seq<D>): seq<Step<D>> {
    var j := if i % 2 == 1 then i - 1 else i + 1;
    if j < |s| then [Step(s[j], if i % 2 == 1 then Left else Right)] else []
  }

  /** The siblings met on the way up an arbitrary stack of layers. */
  function ProofFrom<D>(layers: seq<seq<D>>, i: nat): seq<Step<D>> {
    if |layers| <= 1 then [] else Sibling(i, layers[0]) + ProofFrom(layers[1..], i / 2)
  }

  // ----- the two constructions agree ---------------------------------------

  lemma {:induction false} UpConcat<D>(pair: (D, D) -> D, a: seq<D>, b: seq<D>)
    requires |a| % 2 == 0
    ensures Up(pair, a + b) == Up(pair, a) + Up(pair, b)
    decreases |a|
  {
    if |a| == 0 {
      assert a + b == b;
    } else {
      UpConcat(pair, a[2..], b);
      assert (a + b)[2..] == a[2..] + b;
    }
  }

  /** Splitting at the RFC point commutes with one round of pairing. */
  lemma UpSplit<D>(pair: (D, D) -> D, s: seq<D>, k: nat)
    requires |s| >= 3 && k == Split(|s|)
    ensures k % 2 == 0 && Split(|Up(pair, s)|) == k / 2
    ensures Up(pair, s)[..k / 2] == Up(pair, s[..k])
    ensures Up(pair, s)[k / 2..] == Up(pair, s[k..])
  {
    var a, b := s[..k], s[k..];
    assert a + b == s;
    UpConcat(pair, a, b);
    PrefixSuffix(Up(pair, a), Up(pair, b));
  }

  lemma PrefixSuffix<T>(a: seq<T>, b: seq<T>)
    ensures (a + b)[..|a|] == a && (a + b)[|a|..] == b
  {
  }

  lemma {:induction false} MthUp<D>(pair: (D, D) -> D, s: seq<D>)
    requires |s| > 0
    ensures Mth(pair, s) == Mth(pair, Up(pair, s))
    decreases |s|
  {
    if |s| == 2 {
      assert s[..1] == [s[0]] && s[1..] == [s[1]];
    } else if |s| >= 3 {
      var k := Split(|s|);
      MthUp(pair, s[..k]);
      MthUp(pair, s[k..]);
      UpSplit(pair, s, k);
    }
  }

  /** The root the layered construction ends with is the RFC 6962 root. */
  lemma {:induction false} LayeredRootIsMth<D>(pair: (D, D) -> D, s: seq<D>)
    requires |s| > 0
    ensures var l := Layers(pair, s); l[|l| - 1] == [Mth(pair, s)]
    decreases |s|
  {
    if |s| > 1 {
      MthUp(pair, s);
      var rest := Layers(pair, Up(pair, s));
      LayeredRootIsMth(pair, Up(pair, s));
      assert Layers(pair, s) == [s] + rest;
    }
  }

  lemma {:induction false} PathUp<D>(pair: (D, D) -> D, i: nat, s: seq<D>)
    requires i < |s|
    ensures InclusionPath(pair, i, s) == Sibling(i, s) + InclusionPath(pair, i / 2, Up(pair, s))
    decreases |s|
  {
    if |s| <= 2 {
      PathUpSmall(pair, i, s);
    } else {
      hide InclusionPath, Sibling, Up;
      var k := Split(|s|);
      if i < k {
        PathUp(pair, i, s[..k]);
        PathUpLeft(pair, i, s, k);
      } else {
        PathUp(pair, i - k, s[k..]);
        PathUpRight(pair, i, s, k);
      }
    }
  }

  lemma PathUpSmall<D>(pair: (D, D) -> D, i: nat, s: seq<D>)
    requires i < |s| <= 2
    ensures InclusionPath(pair, i, s) == Sibling(i, s) + InclusionPath(pair, i / 2, Up(pair, s))
  {
    if |s| == 2 {
      assert s[..1] == [s[0]] && s[1..] == [s[1]];
    }
  }

  lemma PathUpLeft<D>(pair: (D, D) -> D, i: nat, s: seq<D>, k: nat)
    requires |s| >= 3 && k == Split(|s|) && i < k
    requires InclusionPath(pair, i, s[..k])
          == Sibling(i, s[..k]) + InclusionPath(pair, i / 2, Up(pair, s[..k]))
    ensures InclusionPath(pair, i, s) == Sibling(i, s) + InclusionPath(pair, i / 2, Up(pair, s))
  {
    UpSplit(pair, s, k);
    MthUp(pair, s[k..]);
    var u := Up(pair, s);
    assert i / 2 < k / 2 == Split(|u|);
    PathLeft(pair, i, s, k);
    PathLeft(pair, i / 2, u, k / 2);
    SiblingLeft(i, s, k);
    Reassociate(Sibling(i, s), InclusionPath(pair, i / 2, Up(pair, s[..k])), [Step(Mth(pair, s[k..]), Right)]);
  }

  lemma PathUpRight<D>(pair: (D, D) -> D, i: nat, s: seq<D>, k: nat)
    requires |s| >= 3 && k == Split(|s|) && k <= i < |s|
    requires InclusionPath(pair, i - k, s[k..])
          == Sibling(i - k, s[k..]) + InclusionPath(pair, (i - k) / 2, Up(pair, s[k..]))
    ensures InclusionPath(pair, i, s) == Sibling(i, s) + InclusionPath(pair, i / 2, Up(pair, s))
  {
    UpSplit(pair, s, k);
    MthUp(pair, s[..k]);
    HalfDifference(i, k, |s|);
    var u := Up(pair, s);
    PathRight(pair, i, s, k);
    PathRight(pair, i / 2, u, k / 2);
    SiblingRight(i, s, k);
    Reassociate(Sibling(i, s), InclusionPath(pair, (i - k) / 2, Up(pair, s[k..])), [Step(Mth(pair, s[..k]), Left)]);
  }

  lemma SiblingLeft<D>(i: nat, s: seq<D>, k: nat)
    requires i < k <= |s| && k % 2 == 0
    ensures Sibling(i, s[..k]) == Sibling(i, s)
  {
  }

  lemma SiblingRight<D>(i: nat, s: seq<D>, k: nat)
    requires k <= i < |s| && k % 2 == 0
    ensures Sibling(i - k, s[k..]) == Sibling(i, s)
  {
    HalfDifference(i, k, |s|);
  }

  lemma HalfDifference(i: nat, k: nat, n: nat)
    requires k <= i < n && k % 2 == 0
    ensures (i - k) / 2 == i / 2 - k / 2 && (i - k) % 2 == i % 2
    ensures k / 2 <= i / 2 < (n + 1) / 2
  {
    assert k == 2 * (k / 2);
  }

  lemma Reassociate<T>(a: seq<T>, b: seq<T>, c: seq<T>)
    ensures (a + b) + c == a + (b + c)
  {
  }

  lemma PathLeft<D>(pair: (D, D) -> D, i: nat, s: seq<D>, k: nat)
    requires |s| >= 2 && k == Split(|s|) && i < k
    ensures InclusionPath(pair, i, s) == InclusionPath(pair, i, s[..k]) + [Step(Mth(pair, s[k..]), Right)]
  {
  }

  lemma PathRight<D>(pair: (D, D) -> D, i: nat, s: seq<D>, k: nat)
    requires |s| >= 2 && k == Split(|s|) && k <= i < |s|
    ensures InclusionPath(pair, i, s) == InclusionPath(pair, i - k, s[k..]) + [Step(Mth(pair, s[..k]), Left)]
  {
  }

  /** The audit path collected from the bottom up. */
  function UpPath<D>(pair: (D, D) -> D, i: nat, s: seq<D>): seq<Step<D>>
    requires i < |s|
    decreases |s|
  {
    if |s| == 1 then [] else Sibling(i, s) + UpPath(pair, i / 2, Up(pair, s))
  }

  lemma {:induction false} UpPathIsPath<D>(pair: (D, D) -> D, i: nat, s: seq<D>)
    requires i < |s|
    ensures UpPath(pair, i, s) == InclusionPath(pair, i, s)
    decreases |s|
  {
    if |s| > 1 {
      PathUp(pair, i, s);
      UpPathIsPath(pair, i / 2, Up(pair, s));
    }
  }

  /** Reading siblings off the layers gives the RFC 6962 audit path. */
  lemma {:induction false} LayeredProofIsPath<D>(pair: (D, D) -> D, i: nat, s: seq<D>)
    requires i < |s|
    ensures ProofFrom(Layers(pair, s), i) == InclusionPath(pair, i, s)
    decreases |s|
  {
    if |s| > 1 {
      PathUp(pair, i, s);
      LayeredProofIsPath(pair, i / 2, Up(pair, s));
      assert Layers(pair, s)[1..] == Layers(pair, Up(pair, s));
    }
  }

  // ----- folding a proof ---------------------------------------------------

  function Combine<D>(pair: (D, D) -> D, current: D, step: Step<D>): D {
    if step.position == Left then pair(step.hash, current) else pair(current, step.hash)
  }

  function Fold<D>(pair: (D, D) -> D, current: D, proof: seq<Step<D>>): D {
    if proof == [] then current
    else Fold(pair, Combine(pair, current, proof[0]), proof[1..])
  }

  lemma {:induction false} FoldAppend<D>(pair: (D, D) -> D, current: D, p: seq<Step<D>>, q: seq<Step<D>>)
    ensures Fold(pair, current, p + q) == Fold(pair, Fold(pair, current, p), q)
    decreases |p|
  {
    if p == [] {
      assert p + q == q;
    } else {
      FoldAppend(pair, Combine(pair, current, p[0]), p[1..], q);
      assert (p + q)[1..] == p[1..] + q;
    }
  }

  lemma FoldLast<D>(pair: (D, D) -> D, current: D, p: seq<Step<D>>, step: Step<D>)
    ensures Fold(pair, current, p + [step]) == Combine(pair, Fold(pair, current, p), step)
  {
    FoldAppend(pair, current, p, [step]);
  }

  /** Folding an audit path from its leaf rebuilds the root. */
  lemma {:induction false} PathFolds<D>(pair: (D, D) -> D, i: nat, s: seq<D>)
    requires i < |s|
    ensures Fold(pair, s[i], InclusionPath(pair, i, s)) == Mth(pair, s)
    decreases |s|
  {
    if |s| > 1 {
      var k := Split(|s|);
      if i < k {
        PathFolds(pair, i, s[..k]);
        FoldLast(pair, s[i], InclusionPath(pair, i, s[..k]), Step(Mth(pair, s[k..]), Right));
      } else {
        PathFolds(pair, i - k, s[k..]);
        FoldLast(pair, s[i], InclusionPath(pair, i - k, s[k..]), Step(Mth(pair, s[..k]), Left));
      }
    }
  }

  lemma {:induction false} PathLength<D>(pair: (D, D) -> D, i: nat, s: seq<D>)
    requires i < |s|
    ensures |InclusionPath(pair, i, s)| <= CeilLog2(|s|)
    decreases |s|
  {
    if |s| > 1 {
      PathUp(pair, i, s);
      PathLength(pair, i / 2, Up(pair, s));
    }
  }

  /** The newest leaf has one left sibling for each set bit of its index. */
  lemma {:induction false} LastPathLength<D>(pair: (D, D) -> D, s: seq<D>)
    requires |s| > 0
    ensures |InclusionPath(pair, |s| - 1, s)| == PopCount(|s| - 1)
    decreases |s|
  {
    if |s| > 1 {
      var n := |s| - 1;
      assert |Sibling(n, s)| == n % 2;
      hide InclusionPath, Sibling, Up;
      PathUp(pair, n, s);
      LastPathLength(pair, Up(pair, s));
    }
  }
}
