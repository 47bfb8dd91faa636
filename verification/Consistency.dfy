/** Checkpoint consistency (section 2.1.2 of RFC 6962) as packages/verify implements it: a
    recursive prover and an iterative verifier that only sees two sizes and a hash list. */
module Consistency {
  import opened Common
  import opened MerkleShape
  import ReceiptMerkle

  const MAX_CONSISTENCY_STEPS := 64

  // ----- the prover --------------------------------------------------------

  /** SUBPROOF(m, D[n], b). */
  function Subproof<D>(pair: (D, D) -> D, m: nat, d: seq<D>, b: bool): seq<D>
    requires 1 <= m <= |d|
    decreases |d|
  {
    if m == |d| then
      if b then [] else [Mth(pair, d)]
    else
      var k := Split(|d|);
      if m <= k then Subproof(pair, m, d[..k], b) + [Mth(pair, d[k..])]
      else Subproof(pair, m - k, d[k..], false) + [Mth(pair, d[..k])]
  }

  function Hashes<D>(p: seq<Step<D>>): (r: seq<D>)
    ensures |r| == |p|
  {
    seq(|p|, i requires 0 <= i < |p| => p[i].hash)
  }

  // ----- the verifier ------------------------------------------------------

  const WORD := 0x1_0000_0000

  /** Bitwise and. */
  function BitAnd(a: nat, b: nat): nat {
    if a == 0 then 0 else 2 * BitAnd(a / 2, b / 2) + a % 2 * (b % 2)
  }

  /** `n > 0 && (n & (n - 1)) === 0`, where `&` looks at the low 32 bits only. */
  predicate IsPowerOfTwo(n: nat) {
    n > 0 && BitAnd(n % WORD, (n - 1) % WORD) == 0
  }

  lemma {:induction false} AndSelf(a: nat)
    ensures BitAnd(a, a) == a
  {
    if a > 0 {
      AndSelf(a / 2);
      assert a == 2 * (a / 2) + a % 2 && a % 2 * (a % 2) == a % 2 by {
        assert a % 2 == 0 || a % 2 == 1;
      }
    }
  }

  lemma {:induction false} AndPredecessor(n: nat)
    requires n > 0
    ensures BitAnd(n, n - 1) == 0 <==> IsPow2(n)
  {
    if n % 2 == 1 {
      assert (n - 1) / 2 == n / 2;
      AndSelf(n / 2);
    } else {
      assert (n - 1) / 2 == n / 2 - 1;
      AndPredecessor(n / 2);
    }
  }

  /** Above 32 bits the test looks at what is left: it takes every power of two for one, and every
      size whose low word is zero or a power of two as well. */
  lemma PowerOfTwoTest(n: nat)
    ensures IsPowerOfTwo(n) <==> n > 0 && (n % WORD == 0 || IsPow2(n % WORD))
    ensures n < WORD ==> (IsPowerOfTwo(n) <==> IsPow2(n))
    ensures IsPow2(n) ==> IsPowerOfTwo(n)
  {
    hide BitAnd, IsPow2;
    LowWordTest(n);
    if n < WORD {
      assert n % WORD == n;
      if IsPow2(n) {
        PowersArePositive(n);
      }
    } else if IsPow2(n) {
      PowersKeepTheWord(n);
    }
  }

  lemma PowersArePositive(n: nat)
    requires IsPow2(n)
    ensures n > 0
  {
  }

  lemma LowWordTest(n: nat)
    ensures IsPowerOfTwo(n) <==> n > 0 && (n % WORD == 0 || IsPow2(n % WORD))
  {
    if n % WORD == 0 {
      assert BitAnd(0, (if n > 0 then n - 1 else 0) % WORD) == 0;
    } else {
      hide BitAnd, IsPow2;
      Predecessor(n);
      AndPredecessor(n % WORD);
    }
  }

  lemma Predecessor(n: nat)
    requires n % WORD != 0
    ensures (n - 1) % WORD == n % WORD - 1
  {
  }

  lemma {:induction false} PowersKeepTheWord(n: nat)
    requires IsPow2(n) && n >= WORD
    ensures n % WORD == 0
  {
    if n >= 2 * WORD {
      PowersKeepTheWord(n / 2);
    } else {
      WordIsPower();
      BetweenWords(n, WORD);
    }
  }

  /** A power of two below twice another one is that other one. */
  lemma {:induction false} BetweenWords(n: nat, w: nat)
    requires IsPow2(n) && IsPow2(w) && w <= n < 2 * w
    ensures n == w
  {
    if w > 1 {
      BetweenWords(n / 2, w / 2);
    }
  }

  /** Sizes the verifier takes for powers of two although they are not. */
  ghost predicate Misjudged(m: nat) {
    IsPowerOfTwo(m) && !IsPow2(m)
  }

  /** The smallest misjudged size is one more than 2^32. */
  lemma FirstMisjudged(m: nat)
    ensures Misjudged(WORD + 1) && (Misjudged(m) ==> m > WORD)
  {
    PowerOfTwoTest(m);
    PowerOfTwoTest(WORD + 1);
    WordIsPower();
  }

  lemma WordIsPower()
    ensures IsPow2(WORD) && !IsPow2(WORD + 1)
  {
    assert IsPow2(16) && !IsPow2(WORD + 1);
    hide IsPow2;
    ProductOfPowers(16, 16);
    ProductOfPowers(256, 256);
    ProductOfPowers(65536, 65536);
  }

  lemma {:induction false} ProductOfPowers(a: nat, b: nat)
    requires IsPow2(a) && IsPow2(b)
    ensures IsPow2(a * b)
  {
    if a > 1 {
      ProductOfPowers(a / 2, b);
      DoublePower(a / 2 * b);
      assert a * b == 2 * (a / 2 * b);
    } else {
      assert a * b == b;
    }
  }

  lemma DoublePower(a: nat)
    requires IsPow2(a)
    ensures IsPow2(2 * a)
  {
    assert 2 * a / 2 == a;
  }

  /** Drop the low one-bits of `fn` from both indices. */
  function Strip(fn: nat, sn: nat): (nat, nat) {
    if fn % 2 == 1 then Strip(fn / 2, sn / 2) else (fn, sn)
  }

  /** Drop the low zero-bits of a non-zero `fn` from both indices. */
  function SkipEven(fn: nat, sn: nat): (nat, nat) {
    if fn % 2 == 0 && fn != 0 then SkipEven(fn / 2, sn / 2) else (fn, sn)
  }

  /** The two running hashes; `sn` is what is left of the new tree. */
  datatype Heads<D> = Heads(sn: nat, fr: D, sr: D)

  /** The verification loop: `None` when the proof is longer than the geometry allows. */
  function Walk<D>(pair: (D, D) -> D, fn: nat, sn: nat, fr: D, sr: D, path: seq<D>): Option<Heads<D>>
    decreases |path|
  {
    if path == [] then Some(Heads(sn, fr, sr))
    else if sn == 0 then None
    else if fn % 2 == 1 || fn == sn then
      var (f, s) := SkipEven(fn, sn);
      Walk(pair, f / 2, s / 2, pair(path[0], fr), pair(path[0], sr), path[1..])
    else
      Walk(pair, fn / 2, sn / 2, fr, pair(sr, path[0]), path[1..])
  }

  /** What the verifier accepts for sizes `0 < m < n`. */
  ghost predicate WalkAccepts<D>(pair: (D, D) -> D, oldRoot: D, m: nat, newRoot: D, n: nat, proof: seq<D>)
    requires 0 < m < n
  {
    proof != [] &&
    var (seed, path) := if IsPowerOfTwo(m) then (oldRoot, proof) else (proof[0], proof[1..]);
    var (fn, sn) := Strip(m - 1, n - 1);
    Walk(pair, fn, sn, seed, seed, path) == Some(Heads(0, oldRoot, newRoot))
  }

  ghost predicate Accepts(h: Hash, oldRoot: string, m: int, newRoot: string, n: int, proof: seq<string>) {
    0 <= m <= n && |proof| <= MAX_CONSISTENCY_STEPS && oldRoot != "" && newRoot != "" &&
    if m == n then proof == [] && oldRoot == newRoot
    else
      m != 0
      && (forall i :: 0 <= i < |proof| ==> proof[i] != "")
      && WalkAccepts(ReceiptMerkle.Pairing(h, true), oldRoot, m, newRoot, n, proof)
  }

  method VerifyCheckpointConsistency(h: Hash, oldRoot: string, oldSize: int, newRoot: string, newSize: int,
                                     proof: seq<string>) returns (ok: bool)
    ensures ok <==> Accepts(h, oldRoot, oldSize, newRoot, newSize, proof)
  {
    if oldSize < 0 || newSize < 0 || oldSize > newSize || |proof| > MAX_CONSISTENCY_STEPS { return false; }
    if oldRoot == "" || newRoot == "" { return false; }
    if oldSize == newSize { return proof == [] && oldRoot == newRoot; }
    if oldSize == 0 || proof == [] { return false; }
    if exists i :: 0 <= i < |proof| && proof[i] == "" { return false; }

    var seed, node := oldRoot, proof;
    if !IsPowerOfTwo(oldSize) {
      seed, node := proof[0], proof[1..];
    }
    var fn: nat, sn: nat := oldSize - 1, newSize - 1;
    while fn % 2 == 1
      invariant Strip(fn, sn) == Strip(oldSize - 1, newSize - 1)
      decreases fn
    {
      fn, sn := fn / 2, sn / 2;
    }
    var pair := ReceiptMerkle.Pairing(h, true);
    var fr, sr := seed, seed;
    ghost var outcome := Walk(pair, fn, sn, seed, seed, node);
    var i := 0;
    while i < |node|
      invariant 0 <= i <= |node|
      invariant Walk(pair, fn, sn, fr, sr, node[i..]) == outcome
    {
      var c := node[i];
      if sn == 0 { return false; }
      assert node[i..][1..] == node[i + 1..];
      if fn % 2 == 1 || fn == sn {
        fr, sr := pair(c, fr), pair(c, sr);
        ghost var (f, s) := SkipEven(fn, sn);
        while fn % 2 == 0 && fn != 0
          invariant SkipEven(fn, sn) == (f, s)
          decreases fn
        {
          fn, sn := fn / 2, sn / 2;
        }
      } else {
        sr := pair(sr, c);
      }
      fn, sn := fn / 2, sn / 2;
      i := i + 1;
    }
    return sn == 0 && fr == oldRoot && sr == newRoot;
  }

  /** What no accepted call lacks: sizes in order, roots and proof entries that are not empty, a proof of at most 64
      entries that is empty exactly for equal sizes; and for equal sizes that is all, with equal roots. */
  lemma GuardsExactly(h: Hash, oldRoot: string, m: int, newRoot: string, n: int, proof: seq<string>)
    ensures Accepts(h, oldRoot, m, newRoot, n, proof) ==>
              && 0 <= m <= n && |proof| <= 64 && oldRoot != "" && newRoot != "" && (m == n <==> |proof| == 0)
              && (m == 0 ==> n == 0) && forall i :: 0 <= i < |proof| ==> proof[i] != ""
    ensures m == n ==>
              (Accepts(h, oldRoot, m, newRoot, n, proof) <==>
               m >= 0 && |proof| == 0 && oldRoot == newRoot && oldRoot != "")
  {
    hide Walk, Strip, IsPowerOfTwo;
  }

  // ----- the proof list, seen from below -----------------------------------

  lemma SubproofLeft<D>(pair: (D, D) -> D, m: nat, d: seq<D>, b: bool, k: nat)
    requires 1 <= m < |d| && k == Split(|d|) && m <= k
    ensures Subproof(pair, m, d, b) == Subproof(pair, m, d[..k], b) + [Mth(pair, d[k..])]
  {
  }

  lemma SubproofRight<D>(pair: (D, D) -> D, m: nat, d: seq<D>, b: bool, k: nat)
    requires 1 <= m < |d| && k == Split(|d|) && m > k
    ensures Subproof(pair, m, d, b) == Subproof(pair, m - k, d[k..], false) + [Mth(pair, d[..k])]
  {
  }

  lemma {:induction false} SubproofUp<D>(pair: (D, D) -> D, m: nat, d: seq<D>, b: bool)
    requires 1 <= m <= |d| && m % 2 == 0
    ensures Subproof(pair, m, d, b) == Subproof(pair, m / 2, Up(pair, d), b)
    decreases |d|
  {
    hide Subproof, Mth, Up;
    if m == |d| {
      SubproofUpWhole(pair, d, b);
    } else {
      var k := Split(|d|);
      if m <= k {
        SubproofUp(pair, m, d[..k], b);
        SubproofUpLeft(pair, m, d, b, k);
      } else {
        EvenDifference(m, k);
        SubproofUp(pair, m - k, d[k..], false);
        SubproofUpRight(pair, m, d, b, k);
      }
    }
  }

  lemma EvenDifference(m: nat, k: nat)
    requires m > k && m % 2 == 0 && IsPow2(k) && k >= 2
    ensures (m - k) % 2 == 0
  {
    hide IsPow2;
    PowerIsEven(k);
  }

  lemma PowerIsEven(k: nat)
    requires IsPow2(k) && k >= 2
    ensures k % 2 == 0
  {
  }

  lemma SubproofUpWhole<D>(pair: (D, D) -> D, d: seq<D>, b: bool)
    requires |d| >= 1 && |d| % 2 == 0
    ensures Subproof(pair, |d|, d, b) == Subproof(pair, |d| / 2, Up(pair, d), b)
  {
    MthUp(pair, d);
    hide Mth;
  }

  lemma SubproofUpLeft<D>(pair: (D, D) -> D, m: nat, d: seq<D>, b: bool, k: nat)
    requires 1 <= m < |d| && m % 2 == 0 && k == Split(|d|) && m <= k
    requires Subproof(pair, m, d[..k], b) == Subproof(pair, m / 2, Up(pair, d[..k]), b)
    ensures Subproof(pair, m, d, b) == Subproof(pair, m / 2, Up(pair, d), b)
  {
    UpSplit(pair, d, k);
    MthUp(pair, d[k..]);
    SubproofLeft(pair, m, d, b, k);
    assert m / 2 <= k / 2;
    SubproofLeft(pair, m / 2, Up(pair, d), b, k / 2);
  }

  lemma SubproofUpRight<D>(pair: (D, D) -> D, m: nat, d: seq<D>, b: bool, k: nat)
    requires 1 <= m < |d| && m % 2 == 0 && k == Split(|d|) && m > k
    requires Subproof(pair, m - k, d[k..], false) == Subproof(pair, (m - k) / 2, Up(pair, d[k..]), false)
    ensures Subproof(pair, m, d, b) == Subproof(pair, m / 2, Up(pair, d), b)
  {
    UpSplit(pair, d, k);
    MthUp(pair, d[..k]);
    HalfDifference(m, k, |d|);
    SubproofRight(pair, m, d, b, k);
    SubproofRight(pair, m / 2, Up(pair, d), b, k / 2);
  }

  /** For odd `m` the consistency proof is the audit path of leaf `m - 1`, after that leaf. */
  lemma {:induction false} SubproofOdd<D>(pair: (D, D) -> D, m: nat, d: seq<D>, b: bool)
    requires 1 <= m < |d| && m % 2 == 1
    ensures Subproof(pair, m, d, b) == Seed(m, d, b) + Hashes(InclusionPath(pair, m - 1, d))
    decreases |d|
  {
    hide Subproof, InclusionPath, Hashes, Seed, IsPow2, Mth, Split;
    var k := Split(|d|);
    if |d| == 2 {
      SubproofOfTwo(pair, d, b);
    } else if m <= k {
      OddBelow(|d|, m);
      SubproofOdd(pair, m, d[..k], b);
      SubproofOddLeft(pair, m, d, b, k);
    } else {
      OddAbove(|d|, m);
      SubproofOdd(pair, m - k, d[k..], false);
      SubproofOddRight(pair, m, d, b, k);
    }
  }

  lemma OddBelow(n: nat, m: nat)
    requires 2 < n && m <= Split(n) && m % 2 == 1
    ensures m < Split(n)
  {
    SplitIsEven(n);
    hide Split;
  }

  lemma OddAbove(n: nat, m: nat)
    requires 2 < n && Split(n) < m < n && m % 2 == 1
    ensures (m - Split(n)) % 2 == 1
  {
    SplitIsEven(n);
    hide Split;
  }

  lemma SubproofOfTwo<D>(pair: (D, D) -> D, d: seq<D>, b: bool)
    requires |d| == 2
    ensures Subproof(pair, 1, d, b) == Seed(1, d, b) + Hashes(InclusionPath(pair, 0, d))
  {
    assert d[..1] == [d[0]] && d[1..] == [d[1]];
  }

  lemma SplitIsEven(n: nat)
    requires n > 2
    ensures Split(n) % 2 == 0
  {
  }

  function Seed<D>(m: nat, d: seq<D>, b: bool): seq<D>
    requires 1 <= m <= |d|
  {
    if m == 1 && b then [] else [d[m - 1]]
  }

  lemma SubproofOddLeft<D>(pair: (D, D) -> D, m: nat, d: seq<D>, b: bool, k: nat)
    requires 1 <= m < |d| && k == Split(|d|) && m <= k
    requires Subproof(pair, m, d[..k], b) == Seed(m, d[..k], b) + Hashes(InclusionPath(pair, m - 1, d[..k]))
    ensures Subproof(pair, m, d, b) == Seed(m, d, b) + Hashes(InclusionPath(pair, m - 1, d))
  {
    PathLeft(pair, m - 1, d, k);
    SubproofLeft(pair, m, d, b, k);
    HashesAppend(InclusionPath(pair, m - 1, d[..k]), Step(Mth(pair, d[k..]), Right));
    Reassociate(Seed(m, d, b), Hashes(InclusionPath(pair, m - 1, d[..k])), [Mth(pair, d[k..])]);
  }

  lemma SubproofOddRight<D>(pair: (D, D) -> D, m: nat, d: seq<D>, b: bool, k: nat)
    requires 1 <= m < |d| && k == Split(|d|) && m > k
    requires Subproof(pair, m - k, d[k..], false)
          == Seed(m - k, d[k..], false) + Hashes(InclusionPath(pair, m - k - 1, d[k..]))
    ensures Subproof(pair, m, d, b) == Seed(m, d, b) + Hashes(InclusionPath(pair, m - 1, d))
  {
    PathRight(pair, m - 1, d, k);
    SubproofRight(pair, m, d, b, k);
    assert m - k - 1 == m - 1 - k;
    HashesAppend(InclusionPath(pair, m - k - 1, d[k..]), Step(Mth(pair, d[..k]), Left));
    Reassociate(Seed(m, d, b), Hashes(InclusionPath(pair, m - k - 1, d[k..])), [Mth(pair, d[..k])]);
  }

  lemma HashesAppend<D>(p: seq<Step<D>>, s: Step<D>)
    ensures Hashes(p + [s]) == Hashes(p) + [s.hash]
  {
  }

  // ----- the old root from the same path -----------------------------------

  /** Fold only the left siblings. */
  function FoldLefts<D>(pair: (D, D) -> D, current: D, p: seq<Step<D>>): D {
    if p == [] then current
    else FoldLefts(pair, if p[0].position == Left then pair(p[0].hash, current) else current, p[1..])
  }

  lemma {:induction false} FoldLeftsLast<D>(pair: (D, D) -> D, current: D, p: seq<Step<D>>, s: Step<D>)
    ensures FoldLefts(pair, current, p + [s])
         == if s.position == Left then pair(s.hash, FoldLefts(pair, current, p)) else FoldLefts(pair, current, p)
    decreases |p|
  {
    if p == [] {
      assert p + [s] == [s];
    } else {
      assert (p + [s])[1..] == p[1..] + [s];
      FoldLeftsLast(pair, if p[0].position == Left then pair(p[0].hash, current) else current, p[1..], s);
    }
  }

  /** The left siblings of leaf `i` rebuild the root of the tree that ended at `i`. */
  lemma {:induction false} OldRootFromPath<D>(pair: (D, D) -> D, i: nat, d: seq<D>)
    requires i < |d|
    ensures FoldLefts(pair, d[i], InclusionPath(pair, i, d)) == Mth(pair, d[..i + 1])
    decreases |d|
  {
    if |d| == 1 {
      OldRootSingle(pair, d);
    }
    hide Mth, InclusionPath, FoldLefts;
    if |d| > 1 {
      var k := Split(|d|);
      if i < k {
        OldRootFromPath(pair, i, d[..k]);
        OldRootLeft(pair, i, d, k);
      } else {
        OldRootFromPath(pair, i - k, d[k..]);
        OldRootRight(pair, i, d, k);
      }
    }
  }

  lemma OldRootSingle<D>(pair: (D, D) -> D, d: seq<D>)
    requires |d| == 1
    ensures FoldLefts(pair, d[0], InclusionPath(pair, 0, d)) == Mth(pair, d[..1])
  {
    assert d[..1] == d;
  }

  lemma OldRootLeft<D>(pair: (D, D) -> D, i: nat, d: seq<D>, k: nat)
    requires |d| > 1 && k == Split(|d|) && i < k
    requires FoldLefts(pair, d[i], InclusionPath(pair, i, d[..k])) == Mth(pair, d[..k][..i + 1])
    ensures FoldLefts(pair, d[i], InclusionPath(pair, i, d)) == Mth(pair, d[..i + 1])
  {
    PathLeft(pair, i, d, k);
    hide Mth, InclusionPath, FoldLefts;
    FoldLeftsLast(pair, d[i], InclusionPath(pair, i, d[..k]), Step(Mth(pair, d[k..]), Right));
    assert d[..k][..i + 1] == d[..i + 1];
  }

  lemma OldRootRight<D>(pair: (D, D) -> D, i: nat, d: seq<D>, k: nat)
    requires |d| > 1 && k == Split(|d|) && k <= i < |d|
    requires FoldLefts(pair, d[i], InclusionPath(pair, i - k, d[k..])) == Mth(pair, d[k..][..i - k + 1])
    ensures FoldLefts(pair, d[i], InclusionPath(pair, i, d)) == Mth(pair, d[..i + 1])
  {
    PathRight(pair, i, d, k);
    SplitUnique(i + 1, k);
    MthSplit(pair, d[..i + 1], k);
    hide Mth, InclusionPath, FoldLefts;
    FoldLeftsLast(pair, d[i], InclusionPath(pair, i - k, d[k..]), Step(Mth(pair, d[..k]), Left));
    assert d[..i + 1][..k] == d[..k] && d[..i + 1][k..] == d[k..][..i + 1 - k];
  }

  // ----- completeness ------------------------------------------------------

  /** Past a promoted node the walk behaves as one level higher. */
  lemma WalkPromoted<D>(pair: (D, D) -> D, f: nat, fr: D, sr: D, path: seq<D>)
    requires f % 2 == 0 && f != 0 && path != []
    ensures Walk(pair, f, f, fr, sr, path) == Walk(pair, f / 2, f / 2, fr, sr, path)
  {
    assert SkipEven(f, f) == SkipEven(f / 2, f / 2);
  }

  /** One step of the walk with a left, respectively a right, sibling. */
  lemma WalkLeft<D>(pair: (D, D) -> D, f: nat, sn: nat, fr: D, sr: D, c: D, rest: seq<D>)
    requires f % 2 == 1 && sn != 0
    ensures Walk(pair, f, sn, fr, sr, [c] + rest) == Walk(pair, f / 2, sn / 2, pair(c, fr), pair(c, sr), rest)
  {
    assert ([c] + rest)[1..] == rest;
  }

  lemma WalkRight<D>(pair: (D, D) -> D, f: nat, sn: nat, fr: D, sr: D, c: D, rest: seq<D>)
    requires f % 2 == 0 && f < sn
    ensures Walk(pair, f, sn, fr, sr, [c] + rest) == Walk(pair, f / 2, sn / 2, fr, pair(sr, c), rest)
  {
    assert ([c] + rest)[1..] == rest;
  }

  lemma HashesCons<D>(s: Step<D>, p: seq<Step<D>>)
    ensures Hashes([s] + p) == [s.hash] + Hashes(p)
  {
  }

  lemma FoldCons<D>(pair: (D, D) -> D, fr: D, sr: D, s: Step<D>, p: seq<Step<D>>)
    ensures Fold(pair, sr, [s] + p) == Fold(pair, Combine(pair, sr, s), p)
    ensures FoldLefts(pair, fr, [s] + p)
         == FoldLefts(pair, if s.position == Left then pair(s.hash, fr) else fr, p)
  {
    assert ([s] + p)[1..] == p;
  }

  /** The walk from leaf `f` computes both folds of its audit path and drains the tree. */
  ghost predicate WalkDrains<D(!new)>(pair: (D, D) -> D, f: nat, sn: nat, fr: D, sr: D, p: seq<Step<D>>) {
    Walk(pair, f, sn, fr, sr, Hashes(p)) == Some(Heads(0, FoldLefts(pair, fr, p), Fold(pair, sr, p)))
  }

  lemma WalkDrainsCons<D(!new)>(pair: (D, D) -> D, f: nat, sn: nat, fr: D, sr: D, s: Step<D>, q: seq<Step<D>>)
    requires if s.position == Left then f % 2 == 1 && sn != 0 else f % 2 == 0 && f < sn
    requires s.position == Left ==> WalkDrains(pair, f / 2, sn / 2, pair(s.hash, fr), pair(s.hash, sr), q)
    requires s.position != Left ==> WalkDrains(pair, f / 2, sn / 2, fr, pair(sr, s.hash), q)
    ensures WalkDrains(pair, f, sn, fr, sr, [s] + q)
  {
    HashesCons(s, q);
    FoldCons(pair, fr, sr, s, q);
    if s.position == Left {
      WalkLeft(pair, f, sn, fr, sr, s.hash, Hashes(q));
    } else {
      WalkRight(pair, f, sn, fr, sr, s.hash, Hashes(q));
    }
  }

  lemma WalkDrainsPromoted<D(!new)>(pair: (D, D) -> D, f: nat, fr: D, sr: D, q: seq<Step<D>>)
    requires f % 2 == 0 && f != 0 && q != []
    requires WalkDrains(pair, f / 2, f / 2, fr, sr, q)
    ensures WalkDrains(pair, f, f, fr, sr, q)
  {
    WalkPromoted(pair, f, fr, sr, Hashes(q));
  }

  lemma WalkDrainsEmpty<D(!new)>(pair: (D, D) -> D, fr: D, sr: D)
    ensures WalkDrains(pair, 0, 0, fr, sr, [])
  {
  }

  lemma {:induction false} WalkOnPath<D(!new)>(pair: (D, D) -> D, f: nat, d: seq<D>, fr: D, sr: D)
    requires f < |d|
    ensures WalkDrains(pair, f, |d| - 1, fr, sr, UpPath(pair, f, d))
    decreases |d|
  {
    hide Walk, WalkDrains, Up, UpPath;
    if |d| == 1 {
      UpPathStep(pair, f, d);
      WalkDrainsEmpty(pair, fr, sr);
    } else if f % 2 == 1 {
      WalkOnPath(pair, f / 2, Up(pair, d), pair(d[f - 1], fr), pair(d[f - 1], sr));
      WalkOnLeft(pair, f, d, fr, sr);
    } else if f + 1 < |d| {
      WalkOnPath(pair, f / 2, Up(pair, d), fr, pair(sr, d[f + 1]));
      WalkOnRight(pair, f, d, fr, sr);
    } else {
      WalkOnPath(pair, f / 2, Up(pair, d), fr, sr);
      WalkOnPromoted(pair, f, d, fr, sr);
    }
  }

  lemma WalkOnLeft<D(!new)>(pair: (D, D) -> D, f: nat, d: seq<D>, fr: D, sr: D)
    requires f < |d| && f % 2 == 1
    requires var up := Up(pair, d);
             WalkDrains(pair, f / 2, |up| - 1, pair(d[f - 1], fr), pair(d[f - 1], sr), UpPath(pair, f / 2, up))
    ensures WalkDrains(pair, f, |d| - 1, fr, sr, UpPath(pair, f, d))
  {
    hide Walk, WalkDrains, Up, UpPath;
    UpPathStep(pair, f, d);
    WalkDrainsCons(pair, f, |d| - 1, fr, sr, Step(d[f - 1], Left), UpPath(pair, f / 2, Up(pair, d)));
  }

  lemma WalkOnRight<D(!new)>(pair: (D, D) -> D, f: nat, d: seq<D>, fr: D, sr: D)
    requires f + 1 < |d| && f % 2 == 0
    requires var up := Up(pair, d);
             WalkDrains(pair, f / 2, |up| - 1, fr, pair(sr, d[f + 1]), UpPath(pair, f / 2, up))
    ensures WalkDrains(pair, f, |d| - 1, fr, sr, UpPath(pair, f, d))
  {
    hide Walk, WalkDrains, Up, UpPath;
    UpPathStep(pair, f, d);
    WalkDrainsCons(pair, f, |d| - 1, fr, sr, Step(d[f + 1], Right), UpPath(pair, f / 2, Up(pair, d)));
  }

  lemma WalkOnPromoted<D(!new)>(pair: (D, D) -> D, f: nat, d: seq<D>, fr: D, sr: D)
    requires f + 1 == |d| && f % 2 == 0 && f != 0
    requires var up := Up(pair, d); WalkDrains(pair, f / 2, |up| - 1, fr, sr, UpPath(pair, f / 2, up))
    ensures WalkDrains(pair, f, |d| - 1, fr, sr, UpPath(pair, f, d))
  {
    hide Walk, WalkDrains, Up, UpPath;
    UpPathStep(pair, f, d);
    LastUpPathNonEmpty(pair, Up(pair, d));
    WalkDrainsPromoted(pair, f, fr, sr, UpPath(pair, f / 2, Up(pair, d)));
  }

  /** The path of a node is its sibling, if it has one, and then the path of its parent. */
  lemma UpPathStep<D>(pair: (D, D) -> D, f: nat, d: seq<D>)
    requires f < |d|
    ensures |d| == 1 ==> UpPath(pair, f, d) == []
    ensures |d| > 1 && f % 2 == 1 ==>
      UpPath(pair, f, d) == [Step(d[f - 1], Left)] + UpPath(pair, f / 2, Up(pair, d))
    ensures f + 1 < |d| && f % 2 == 0 ==>
      UpPath(pair, f, d) == [Step(d[f + 1], Right)] + UpPath(pair, f / 2, Up(pair, d))
    ensures |d| > 1 && f + 1 == |d| && f % 2 == 0 ==> UpPath(pair, f, d) == UpPath(pair, f / 2, Up(pair, d))
  {
    hide Up;
  }

  lemma LastUpPathNonEmpty<D>(pair: (D, D) -> D, d: seq<D>)
    requires |d| > 1
    ensures UpPath(pair, |d| - 1, d) != []
  {
    UpPathIsPath(pair, |d| - 1, d);
    LastPathLength(pair, d);
  }

  /** Index `fn` of `e` is the old tree's last node in the layer of `d` where it stands alone;
      both roots and the proof are unchanged by moving there. */
  ghost predicate Stripped<D(!new)>(pair: (D, D) -> D, m: nat, d: seq<D>, fn: nat, e: seq<D>)
    requires 1 <= m < |d|
  {
    && fn + 1 < |e| && fn % 2 == 0
    && (IsPow2(m) <==> fn == 0)
    && Subproof(pair, m, d, true) == Subproof(pair, fn + 1, e, true)
    && Mth(pair, d[..m]) == Mth(pair, e[..fn + 1])
    && Mth(pair, d) == Mth(pair, e)
    && (forall p :: Joined(pair, e, p) ==> Joined(pair, d, p))
  }

  lemma {:induction false} StripTo<D(!new)>(pair: (D, D) -> D, m: nat, d: seq<D>) returns (fn: nat, e: seq<D>)
    requires 1 <= m < |d|
    ensures |e| > 0 && Strip(m - 1, |d| - 1) == (fn, |e| - 1)
    ensures Stripped(pair, m, d, fn, e)
    decreases |d|
  {
    hide Joined, Mth, Subproof, Up;
    if m % 2 == 1 {
      fn, e := m - 1, d;
      assert fn % 2 == 0;
    } else {
      var n' := |Up(pair, d)|;
      HalveSizes(m, |d|);
      assert Strip(m - 1, |d| - 1) == Strip(m / 2 - 1, n' - 1);
      fn, e := StripTo(pair, m / 2, Up(pair, d));
      StripStep(pair, m, d, fn, e);
    }
  }

  lemma StripStep<D(!new)>(pair: (D, D) -> D, m: nat, d: seq<D>, fn: nat, e: seq<D>)
    requires 1 <= m < |d| && m % 2 == 0 && m / 2 < |Up(pair, d)|
    requires Stripped(pair, m / 2, Up(pair, d), fn, e)
    ensures Stripped(pair, m, d, fn, e)
  {
    var up := Up(pair, d);
    HalveSizes(m, |d|);
    SubproofUp(pair, m, d, true);
    MthUp(pair, d);
    MthUp(pair, d[..m]);
    UpPrefix(pair, m, d);
    assert forall p :: Joined(pair, up, p) ==> Joined(pair, d, p);
  }

  lemma HalveSizes(m: nat, n: nat)
    requires 1 <= m < n && m % 2 == 0
    ensures 1 <= m / 2 < (n + 1) / 2
    ensures Strip(m - 1, n - 1) == Strip(m / 2 - 1, (n + 1) / 2 - 1)
    ensures IsPow2(m) <==> IsPow2(m / 2)
  {
    assert IsPow2(m) <==> IsPow2(m / 2);
    hide IsPow2;
    HalfOfOdd(m);
    assert (n - 1) / 2 == (n + 1) / 2 - 1;
  }

  lemma HalfOfOdd(m: nat)
    requires m >= 1 && m % 2 == 0
    ensures (m - 1) % 2 == 1 && (m - 1) / 2 == m / 2 - 1
  {
    assert m == 2 * (m / 2);
  }

  lemma UpPrefix<D>(pair: (D, D) -> D, m: nat, d: seq<D>)
    requires m <= |d| && m % 2 == 0
    ensures Up(pair, d)[..m / 2] == Up(pair, d[..m])
  {
    hide Up;
    var a, b := d[..m], d[m..];
    assert a + b == d;
    UpConcat(pair, a, b);
    PrefixSuffix(Up(pair, a), Up(pair, b));
  }

  /** Completeness: the verifier accepts the prover's list exactly when it judges the old size
      right.  For a misjudged size it walks one entry too many. */
  lemma HonestWalkAccepts<D(!new)>(pair: (D, D) -> D, m: nat, d: seq<D>)
    requires 1 <= m < |d|
    ensures WalkAccepts(pair, Mth(pair, d[..m]), m, Mth(pair, d), |d|, Subproof(pair, m, d, true)) <==> !Misjudged(m)
  {
    hide WalkAccepts, Walk, Hashes, InclusionPath, Subproof, Mth, IsPow2, IsPowerOfTwo, Stripped;
    var fn, e := StripTo(pair, m, d);
    if Misjudged(m) {
      MisjudgedRefused(pair, m, d, fn, e);
    } else {
      JudgedAccepted(pair, m, d, fn, e);
    }
  }

  lemma JudgedAccepted<D(!new)>(pair: (D, D) -> D, m: nat, d: seq<D>, fn: nat, e: seq<D>)
    requires 1 <= m < |d| && |e| > 0 && Strip(m - 1, |d| - 1) == (fn, |e| - 1) && Stripped(pair, m, d, fn, e)
             && !Misjudged(m)
    ensures WalkAccepts(pair, Mth(pair, d[..m]), m, Mth(pair, d), |d|, Subproof(pair, m, d, true))
  {
    hide WalkAccepts, Walk, Hashes, InclusionPath, Subproof, Joined, Strip, IsPow2, IsPowerOfTwo;
    HonestWalk(pair, fn, e);
    HonestProof(pair, fn, e);
    PowerOfTwoTest(m);
    assert fn == 0 ==> e[fn] == Mth(pair, d[..m]);
    WalkAcceptsFrom(pair, Mth(pair, d[..m]), m, Mth(pair, d), |d|, Subproof(pair, m, d, true),
                    fn, |e| - 1, e[fn], Hashes(InclusionPath(pair, fn, e)));
  }

  lemma MisjudgedRefused<D(!new)>(pair: (D, D) -> D, m: nat, d: seq<D>, fn: nat, e: seq<D>)
    requires 1 <= m < |d| && |e| > 0 && Strip(m - 1, |d| - 1) == (fn, |e| - 1) && Stripped(pair, m, d, fn, e)
             && Misjudged(m)
    ensures !WalkAccepts(pair, Mth(pair, d[..m]), m, Mth(pair, d), |d|, Subproof(pair, m, d, true))
  {
    hide WalkAccepts, Walk, Hashes, InclusionPath, Subproof, Joined, Strip, IsPow2, IsPowerOfTwo, Mth;
    var proof, root := Subproof(pair, m, d, true), Mth(pair, d[..m]);
    HonestWalk(pair, fn, e);
    HonestProof(pair, fn, e);
    WalkTooLong(pair, fn, |e| - 1, e[fn], e[fn], Hashes(InclusionPath(pair, fn, e)), root, root, proof);
    WalkRefusesFrom(pair, root, m, Mth(pair, d), |d|, proof, fn, |e| - 1);
  }

  /** How long a walk may be depends on the sizes alone. */
  lemma {:induction false} WalkTooLong<D(!new)>(pair: (D, D) -> D, fn: nat, sn: nat, fr: D, sr: D, p: seq<D>, fr': D,
                                         sr': D,
                                                q: seq<D>)
    requires Walk(pair, fn, sn, fr, sr, p).Some? && Walk(pair, fn, sn, fr, sr, p).value.sn == 0 && |q| > |p|
    ensures Walk(pair, fn, sn, fr', sr', q).None?
    decreases |p|
  {
    if p != [] {
      if fn % 2 == 1 || fn == sn {
        var (f, s) := SkipEven(fn, sn);
        WalkTooLong(pair, f / 2, s / 2, pair(p[0], fr), pair(p[0], sr), p[1..], pair(q[0], fr'), pair(q[0], sr'),
            q[1..]);
      } else {
        WalkTooLong(pair, fn / 2, sn / 2, fr, pair(sr, p[0]), p[1..], fr', pair(sr', q[0]), q[1..]);
      }
    }
  }

  lemma WalkRefusesFrom<D(!new)>(pair: (D, D) -> D, oldRoot: D, m: nat, newRoot: D, n: nat, proof: seq<D>, fn: nat,
                          sn: nat)
    requires 0 < m < n && Strip(m - 1, n - 1) == (fn, sn) && IsPowerOfTwo(m)
    requires Walk(pair, fn, sn, oldRoot, oldRoot, proof).None?
    ensures !WalkAccepts(pair, oldRoot, m, newRoot, n, proof)
  {
    hide IsPowerOfTwo, Strip, Walk;
  }

  lemma WalkAcceptsFrom<D(!new)>(pair: (D, D) -> D, oldRoot: D, m: nat, newRoot: D, n: nat, proof: seq<D>,
                                 fn: nat, sn: nat, seed: D, path: seq<D>)
    requires 0 < m < n && proof != [] && Strip(m - 1, n - 1) == (fn, sn)
    requires if IsPowerOfTwo(m) then seed == oldRoot && path == proof else seed == proof[0] && path == proof[1..]
    requires Walk(pair, fn, sn, seed, seed, path) == Some(Heads(0, oldRoot, newRoot))
    ensures WalkAccepts(pair, oldRoot, m, newRoot, n, proof)
  {
    hide IsPowerOfTwo, Strip, Walk;
  }

  lemma HonestWalk<D(!new)>(pair: (D, D) -> D, fn: nat, e: seq<D>)
    requires fn < |e|
    ensures Walk(pair, fn, |e| - 1, e[fn], e[fn], Hashes(InclusionPath(pair, fn, e)))
         == Some(Heads(0, Mth(pair, e[..fn + 1]), Mth(pair, e)))
  {
    WalkOnPath(pair, fn, e, e[fn], e[fn]);
    UpPathIsPath(pair, fn, e);
    OldRootFromPath(pair, fn, e);
    PathFolds(pair, fn, e);
  }

  lemma HonestProof<D(!new)>(pair: (D, D) -> D, fn: nat, e: seq<D>)
    requires fn + 1 < |e| && fn % 2 == 0
    ensures var (proof, path) := (Subproof(pair, fn + 1, e, true), Hashes(InclusionPath(pair, fn, e)));
            proof != []
            && (if fn == 0 then e[fn] == Mth(pair, e[..1]) && path == proof
                else e[fn] == proof[0] && path == proof[1..])
  {
    var path := Hashes(InclusionPath(pair, fn, e));
    SubproofOdd(pair, fn + 1, e, true);
    PathNonEmpty(pair, fn, e);
    assert [] + path == path;
    assert ([e[fn]] + path)[1..] == path;
  }

  lemma PathNonEmpty<D>(pair: (D, D) -> D, i: nat, d: seq<D>)
    requires i < |d| && |d| > 1
    ensures InclusionPath(pair, i, d) != []
  {
  }

  // ----- soundness ---------------------------------------------------------

  function NodePair<D>(d: seq<D>, i: nat): (D, D)
    requires 2 * i + 1 < |d|
  {
    (d[2 * i], d[2 * i + 1])
  }

  /** `p` is a pair of neighbours joined while building the tree over `d`. */
  ghost predicate Joined<D>(pair: (D, D) -> D, d: seq<D>, p: (D, D))
    decreases |d|
  {
    |d| > 1 && ((exists i: nat :: 2 * i + 1 < |d| && p == NodePair(d, i)) || Joined(pair, Up(pair, d), p))
  }

  /** `p` is a pair the walk joins on the way to the new root. */
  ghost predicate Walked<D>(pair: (D, D) -> D, fn: nat, sn: nat, sr: D, path: seq<D>, p: (D, D))
    decreases |path|
  {
    path != [] &&
    if fn % 2 == 1 || fn == sn then
      var (f, s) := SkipEven(fn, sn);
      p == (path[0], sr) || Walked(pair, f / 2, s / 2, pair(path[0], sr), path[1..], p)
    else
      p == (sr, path[0]) || Walked(pair, fn / 2, sn / 2, pair(sr, path[0]), path[1..], p)
  }

  /** The builder and the walk joined two different pairs to the same value. */
  ghost predicate JoinsCollide<D(!new)>(pair: (D, D) -> D, d: seq<D>, fn: nat, sn: nat, sr: D, path: seq<D>) {
    exists a, b :: Joined(pair, d, a) && Walked(pair, fn, sn, sr, path, b) && a != b
                   && pair(a.0, a.1) == pair(b.0, b.1)
  }

  lemma {:induction false} UpAt<D>(pair: (D, D) -> D, d: seq<D>, i: nat)
    requires i < |Up(pair, d)|
    ensures 2 * i + 1 < |d| ==> Up(pair, d)[i] == pair(NodePair(d, i).0, NodePair(d, i).1)
    ensures 2 * i + 1 == |d| ==> Up(pair, d)[i] == d[2 * i]
    decreases |d|
  {
    if i > 0 {
      UpAt(pair, d[2..], i - 1);
    }
  }

  ghost predicate Pinned<D>(pair: (D, D) -> D, f: nat, d: seq<D>, sr: D, path: seq<D>)
    requires f < |d|
  {
    sr == d[f] && path == Hashes(UpPath(pair, f, d))
  }

  /** The walk from node `f` used exactly the siblings of `f`, or it joined a colliding pair. */
  ghost predicate SoundFor<D(!new)>(pair: (D, D) -> D, f: nat, d: seq<D>, sr: D, path: seq<D>)
    requires f < |d|
  {
    Pinned(pair, f, d, sr, path) || JoinsCollide(pair, d, f, |d| - 1, sr, path)
  }

  ghost predicate EndsAt<D(!new)>(w: Option<Heads<D>>, root: D) {
    w.Some? && w.value.sn == 0 && w.value.sr == root
  }

  /** A walk that ends in the root of `d` started at node `f` and used exactly its siblings. */
  lemma {:induction false} WalkSound<D(!new)>(pair: (D, D) -> D, f: nat, d: seq<D>, fr: D, sr: D, path: seq<D>)
    requires f < |d|
    requires EndsAt(Walk(pair, f, |d| - 1, fr, sr, path), Mth(pair, d))
    ensures SoundFor(pair, f, d, sr, path)
    decreases |d|
  {
    hide Hashes, UpPath, Walked, Up, Joined, JoinsCollide, Pinned, SoundFor, Mth;
    if |d| == 1 {
      WalkSoundSingle(pair, d, fr, sr, path);
    } else {
      var up := Up(pair, d);
      MthUp(pair, d);
      var c, rest := path[0], path[1..];
      assert path == [c] + rest;
      if f % 2 == 1 {
        WalkLeft(pair, f, |d| - 1, fr, sr, c, rest);
        WalkSound(pair, f / 2, up, pair(c, fr), pair(c, sr), rest);
        WalkSoundLeft(pair, f, d, sr, c, rest);
      } else if f + 1 < |d| {
        WalkRight(pair, f, |d| - 1, fr, sr, c, rest);
        WalkSound(pair, f / 2, up, fr, pair(sr, c), rest);
        WalkSoundRight(pair, f, d, sr, c, rest);
      } else {
        WalkPromoted(pair, f, fr, sr, path);
        WalkSound(pair, f / 2, up, fr, sr, path);
        WalkSoundPromoted(pair, f, d, sr, path);
      }
    }
  }

  lemma WalkSoundSingle<D(!new)>(pair: (D, D) -> D, d: seq<D>, fr: D, sr: D, path: seq<D>)
    requires |d| == 1 && EndsAt(Walk(pair, 0, 0, fr, sr, path), Mth(pair, d))
    ensures SoundFor(pair, 0, d, sr, path)
  {
    assert path == [] == Hashes(UpPath(pair, 0, d));
  }

  /** The siblings of `f` are its own sibling and then those of its parent. */
  lemma SiblingsFromUp<D>(pair: (D, D) -> D, f: nat, d: seq<D>, s: Step<D>)
    requires f < |d| && |d| > 1 && Sibling(f, d) == [s]
    ensures Hashes(UpPath(pair, f, d)) == [s.hash] + Hashes(UpPath(pair, f / 2, Up(pair, d)))
  {
    HashesCons(s, UpPath(pair, f / 2, Up(pair, d)));
  }

  lemma SiblingsPromoted<D>(pair: (D, D) -> D, f: nat, d: seq<D>)
    requires f + 1 == |d| && f % 2 == 0 && f != 0
    ensures UpPath(pair, f, d) == UpPath(pair, f / 2, Up(pair, d))
  {
    assert Sibling(f, d) == [];
    assert [] + UpPath(pair, f / 2, Up(pair, d)) == UpPath(pair, f / 2, Up(pair, d));
  }

  /** A collision one layer up is a collision here, whatever was joined first. */
  lemma LiftCollision<D(!new)>(pair: (D, D) -> D, d: seq<D>, f: nat, sn: nat, sr: D, path: seq<D>,
                               f': nat, sn': nat, sr': D, path': seq<D>)
    requires |d| > 1 && JoinsCollide(pair, Up(pair, d), f', sn', sr', path')
    requires forall p :: Walked(pair, f', sn', sr', path', p) ==> Walked(pair, f, sn, sr, path, p)
    ensures JoinsCollide(pair, d, f, sn, sr, path)
  {
    var a, b :| Joined(pair, Up(pair, d), a) && Walked(pair, f', sn', sr', path', b) && a != b
                && pair(a.0, a.1) == pair(b.0, b.1);
    assert Joined(pair, d, a) && Walked(pair, f, sn, sr, path, b);
  }

  /** Equal joined values mean equal pairs, or a collision. */
  lemma JoinPins<D(!new)>(pair: (D, D) -> D, d: seq<D>, i: nat, b: (D, D), f: nat, sn: nat, sr: D, path: seq<D>)
    requires 2 * i + 1 < |d| && Walked(pair, f, sn, sr, path, b)
    requires pair(b.0, b.1) == pair(NodePair(d, i).0, NodePair(d, i).1)
    ensures b == NodePair(d, i) || JoinsCollide(pair, d, f, sn, sr, path)
  {
    var a := NodePair(d, i);
    assert Joined(pair, d, a);
  }

  lemma WalkedLeft<D(!new)>(pair: (D, D) -> D, f: nat, sn: nat, sr: D, c: D, rest: seq<D>)
    requires f % 2 == 1
    ensures Walked(pair, f, sn, sr, [c] + rest, (c, sr))
    ensures forall p :: Walked(pair, f / 2, sn / 2, pair(c, sr), rest, p) ==> Walked(pair, f, sn, sr, [c] + rest, p)
  {
    assert ([c] + rest)[1..] == rest;
  }

  lemma WalkedRight<D(!new)>(pair: (D, D) -> D, f: nat, sn: nat, sr: D, c: D, rest: seq<D>)
    requires f % 2 == 0 && f < sn
    ensures Walked(pair, f, sn, sr, [c] + rest, (sr, c))
    ensures forall p :: Walked(pair, f / 2, sn / 2, pair(sr, c), rest, p) ==> Walked(pair, f, sn, sr, [c] + rest, p)
  {
    assert ([c] + rest)[1..] == rest;
  }

  lemma WalkedPromoted<D(!new)>(pair: (D, D) -> D, f: nat, sr: D, path: seq<D>)
    requires f % 2 == 0 && f != 0
    ensures forall p :: Walked(pair, f / 2, f / 2, sr, path, p) ==> Walked(pair, f, f, sr, path, p)
  {
    assert SkipEven(f, f) == SkipEven(f / 2, f / 2);
  }

  lemma PinLeft<D(!new)>(pair: (D, D) -> D, f: nat, d: seq<D>, sr: D, c: D, rest: seq<D>)
    requires f < |d| && f % 2 == 1 && Walked(pair, f, |d| - 1, sr, [c] + rest, (c, sr))
    requires Pinned(pair, f / 2, Up(pair, d), pair(c, sr), rest)
    ensures SoundFor(pair, f, d, sr, [c] + rest)
  {
    hide Hashes, UpPath, Walked, Up, Joined, JoinsCollide;
    UpAt(pair, d, f / 2);
    JoinPins(pair, d, f / 2, (c, sr), f, |d| - 1, sr, [c] + rest);
    SiblingsFromUp(pair, f, d, Step(d[f - 1], Left));
  }

  lemma WalkSoundLeft<D(!new)>(pair: (D, D) -> D, f: nat, d: seq<D>, sr: D, c: D, rest: seq<D>)
    requires f < |d| && f % 2 == 1
    requires SoundFor(pair, f / 2, Up(pair, d), pair(c, sr), rest)
    ensures SoundFor(pair, f, d, sr, [c] + rest)
  {
    hide Hashes, UpPath, Walked, Up, Joined, JoinsCollide;
    var up := Up(pair, d);
    assert (|d| - 1) / 2 == |up| - 1;
    WalkedLeft(pair, f, |d| - 1, sr, c, rest);
    if Pinned(pair, f / 2, up, pair(c, sr), rest) {
      PinLeft(pair, f, d, sr, c, rest);
    } else {
      LiftCollision(pair, d, f, |d| - 1, sr, [c] + rest, f / 2, |up| - 1, pair(c, sr), rest);
    }
  }

  lemma PinRight<D(!new)>(pair: (D, D) -> D, f: nat, d: seq<D>, sr: D, c: D, rest: seq<D>)
    requires f + 1 < |d| && f % 2 == 0 && Walked(pair, f, |d| - 1, sr, [c] + rest, (sr, c))
    requires Pinned(pair, f / 2, Up(pair, d), pair(sr, c), rest)
    ensures SoundFor(pair, f, d, sr, [c] + rest)
  {
    hide Hashes, UpPath, Walked, Up, Joined, JoinsCollide;
    UpAt(pair, d, f / 2);
    JoinPins(pair, d, f / 2, (sr, c), f, |d| - 1, sr, [c] + rest);
    SiblingsFromUp(pair, f, d, Step(d[f + 1], Right));
  }

  lemma WalkSoundRight<D(!new)>(pair: (D, D) -> D, f: nat, d: seq<D>, sr: D, c: D, rest: seq<D>)
    requires f + 1 < |d| && f % 2 == 0
    requires SoundFor(pair, f / 2, Up(pair, d), pair(sr, c), rest)
    ensures SoundFor(pair, f, d, sr, [c] + rest)
  {
    hide Hashes, UpPath, Walked, Up, Joined, JoinsCollide, Pinned;
    var up := Up(pair, d);
    assert (|d| - 1) / 2 == |up| - 1;
    WalkedRight(pair, f, |d| - 1, sr, c, rest);
    if Pinned(pair, f / 2, up, pair(sr, c), rest) {
      PinRight(pair, f, d, sr, c, rest);
    } else {
      LiftCollision(pair, d, f, |d| - 1, sr, [c] + rest, f / 2, |up| - 1, pair(sr, c), rest);
    }
  }

  lemma WalkSoundPromoted<D(!new)>(pair: (D, D) -> D, f: nat, d: seq<D>, sr: D, path: seq<D>)
    requires f + 1 == |d| && f % 2 == 0 && f != 0
    requires SoundFor(pair, f / 2, Up(pair, d), sr, path)
    ensures SoundFor(pair, f, d, sr, path)
  {
    hide Hashes, UpPath, Walked, Up, Joined, JoinsCollide;
    var up := Up(pair, d);
    assert |up| - 1 == f / 2;
    WalkedPromoted(pair, f, sr, path);
    if Pinned(pair, f / 2, up, sr, path) {
      UpAt(pair, d, f / 2);
      SiblingsPromoted(pair, f, d);
    } else {
      LiftCollision(pair, d, f, f, sr, path, f / 2, f / 2, sr, path);
    }
  }

  /** Where the walk starts: the seed hash and the rest of the proof list. */
  function Start<D>(m: nat, oldRoot: D, proof: seq<D>): (D, seq<D>)
    requires proof != []
  {
    if IsPowerOfTwo(m) then (oldRoot, proof) else (proof[0], proof[1..])
  }

  ghost predicate AcceptanceCollides<D(!new)>(pair: (D, D) -> D, oldRoot: D, m: nat, d: seq<D>, proof: seq<D>)
    requires 1 <= m < |d| && proof != []
  {
    var (fn, sn) := Strip(m - 1, |d| - 1);
    var (seed, path) := Start(m, oldRoot, proof);
    JoinsCollide(pair, d, fn, sn, seed, path)
  }

  /** Soundness: the old root is the root of a prefix of the log, and unless the old size was
      misjudged the proof is the prover's own list, or the walk and the tree joined two different
      pairs to one value.  Over strings that may be a collision or a moved boundary between the two
      parts; ConsistencySound tells them apart. */
  lemma AcceptedIsPrefix<D(!new)>(pair: (D, D) -> D, oldRoot: D, m: nat, d: seq<D>, proof: seq<D>)
    requires 1 <= m < |d|
    requires WalkAccepts(pair, oldRoot, m, Mth(pair, d), |d|, proof)
    ensures (oldRoot == Mth(pair, d[..m]) && (!Misjudged(m) ==> proof == Subproof(pair, m, d, true)))
         || AcceptanceCollides(pair, oldRoot, m, d, proof)
  {
    hide Walk, Hashes, InclusionPath, Subproof, Joined, Mth, UpPath, Strip, IsPow2, IsPowerOfTwo, JoinsCollide;
    var fn, e := StripTo(pair, m, d);
    var (seed, path) := Start(m, oldRoot, proof);
    WalkSound(pair, fn, e, seed, seed, path);
    if Pinned(pair, fn, e, seed, path) {
      PinnedIsHonest(pair, oldRoot, m, d, proof, fn, e);
    } else {
      JoinsCollideIn(pair, d, fn, e, seed, path);
    }
  }

  lemma PinnedIsHonest<D(!new)>(pair: (D, D) -> D, oldRoot: D, m: nat, d: seq<D>, proof: seq<D>, fn: nat, e: seq<D>)
    requires 1 <= m < |d| && Stripped(pair, m, d, fn, e) && proof != []
    requires Pinned(pair, fn, e, Start(m, oldRoot, proof).0, Start(m, oldRoot, proof).1)
    requires Walk(pair, fn, |e| - 1, Start(m, oldRoot, proof).0, Start(m, oldRoot, proof).0, Start(m, oldRoot, proof).1)
          == Some(Heads(0, oldRoot, Mth(pair, d)))
    ensures oldRoot == Mth(pair, d[..m]) && (!Misjudged(m) ==> proof == Subproof(pair, m, d, true))
  {
    hide Walk, Hashes, InclusionPath, Subproof, Joined, Mth, UpPath, IsPow2, IsPowerOfTwo;
    PowerOfTwoTest(m);
    UpPathIsPath(pair, fn, e);
    HonestWalk(pair, fn, e);
    HonestProof(pair, fn, e);
    if fn != 0 {
      assert proof == [proof[0]] + proof[1..];
    }
  }

  lemma JoinsCollideIn<D(!new)>(pair: (D, D) -> D, d: seq<D>, fn: nat, e: seq<D>, seed: D, path: seq<D>)
    requires |e| > 0 && (forall p :: Joined(pair, e, p) ==> Joined(pair, d, p))
    requires JoinsCollide(pair, e, fn, |e| - 1, seed, path)
    ensures JoinsCollide(pair, d, fn, |e| - 1, seed, path)
  {
    var a, b :| Joined(pair, e, a) && Walked(pair, fn, |e| - 1, seed, path, b) && a != b
                && pair(a.0, a.1) == pair(b.0, b.1);
    assert Joined(pair, d, a);
  }

  // ----- over digests ------------------------------------------------------

  ghost predicate AllDigests(xs: seq<string>) {
    forall i :: 0 <= i < |xs| ==> |xs[i]| == 64
  }

  /** The root of a log whose leaves are already leaf hashes. */
  function LogRoot(h: Hash, d: seq<string>): string
    requires |d| > 0
  {
    Mth(ReceiptMerkle.Pairing(h, true), d)
  }

  /** BuildConsistencyProof: nothing to show for equal sizes. */
  function ConsistencyProof(h: Hash, m: nat, d: seq<string>): seq<string>
    requires 1 <= m <= |d|
  {
    Subproof(ReceiptMerkle.Pairing(h, true), m, d, true)
  }

  lemma {:induction false} LogRootLength(h: Hash, d: seq<string>)
    requires |d| > 0 && AllDigests(d)
    ensures |LogRoot(h, d)| == 64
  {
  }

  lemma {:induction false} SubproofDigests(h: Hash, m: nat, d: seq<string>, b: bool)
    requires 1 <= m <= |d| && AllDigests(d)
    ensures AllDigests(Subproof(ReceiptMerkle.Pairing(h, true), m, d, b))
    ensures |Subproof(ReceiptMerkle.Pairing(h, true), m, d, b)| <= 1 + CeilLog2(|d|)
    decreases |d|
  {
    hide Subproof, Mth, CeilLog2, LogRoot, ReceiptMerkle.Pairing;
    var pair := ReceiptMerkle.Pairing(h, true);
    if m == |d| {
      WholeDigests(h, d, b);
    } else {
      var k := Split(|d|);
      HalvesShallower(|d|);
      if m <= k {
        SubproofDigests(h, m, d[..k], b);
        SubproofLeft(pair, m, d, b, k);
        AppendDigest(h, Subproof(pair, m, d[..k], b), d[k..]);
      } else {
        SubproofDigests(h, m - k, d[k..], false);
        SubproofRight(pair, m, d, b, k);
        AppendDigest(h, Subproof(pair, m - k, d[k..], false), d[..k]);
      }
    }
  }

  lemma WholeDigests(h: Hash, d: seq<string>, b: bool)
    requires |d| > 0 && AllDigests(d)
    ensures AllDigests(Subproof(ReceiptMerkle.Pairing(h, true), |d|, d, b))
    ensures |Subproof(ReceiptMerkle.Pairing(h, true), |d|, d, b)| <= 1
  {
    LogRootLength(h, d);
  }

  lemma AppendDigest(h: Hash, p: seq<string>, d: seq<string>)
    requires AllDigests(p) && AllDigests(d) && |d| > 0
    ensures AllDigests(p + [Mth(ReceiptMerkle.Pairing(h, true), d)])
  {
    LogRootLength(h, d);
    hide Mth;
  }

  lemma HalvesShallower(n: nat)
    requires n >= 2
    ensures CeilLog2(Split(n)) + 1 <= CeilLog2(n) && CeilLog2(n - Split(n)) + 1 <= CeilLog2(n)
  {
    hide CeilLog2, Pow2;
    SplitDepth(n);
    CeilLog2Least(Split(n), CeilLog2(n) - 1);
    CeilLog2Least(n - Split(n), CeilLog2(n) - 1);
  }

  lemma {:induction false} SplitDepth(n: nat)
    requires n >= 2
    ensures CeilLog2(n) >= 1 && Split(n) == Pow2(CeilLog2(n) - 1)
  {
    if n > 2 {
      SplitDepth((n + 1) / 2);
    }
  }

  /** An honest proof is accepted exactly when it fits the guard of 64 entries and the old size is
      judged right; every log of up to 2^63 leaves fits, and sizes up to 2^32 are judged right. */
  lemma ConsistencyRoundTrip(h: Hash, m: nat, d: seq<string>)
    requires 1 <= m <= |d| && AllDigests(d)
    ensures Accepts(h, LogRoot(h, d[..m]), m, LogRoot(h, d), |d|, ConsistencyProof(h, m, d))
       <==> |ConsistencyProof(h, m, d)| <= MAX_CONSISTENCY_STEPS && (m == |d| || !Misjudged(m))
    ensures |d| <= Pow2(63) ==> |ConsistencyProof(h, m, d)| <= MAX_CONSISTENCY_STEPS
  {
    hide WalkAccepts, Mth, Subproof, Pow2, CeilLog2, Misjudged;
    LogRootLength(h, d);
    LogRootLength(h, d[..m]);
    SubproofDigests(h, m, d, true);
    if |d| <= Pow2(63) {
      CeilLog2Least(|d|, 63);
    }
    if m == |d| {
      assert d[..m] == d;
      NoProofForEqualSizes(h, d);
    } else {
      HonestWalkAccepts(ReceiptMerkle.Pairing(h, true), m, d);
      assert forall i :: 0 <= i < |ConsistencyProof(h, m, d)| ==> ConsistencyProof(h, m, d)[i] != "";
    }
  }

  lemma NoProofForEqualSizes(h: Hash, d: seq<string>)
    requires |d| > 0
    ensures ConsistencyProof(h, |d|, d) == []
  {
  }

  ghost predicate DigestPair(p: (string, string)) {
    |p.0| == 64 && |p.1| == 64
  }

  lemma {:induction false} JoinedDigests(h: Hash, d: seq<string>, p: (string, string))
    requires AllDigests(d) && Joined(ReceiptMerkle.Pairing(h, true), d, p)
    ensures DigestPair(p)
    decreases |d|
  {
    var pair := ReceiptMerkle.Pairing(h, true);
    if exists i: nat :: 2 * i + 1 < |d| && p == NodePair(d, i) {
    } else {
      UpDigests(h, d);
      JoinedDigests(h, Up(pair, d), p);
    }
  }

  lemma {:induction false} UpDigests(h: Hash, d: seq<string>)
    requires AllDigests(d)
    ensures AllDigests(Up(ReceiptMerkle.Pairing(h, true), d))
    decreases |d|
  {
    if |d| > 1 {
      UpDigests(h, d[2..]);
    }
  }

  /** The running hash of the walk is a digest, so each joined pair holds one, whatever the proof
      entries are. */
  lemma {:induction false} WalkedDigests(h: Hash, fn: nat, sn: nat, sr: string, path: seq<string>, p: (string, string))
    requires |sr| == 64 && Walked(ReceiptMerkle.Pairing(h, true), fn, sn, sr, path, p)
    ensures |p.0| == 64 || |p.1| == 64
    decreases |path|
  {
    var pair := ReceiptMerkle.Pairing(h, true);
    if fn % 2 == 1 || fn == sn {
      var (f, s) := SkipEven(fn, sn);
      if p != (path[0], sr) {
        WalkedDigests(h, f / 2, s / 2, pair(path[0], sr), path[1..], p);
      }
    } else if p != (sr, path[0]) {
      WalkedDigests(h, fn / 2, sn / 2, pair(sr, path[0]), path[1..], p);
    }
  }

  function NodeString(p: (string, string)): string {
    ReceiptMerkle.NODE_TAG + p.0 + p.1
  }

  /** `b` is a pair the verifier joined on the way to the new root. */
  ghost predicate VerifierJoined(h: Hash, oldRoot: string, m: nat, n: nat, proof: seq<string>, b: (string, string))
    requires 1 <= m < n && proof != []
  {
    var (fn, sn) := Strip(m - 1, n - 1);
    var (seed, path) := Start(m, oldRoot, proof);
    Walked(ReceiptMerkle.Pairing(h, true), fn, sn, seed, path, b)
  }

  /** The hash the walk starts from is a digest: the first proof entry, or the old root for a size
      judged a power of two.  The verifier itself only asks that entries are not empty. */
  ghost predicate SeedIsDigest(oldRoot: string, m: int, n: int, proof: seq<string>) {
    0 < m < n && proof != [] ==> |Start(m, oldRoot, proof).0| == 64
  }

  /** A checkpoint that verifies against a log from a digest seed is the root of a prefix of that
      log and comes with the prover's own list, or two different node preimages have the same
      digest: one hashed for the log's tree, one hashed by the verifier. */
  lemma ConsistencySound(h: Hash, oldRoot: string, m: int, d: seq<string>, proof: seq<string>)
    requires |d| > 0 && AllDigests(d) && SeedIsDigest(oldRoot, m, |d|, proof)
    requires Accepts(h, oldRoot, m, LogRoot(h, d), |d|, proof)
    ensures 1 <= m <= |d|
    ensures (oldRoot == LogRoot(h, d[..m]) && (m == |d| || !Misjudged(m) ==> proof == ConsistencyProof(h, m, d)))
         || (m < |d| && proof != []
             && exists a, b :: Joined(ReceiptMerkle.Pairing(h, true), d, a)
                               && VerifierJoined(h, oldRoot, m, |d|, proof, b)
                               && Collides(h, NodeString(a), NodeString(b)))
  {
    var pair := ReceiptMerkle.Pairing(h, true);
    if m == |d| {
      assert d[..m] == d;
    } else {
      AcceptedIsPrefix(pair, oldRoot, m, d, proof);
      if AcceptanceCollides(pair, oldRoot, m, d, proof) {
        CollisionOverDigests(h, oldRoot, m, d, proof);
      }
    }
  }

  lemma CollisionOverDigests(h: Hash, oldRoot: string, m: nat, d: seq<string>, proof: seq<string>)
    requires 1 <= m < |d| && proof != [] && AllDigests(d) && SeedIsDigest(oldRoot, m, |d|, proof)
    requires AcceptanceCollides(ReceiptMerkle.Pairing(h, true), oldRoot, m, d, proof)
    ensures exists a, b :: Joined(ReceiptMerkle.Pairing(h, true), d, a)
                           && VerifierJoined(h, oldRoot, m, |d|, proof, b)
                           && Collides(h, NodeString(a), NodeString(b))
  {
    var pair := ReceiptMerkle.Pairing(h, true);
    var (fn, sn) := Strip(m - 1, |d| - 1);
    var (seed, path) := Start(m, oldRoot, proof);
    var a, b :| Joined(pair, d, a) && Walked(pair, fn, sn, seed, path, b) && a != b
                && pair(a.0, a.1) == pair(b.0, b.1);
    JoinedDigests(h, d, a);
    WalkedDigests(h, fn, sn, seed, path, b);
    hide Joined, Walked;
    NodesCollide(h, a, b);
    assert VerifierJoined(h, oldRoot, m, |d|, proof, b) && Collides(h, NodeString(a), NodeString(b));
  }

  /** Equal lengths on one side fix the boundary between the two parts. */
  lemma NodesCollide(h: Hash, a: (string, string), b: (string, string))
    requires |a.0| == 64 && |a.1| == 64 && (|b.0| == 64 || |b.1| == 64) && a != b
    requires ReceiptMerkle.Pairing(h, true)(a.0, a.1) == ReceiptMerkle.Pairing(h, true)(b.0, b.1)
    ensures Collides(h, NodeString(a), NodeString(b))
  {
    if NodeString(a) == NodeString(b) {
      assert |NodeString(a)| == 129 && |NodeString(b)| == 1 + |b.0| + |b.1|;
      ReceiptMerkle.SplitEqual(a.0, a.1, b.0, b.1);
    }
  }
}
