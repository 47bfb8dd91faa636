/** Why the seed of a consistency proof must be a digest.  The verifier of
    packages/verify/src/consistency.ts takes entries of any length, and a node hash does not mark
    where its left part ends, so one character can be moved from the second entry to the first. */
module ConsistencyForgery {
  import opened Common
  import opened MerkleShape
  import opened Consistency
  import ReceiptMerkle

  /** The honest list with one character moved across the first join. */
  function ShiftedProof(m: nat, p: seq<string>): (r: seq<string>)
    requires |p| >= 2 || (IsPowerOfTwo(m) && |p| >= 1)
    requires forall i :: 0 <= i < |p| ==> |p[i]| == 64
    ensures |r| == |p| && r != []
  {
    if IsPowerOfTwo(m) then [p[0][1..]] + p[1..] else [p[0] + p[1][..1], p[1][1..]] + p[2..]
  }

  // ----- pairs joined on the way to the old root ---------------------------

  ghost predicate OldWalked<D>(pair: (D, D) -> D, fn: nat, sn: nat, fr: D, path: seq<D>, p: (D, D))
    decreases |path|
  {
    path != [] &&
    if fn % 2 == 1 || fn == sn then
      var (f, s) := SkipEven(fn, sn);
      p == (path[0], fr) || OldWalked(pair, f / 2, s / 2, pair(path[0], fr), path[1..], p)
    else
      OldWalked(pair, fn / 2, sn / 2, fr, path[1..], p)
  }

  /** Two walks over one path that start apart and end in one old root join, at some point, two
      different pairs to one value. */
  lemma {:induction false} OldWalksMeet<D(!new)>(pair: (D, D) -> D, fn: nat, sn: nat, fr: D, fr': D, sr: D,
                                          path: seq<D>)
    returns (a: (D, D), b: (D, D))
    requires fr != fr' && Walk(pair, fn, sn, fr, sr, path).Some? && Walk(pair, fn, sn, fr', sr, path).Some?
    requires Walk(pair, fn, sn, fr, sr, path).value.fr == Walk(pair, fn, sn, fr', sr, path).value.fr
    ensures OldWalked(pair, fn, sn, fr, path, a) && OldWalked(pair, fn, sn, fr', path, b)
    ensures a.0 == b.0 && a.1 != b.1 && pair(a.0, a.1) == pair(b.0, b.1)
    decreases |path|
  {
    if fn % 2 == 1 || fn == sn {
      var (f, s) := SkipEven(fn, sn);
      var c := path[0];
      if pair(c, fr) == pair(c, fr') {
        a, b := (c, fr), (c, fr');
      } else {
        a, b := OldWalksMeet(pair, f / 2, s / 2, pair(c, fr), pair(c, fr'), pair(c, sr), path[1..]);
      }
    } else {
      a, b := OldWalksMeet(pair, fn / 2, sn / 2, fr, fr', pair(sr, path[0]), path[1..]);
    }
  }

  // ----- the old hash along a path -----------------------------------------

  /** The first node has no left sibling anywhere. */
  lemma {:induction false} FirstKeepsSeed<D>(pair: (D, D) -> D, d: seq<D>, fr: D)
    requires |d| > 0
    ensures FoldLefts(pair, fr, UpPath(pair, 0, d)) == fr
    decreases |d|
  {
    UpPathStep(pair, 0, d);
    if |d| > 1 {
      hide UpPath, Up;
      FirstKeepsSeed(pair, Up(pair, d), fr);
      FoldCons(pair, fr, fr, Step(d[1], Right), UpPath(pair, 0, Up(pair, d)));
    }
  }

  lemma {:induction false} FoldLeftsDigest(h: Hash, fr: string, p: seq<Step<string>>)
    requires |fr| == 64
    ensures |FoldLefts(ReceiptMerkle.Pairing(h, true), fr, p)| == 64
    decreases |p|
  {
    var pair := ReceiptMerkle.Pairing(h, true);
    if p != [] {
      FoldLeftsDigest(h, if p[0].position == Left then pair(p[0].hash, fr) else fr, p[1..]);
    }
  }

  /** Every other node has one, so its old hash is a digest whatever it started from. */
  lemma {:induction false} OthersEndInDigest(h: Hash, f: nat, d: seq<string>, fr: string)
    requires 0 < f < |d|
    ensures |FoldLefts(ReceiptMerkle.Pairing(h, true), fr, UpPath(ReceiptMerkle.Pairing(h, true), f, d))| == 64
    decreases |d|
  {
    var pair := ReceiptMerkle.Pairing(h, true);
    UpPathStep(pair, f, d);
    hide UpPath, Up;
    var q := UpPath(pair, f / 2, Up(pair, d));
    if f % 2 == 1 {
      FoldCons(pair, fr, fr, Step(d[f - 1], Left), q);
      FoldLeftsDigest(h, pair(d[f - 1], fr), q);
    } else {
      OthersEndInDigest(h, f / 2, Up(pair, d), fr);
      if f + 1 < |d| {
        FoldCons(pair, fr, fr, Step(d[f + 1], Right), q);
      }
    }
  }

  // ----- the forgery -------------------------------------------------------

  /** Any seed and entry that join to the same value as node `f` and its right sibling lead to
      the same new root. */
  lemma ShiftedWalk<D(!new)>(pair: (D, D) -> D, f: nat, e: seq<D>, seed: D, c: D)
    requires f + 1 < |e| && f % 2 == 0 && pair(seed, c) == pair(e[f], e[f + 1])
    ensures var rest := UpPath(pair, f / 2, Up(pair, e));
            Walk(pair, f, |e| - 1, seed, seed, [c] + Hashes(rest))
              == Some(Heads(0, FoldLefts(pair, seed, rest), Mth(pair, e)))
            && Hashes(UpPath(pair, f, e)) == [e[f + 1]] + Hashes(rest)
  {
    hide UpPath, Up, Walk, Fold, FoldLefts, Hashes, Mth;
    NewRootAbove(pair, f, e);
    WalkAbove(pair, f, e, seed, c);
  }

  lemma NewRootAbove<D(!new)>(pair: (D, D) -> D, f: nat, e: seq<D>)
    requires f + 1 < |e| && f % 2 == 0
    ensures var rest := UpPath(pair, f / 2, Up(pair, e));
            Fold(pair, pair(e[f], e[f + 1]), rest) == Mth(pair, e)
              && Hashes(UpPath(pair, f, e)) == [e[f + 1]] + Hashes(rest)
  {
    hide UpPath, Up, Fold, FoldLefts, Hashes, Mth, InclusionPath;
    var rest := UpPath(pair, f / 2, Up(pair, e));
    UpPathStep(pair, f, e);
    HashesCons(Step(e[f + 1], Right), rest);
    FoldCons(pair, e[f], e[f], Step(e[f + 1], Right), rest);
    UpPathIsPath(pair, f, e);
    PathFolds(pair, f, e);
  }

  lemma WalkAbove<D(!new)>(pair: (D, D) -> D, f: nat, e: seq<D>, seed: D, c: D)
    requires f + 1 < |e| && f % 2 == 0
    ensures var rest := UpPath(pair, f / 2, Up(pair, e));
            Walk(pair, f, |e| - 1, seed, seed, [c] + Hashes(rest))
            == Some(Heads(0, FoldLefts(pair, seed, rest), Fold(pair, pair(seed, c), rest)))
  {
    hide UpPath, Up, Walk, Fold, FoldLefts, Hashes;
    var up := Up(pair, e);
    var rest := UpPath(pair, f / 2, up);
    WalkRight(pair, f, |e| - 1, seed, seed, c, Hashes(rest));
    WalkOnPath(pair, f / 2, up, seed, pair(seed, c));
    DrainsTo(pair, f / 2, |up| - 1, seed, pair(seed, c), rest);
  }

  lemma DrainsTo<D(!new)>(pair: (D, D) -> D, f: nat, sn: nat, fr: D, sr: D, p: seq<Step<D>>)
    requires WalkDrains(pair, f, sn, fr, sr, p)
    ensures Walk(pair, f, sn, fr, sr, Hashes(p)) == Some(Heads(0, FoldLefts(pair, fr, p), Fold(pair, sr, p)))
  {
  }

  /** `p` is a pair the verifier joins on the way to the old root. */
  ghost predicate OldJoined(h: Hash, oldRoot: string, m: nat, n: nat, proof: seq<string>, p: (string, string))
    requires 1 <= m < n && proof != []
  {
    var (fn, sn) := Strip(m - 1, n - 1);
    var (seed, path) := Start(m, oldRoot, proof);
    OldWalked(ReceiptMerkle.Pairing(h, true), fn, sn, seed, path, p)
  }

  /** The shifted proof of an old root checks with a collision: two different strings hashed on
      the way to the old root, one with the shifted list and one with the honest one. */
  ghost predicate ForgeryCollides(h: Hash, oldRoot: string, m: nat, n: nat, shifted: seq<string>, honest: seq<string>)
    requires 1 <= m < n && shifted != [] && honest != []
  {
    exists a, b :: OldJoined(h, oldRoot, m, n, shifted, a) && OldJoined(h, oldRoot, m, n, honest, b)
                   && Collides(h, NodeString(a), NodeString(b))
  }

  /** The honest list in pieces: `x` is the old tree's last node in the layer where it stands alone,
      `y` its right sibling there, and `rest` the entries above. */
  ghost predicate Pieces(h: Hash, m: nat, d: seq<string>, fn: nat, sn: nat, x: string, y: string, rest: seq<string>) {
    && 1 <= m < |d| && fn < sn && fn % 2 == 0 && Strip(m - 1, |d| - 1) == (fn, sn)
    && (IsPowerOfTwo(m) <==> fn == 0)
    && |x| == 64 && |y| == 64 && AllDigests(rest)
    && Walk(ReceiptMerkle.Pairing(h, true), fn, sn, x, x, [y] + rest)
      == Some(Heads(0, LogRoot(h, d[..m]), LogRoot(h, d)))
    && ConsistencyProof(h, m, d) == if IsPowerOfTwo(m) then [y] + rest else [x] + ([y] + rest)
  }

  lemma PiecesOf(h: Hash, m: nat, d: seq<string>) returns (fn: nat, e: seq<string>)
    requires 1 <= m < |d| && AllDigests(d) && !Misjudged(m)
    ensures var pair := ReceiptMerkle.Pairing(h, true);
            fn + 1 < |e| && Mth(pair, e) == LogRoot(h, d)
            && Pieces(h, m, d, fn, |e| - 1, e[fn], e[fn + 1], Hashes(UpPath(pair, fn / 2, Up(pair, e))))
  {
    var pair := ReceiptMerkle.Pairing(h, true);
    fn, e := StripTo(pair, m, d);
    PowerOfTwoTest(m);
    SubproofDigests(h, m, d, true);
    LogRootLength(h, d[..m]);
    hide Strip, IsPow2, IsPowerOfTwo, Subproof, Mth, Walk, UpPath, Up, Hashes, InclusionPath, Joined;
    UpPathIsPath(pair, fn, e);
    HonestWalk(pair, fn, e);
    HonestProof(pair, fn, e);
    ShiftedWalk(pair, fn, e, e[fn], e[fn + 1]);
    ProofPieces(ConsistencyProof(h, m, d), e[fn], e[fn + 1], Hashes(UpPath(pair, fn / 2, Up(pair, e))), fn == 0);
  }

  /** The entries of the list are digests, so its first two parts are. */
  lemma ProofPieces(p: seq<string>, x: string, y: string, rest: seq<string>, first: bool)
    requires AllDigests(p) && p != []
    requires if first then p == [y] + rest && |x| == 64 else p[0] == x && p[1..] == [y] + rest
    ensures |x| == 64 && |y| == 64 && AllDigests(rest) && p == if first then [y] + rest else [x] + ([y] + rest)
  {
    var k := if first then 1 else 2;
    assert p[k - 1] == y && forall i :: 0 <= i < |rest| ==> rest[i] == p[k + i];
  }

  /** What moving one character does to a list in pieces. */
  lemma ShiftPieces(m: nat, x: string, y: string, rest: seq<string>, oldRoot: string)
    requires |x| == 64 && |y| == 64 && AllDigests(rest)
    ensures var honest := if IsPowerOfTwo(m) then [y] + rest else [x] + ([y] + rest);
            var (seed, c) := (x + y[..1], y[1..]);
            AllDigests(honest) && (|honest| >= 2 || (IsPowerOfTwo(m) && |honest| >= 1))
            && (var shifted := ShiftedProof(m, honest);
                && (forall i :: 0 <= i < |shifted| ==> shifted[i] != "")
                && Start(m, oldRoot, shifted) == (if IsPowerOfTwo(m) then oldRoot else seed, [c] + rest)
                && Start(m, oldRoot, honest) == (if IsPowerOfTwo(m) then oldRoot else x, [y] + rest))
  {
    hide IsPowerOfTwo;
    var honest := if IsPowerOfTwo(m) then [y] + rest else [x] + ([y] + rest);
    var (seed, c) := (x + y[..1], y[1..]);
    if IsPowerOfTwo(m) {
      assert honest[1..] == rest;
    } else {
      assert honest[2..] == rest && honest[1..] == [y] + rest && honest[1] == y;
      assert ([seed, c] + rest)[1..] == [c] + rest;
    }
  }

  /** One character moved leaves the joined string, and so the joined hash, as it was. */
  lemma SameJoin(h: Hash, x: string, y: string)
    requires |y| > 0
    ensures ReceiptMerkle.Pairing(h, true)(x + y[..1], y[1..]) == ReceiptMerkle.Pairing(h, true)(x, y)
  {
    assert ReceiptMerkle.NODE_TAG + (x + y[..1]) + y[1..] == ReceiptMerkle.NODE_TAG + x + y by {
      assert y == y[..1] + y[1..];
    }
  }

  /** The shifted list proves `oldRoot` although it is not the root of the prefix: its length is
      wrong, or it could only be that root through a collision. */
  ghost predicate Forges(h: Hash, m: nat, d: seq<string>, oldRoot: string)
    requires 1 <= m < |d|
  {
    var honest := ConsistencyProof(h, m, d);
    && AllDigests(honest) && (|honest| >= 2 || (IsPowerOfTwo(m) && |honest| >= 1))
    && (var shifted := ShiftedProof(m, honest);
        && Accepts(h, oldRoot, m, LogRoot(h, d), |d|, shifted)
        && |Start(m, oldRoot, shifted).0| == 65
        && (if IsPowerOfTwo(m) then |oldRoot| == 65 && oldRoot != LogRoot(h, d[..m])
            else |oldRoot| == 64
                 && (oldRoot == LogRoot(h, d[..m]) ==> ForgeryCollides(h, oldRoot, m, |d|, shifted, honest))))
  }

  /** At every old size the verifier judges right, a list whose seed is one character longer than
      a digest is accepted against the log's own root.  For sizes that are no power of two the old
      root it proves is a digest, and it is the root of the prefix only if a collision is shown. */
  lemma SeedLengthMatters(h: Hash, m: nat, d: seq<string>) returns (oldRoot: string)
    requires 1 <= m < |d| && AllDigests(d) && !Misjudged(m)
    requires |ConsistencyProof(h, m, d)| <= MAX_CONSISTENCY_STEPS
    ensures Forges(h, m, d, oldRoot)
  {
    hide Pieces, Forges, UpPath, Up, Hashes, Walk, Mth, Subproof, IsPowerOfTwo, Strip, ReceiptMerkle.Pairing;
    var pair := ReceiptMerkle.Pairing(h, true);
    var fn, e := PiecesOf(h, m, d);
    PiecesShape(h, m, d, fn, |e| - 1, e[fn], e[fn + 1], Hashes(UpPath(pair, fn / 2, Up(pair, e))));
    oldRoot := ForgedRoot(h, fn, e);
    WalkForges(h, m, d, fn, |e| - 1, e[fn], e[fn + 1], Hashes(UpPath(pair, fn / 2, Up(pair, e))), oldRoot);
  }

  lemma ForgedRoot(h: Hash, fn: nat, e: seq<string>) returns (oldRoot: string)
    requires fn + 1 < |e| && fn % 2 == 0 && |e[fn]| == 64 && |e[fn + 1]| == 64
    ensures var pair := ReceiptMerkle.Pairing(h, true);
            var (seed, c) := (e[fn] + e[fn + 1][..1], e[fn + 1][1..]);
            Walk(pair, fn, |e| - 1, seed, seed, [c] + Hashes(UpPath(pair, fn / 2, Up(pair, e))))
            == Some(Heads(0, oldRoot, Mth(pair, e)))
            && (if fn == 0 then oldRoot == seed else |oldRoot| == 64)
  {
    var pair := ReceiptMerkle.Pairing(h, true);
    var seed, c, above := e[fn] + e[fn + 1][..1], e[fn + 1][1..], UpPath(pair, fn / 2, Up(pair, e));
    SameJoin(h, e[fn], e[fn + 1]);
    hide UpPath, Up, Hashes, Walk, Mth, FoldLefts, ReceiptMerkle.Pairing;
    ShiftedWalk(pair, fn, e, seed, c);
    oldRoot := FoldLefts(pair, seed, above);
    if fn == 0 {
      FirstKeepsSeed(pair, Up(pair, e), seed);
    } else {
      OthersEndInDigest(h, fn / 2, Up(pair, e), seed);
    }
  }

  lemma WalkForges(h: Hash, m: nat, d: seq<string>, fn: nat, sn: nat, x: string, y: string, rest: seq<string>,
                   oldRoot: string)
    requires Pieces(h, m, d, fn, sn, x, y, rest) && AllDigests(d)
    requires |ConsistencyProof(h, m, d)| <= MAX_CONSISTENCY_STEPS
    requires Walk(ReceiptMerkle.Pairing(h, true), fn, sn, x + y[..1], x + y[..1], [y[1..]] + rest)
          == Some(Heads(0, oldRoot, LogRoot(h, d)))
    requires if fn == 0 then oldRoot == x + y[..1] else |oldRoot| == 64
    ensures Forges(h, m, d, oldRoot)
  {
    hide Pieces, IsPowerOfTwo, Walk, ConsistencyProof, LogRoot, Accepts, ForgeryCollides, Start, ShiftedProof;
    PiecesShape(h, m, d, fn, sn, x, y, rest);
    LogRootLength(h, d[..m]);
    ShiftedAccepted(h, m, d, fn, sn, x, y, rest, oldRoot);
    if fn != 0 && oldRoot == LogRoot(h, d[..m]) {
      ForgedMeets(h, m, d, fn, sn, x, y, rest, oldRoot);
    }
  }

  lemma PiecesShape(h: Hash, m: nat, d: seq<string>, fn: nat, sn: nat, x: string, y: string, rest: seq<string>)
    requires Pieces(h, m, d, fn, sn, x, y, rest)
    ensures |x| == 64 && |y| == 64 && fn % 2 == 0 && (IsPowerOfTwo(m) <==> fn == 0) && 1 <= m < |d|
    ensures AllDigests(ConsistencyProof(h, m, d))
    ensures |ConsistencyProof(h, m, d)| >= 2 || (IsPowerOfTwo(m) && |ConsistencyProof(h, m, d)| >= 1)
  {
    hide Strip, IsPowerOfTwo, Walk, ConsistencyProof, LogRoot;
    ShiftPieces(m, x, y, rest, x);
  }

  lemma ShiftedAccepted(h: Hash, m: nat, d: seq<string>, fn: nat, sn: nat, x: string, y: string, rest: seq<string>,
                        oldRoot: string)
    requires Pieces(h, m, d, fn, sn, x, y, rest) && AllDigests(ConsistencyProof(h, m, d)) && AllDigests(d)
    requires 1 <= |ConsistencyProof(h, m, d)| <= MAX_CONSISTENCY_STEPS
    requires |ConsistencyProof(h, m, d)| >= 2 || IsPowerOfTwo(m)
    requires Walk(ReceiptMerkle.Pairing(h, true), fn, sn, x + y[..1], x + y[..1], [y[1..]] + rest)
          == Some(Heads(0, oldRoot, LogRoot(h, d)))
    requires oldRoot != "" && (fn == 0 ==> oldRoot == x + y[..1])
    ensures Accepts(h, oldRoot, m, LogRoot(h, d), |d|, ShiftedProof(m, ConsistencyProof(h, m, d)))
    ensures |Start(m, oldRoot, ShiftedProof(m, ConsistencyProof(h, m, d))).0| == 65
  {
    hide Strip, IsPowerOfTwo, Walk, ConsistencyProof, LogRoot, ShiftedProof, Start, Accepts, ReceiptMerkle.Pairing;
    ShiftPieces(m, x, y, rest, oldRoot);
    LogRootLength(h, d);
    var shifted := ShiftedProof(m, ConsistencyProof(h, m, d));
    var seed, path := x + y[..1], [y[1..]] + rest;
    assert Start(m, oldRoot, shifted) == (seed, path) && |seed| == 65;
    AcceptsFrom(h, oldRoot, m, LogRoot(h, d), |d|, shifted, fn, sn, seed, path);
  }

  lemma AcceptsFrom(h: Hash, oldRoot: string, m: nat, newRoot: string, n: nat, proof: seq<string>, fn: nat, sn: nat,
                    seed: string, path: seq<string>)
    requires 0 < m < n && 0 < |proof| <= MAX_CONSISTENCY_STEPS && oldRoot != "" && newRoot != ""
    requires forall i :: 0 <= i < |proof| ==> proof[i] != ""
    requires Strip(m - 1, n - 1) == (fn, sn) && Start(m, oldRoot, proof) == (seed, path)
    requires Walk(ReceiptMerkle.Pairing(h, true), fn, sn, seed, seed, path) == Some(Heads(0, oldRoot, newRoot))
    ensures Accepts(h, oldRoot, m, newRoot, n, proof)
  {
    hide Strip, IsPowerOfTwo, Walk;
    WalkAcceptsFrom(ReceiptMerkle.Pairing(h, true), oldRoot, m, newRoot, n, proof, fn, sn, seed, path);
  }

  lemma ForgedMeets(h: Hash, m: nat, d: seq<string>, fn: nat, sn: nat, x: string, y: string, rest: seq<string>,
                    oldRoot: string)
    requires Pieces(h, m, d, fn, sn, x, y, rest) && fn != 0 && oldRoot == LogRoot(h, d[..m])
    requires AllDigests(ConsistencyProof(h, m, d)) && |ConsistencyProof(h, m, d)| >= 2
    requires Walk(ReceiptMerkle.Pairing(h, true), fn, sn, x + y[..1], x + y[..1], [y[1..]] + rest)
          == Some(Heads(0, oldRoot, LogRoot(h, d)))
    ensures ForgeryCollides(h, oldRoot, m, |d|, ShiftedProof(m, ConsistencyProof(h, m, d)), ConsistencyProof(h, m, d))
  {
    var pair := ReceiptMerkle.Pairing(h, true);
    var seed, c := x + y[..1], y[1..];
    SameJoin(h, x, y);
    hide IsPowerOfTwo;
    ShiftPieces(m, x, y, rest, oldRoot);
    var shifted := ShiftedProof(m, ConsistencyProof(h, m, d));
    hide Strip, IsPowerOfTwo, Walk, OldWalked, LogRoot, ConsistencyProof, ShiftedProof, Start;
    WalkRight(pair, fn, sn, seed, seed, c, rest);
    WalkRight(pair, fn, sn, x, x, y, rest);
    var a, b := OldWalksMeet(pair, fn / 2, sn / 2, seed, x, pair(x, y), rest);
    OldWalkedRight(pair, fn, sn, seed, c, rest, a);
    OldWalkedRight(pair, fn, sn, x, y, rest, b);
    assert OldJoined(h, oldRoot, m, |d|, shifted, a) && OldJoined(h, oldRoot, m, |d|, ConsistencyProof(h, m, d), b);
    SamePrefixCollides(h, a, b);
  }

  lemma OldWalkedRight<D(!new)>(pair: (D, D) -> D, f: nat, sn: nat, fr: D, c: D, rest: seq<D>, p: (D, D))
    requires f % 2 == 0 && f < sn && OldWalked(pair, f / 2, sn / 2, fr, rest, p)
    ensures OldWalked(pair, f, sn, fr, [c] + rest, p)
  {
    assert ([c] + rest)[1..] == rest;
  }

  lemma SamePrefixCollides(h: Hash, a: (string, string), b: (string, string))
    requires a.0 == b.0 && a.1 != b.1
    requires ReceiptMerkle.Pairing(h, true)(a.0, a.1) == ReceiptMerkle.Pairing(h, true)(b.0, b.1)
    ensures Collides(h, NodeString(a), NodeString(b))
  {
    if NodeString(a) == NodeString(b) {
      ReceiptMerkle.SplitEqual(a.0, a.1, b.0, b.1);
    }
  }

  /** The smallest case: a log of four entries and a forged checkpoint of three. */
  lemma FourEntryForgery(h: Hash, d: seq<string>)
    requires |d| == 4 && AllDigests(d)
    ensures var pair := ReceiptMerkle.Pairing(h, true);
            var left := pair(d[0], d[1]);
            Accepts(h, pair(left, d[2] + d[3][..1]), 3, LogRoot(h, d), 4, [d[2] + d[3][..1], d[3][1..], left])
            && LogRoot(h, d[..3]) == pair(left, d[2])
  {
    var pair := ReceiptMerkle.Pairing(h, true);
    var left, seed, c := pair(d[0], d[1]), d[2] + d[3][..1], d[3][1..];
    SameJoin(h, d[2], d[3]);
    FourEntryRoots(h, d);
    FourEntryWalk(pair, seed, c, left);
    PowerOfTwoTest(3);
    hide Mth, IsPowerOfTwo, Walk, LogRoot, Strip;
    var proof := [seed, c, left];
    assert proof[1..] == [c, left];
    WalkAcceptsFrom(pair, pair(left, seed), 3, LogRoot(h, d), 4, proof, 2, 3, seed, [c, left]);
  }

  lemma FourEntryRoots(h: Hash, d: seq<string>)
    requires |d| == 4
    ensures var pair := ReceiptMerkle.Pairing(h, true);
            LogRoot(h, d) == pair(pair(d[0], d[1]), pair(d[2], d[3]))
            && LogRoot(h, d[..3]) == pair(pair(d[0], d[1]), d[2])
  {
    var pair := ReceiptMerkle.Pairing(h, true);
    var a, b, t := d[..2], d[2..], d[..3];
    assert a[..1] == [d[0]] && a[1..] == [d[1]] && b[..1] == [d[2]] && b[1..] == [d[3]];
    assert t[..2] == a && t[2..] == [d[2]];
    assert Split(4) == 2 && Split(3) == 2 && Split(2) == 1;
    assert Mth(pair, a) == pair(d[0], d[1]) && Mth(pair, b) == pair(d[2], d[3]);
  }

  lemma FourEntryWalk<D(!new)>(pair: (D, D) -> D, seed: D, c: D, left: D)
    ensures Strip(2, 3) == (2, 3)
    ensures Walk(pair, 2, 3, seed, seed, [c, left]) == Some(Heads(0, pair(left, seed), pair(left, pair(seed, c))))
  {
    assert [c, left] == [c] + [left] && [left] == [left] + [];
    WalkRight(pair, 2, 3, seed, seed, c, [left]);
    WalkLeft(pair, 1, 1, seed, pair(seed, c), left, []);
  }
}
