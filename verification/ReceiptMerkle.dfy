/** The receipt-batch Merkle tree of lib/blockchain.ts in both of its versions:
    v1 pairs in sorted order, v2 tags leaves and nodes and pairs by position. */
module ReceiptMerkle {
  import opened Common
  import opened Unicode
  import opened MerkleShape

  const LEAF_TAG: string := "\0"
  const NODE_TAG: string := "\U{1}"
  const MAX_PROOF_STEPS := 20
  const MAX_BATCH := 1000

  datatype Algorithm = MerkleV1 | MerkleV2
  datatype Tree = Tree(root: Option<string>, layers: seq<seq<string>>, leafCount: nat, alg: Algorithm)

  function HashPair(h: Hash, a: string, b: string): Digest {
    if StringLe(a, b) then h(a + b) else h(b + a)
  }

  function HashLeafV2(h: Hash, leaf: string): Digest {
    h(LEAF_TAG + leaf)
  }

  function HashPairV2(h: Hash, left: string, right: string): Digest {
    h(NODE_TAG + left + right)
  }

  function Pairing(h: Hash, v2: bool): (string, string) -> string {
    if v2 then (l, r) => HashPairV2(h, l, r) else (a, b) => HashPair(h, a, b)
  }

  function TreeLeaf(h: Hash, v2: bool, leaf: string): string {
    if v2 then HashLeafV2(h, leaf) else leaf
  }

  function TreeLeaves(h: Hash, v2: bool, leafHashes: seq<string>): (r: seq<string>)
    ensures |r| == |leafHashes|
  {
    seq(|leafHashes|, i requires 0 <= i < |leafHashes| => TreeLeaf(h, v2, leafHashes[i]))
  }

  /** The RFC 6962 root over the tree leaves. */
  function Root(h: Hash, v2: bool, leafHashes: seq<string>): string
    requires |leafHashes| > 0
  {
    Mth(Pairing(h, v2), TreeLeaves(h, v2, leafHashes))
  }

  /** The RFC 6962 audit path of leaf `i`. */
  function Path(h: Hash, v2: bool, leafHashes: seq<string>, i: nat): seq<Step<string>>
    requires i < |leafHashes|
  {
    InclusionPath(Pairing(h, v2), i, TreeLeaves(h, v2, leafHashes))
  }

  // ----- the three operations ----------------------------------------------

  method BuildMerkleTree(h: Hash, leafHashes: seq<string>, v2: bool) returns (tree: Tree)
    ensures tree.alg == if v2 then MerkleV2 else MerkleV1
    ensures tree.leafCount == |leafHashes|
    ensures leafHashes == [] ==> tree.root == None && tree.layers == []
    ensures leafHashes != [] ==> tree.root == Some(Root(h, v2, leafHashes))
    ensures leafHashes != [] ==> tree.layers == Layers(Pairing(h, v2), TreeLeaves(h, v2, leafHashes))
  {
    var alg := if v2 then MerkleV2 else MerkleV1;
    if leafHashes == [] {
      return Tree(None, [], 0, alg);
    }
    var pair := Pairing(h, v2);
    var treeLeaves := TreeLeaves(h, v2, leafHashes);
    var layers := [treeLeaves];
    var current := treeLeaves;
    while |current| > 1
      invariant |current| >= 1
      invariant Mth(pair, current) == Mth(pair, treeLeaves)
      invariant layers + Layers(pair, current)[1..] == Layers(pair, treeLeaves)
      decreases |current|
    {
      var next := NextLayer(pair, current);
      MthUp(pair, current);
      LayersGrow(pair, layers, current);
      layers := layers + [next];
      current := next;
    }
    return Tree(Some(current[0]), layers, |treeLeaves|, alg);
  }

  lemma LayersGrow<D>(pair: (D, D) -> D, done: seq<seq<D>>, current: seq<D>)
    requires |current| > 1
    ensures done + Layers(pair, current)[1..]
         == done + [Up(pair, current)] + Layers(pair, Up(pair, current))[1..]
  {
    hide Up;
    var next := Layers(pair, Up(pair, current));
    assert Layers(pair, current) == [current] + next;
    hide Layers;
    LayersReassociate(done, current, Up(pair, current), next);
  }

  lemma LayersReassociate<T>(done: seq<T>, first: T, second: T, next: seq<T>)
    requires next != [] && next[0] == second
    ensures done + ([first] + next)[1..] == done + [second] + next[1..]
  {
    assert ([first] + next)[1..] == next == [second] + next[1..];
  }

  method NextLayer<D>(pair: (D, D) -> D, layer: seq<D>) returns (next: seq<D>)
    ensures next == Up(pair, layer)
  {
    next := [];
    var i := 0;
    while i < |layer|
      invariant 0 <= i <= |layer| + 1
      invariant i <= |layer| ==> next + Up(pair, layer[i..]) == Up(pair, layer)
      invariant i > |layer| ==> next == Up(pair, layer)
    {
      var rest := layer[i..];
      if i + 1 < |layer| {
        assert Up(pair, rest) == [pair(rest[0], rest[1])] + Up(pair, rest[2..]);
        assert rest[2..] == layer[i + 2..];
        Reassociate(next, [pair(rest[0], rest[1])], Up(pair, rest[2..]));
        next := next + [pair(layer[i], layer[i + 1])];
      } else {
        assert rest == [layer[i]];
        next := next + [layer[i]];
      }
      i := i + 2;
    }
  }

  method GenerateMerkleProof(layers: seq<seq<string>>, leafIndex: int)
    returns (r: Option<seq<Step<string>>>)
    ensures r.None? <==> layers == [] || leafIndex < 0 || leafIndex >= |layers[0]|
    ensures r.Some? ==> r.value == ProofFrom(layers, leafIndex)
  {
    if layers == [] || leafIndex < 0 || leafIndex >= |layers[0]| {
      return None;
    }
    hide ProofFrom;
    var proof: seq<Step<string>> := [];
    var index: nat := leafIndex;
    var i := 0;
    assert layers[0..] == layers && proof + ProofFrom(layers, leafIndex) == ProofFrom(layers, leafIndex);
    while i < |layers| - 1
      invariant 0 <= i <= |layers| - 1
      invariant proof + ProofFrom(layers[i..], index) == ProofFrom(layers, leafIndex)
    {
      var layer := layers[i];
      var isRight := index % 2 == 1;
      var siblingIndex := if isRight then index - 1 else index + 1;
      ProofGrows(layers, leafIndex, proof, i, index);
      if siblingIndex < |layer| {
        proof := proof + [Step(layer[siblingIndex], if isRight then Left else Right)];
      }
      index := index / 2;
      i := i + 1;
    }
    ProofFromEnd(layers, i, index);
    return Some(proof);
  }

  lemma ProofGrows(layers: seq<seq<string>>, leafIndex: nat, proof: seq<Step<string>>, i: nat, index: nat)
    requires i < |layers| - 1 && proof + ProofFrom(layers[i..], index) == ProofFrom(layers, leafIndex)
    ensures (proof + Sibling(index, layers[i])) + ProofFrom(layers[i + 1..], index / 2) == ProofFrom(layers, leafIndex)
    ensures Sibling(index, layers[i]) == [] ==> proof + Sibling(index, layers[i]) == proof
  {
    assert ProofFrom(layers[i..], index) == Sibling(index, layers[i]) + ProofFrom(layers[i + 1..], index / 2) by {
      assert layers[i..][1..] == layers[i + 1..];
    }
    hide ProofFrom, Sibling;
    Reassociate(proof, Sibling(index, layers[i]), ProofFrom(layers[i + 1..], index / 2));
  }

  lemma ProofFromEnd(layers: seq<seq<string>>, i: nat, index: nat)
    requires i == |layers| - 1
    ensures ProofFrom(layers[i..], index) == []
  {
  }

  /** What the verifier accepts. */
  ghost predicate Accepts(h: Hash, v2: bool, leafHash: string, proof: seq<Step<string>>, root: string) {
    leafHash != "" && root != "" && |proof| <= MAX_PROOF_STEPS
    && (forall i :: 0 <= i < |proof| ==> WellFormedStep(proof[i]))
    && Fold(Pairing(h, v2), TreeLeaf(h, v2, leafHash), proof) == root
  }

  predicate WellFormedStep(step: Step<string>) {
    step.hash != "" && step.position != Other
  }

  method VerifyMerkleProof(h: Hash, leafHash: string, proof: seq<Step<string>>, expectedRoot: string, v2: bool)
    returns (ok: bool)
    ensures ok <==> Accepts(h, v2, leafHash, proof, expectedRoot)
  {
    if leafHash == "" || expectedRoot == "" || |proof| > MAX_PROOF_STEPS {
      return false;
    }
    var pair := Pairing(h, v2);
    var current := TreeLeaf(h, v2, leafHash);
    var i := 0;
    while i < |proof|
      invariant 0 <= i <= |proof|
      invariant forall j :: 0 <= j < i ==> WellFormedStep(proof[j])
      invariant Fold(pair, current, proof[i..]) == Fold(pair, TreeLeaf(h, v2, leafHash), proof)
    {
      var step := proof[i];
      if step.hash == "" || step.position == Other {
        assert !WellFormedStep(proof[i]);
        return false;
      }
      assert proof[i..][1..] == proof[i + 1..];
      current := if step.position == Left then pair(step.hash, current) else pair(current, step.hash);
      i := i + 1;
    }
    return current == expectedRoot;
  }

  // ----- what is hashed ----------------------------------------------------

  /** The digest of two children: of the smaller text before the larger in v1, of the left before the right, after a
      byte 1, in v2. */
  ghost predicate IsParent(h: Hash, v2: bool, left: string, right: string, parent: string) {
    if v2 then parent == h(['\U{1}'] + left + right)
    else if Precedes(Utf16(Codes(left)), Utf16(Codes(right))) then parent == h(left + right)
    else parent == h(right + left)
  }

  lemma PairIsParent(h: Hash, v2: bool, left: string, right: string)
    ensures IsParent(h, v2, left, right, Pairing(h, v2)(left, right))
  {
    StringLeExactly(left, right);
    hide Precedes, Codes, Utf16;
  }

  /** A root is the tagged leaf alone, or the parent of the roots of its two parts, the first as large as a power of two
      can be; unlike in v2, a v1 leaf is not hashed. */
  lemma RootByParts(h: Hash, v2: bool, s: seq<string>) returns (k: nat)
    requires s != []
    ensures |s| == 1 ==> Root(h, v2, s) == if v2 then h(['\0'] + s[0]) else s[0]
    ensures |s| > 1 ==> IsPow2(k) && k < |s| <= 2 * k
                        && IsParent(h, v2, Root(h, v2, s[..k]), Root(h, v2, s[k..]), Root(h, v2, s))
  {
    k := Split(|s|);
    if |s| > 1 {
      var leaves := TreeLeaves(h, v2, s);
      assert TreeLeaves(h, v2, s[..k]) == leaves[..k] && TreeLeaves(h, v2, s[k..]) == leaves[k..];
      MthSplit(Pairing(h, v2), leaves, k);
      hide Mth, Pairing, IsParent;
      PairIsParent(h, v2, Root(h, v2, s[..k]), Root(h, v2, s[k..]));
    }
  }

  /** The proof leads from this leaf to this root: the digests on the way, one for the leaf and one after each step. */
  ghost predicate LeadsUp(h: Hash, v2: bool, leafHash: string, proof: seq<Step<string>>, digests: seq<string>) {
    && |digests| == |proof| + 1 && digests[0] == (if v2 then h(['\0'] + leafHash) else leafHash)
    && forall i :: 0 <= i < |proof| ==>
         if proof[i].position == Left then IsParent(h, v2, proof[i].hash, digests[i], digests[i + 1])
         else IsParent(h, v2, digests[i], proof[i].hash, digests[i + 1])
  }

  /** The digest after the first n steps. */
  ghost function Digests(pair: (string, string) -> string, leaf: string, proof: seq<Step<string>>): (r: seq<string>)
    ensures |r| == |proof| + 1
  {
    seq(|proof| + 1, n requires 0 <= n <= |proof| => Fold(pair, leaf, proof[..n]))
  }

  /** Folding a proof gives the one digest it leads up to. */
  lemma FoldExactly(h: Hash, v2: bool, leafHash: string, proof: seq<Step<string>>, root: string)
    ensures Fold(Pairing(h, v2), TreeLeaf(h, v2, leafHash), proof) == root <==>
            exists digests :: LeadsUp(h, v2, leafHash, proof, digests) && digests[|proof|] == root
  {
    var pair := Pairing(h, v2);
    var leaf := TreeLeaf(h, v2, leafHash);
    var digests := Digests(pair, leaf, proof);
    assert proof[..|proof|] == proof && digests[|proof|] == Fold(pair, leaf, proof);
    FoldLeadsUp(h, v2, leafHash, proof);
    hide LeadsUp, Fold, Digests;
    forall other | LeadsUp(h, v2, leafHash, proof, other)
      ensures |other| == |proof| + 1 && other[|proof|] == digests[|proof|]
    {
      OneWayUp(h, v2, leafHash, proof, other, digests, |proof|);
    }
  }

  /** What the verifier accepts, by what is hashed: at most twenty labelled steps that lead from a leaf to the root. */
  lemma AcceptsExactly(h: Hash, v2: bool, leafHash: string, proof: seq<Step<string>>, root: string)
    ensures Accepts(h, v2, leafHash, proof, root) <==>
            && leafHash != "" && root != "" && |proof| <= 20
            && (forall i :: 0 <= i < |proof| ==>
                  proof[i].hash != "" && (proof[i].position == Left || proof[i].position == Right))
            && exists digests :: LeadsUp(h, v2, leafHash, proof, digests) && digests[|proof|] == root
  {
    FoldExactly(h, v2, leafHash, proof, root);
    hide LeadsUp, Fold;
  }

  lemma FoldLeadsUp(h: Hash, v2: bool, leafHash: string, proof: seq<Step<string>>)
    ensures LeadsUp(h, v2, leafHash, proof, Digests(Pairing(h, v2), TreeLeaf(h, v2, leafHash), proof))
  {
    var (pair, leaf) := (Pairing(h, v2), TreeLeaf(h, v2, leafHash));
    var digests := Digests(pair, leaf, proof);
    assert proof[..0] == [];
    forall i | 0 <= i < |proof|
      ensures if proof[i].position == Left then IsParent(h, v2, proof[i].hash, digests[i], digests[i + 1])
              else IsParent(h, v2, digests[i], proof[i].hash, digests[i + 1])
    {
      assert proof[..i + 1] == proof[..i] + [proof[i]];
      FoldLast(pair, leaf, proof[..i], proof[i]);
      hide IsParent, Pairing, Fold;
      PairIsParent(h, v2, proof[i].hash, digests[i]);
      PairIsParent(h, v2, digests[i], proof[i].hash);
    }
  }

  lemma {:induction false} OneWayUp(h: Hash, v2: bool, leafHash: string, proof: seq<Step<string>>, a: seq<string>,
                                    b: seq<string>, n: nat)
    requires LeadsUp(h, v2, leafHash, proof, a) && LeadsUp(h, v2, leafHash, proof, b) && n <= |proof|
    ensures |a| == |b| == |proof| + 1 && a[n] == b[n]
  {
    hide Precedes, Codes, Utf16;
    if n > 0 {
      OneWayUp(h, v2, leafHash, proof, a, b, n - 1);
    }
  }

  // ----- what the operations give together ---------------------------------

  /** A built tree yields, at every index, exactly the RFC 6962 audit path. */
  lemma GeneratedIsPath(h: Hash, v2: bool, leafHashes: seq<string>, i: nat)
    requires i < |leafHashes|
    ensures ProofFrom(Layers(Pairing(h, v2), TreeLeaves(h, v2, leafHashes)), i) == Path(h, v2, leafHashes, i)
  {
    LayeredProofIsPath(Pairing(h, v2), i, TreeLeaves(h, v2, leafHashes));
  }

  lemma {:induction false} PathHashesNonEmpty(pair: (string, string) -> string, i: nat, s: seq<string>)
    requires i < |s|
    requires forall j :: 0 <= j < |s| ==> s[j] != ""
    requires forall a, b :: pair(a, b) != ""
    ensures Mth(pair, s) != ""
    ensures forall j :: 0 <= j < |InclusionPath(pair, i, s)| ==> WellFormedStep(InclusionPath(pair, i, s)[j])
    decreases |s|
  {
    if |s| > 1 {
      var k := Split(|s|);
      PathHashesNonEmpty(pair, if i < k then i else 0, s[..k]);
      PathHashesNonEmpty(pair, if i < k then 0 else i - k, s[k..]);
    }
  }

  /** The depth guard is the only thing that can reject a generated v2 proof. */
  lemma RoundTripV2(h: Hash, leafHashes: seq<string>, i: nat)
    requires i < |leafHashes|
    ensures Accepts(h, true, leafHashes[i], Path(h, true, leafHashes, i), Root(h, true, leafHashes))
       <==> leafHashes[i] != "" && |Path(h, true, leafHashes, i)| <= MAX_PROOF_STEPS
  {
    var leaves := TreeLeaves(h, true, leafHashes);
    PathFolds(Pairing(h, true), i, leaves);
    assert forall j :: 0 <= j < |leaves| ==> |leaves[j]| == 64;
    PathHashesNonEmpty(Pairing(h, true), i, leaves);
  }

  /** The same for v1, whose tree leaves are the raw hashes. */
  lemma RoundTripV1(h: Hash, leafHashes: seq<string>, i: nat)
    requires i < |leafHashes|
    requires forall j :: 0 <= j < |leafHashes| ==> leafHashes[j] != ""
    ensures Accepts(h, false, leafHashes[i], Path(h, false, leafHashes, i), Root(h, false, leafHashes))
       <==> |Path(h, false, leafHashes, i)| <= MAX_PROOF_STEPS
  {
    PathFolds(Pairing(h, false), i, TreeLeaves(h, false, leafHashes));
    PathHashesNonEmpty(Pairing(h, false), i, TreeLeaves(h, false, leafHashes));
  }

  /** A proof has at most ceil(log2 n) steps, so the guard of 20 admits every tree of up to
      2^20 leaves and a full batch of 1000 needs at most 10 steps. */
  lemma ProofDepth(h: Hash, v2: bool, leafHashes: seq<string>, i: nat)
    requires i < |leafHashes|
    ensures |Path(h, v2, leafHashes, i)| <= CeilLog2(|leafHashes|)
    ensures |leafHashes| <= Pow2(MAX_PROOF_STEPS) ==> |Path(h, v2, leafHashes, i)| <= MAX_PROOF_STEPS
    ensures |leafHashes| <= MAX_BATCH ==> |Path(h, v2, leafHashes, i)| <= 10
  {
    PathLength(Pairing(h, v2), i, TreeLeaves(h, v2, leafHashes));
    if |leafHashes| <= Pow2(MAX_PROOF_STEPS) {
      CeilLog2Least(|leafHashes|, MAX_PROOF_STEPS);
    }
    if |leafHashes| <= MAX_BATCH {
      assert Pow2(10) == 1024 by {
        assert Pow2(4) == 16 && Pow2(8) == 256;
      }
      CeilLog2Least(|leafHashes|, 10);
    }
  }

  /** Sorted pairing makes the left/right labels of a v1 proof informational. */
  lemma {:induction false} LabelsIrrelevantV1(h: Hash, current: string, p: seq<Step<string>>, q: seq<Step<string>>)
    requires |p| == |q|
    requires forall j :: 0 <= j < |p| ==> p[j].hash == q[j].hash
    ensures Fold(Pairing(h, false), current, p) == Fold(Pairing(h, false), current, q)
    decreases |p|
  {
    if p != [] {
      HashPairCommutes(h, current, p[0].hash);
      assert p[0].hash == q[0].hash;
      LabelsIrrelevantV1(h, Combine(Pairing(h, false), current, p[0]), p[1..], q[1..]);
    }
  }

  lemma HashPairCommutes(h: Hash, a: string, b: string)
    ensures HashPair(h, a, b) == HashPair(h, b, a)
  {
    StringTotal(a, b);
    if StringLe(a, b) && StringLe(b, a) {
      StringAntisymmetric(a, b);
    }
  }

  lemma VerdictIgnoresLabelsV1(h: Hash, leaf: string, p: seq<Step<string>>, q: seq<Step<string>>, root: string)
    requires |p| == |q|
    requires forall j :: 0 <= j < |p| ==>
      p[j].hash == q[j].hash && p[j].position != Other && q[j].position != Other
    ensures Accepts(h, false, leaf, p, root) <==> Accepts(h, false, leaf, q, root)
  {
    LabelsIrrelevantV1(h, leaf, p, q);
    assert (forall j :: 0 <= j < |p| ==> WellFormedStep(p[j]))
      <==> (forall j :: 0 <= j < |q| ==> WellFormedStep(q[j])) by {
      assert forall j :: 0 <= j < |p| ==> WellFormedStep(p[j]) == WellFormedStep(q[j]);
    }
  }

  // ----- v2 soundness ------------------------------------------------------

  /** Where an accepted proof points, or the two preimages that collide. */
  datatype Located = At(index: nat) | Collision(x: string, y: string)

  /** Every string hashed while building the tree over `s`. */
  ghost function TreePreimages(h: Hash, s: seq<string>): set<string>
    requires |s| > 0
    decreases |s|
  {
    if |s| == 1 then {LEAF_TAG + s[0]} else
      var k := Split(|s|);
      TreePreimages(h, s[..k]) + TreePreimages(h, s[k..])
      + {NODE_TAG + Root(h, true, s[..k]) + Root(h, true, s[k..])}
  }

  /** Every string hashed while folding `proof` from `leaf`. */
  ghost function FoldPreimages(h: Hash, leaf: string, proof: seq<Step<string>>): set<string> {
    if proof == [] then {LEAF_TAG + leaf} else
      var (rest, last) := (proof[..|proof| - 1], proof[|proof| - 1]);
      FoldPreimages(h, leaf, rest) + {NodePreimage(FoldV2(h, leaf, rest), last)}
  }

  function FoldV2(h: Hash, leaf: string, proof: seq<Step<string>>): string {
    Fold(Pairing(h, true), HashLeafV2(h, leaf), proof)
  }

  function NodePreimage(current: string, step: Step<string>): string {
    if step.position == Left then NODE_TAG + step.hash + current else NODE_TAG + current + step.hash
  }

  lemma FoldV2Last(h: Hash, leaf: string, proof: seq<Step<string>>)
    requires proof != []
    ensures var (rest, last) := (proof[..|proof| - 1], proof[|proof| - 1]);
            FoldV2(h, leaf, proof) == h(NodePreimage(FoldV2(h, leaf, rest), last))
  {
    var (rest, last) := (proof[..|proof| - 1], proof[|proof| - 1]);
    assert proof == rest + [last];
    FoldLast(Pairing(h, true), HashLeafV2(h, leaf), rest, last);
  }

  lemma FoldV2Length(h: Hash, leaf: string, proof: seq<Step<string>>)
    ensures |FoldV2(h, leaf, proof)| == 64
  {
    if proof != [] {
      FoldV2Last(h, leaf, proof);
    }
  }

  lemma RootSplit(h: Hash, s: seq<string>, k: nat)
    requires |s| >= 2 && k == Split(|s|)
    ensures Root(h, true, s) == h(NODE_TAG + Root(h, true, s[..k]) + Root(h, true, s[k..]))
    ensures TreeLeaves(h, true, s)[..k] == TreeLeaves(h, true, s[..k])
    ensures TreeLeaves(h, true, s)[k..] == TreeLeaves(h, true, s[k..])
  {
    LeavesSplit(h, s, k);
    hide Mth, TreeLeaves;
    MthSplit(Pairing(h, true), TreeLeaves(h, true, s), k);
  }

  lemma LeavesSplit(h: Hash, s: seq<string>, k: nat)
    requires k <= |s|
    ensures TreeLeaves(h, true, s)[..k] == TreeLeaves(h, true, s[..k])
    ensures TreeLeaves(h, true, s)[k..] == TreeLeaves(h, true, s[k..])
  {
  }

  lemma RootV2Length(h: Hash, s: seq<string>)
    requires |s| > 0
    ensures |Root(h, true, s)| == 64
  {
    if |s| > 1 {
      RootSplit(h, s, Split(|s|));
    }
  }

  /** Two concatenations that agree, split at the same point, agree piece by piece. */
  lemma SplitEqual(a: string, b: string, c: string, d: string)
    requires NODE_TAG + a + b == NODE_TAG + c + d && |a| == |c|
    ensures a == c && b == d
  {
    var x, y := NODE_TAG + a + b, NODE_TAG + c + d;
    assert a == x[1..1 + |a|] && c == y[1..1 + |a|];
    assert b == x[1 + |a|..] && d == y[1 + |a|..];
  }

  ghost predicate Justified(h: Hash, s: seq<string>, leaf: string, proof: seq<Step<string>>, r: Located)
    requires |s| > 0
  {
    match r
    case At(i) => i < |s| && s[i] == leaf && proof == Path(h, true, s, i)
    case Collision(x, y) =>
      Collides(h, x, y) && x in TreePreimages(h, s) && y in FoldPreimages(h, leaf, proof)
  }

  /** Digests have a fixed length, so an equal node preimage pins sibling and running hash. */
  lemma StepPins(h: Hash, s: seq<string>, leaf: string, rest: seq<Step<string>>, last: Step<string>, k: nat)
    requires |s| >= 2 && k == Split(|s|) && last.position != Other
    requires NodePreimage(FoldV2(h, leaf, rest), last) == NODE_TAG + Root(h, true, s[..k]) + Root(h, true, s[k..])
    ensures last.position == Left ==>
      last.hash == Root(h, true, s[..k]) && FoldV2(h, leaf, rest) == Root(h, true, s[k..])
    ensures last.position == Right ==>
      FoldV2(h, leaf, rest) == Root(h, true, s[..k]) && last.hash == Root(h, true, s[k..])
  {
    var l, r, c := Root(h, true, s[..k]), Root(h, true, s[k..]), FoldV2(h, leaf, rest);
    RootV2Length(h, s[..k]);
    RootV2Length(h, s[k..]);
    FoldV2Length(h, leaf, rest);
    if last.position == Left {
      assert |NODE_TAG + last.hash + c| == |NODE_TAG + l + r|;
      SplitEqual(last.hash, c, l, r);
    } else {
      SplitEqual(c, last.hash, l, r);
    }
  }

  lemma LeftExtends(h: Hash, s: seq<string>, leaf: string, rest: seq<Step<string>>, k: nat, inner: Located)
    requires |s| >= 2 && k == Split(|s|)
    requires Justified(h, s[..k], leaf, rest, inner)
    ensures Justified(h, s, leaf, rest + [Step(Root(h, true, s[k..]), Right)], inner)
  {
    var step := Step(Root(h, true, s[k..]), Right);
    assert (rest + [step])[..|rest|] == rest;
    if inner.At? {
      RootSplit(h, s, k);
      PathLeft(Pairing(h, true), inner.index, TreeLeaves(h, true, s), k);
    }
  }

  lemma RightExtends(h: Hash, s: seq<string>, leaf: string, rest: seq<Step<string>>, k: nat, inner: Located)
    requires |s| >= 2 && k == Split(|s|)
    requires Justified(h, s[k..], leaf, rest, inner)
    ensures Justified(h, s, leaf, rest + [Step(Root(h, true, s[..k]), Left)],
                      if inner.At? then At(inner.index + k) else inner)
  {
    var step := Step(Root(h, true, s[..k]), Left);
    assert (rest + [step])[..|rest|] == rest;
    if inner.At? {
      RootSplit(h, s, k);
      PathRight(Pairing(h, true), inner.index + k, TreeLeaves(h, true, s), k);
    }
  }

  /** The single-leaf case: only the empty proof of that very leaf avoids a collision. */
  function LocateLeaf(h: Hash, only: string, leaf: string, proof: seq<Step<string>>): (r: Located)
    requires FoldV2(h, leaf, proof) == Root(h, true, [only])
    ensures Justified(h, [only], leaf, proof, r)
  {
    var x := LEAF_TAG + only;
    if proof == [] then
      if leaf == only then At(0) else
        assert x[1..] == only && (LEAF_TAG + leaf)[1..] == leaf;
        Collision(x, LEAF_TAG + leaf)
    else
      var y := NodePreimage(FoldV2(h, leaf, proof[..|proof| - 1]), proof[|proof| - 1]);
      FoldV2Last(h, leaf, proof);
      assert y[0] == NODE_TAG[0] && x[0] == LEAF_TAG[0];
      Collision(x, y)
  }

  /** From a proof that folds to the root of `s`, compute the index it proves, or a collision
      between a string the builder hashed and a string the verifier hashed. */
  function Locate(h: Hash, s: seq<string>, leaf: string, proof: seq<Step<string>>): (r: Located)
    requires |s| > 0
    requires forall j :: 0 <= j < |proof| ==> proof[j].position != Other
    requires FoldV2(h, leaf, proof) == Root(h, true, s)
    ensures Justified(h, s, leaf, proof, r)
    decreases |s|
  {
    if |s| == 1 then
      assert s == [s[0]];
      LocateLeaf(h, s[0], leaf, proof)
    else
      var k := Split(|s|);
      var x := NODE_TAG + Root(h, true, s[..k]) + Root(h, true, s[k..]);
      RootSplit(h, s, k);
      if proof == [] then
        assert x[0] == NODE_TAG[0] && (LEAF_TAG + leaf)[0] == LEAF_TAG[0];
        Collision(x, LEAF_TAG + leaf)
      else
        var rest, last := proof[..|proof| - 1], proof[|proof| - 1];
        var y := NodePreimage(FoldV2(h, leaf, rest), last);
        FoldV2Last(h, leaf, proof);
        if x != y then Collision(x, y)
        else
          assert proof == rest + [last];
          StepPins(h, s, leaf, rest, last, k);
          if last.position == Left then
            var inner := Locate(h, s[k..], leaf, rest);
            RightExtends(h, s, leaf, rest, k, inner);
            if inner.At? then At(inner.index + k) else inner
          else
            var inner := Locate(h, s[..k], leaf, rest);
            LeftExtends(h, s, leaf, rest, k, inner);
            inner
  }

  /** v2 soundness: an accepted (leaf, proof) is the generated proof of an index holding that
      leaf, or a collision is exhibited. */
  lemma AcceptedIsGenerated(h: Hash, s: seq<string>, leaf: string, proof: seq<Step<string>>)
    requires |s| > 0
    requires Accepts(h, true, leaf, proof, Root(h, true, s))
    ensures (exists i :: 0 <= i < |s| && s[i] == leaf && proof == Path(h, true, s, i))
         || (exists x, y :: x in TreePreimages(h, s) && y in FoldPreimages(h, leaf, proof) && Collides(h, x, y))
  {
    var r := Locate(h, s, leaf, proof);
  }
}
