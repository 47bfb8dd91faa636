/** Cycle search over the receipt-submission graph of lib/collusion-monitor.ts. */
module CollusionRings {
  import opened Common
  import opened Unicode

  type Id = string

  type Targets = OrderedMap<Id, nat>
  type Adjacency = OrderedMap<Id, Targets>

  /** A receipt row; "" stands for a missing id. */
  datatype ReceiptRow = ReceiptRow(submittedBy: Id, entityId: Id, createdAt: Option<int>)

  datatype Severity = High | Medium
  datatype Ring = Ring(members: seq<Id>, severity: Severity)

  // ----- the submission graph ----------------------------------------------

  predicate Vouches(r: ReceiptRow, a: Id, b: Id) {
    r.submittedBy == a && r.entityId == b && a != "" && b != "" && a != b
  }

  /** How many receipts vouch for `b` on behalf of `a`. */
  function Count(receipts: seq<ReceiptRow>, a: Id, b: Id): nat {
    if receipts == [] then 0
    else Count(receipts[..|receipts| - 1], a, b) + if Vouches(receipts[|receipts| - 1], a, b) then 1 else 0
  }

  /** The receipts, by position, that `a` submitted for `b`; nobody vouches for itself, and no id is empty. */
  ghost function VouchesAt(receipts: seq<ReceiptRow>, a: Id, b: Id): set<int> {
    set i | 0 <= i < |receipts| && receipts[i] == ReceiptRow(a, b, receipts[i].createdAt)
            && a != "" && b != "" && a != b
  }

  lemma VouchesLast(receipts: seq<ReceiptRow>, r: ReceiptRow, a: Id, b: Id)
    ensures VouchesAt(receipts + [r], a, b)
            == VouchesAt(receipts, a, b) + if Vouches(r, a, b) then {|receipts|} else {}
    ensures |receipts| !in VouchesAt(receipts, a, b)
  {
  }

  lemma {:induction false} CountIsCardinality(receipts: seq<ReceiptRow>, a: Id, b: Id)
    ensures Count(receipts, a, b) == |VouchesAt(receipts, a, b)|
  {
    if receipts != [] {
      var (init, last) := (receipts[..|receipts| - 1], receipts[|receipts| - 1]);
      assert receipts == init + [last];
      CountIsCardinality(init, a, b);
      VouchesLast(init, last, a, b);
      hide VouchesAt, Vouches;
    }
  }

  function Weight(m: Adjacency, a: Id, b: Id): nat {
    if a in m.vals && b in m.vals[a].vals then m.vals[a].vals[b] else 0
  }

  ghost predicate ValidAdjacency(m: Adjacency) {
    m.Valid() && (forall a :: a in m.vals ==> m.vals[a].Valid())
    && (forall a, b :: a in m.vals && b in m.vals[a].vals ==> m.vals[a].vals[b] > 0)
  }

  function AddEdge(m: Adjacency, a: Id, b: Id): Adjacency {
    var targets := if a in m.vals then m.vals[a] else OrderedMap([], map[]);
    m.Set(a, targets.Set(b, (if b in targets.vals then targets.vals[b] else 0) + 1))
  }

  lemma AddEdgeEffect(m: Adjacency, a: Id, b: Id)
    requires ValidAdjacency(m)
    ensures ValidAdjacency(AddEdge(m, a, b))
    ensures forall x, y :: Weight(AddEdge(m, a, b), x, y) == Weight(m, x, y) + if x == a && y == b then 1 else 0
  {
    AddEdgeValid(m, a, b);
    forall x, y
      ensures Weight(AddEdge(m, a, b), x, y) == Weight(m, x, y) + if x == a && y == b then 1 else 0
    {
      AddEdgeWeight(m, a, b, x, y);
    }
  }

  lemma AddEdgeWeight(m: Adjacency, a: Id, b: Id, x: Id, y: Id)
    ensures Weight(AddEdge(m, a, b), x, y) == Weight(m, x, y) + if x == a && y == b then 1 else 0
  {
  }

  lemma AddEdgeValid(m: Adjacency, a: Id, b: Id)
    requires ValidAdjacency(m)
    ensures ValidAdjacency(AddEdge(m, a, b))
  {
    var targets: Targets := if a in m.vals then m.vals[a] else OrderedMap([], map[]);
    var bumped := targets.Set(b, (if b in targets.vals then targets.vals[b] else 0) + 1);
    SetKeepsValid(targets, b, (if b in targets.vals then targets.vals[b] else 0) + 1);
    SetTargets(m, a, bumped);
  }

  lemma SetTargets(m: Adjacency, a: Id, targets: Targets)
    requires ValidAdjacency(m) && targets.Valid() && forall y :: y in targets.vals ==> targets.vals[y] > 0
    ensures ValidAdjacency(m.Set(a, targets))
  {
    SetKeepsValid(m, a, targets);
    var next := m.Set(a, targets);
    assert forall x :: x in next.vals && x != a ==> x in m.vals && next.vals[x] == m.vals[x];
  }

  method BuildSubmissionGraph(receipts: seq<ReceiptRow>) returns (out: Adjacency, inbound: Adjacency)
    ensures ValidAdjacency(out) && ValidAdjacency(inbound)
    ensures forall a, b :: Weight(out, a, b) == Count(receipts, a, b)
    ensures forall a, b :: Weight(inbound, b, a) == Count(receipts, a, b)
  {
    hide AddEdge;
    out, inbound := OrderedMap([], map[]), OrderedMap([], map[]);
    for i := 0 to |receipts|
      invariant ValidAdjacency(out) && ValidAdjacency(inbound)
      invariant forall a, b :: Weight(out, a, b) == Count(receipts[..i], a, b)
      invariant forall a, b :: Weight(inbound, b, a) == Count(receipts[..i], a, b)
    {
      var from, to := receipts[i].submittedBy, receipts[i].entityId;
      assert receipts[..i + 1][..i] == receipts[..i];
      if from == "" || to == "" || from == to { continue; }
      AddEdgeEffect(out, from, to);
      AddEdgeEffect(inbound, to, from);
      out, inbound := AddEdge(out, from, to), AddEdge(inbound, to, from);
    }
    assert receipts[..|receipts|] == receipts;
  }

  function Succ(g: Adjacency, a: Id): seq<Id> {
    if a in g.vals then g.vals[a].keys else []
  }

  /** Successors are exactly the ids vouched for, and nobody succeeds itself. */
  lemma SuccIsVouched(g: Adjacency, receipts: seq<ReceiptRow>, a: Id, b: Id)
    requires ValidAdjacency(g) && (forall x, y :: Weight(g, x, y) == Count(receipts, x, y))
    ensures b in Succ(g, a) <==> Count(receipts, a, b) > 0
    ensures b in Succ(g, a) ==> a != b
  {
    assert Weight(g, a, b) == Count(receipts, a, b);
    if a == b {
      NoSelfVouch(receipts, a);
    }
  }

  lemma {:induction false} NoSelfVouch(receipts: seq<ReceiptRow>, a: Id)
    ensures Count(receipts, a, a) == 0
  {
    if receipts != [] {
      NoSelfVouch(receipts[..|receipts| - 1], a);
    }
  }

  // ----- cycles ------------------------------------------------------------

  ghost predicate IsPath(g: Adjacency, p: seq<Id>) {
    forall i :: 0 <= i < |p| - 1 ==> p[i + 1] in Succ(g, p[i])
  }

  /** A simple directed cycle, written from one of its nodes. */
  ghost predicate IsCycle(g: Adjacency, c: seq<Id>) {
    |c| > 0 && Distinct(c) && IsPath(g, c) && c[0] in Succ(g, c[|c| - 1])
  }

  ghost predicate IsBoundedCycle(g: Adjacency, min: int, max: int, c: seq<Id>) {
    IsCycle(g, c) && min <= |c| <= max
  }

  /** The index of a smallest member: what sorting a copy and indexOf find. */
  function MinIndex(c: seq<Id>): (m: nat)
    requires |c| > 0
    ensures m < |c| && (forall j :: 0 <= j < |c| ==> StringLe(c[m], c[j]))
  {
    if |c| == 1 then
      StringTotal(c[0], c[0]);
      0
    else
      var m := MinIndex(c[..|c| - 1]);
      var last := |c| - 1;
      StringTotal(c[m], c[last]);
      StringTotal(c[last], c[last]);
      if StringLe(c[m], c[last]) then
        assert forall j :: 0 <= j < last ==> c[j] == c[..last][j];
        m
      else
        MinBelow(c[..last], c[last], m);
        assert forall j :: 0 <= j < last ==> c[j] == c[..last][j];
        last
  }

  lemma MinBelow(init: seq<Id>, last: Id, m: nat)
    requires m < |init| && StringLe(last, init[m])
    requires forall j :: 0 <= j < |init| ==> StringLe(init[m], init[j])
    ensures forall j :: 0 <= j < |init| ==> StringLe(last, init[j])
  {
    forall j | 0 <= j < |init| ensures StringLe(last, init[j]) {
      StringTransitive(last, init[m], init[j]);
    }
  }

  function Rotate(c: seq<Id>, k: nat): (r: seq<Id>)
    requires k <= |c|
    ensures |r| == |c|
  {
    c[k..] + c[..k]
  }

  /** The rotation that puts the smallest member first. */
  function Canon(c: seq<Id>): (r: seq<Id>)
    requires |c| > 0
    ensures |r| == |c|
  {
    Rotate(c, MinIndex(c))
  }

  ghost predicate SmallestFirst(c: seq<Id>) {
    forall j :: 0 <= j < |c| ==> StringLe(c[0], c[j])
  }

  lemma RotateAt(c: seq<Id>, k: nat, j: nat)
    requires k < |c| && j < |c|
    ensures Rotate(c, k)[j] == if j + k < |c| then c[j + k] else c[j + k - |c|]
  {
  }

  lemma RotateDistinct(c: seq<Id>, k: nat)
    requires k < |c| && Distinct(c)
    ensures Distinct(Rotate(c, k))
  {
  }

  lemma RotateIsCycle(g: Adjacency, c: seq<Id>, k: nat)
    requires k < |c| && IsCycle(g, c)
    ensures IsCycle(g, Rotate(c, k))
  {
    var r := Rotate(c, k);
    RotateDistinct(c, k);
    forall i | 0 <= i < |r| - 1 ensures r[i + 1] in Succ(g, r[i]) {
      RotateAt(c, k, i);
      RotateAt(c, k, i + 1);
      if i + k + 1 < |c| {
        assert c[i + k + 1] in Succ(g, c[i + k]);
      } else if i + k < |c| {
        assert i + k == |c| - 1;
      } else {
        assert c[(i + k - |c|) + 1] in Succ(g, c[i + k - |c|]);
      }
    }
    RotateAt(c, k, 0);
    RotateAt(c, k, |c| - 1);
    if k > 0 {
      assert c[(k - 1) + 1] in Succ(g, c[k - 1]);
    }
  }

  lemma CanonSound(g: Adjacency, min: int, max: int, c: seq<Id>)
    requires IsBoundedCycle(g, min, max, c)
    ensures IsBoundedCycle(g, min, max, Canon(c)) && SmallestFirst(Canon(c))
  {
    var m := MinIndex(c);
    RotateIsCycle(g, c, m);
    forall j | 0 <= j < |c| ensures StringLe(Canon(c)[0], Canon(c)[j]) {
      RotateAt(c, m, 0);
      RotateAt(c, m, j);
    }
  }

  /** Of all rotations of a simple cycle only one has its smallest member first. */
  lemma CanonicalUnique(c: seq<Id>, k: nat)
    requires 0 <= k < |c| && Distinct(c) && SmallestFirst(c) && SmallestFirst(Rotate(c, k))
    ensures Rotate(c, k) == c
  {
    if k > 0 {
      RotateAt(c, k, 0);
      RotateAt(c, k, |c| - k);
      assert StringLe(Rotate(c, k)[0], Rotate(c, k)[|c| - k]);
      StringAntisymmetric(c[0], c[k]);
    }
  }

  // ----- keys --------------------------------------------------------------

  function RingKey(members: seq<Id>): string {
    Join(members, '>')
  }

  // ----- the search --------------------------------------------------------

  function RingOf(cycle: seq<Id>): Ring
    requires |cycle| > 0
  {
    Ring(Canon(cycle), if |cycle| >= 4 then High else Medium)
  }

  /** A report: bounded simple cycles, smallest member first, no two with the same key. */
  ghost predicate SoundReport(g: Adjacency, min: int, max: int, rings: seq<Ring>) {
    (forall i :: 0 <= i < |rings| ==> SoundRing(g, min, max, rings[i]))
    && (forall i, j :: 0 <= i < j < |rings| ==> RingKey(rings[i].members) != RingKey(rings[j].members))
  }

  ghost predicate SoundRing(g: Adjacency, min: int, max: int, r: Ring) {
    IsBoundedCycle(g, min, max, r.members) && SmallestFirst(r.members)
    && (r.severity == High <==> |r.members| >= 4)
  }

  /** `cycle` is covered: a ring with its canonical key has been reported. */
  ghost predicate Covered(rings: seq<Ring>, cycle: seq<Id>)
    requires |cycle| > 0
  {
    exists i :: 0 <= i < |rings| && RingKey(rings[i].members) == RingKey(Canon(cycle))
  }

  /** The node a cycle that starts with `path` visits next. */
  function NextHop(cycle: seq<Id>, path: seq<Id>): Id
    requires path != [] && path <= cycle
  {
    if |cycle| == |path| then cycle[0] else cycle[|path|]
  }

  /** The keys of the rings reported so far. */
  ghost predicate SeenAre(seen: set<string>, rings: seq<Ring>) {
    forall k :: k in seen <==> exists i :: 0 <= i < |rings| && RingKey(rings[i].members) == k
  }

  lemma AddRing(g: Adjacency, min: int, max: int, seen: set<string>, rings: seq<Ring>, cycle: seq<Id>)
    requires IsBoundedCycle(g, min, max, cycle) && SoundReport(g, min, max, rings) && SeenAre(seen, rings)
    requires RingKey(Canon(cycle)) !in seen
    ensures var next := rings + [RingOf(cycle)];
            SoundReport(g, min, max, next) && SeenAre(seen + {RingKey(Canon(cycle))}, next) && Covered(next, cycle)
  {
    CanonSound(g, min, max, cycle);
    hide IsBoundedCycle, SmallestFirst, Canon, RingKey;
    var next := rings + [RingOf(cycle)];
    assert next[|rings|] == RingOf(cycle);
    assert forall i :: 0 <= i < |rings| ==> next[i] == rings[i];
  }

  class RingSearch {
    const g: Adjacency
    const min: int
    const max: int
    var seen: set<string>
    var rings: seq<Ring>

    constructor (g: Adjacency, min: int, max: int)
      ensures this.g == g && this.min == min && this.max == max
      ensures rings == [] && Valid()
    {
      this.g, this.min, this.max := g, min, max;
      seen, rings := {}, [];
    }

    ghost predicate Valid()
      reads this
    {
      SoundReport(g, min, max, rings) && SeenAre(seen, rings)
    }

    method Record(cycle: seq<Id>)
      requires Valid() && IsBoundedCycle(g, min, max, cycle)
      modifies this
      ensures Valid() && old(rings) <= rings && Covered(rings, cycle)
      ensures rings == old(rings) || rings == old(rings) + [RingOf(cycle)]
    {
      var m := MinIndex(cycle);
      var rot := cycle[m..] + cycle[..m];
      var key := Join(rot, '>');
      assert rot == Canon(cycle) && key == RingKey(rot);
      hide IsBoundedCycle, SoundReport, Canon, RingKey;
      if key in seen { return; }
      AddRing(g, min, max, seen, rings, cycle);
      seen := seen + {key};
      rings := rings + [Ring(rot, if |cycle| >= 4 then High else Medium)];
    }

    /** Explores every bounded simple cycle that starts with `path`. */
    method Dfs(start: Id, node: Id, path: seq<Id>)
      requires Valid()
      requires path != [] && path[0] == start && path[|path| - 1] == node && Distinct(path) && IsPath(g, path)
      modifies this
      ensures Valid() && old(rings) <= rings
      ensures forall c :: IsBoundedCycle(g, min, max, c) && path <= c ==> Covered(rings, c)
      decreases max - |path|
    {
      hide SoundReport, Canon, Covered, RingKey;
      if |path| > max { return; }
      var next := Succ(g, node);
      var i := 0;
      while i < |next|
        invariant 0 <= i <= |next|
        invariant Valid() && old(rings) <= rings
        invariant forall c :: IsBoundedCycle(g, min, max, c) && path <= c && NextHop(c, path) in next[..i]
                              ==> Covered(rings, c)
      {
        ghost var before := rings;
        var n := next[i];
        if n == start && |path| >= min {
          Record(path);
        } else if n !in path && |path| < max {
          ExtendPath(g, path, n);
          Dfs(start, n, path + [n]);
        }
        forall c | IsBoundedCycle(g, min, max, c) && path <= c && NextHop(c, path) in next[..i + 1]
          ensures Covered(rings, c)
        {
          if NextHop(c, path) in next[..i] {
            CoveredGrows(before, rings, c);
          } else {
            HopTaken(c, path, n);
          }
        }
        i := i + 1;
      }
      forall c | IsBoundedCycle(g, min, max, c) && path <= c ensures Covered(rings, c) {
        HopIsSuccessor(g, c, path);
        assert next[..i] == next;
      }
    }
  }

  lemma CoveredGrows(before: seq<Ring>, after: seq<Ring>, c: seq<Id>)
    requires |c| > 0 && before <= after && Covered(before, c)
    ensures Covered(after, c)
  {
    var i :| 0 <= i < |before| && RingKey(before[i].members) == RingKey(Canon(c));
    assert after[i] == before[i];
  }

  lemma ExtendPath(g: Adjacency, path: seq<Id>, n: Id)
    requires path != [] && IsPath(g, path) && Distinct(path) && n !in path && n in Succ(g, path[|path| - 1])
    ensures IsPath(g, path + [n]) && Distinct(path + [n])
  {
  }

  /** What taking the hop `n` says about a simple cycle that starts with `path`. */
  lemma HopTaken(c: seq<Id>, path: seq<Id>, n: Id)
    requires path != [] && path <= c && Distinct(c) && NextHop(c, path) == n
    ensures n == path[0] ==> c == path
    ensures n != path[0] ==> n !in path && |path| < |c| && path + [n] <= c
  {
    if |c| > |path| {
      assert c[|path|] == n;
      assert forall i :: 0 <= i < |path| ==> path[i] == c[i];
    }
  }

  lemma HopIsSuccessor(g: Adjacency, c: seq<Id>, path: seq<Id>)
    requires IsCycle(g, c) && path != [] && path <= c
    ensures NextHop(c, path) in Succ(g, path[|path| - 1])
  {
    if |c| > |path| {
      assert c[(|path| - 1) + 1] in Succ(g, c[|path| - 1]);
    }
  }

  /** Every bounded cycle that starts at one of these ids is covered. */
  ghost predicate CoversFrom(g: Adjacency, min: int, max: int, starts: seq<Id>, rings: seq<Ring>) {
    forall c :: IsBoundedCycle(g, min, max, c) && c[0] in starts ==> Covered(rings, c)
  }

  lemma CoversNext(g: Adjacency, min: int, max: int, starts: seq<Id>, start: Id, before: seq<Ring>, rings: seq<Ring>)
    requires CoversFrom(g, min, max, starts, before) && before <= rings
    requires forall c :: IsBoundedCycle(g, min, max, c) && [start] <= c ==> Covered(rings, c)
    ensures CoversFrom(g, min, max, starts + [start], rings)
  {
    hide Covered, IsPath;
    forall c | IsBoundedCycle(g, min, max, c) && c[0] in starts + [start]
      ensures Covered(rings, c)
    {
      if c[0] in starts {
        CoveredGrows(before, rings, c);
      } else {
        assert [start] <= c;
      }
    }
  }

  lemma CoversAll(g: Adjacency, min: int, max: int, rings: seq<Ring>)
    requires ValidAdjacency(g) && CoversFrom(g, min, max, g.keys, rings)
    ensures forall c :: IsBoundedCycle(g, min, max, c) ==> Covered(rings, c)
  {
    hide Covered;
    forall c | IsBoundedCycle(g, min, max, c)
      ensures Covered(rings, c)
    {
      HopIsSuccessor(g, c, [c[0]]);
    }
  }

  /** Sound and duplicate-free always, complete up to the joined key. */
  method DetectRings(g: Adjacency, min: int, max: int) returns (rings: seq<Ring>)
    requires ValidAdjacency(g)
    ensures SoundReport(g, min, max, rings)
    ensures forall c :: IsBoundedCycle(g, min, max, c) ==> Covered(rings, c)
  {
    hide SoundReport, Covered, RingKey, Canon, IsBoundedCycle;
    var search := new RingSearch(g, min, max);
    var i := 0;
    while i < |g.keys|
      invariant 0 <= i <= |g.keys|
      invariant search.g == g && search.min == min && search.max == max && search.Valid()
      invariant CoversFrom(g, min, max, g.keys[..i], search.rings)
    {
      ghost var before := search.rings;
      search.Dfs(g.keys[i], g.keys[i], [g.keys[i]]);
      CoversNext(g, min, max, g.keys[..i], g.keys[i], before, search.rings);
      assert g.keys[..i + 1] == g.keys[..i] + [g.keys[i]];
      i := i + 1;
    }
    rings := search.rings;
    assert g.keys[..i] == g.keys;
    CoversAll(g, min, max, rings);
  }

  // ----- exactness ---------------------------------------------------------

  ghost predicate Reported(rings: seq<Ring>, members: seq<Id>) {
    exists i :: 0 <= i < |rings| && rings[i].members == members
  }

  /** Every bounded simple cycle is reported, in its canonical rotation. */
  ghost predicate Complete(g: Adjacency, min: int, max: int, rings: seq<Ring>) {
    forall c :: IsBoundedCycle(g, min, max, c) ==> Reported(rings, Canon(c))
  }

  /** No two canonical bounded cycles are joined to the same key. */
  ghost predicate KeysTellApart(g: Adjacency, min: int, max: int) {
    forall c, d | IsBoundedCycle(g, min, max, c) && IsBoundedCycle(g, min, max, d) ::
      RingKey(Canon(c)) == RingKey(Canon(d)) ==> Canon(c) == Canon(d)
  }

  ghost predicate NoIdHas(g: Adjacency, sep: char) {
    forall a, b :: b in Succ(g, a) ==> sep !in a && sep !in b
  }

  lemma CanonIdempotent(c: seq<Id>)
    requires |c| > 0 && Distinct(c) && SmallestFirst(c)
    ensures Canon(c) == c
  {
    var m := MinIndex(c);
    if m > 0 {
      StringAntisymmetric(c[0], c[m]);
    }
  }

  /** The search misses no cycle exactly when the keys tell the canonical cycles apart. */
  lemma CompleteIffKeysTellApart(g: Adjacency, min: int, max: int, rings: seq<Ring>)
    requires SoundReport(g, min, max, rings)
    requires forall c :: IsBoundedCycle(g, min, max, c) ==> Covered(rings, c)
    ensures Complete(g, min, max, rings) <==> KeysTellApart(g, min, max)
  {
    hide IsPath, Canon, RingKey, SmallestFirst;
    if KeysTellApart(g, min, max) {
      forall c | IsBoundedCycle(g, min, max, c) ensures Reported(rings, Canon(c)) {
        assert Covered(rings, c);
        var i :| 0 <= i < |rings| && RingKey(rings[i].members) == RingKey(Canon(c));
        RingIsCanonical(g, min, max, rings[i]);
      }
    }
    if Complete(g, min, max, rings) {
      forall c, d | IsBoundedCycle(g, min, max, c) && IsBoundedCycle(g, min, max, d)
                    && RingKey(Canon(c)) == RingKey(Canon(d))
        ensures Canon(c) == Canon(d)
      {
        var i :| 0 <= i < |rings| && rings[i].members == Canon(c);
        var j :| 0 <= j < |rings| && rings[j].members == Canon(d);
      }
    }
  }

  lemma RingIsCanonical(g: Adjacency, min: int, max: int, r: Ring)
    requires SoundRing(g, min, max, r)
    ensures IsBoundedCycle(g, min, max, r.members) && Canon(r.members) == r.members
  {
    CanonIdempotent(r.members);
  }

  /** Ids without the join character keep the keys apart. */
  lemma SeparatorFreeKeysTellApart(g: Adjacency, min: int, max: int)
    requires NoIdHas(g, '>')
    ensures KeysTellApart(g, min, max)
  {
    forall c, d | IsBoundedCycle(g, min, max, c) && IsBoundedCycle(g, min, max, d)
                  && RingKey(Canon(c)) == RingKey(Canon(d))
      ensures Canon(c) == Canon(d)
    {
      CycleSeparatorFree(g, min, max, c);
      CycleSeparatorFree(g, min, max, d);
      JoinInjective(Canon(c), Canon(d), '>');
    }
  }

  lemma CycleSeparatorFree(g: Adjacency, min: int, max: int, c: seq<Id>)
    requires NoIdHas(g, '>') && IsBoundedCycle(g, min, max, c)
    ensures SeparatorFree(Canon(c), '>')
  {
    CanonSound(g, min, max, c);
    var r := Canon(c);
    forall i | 0 <= i < |r| ensures '>' !in r[i] {
      EdgePlain(g, '>', r[i], if i < |r| - 1 then r[i + 1] else r[0]);
    }
  }

  lemma EdgePlain(g: Adjacency, sep: char, a: Id, b: Id)
    requires NoIdHas(g, sep) && b in Succ(g, a)
    ensures sep !in a && sep !in b
  {
  }

  /** With such ids the report is exact: the reported members are the canonical rotations of
      the bounded simple cycles, each once, and no two are rotations of one another. */
  lemma RingsExact(g: Adjacency, min: int, max: int, rings: seq<Ring>)
    requires NoIdHas(g, '>') && SoundReport(g, min, max, rings)
    requires forall c :: IsBoundedCycle(g, min, max, c) ==> Covered(rings, c)
    ensures forall m :: Reported(rings, m) <==> IsBoundedCycle(g, min, max, m) && SmallestFirst(m)
    ensures Complete(g, min, max, rings)
    ensures forall i, j :: 0 <= i < j < |rings| ==> !RotationOf(rings[i].members, rings[j].members)
  {
    hide RingKey, Canon, IsPath, Covered;
    SeparatorFreeKeysTellApart(g, min, max);
    CompleteIffKeysTellApart(g, min, max, rings);
    forall m ensures Reported(rings, m) <==> IsBoundedCycle(g, min, max, m) && SmallestFirst(m) {
      if Reported(rings, m) {
        var i :| 0 <= i < |rings| && rings[i].members == m;
        assert SoundRing(g, min, max, rings[i]);
      } else if IsBoundedCycle(g, min, max, m) && SmallestFirst(m) {
        CanonIdempotent(m);
      }
    }
    forall i, j | 0 <= i < j < |rings| ensures !RotationOf(rings[i].members, rings[j].members) {
      NotRotations(g, min, max, rings[i], rings[j]);
    }
  }

  ghost predicate RotationOf(c: seq<Id>, d: seq<Id>) {
    exists k :: 0 <= k < |c| && Rotate(c, k) == d
  }

  lemma NotRotations(g: Adjacency, min: int, max: int, r: Ring, s: Ring)
    requires SoundRing(g, min, max, r) && SoundRing(g, min, max, s)
    requires RingKey(r.members) != RingKey(s.members)
    ensures !RotationOf(r.members, s.members)
  {
    forall k | 0 <= k < |r.members| ensures Rotate(r.members, k) != s.members {
      if Rotate(r.members, k) == s.members {
        CanonicalUnique(r.members, k);
      }
    }
  }

  /** Four ids, two of which contain the join character, on two 2-cycles with one key. */
  const SHARED_KEY_GRAPH: Adjacency :=
    OrderedMap(["a", "b>c", "a>b", "c"],
               map["a" := OrderedMap(["b>c"], map["b>c" := 1]),
                   "b>c" := OrderedMap(["a"], map["a" := 1]),
                   "a>b" := OrderedMap(["c"], map["c" := 1]),
                   "c" := OrderedMap(["a>b"], map["a>b" := 1])])

  /** On that graph the keys do not tell two rings apart, so the search reports only one. */
  lemma SharedKeyHidesARing()
    ensures !KeysTellApart(SHARED_KEY_GRAPH, 2, 6)
  {
    hide Join, Canon, StringLe;
    SharedKeyOrder();
    SharedKeyJoins();
    PairIsTwoCycle(SHARED_KEY_GRAPH, 2, 6, "a", "b>c");
    PairIsTwoCycle(SHARED_KEY_GRAPH, 2, 6, "a>b", "c");
    CanonIdempotent(["a", "b>c"]);
    CanonIdempotent(["a>b", "c"]);
  }

  lemma FirstLetterDecides(a: string, b: string)
    requires a != "" && b != "" && a[0] < b[0] && b[0] as int < 0x10000
    ensures StringLe(a, b) && !StringLe(b, a)
  {
    var (x, y) := (Codes(a), Codes(b));
    assert Utf16(x)[0] == x[0] && Utf16(y)[0] == y[0];
  }

  lemma SharedKeyOrder()
    ensures SortedPair("a", "b>c") == ["a", "b>c"] && SortedPair("a>b", "c") == ["a>b", "c"]
  {
    FirstLetterDecides("a", "b>c");
    FirstLetterDecides("a>b", "c");
  }

  lemma SharedKeyJoins()
    ensures RingKey(["a", "b>c"]) == RingKey(["a>b", "c"]) && ["a", "b>c"] != ["a>b", "c"]
  {
    var c, d := ["a", "b>c"], ["a>b", "c"];
    assert Join(c[1..], '>') == "b>c" && Join(d[1..], '>') == "c";
    assert RingKey(c) == "a>b>c" == RingKey(d) && c[0] != d[0];
  }

  // ----- bilateral pairs ---------------------------------------------------

  function SortedPair(a: Id, b: Id): seq<Id> {
    if StringLe(a, b) then [a, b] else [b, a]
  }

  function PairKey(members: seq<Id>): string {
    Join(members, '|')
  }

  ghost predicate Mutual(g: Adjacency, a: Id, b: Id) {
    b in Succ(g, a) && a in Succ(g, b)
  }

  ghost predicate SoundPairs(g: Adjacency, pairs: seq<seq<Id>>) {
    (forall i :: 0 <= i < |pairs| ==> exists a, b :: Mutual(g, a, b) && pairs[i] == SortedPair(a, b))
    && (forall i, j :: 0 <= i < j < |pairs| ==> PairKey(pairs[i]) != PairKey(pairs[j]))
  }

  ghost predicate PairCovered(pairs: seq<seq<Id>>, a: Id, b: Id) {
    exists i :: 0 <= i < |pairs| && PairKey(pairs[i]) == PairKey(SortedPair(a, b))
  }

  method DetectBilateralPairs(g: Adjacency) returns (pairs: seq<seq<Id>>)
    requires ValidAdjacency(g)
    ensures SoundPairs(g, pairs)
    ensures forall a, b :: Mutual(g, a, b) ==> PairCovered(pairs, a, b)
  {
    pairs := [];
    var seen: set<string> := {};
    var i := 0;
    while i < |g.keys|
      invariant 0 <= i <= |g.keys| && SoundPairs(g, pairs) && KeysSeen(pairs, seen)
      invariant forall a, b :: a in g.keys[..i] && Mutual(g, a, b) ==> PairCovered(pairs, a, b)
    {
      var a := g.keys[i];
      ghost var before := pairs;
      pairs, seen := PairsOf(g, a, pairs, seen);
      forall x, y | x in g.keys[..i + 1] && Mutual(g, x, y) ensures PairCovered(pairs, x, y) {
        if x != a {
          assert x in g.keys[..i];
          PairCoveredGrows(before, pairs, x, y);
        }
      }
      i := i + 1;
    }
    forall a, b | Mutual(g, a, b) ensures PairCovered(pairs, a, b) {
      assert a in g.keys[..i];
    }
  }

  lemma PairCoveredGrows(before: seq<seq<Id>>, after: seq<seq<Id>>, a: Id, b: Id)
    requires before <= after && PairCovered(before, a, b)
    ensures PairCovered(after, a, b)
  {
    var i :| 0 <= i < |before| && PairKey(before[i]) == PairKey(SortedPair(a, b));
    assert after[i] == before[i];
  }

  ghost predicate KeysSeen(pairs: seq<seq<Id>>, seen: set<string>) {
    forall k :: k in seen <==> exists n :: 0 <= n < |pairs| && PairKey(pairs[n]) == k
  }

  lemma AddPair(g: Adjacency, pairs: seq<seq<Id>>, seen: set<string>, a: Id, b: Id)
    requires SoundPairs(g, pairs) && KeysSeen(pairs, seen) && Mutual(g, a, b)
    requires PairKey(SortedPair(a, b)) !in seen
    ensures SoundPairs(g, pairs + [SortedPair(a, b)])
    ensures KeysSeen(pairs + [SortedPair(a, b)], seen + {PairKey(SortedPair(a, b))})
  {
    hide PairKey, SortedPair;
    var after := pairs + [SortedPair(a, b)];
    assert after[|pairs|] == SortedPair(a, b);
    assert forall n :: 0 <= n < |pairs| ==> after[n] == pairs[n];
  }

  /** The inner loop: every mutual partner of `a`. */
  method PairsOf(g: Adjacency, a: Id, pairs0: seq<seq<Id>>, seen0: set<string>)
    returns (pairs: seq<seq<Id>>, seen: set<string>)
    requires ValidAdjacency(g) && SoundPairs(g, pairs0) && KeysSeen(pairs0, seen0)
    ensures SoundPairs(g, pairs) && KeysSeen(pairs, seen) && pairs0 <= pairs
    ensures forall b :: Mutual(g, a, b) ==> PairCovered(pairs, a, b)
  {
    hide SoundPairs, SortedPair, Join;
    pairs, seen := pairs0, seen0;
    var tos := Succ(g, a);
    var j := 0;
    while j < |tos|
      invariant 0 <= j <= |tos| && SoundPairs(g, pairs) && KeysSeen(pairs, seen) && pairs0 <= pairs
      invariant forall b :: b in tos[..j] && Mutual(g, a, b) ==> PairCovered(pairs, a, b)
    {
      var b := tos[j];
      ghost var before := pairs;
      if a in Succ(g, b) {
        var members := SortedPair(a, b);
        var key := PairKey(members);
        if key !in seen {
          AddPair(g, pairs, seen, a, b);
          seen := seen + {key};
          pairs := pairs + [members];
        }
        assert key in seen;
      }
      forall x | x in tos[..j + 1] && Mutual(g, a, x) ensures PairCovered(pairs, a, x) {
        if x != b {
          assert x in tos[..j];
          PairCoveredGrows(before, pairs, a, x);
        }
      }
      j := j + 1;
    }
    assert tos[..j] == tos;
  }

  /** Every mutual pair is reported. */
  ghost predicate PairsComplete(g: Adjacency, pairs: seq<seq<Id>>) {
    forall a, b :: Mutual(g, a, b) ==> SortedPair(a, b) in pairs
  }

  /** No two mutual pairs are joined to the same key. */
  ghost predicate PairKeysTellApart(g: Adjacency) {
    forall a, b, c, d :: Mutual(g, a, b) && Mutual(g, c, d) && PairKey(SortedPair(a, b)) == PairKey(SortedPair(c, d))
                         ==> SortedPair(a, b) == SortedPair(c, d)
  }

  /** No mutual pair is missed exactly when the keys tell the pairs apart. */
  lemma PairsCompleteIffKeysTellApart(g: Adjacency, pairs: seq<seq<Id>>)
    requires SoundPairs(g, pairs) && (forall a, b :: Mutual(g, a, b) ==> PairCovered(pairs, a, b))
    ensures PairsComplete(g, pairs) <==> PairKeysTellApart(g)
  {
    hide PairKey, SortedPair, Mutual;
    if PairKeysTellApart(g) {
      forall a, b | Mutual(g, a, b) ensures SortedPair(a, b) in pairs {
        assert PairCovered(pairs, a, b);
        var i :| 0 <= i < |pairs| && PairKey(pairs[i]) == PairKey(SortedPair(a, b));
        var c, d :| Mutual(g, c, d) && pairs[i] == SortedPair(c, d);
      }
    }
    if PairsComplete(g, pairs) {
      forall a, b, c, d | Mutual(g, a, b) && Mutual(g, c, d) && PairKey(SortedPair(a, b)) == PairKey(SortedPair(c, d))
        ensures SortedPair(a, b) == SortedPair(c, d)
      {
        var i :| 0 <= i < |pairs| && pairs[i] == SortedPair(a, b);
        var j :| 0 <= j < |pairs| && pairs[j] == SortedPair(c, d);
      }
    }
  }

  /** Ids without the join character keep the keys apart. */
  lemma SeparatorFreePairsTellApart(g: Adjacency)
    requires NoIdHas(g, '|')
    ensures PairKeysTellApart(g)
  {
    forall a, b, c, d | Mutual(g, a, b) && Mutual(g, c, d) && PairKey(SortedPair(a, b)) == PairKey(SortedPair(c, d))
      ensures SortedPair(a, b) == SortedPair(c, d)
    {
      PairSeparatorFree(g, a, b);
      PairSeparatorFree(g, c, d);
      JoinInjective(SortedPair(a, b), SortedPair(c, d), '|');
    }
  }

  /** Two mutual pairs over ids that contain the join character. */
  const SHARED_PAIR_GRAPH: Adjacency :=
    OrderedMap(["a", "b|c", "a|b", "c"],
               map["a" := OrderedMap(["b|c"], map["b|c" := 1]),
                   "b|c" := OrderedMap(["a"], map["a" := 1]),
                   "a|b" := OrderedMap(["c"], map["c" := 1]),
                   "c" := OrderedMap(["a|b"], map["a|b" := 1])])

  /** On that graph whatever the detector reports misses one of the two pairs. */
  lemma SharedKeyHidesAPair(pairs: seq<seq<Id>>)
    requires SoundPairs(SHARED_PAIR_GRAPH, pairs)
    requires forall a, b :: Mutual(SHARED_PAIR_GRAPH, a, b) ==> PairCovered(pairs, a, b)
    ensures !PairsComplete(SHARED_PAIR_GRAPH, pairs)
  {
    SharedPairKeys();
    assert Mutual(SHARED_PAIR_GRAPH, "a", "b|c") && Mutual(SHARED_PAIR_GRAPH, "a|b", "c");
    hide SortedPair, PairKey, SoundPairs, PairCovered, Mutual;
    PairsCompleteIffKeysTellApart(SHARED_PAIR_GRAPH, pairs);
  }

  lemma SharedPairKeys()
    ensures SortedPair("a", "b|c") == ["a", "b|c"] && SortedPair("a|b", "c") == ["a|b", "c"]
    ensures PairKey(["a", "b|c"]) == PairKey(["a|b", "c"]) && ["a", "b|c"] != ["a|b", "c"]
  {
    FirstLetterDecides("a", "b|c");
    FirstLetterDecides("a|b", "c");
    var c, d := ["a", "b|c"], ["a|b", "c"];
    assert Join(c[1..], '|') == "b|c" && Join(d[1..], '|') == "c";
    assert PairKey(c) == "a|b|c" == PairKey(d) && c[0] != d[0];
  }

  /** With the length-2 bound inside the limits, the rings of length 2 are exactly the
      bilateral pairs. */
  lemma RingsOfTwoAreBilateralPairs(g: Adjacency, min: int, max: int, rings: seq<Ring>, pairs: seq<seq<Id>>)
    requires min <= 2 <= max && NoIdHas(g, '>') && NoIdHas(g, '|')
    requires forall a :: a !in Succ(g, a)
    requires SoundReport(g, min, max, rings) && (forall c :: IsBoundedCycle(g, min, max, c) ==> Covered(rings, c))
    requires SoundPairs(g, pairs) && (forall a, b :: Mutual(g, a, b) ==> PairCovered(pairs, a, b))
    ensures forall m :: (|m| == 2 && Reported(rings, m)) <==> m in pairs
  {
    hide RingKey, Canon, PairKey, Join, SoundReport, Covered, Complete, SoundPairs, PairCovered;
    RingsExact(g, min, max, rings);
    forall m ensures (|m| == 2 && Reported(rings, m)) <==> m in pairs {
      if |m| == 2 && Reported(rings, m) {
        TwoRingIsPair(g, min, max, pairs, m);
      }
      if m in pairs {
        PairIsTwoRing(g, min, max, pairs, m);
      }
    }
  }

  lemma PairIsTwoRing(g: Adjacency, min: int, max: int, pairs: seq<seq<Id>>, m: seq<Id>)
    requires min <= 2 <= max && SoundPairs(g, pairs) && m in pairs
    requires forall a :: a !in Succ(g, a)
    ensures |m| == 2 && IsBoundedCycle(g, min, max, m) && SmallestFirst(m)
  {
    var i :| 0 <= i < |pairs| && pairs[i] == m;
    var a, b :| Mutual(g, a, b) && pairs[i] == SortedPair(a, b);
    PairIsTwoCycle(g, min, max, a, b);
  }

  lemma PairIsTwoCycle(g: Adjacency, min: int, max: int, a: Id, b: Id)
    requires min <= 2 <= max && Mutual(g, a, b) && a != b
    ensures IsBoundedCycle(g, min, max, SortedPair(a, b)) && SmallestFirst(SortedPair(a, b))
  {
    StringTotal(a, b);
    StringTotal(a, a);
    StringTotal(b, b);
  }

  lemma PairSeparatorFree(g: Adjacency, a: Id, b: Id)
    requires NoIdHas(g, '|') && b in Succ(g, a)
    ensures SeparatorFree(SortedPair(a, b), '|') && |SortedPair(a, b)| == 2
  {
    EdgePlain(g, '|', a, b);
    hide StringLe;
  }

  lemma TwoRingIsPair(g: Adjacency, min: int, max: int, pairs: seq<seq<Id>>, m: seq<Id>)
    requires NoIdHas(g, '|') && |m| == 2 && IsBoundedCycle(g, min, max, m) && SmallestFirst(m)
    requires SoundPairs(g, pairs) && (forall a, b :: Mutual(g, a, b) ==> PairCovered(pairs, a, b))
    ensures m in pairs
  {
    hide Join;
    var x, y := m[0], m[1];
    assert m == [x, y] == SortedPair(x, y);
    assert m[0 + 1] in Succ(g, m[0]);
    assert Mutual(g, x, y);
    var i :| 0 <= i < |pairs| && PairKey(pairs[i]) == PairKey(m);
    var a, b :| Mutual(g, a, b) && pairs[i] == SortedPair(a, b);
    PairSeparatorFree(g, a, b);
    PairSeparatorFree(g, x, y);
    JoinInjective(SortedPair(a, b), SortedPair(x, y), '|');
  }
}
