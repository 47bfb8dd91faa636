/** Burst detection of lib/collusion-monitor.ts: a sliding window over each submitter's times. */
module CollusionTiming {
  import opened Common
  import opened CollusionRings

  datatype Burst = Burst(submitter: Id, maxInWindow: nat)

  /** How many times fall in the closed interval [lo, hi]. */
  function CountIn(times: seq<int>, lo: int, hi: int): nat {
    if times == [] then 0 else (if lo <= times[0] <= hi then 1 else 0) + CountIn(times[1..], lo, hi)
  }

  /** How many fall in the closed interval of length `w` that starts at `x`. */
  function InWindow(times: seq<int>, x: int, w: int): nat {
    CountIn(times, x, x + w)
  }

  /** `m` is the largest number of times inside any closed interval of length `w`. */
  ghost predicate IsWindowMax(times: seq<int>, w: int, m: nat) {
    (forall x :: InWindow(times, x, w) <= m) && (exists x :: InWindow(times, x, w) == m)
  }

  // ----- sorting -----------------------------------------------------------

  ghost predicate Ascending(s: seq<int>) {
    forall i, j :: 0 <= i < j < |s| ==> s[i] <= s[j]
  }

  function Insert(x: int, s: seq<int>): seq<int> {
    if s == [] || x <= s[0] then [x] + s else [s[0]] + Insert(x, s[1..])
  }

  /** Array.prototype.sort with a numeric comparison. */
  function SortTimes(s: seq<int>): seq<int> {
    if s == [] then [] else Insert(s[0], SortTimes(s[1..]))
  }

  lemma {:induction false} InsertAscending(x: int, s: seq<int>)
    requires Ascending(s)
    ensures Ascending(Insert(x, s))
    ensures |Insert(x, s)| == |s| + 1
    ensures Insert(x, s)[0] == if s == [] || x <= s[0] then x else s[0]
  {
    if s != [] && x > s[0] {
      InsertAscending(x, s[1..]);
      var t := Insert(x, s[1..]);
      assert s[0] <= t[0];
      forall j | 0 <= j < |t| ensures s[0] <= t[j] {
        assert t[0] <= t[j] || j == 0;
      }
    }
  }

  lemma {:induction false} InsertCounts(x: int, s: seq<int>, lo: int, hi: int)
    ensures CountIn(Insert(x, s), lo, hi) == CountIn(s, lo, hi) + if lo <= x <= hi then 1 else 0
  {
    if s == [] || x <= s[0] {
      assert ([x] + s)[1..] == s;
    } else {
      InsertCounts(x, s[1..], lo, hi);
      assert ([s[0]] + Insert(x, s[1..]))[1..] == Insert(x, s[1..]);
    }
  }

  /** Sorting orders the times and keeps how many lie in every interval. */
  lemma {:induction false} SortKeepsCounts(s: seq<int>, lo: int, hi: int)
    ensures Ascending(SortTimes(s)) && CountIn(SortTimes(s), lo, hi) == CountIn(s, lo, hi)
  {
    if s != [] {
      SortKeepsCounts(s[1..], lo, hi);
      InsertAscending(s[0], SortTimes(s[1..]));
      InsertCounts(s[0], SortTimes(s[1..]), lo, hi);
    }
  }

  // ----- the window --------------------------------------------------------

  /** Indices `i <= j` whose times are at most `w` apart. */
  ghost predicate Within(s: seq<int>, w: int, i: int, j: int)
    requires 0 <= i <= j < |s|
  {
    s[j] - s[i] <= w
  }

  /** The loop: the longest run of a sorted list that fits in the window. */
  method MaxRun(s: seq<int>, w: int) returns (m: nat)
    requires Ascending(s)
    ensures forall i, j :: 0 <= i <= j < |s| && Within(s, w, i, j) ==> j - i + 1 <= m
    ensures m > 0 ==> exists i, j :: 0 <= i <= j < |s| && Within(s, w, i, j) && m == j - i + 1
  {
    m := 0;
    var lo := 0;
    for hi := 0 to |s|
      invariant 0 <= lo <= |s|
      invariant forall i :: 0 <= i < lo && hi > 0 ==> s[hi - 1] - s[i] > w
      invariant hi == 0 ==> lo == 0
      invariant forall i, j :: 0 <= i <= j < hi && Within(s, w, i, j) ==> j - i + 1 <= m
      invariant m > 0 ==> exists i, j :: 0 <= i <= j < hi && Within(s, w, i, j) && m == j - i + 1
    {
      assert forall i :: 0 <= i < lo ==> s[hi] - s[i] > w;
      while lo < |s| && s[hi] - s[lo] > w
        invariant 0 <= lo <= |s|
        invariant forall i :: 0 <= i < lo ==> s[hi] - s[i] > w
      {
        lo := lo + 1;
      }
      if hi - lo + 1 > m {
        m := hi - lo + 1;
        assert Within(s, w, lo, hi);
      }
      assert forall i :: 0 <= i <= hi && Within(s, w, i, hi) ==> i >= lo;
    }
  }

  // ----- runs and intervals ------------------------------------------------

  function AtMost(s: seq<int>, y: int): nat {
    if s == [] then 0 else (if s[0] <= y then 1 else 0) + AtMost(s[1..], y)
  }

  lemma {:induction false} CountFromAtMost(s: seq<int>, x: int, y: int)
    requires x <= y + 1
    ensures CountIn(s, x, y) == AtMost(s, y) - AtMost(s, x - 1)
  {
    if s != [] {
      CountFromAtMost(s[1..], x, y);
    }
  }

  lemma {:induction false} EmptyInterval(s: seq<int>, x: int, y: int)
    requires y < x
    ensures CountIn(s, x, y) == 0
  {
    if s != [] {
      EmptyInterval(s[1..], x, y);
    }
  }

  /** In a sorted list the elements at most `y` are exactly the first AtMost(s, y). */
  lemma {:induction false} AtMostSplits(s: seq<int>, y: int)
    requires Ascending(s)
    ensures AtMost(s, y) <= |s|
    ensures forall i :: 0 <= i < |s| ==> (i < AtMost(s, y) <==> s[i] <= y)
  {
    if s != [] {
      AtMostSplits(s[1..], y);
      assert forall i :: 1 <= i < |s| ==> s[i] == s[1..][i - 1];
      if s[0] > y {
        assert forall i :: 0 <= i < |s| ==> s[i] > y;
      }
    }
  }

  lemma WindowIsRun(s: seq<int>, w: int, x: int, m: nat)
    requires Ascending(s)
    requires forall i, j :: 0 <= i <= j < |s| && Within(s, w, i, j) ==> j - i + 1 <= m
    ensures InWindow(s, x, w) <= m
  {
    if w < 0 {
      EmptyInterval(s, x, x + w);
    } else {
      CountFromAtMost(s, x, x + w);
      AtMostSplits(s, x + w);
      AtMostSplits(s, x - 1);
      var a, b := AtMost(s, x - 1), AtMost(s, x + w);
      if a < b {
        assert Within(s, w, a, b - 1);
      }
    }
  }

  lemma RunIsWindow(s: seq<int>, w: int, i: nat, j: nat)
    requires Ascending(s) && i <= j < |s| && Within(s, w, i, j)
    ensures InWindow(s, s[i], w) >= j - i + 1
  {
    CountFromAtMost(s, s[i], s[i] + w);
    AtMostSplits(s, s[i] + w);
    AtMostSplits(s, s[i] - 1);
  }

  /** The loop's maximum over runs is the maximum over all windows. */
  lemma RunMaxIsWindowMax(s: seq<int>, w: int, m: nat)
    requires Ascending(s)
    requires forall i, j :: 0 <= i <= j < |s| && Within(s, w, i, j) ==> j - i + 1 <= m
    requires m > 0 ==> exists i, j :: 0 <= i <= j < |s| && Within(s, w, i, j) && m == j - i + 1
    ensures IsWindowMax(s, w, m)
  {
    forall x ensures InWindow(s, x, w) <= m {
      WindowIsRun(s, w, x, m);
    }
    if m > 0 {
      var i, j :| 0 <= i <= j < |s| && Within(s, w, i, j) && m == j - i + 1;
      RunIsWindow(s, w, i, j);
      assert InWindow(s, s[i], w) == m;
    } else {
      assert InWindow(s, 0, w) == 0;
    }
  }

  method MaxInWindow(times: seq<int>, w: int) returns (m: nat)
    ensures IsWindowMax(times, w, m)
  {
    var s := SortTimes(times);
    SortKeepsCounts(times, 0, 0);
    m := MaxRun(s, w);
    RunMaxIsWindowMax(s, w, m);
    forall x ensures InWindow(s, x, w) == InWindow(times, x, w) {
      SortKeepsCounts(times, x, x + w);
    }
    var x :| InWindow(s, x, w) == m;
    assert InWindow(times, x, w) == m;
  }

  // ----- the detector ------------------------------------------------------

  predicate Timed(r: ReceiptRow) {
    r.submittedBy != "" && r.createdAt.Some?
  }

  /** The parsed times of one submitter, in receipt order. */
  function TimesOf(receipts: seq<ReceiptRow>, a: Id): seq<int> {
    if receipts == [] then [] else
      var r := receipts[|receipts| - 1];
      TimesOf(receipts[..|receipts| - 1], a) + if Timed(r) && r.submittedBy == a then [r.createdAt.value] else []
  }

  ghost predicate Grouped(m: OrderedMap<Id, seq<int>>, receipts: seq<ReceiptRow>) {
    m.Valid() && (forall a :: a in m.vals ==> m.vals[a] == TimesOf(receipts, a))
    && (forall a :: a !in m.vals ==> TimesOf(receipts, a) == [])
    && (forall a :: a in m.vals ==> m.vals[a] != [])
  }

  lemma TimesStep(receipts: seq<ReceiptRow>, r: ReceiptRow)
    ensures Timed(r) ==> r.createdAt.Some?
    ensures forall a :: TimesOf(receipts + [r], a)
                     == if Timed(r) && r.submittedBy == a then TimesOf(receipts, a) + [r.createdAt.value]
                       else TimesOf(receipts, a)
  {
    assert (receipts + [r])[..|receipts|] == receipts;
  }

  lemma GroupStep(m: OrderedMap<Id, seq<int>>, receipts: seq<ReceiptRow>, r: ReceiptRow)
    requires Grouped(m, receipts)
    ensures !Timed(r) ==> Grouped(m, receipts + [r])
    ensures Timed(r) ==>
      var before := if r.submittedBy in m.vals then m.vals[r.submittedBy] else [];
      Grouped(m.Set(r.submittedBy, before + [r.createdAt.value]), receipts + [r])
  {
    TimesStep(receipts, r);
    hide TimesOf, Timed;
    if Timed(r) {
      var before := if r.submittedBy in m.vals then m.vals[r.submittedBy] else [];
      SetKeepsValid(m, r.submittedBy, before + [r.createdAt.value]);
    }
  }

  lemma NobodyGrouped()
    ensures Grouped(OrderedMap([], map[]), [])
  {
  }

  method GroupBySubmitter(receipts: seq<ReceiptRow>) returns (m: OrderedMap<Id, seq<int>>)
    ensures Grouped(m, receipts)
  {
    m := OrderedMap([], map[]);
    NobodyGrouped();
    hide Grouped, TimesOf;
    for i := 0 to |receipts|
      invariant Grouped(m, receipts[..i])
    {
      var r := receipts[i];
      assert receipts[..i + 1] == receipts[..i] + [r];
      GroupStep(m, receipts[..i], r);
      if r.submittedBy == "" || r.createdAt.None? { continue; }
      var before := if r.submittedBy in m.vals then m.vals[r.submittedBy] else [];
      m := m.Set(r.submittedBy, before + [r.createdAt.value]);
    }
    assert receipts[..|receipts|] == receipts;
  }

  /** Some interval of length `w` holds at least `count` receipts of submitter `a`. */
  ghost predicate Bursts(receipts: seq<ReceiptRow>, w: int, count: int, a: Id) {
    TimesOf(receipts, a) != [] && exists x :: InWindow(TimesOf(receipts, a), x, w) >= count
  }

  /** The receipts, by position, that `a` submitted from `x` to `x + w`, both included. */
  ghost function SubmittedWithin(receipts: seq<ReceiptRow>, a: Id, x: int, w: int): set<int> {
    set i | 0 <= i < |receipts| && receipts[i].submittedBy == a && receipts[i].createdAt.Some?
            && x <= receipts[i].createdAt.value <= x + w
  }

  lemma {:induction false} CountLast(times: seq<int>, t: int, lo: int, hi: int)
    ensures CountIn(times + [t], lo, hi) == CountIn(times, lo, hi) + if lo <= t <= hi then 1 else 0
  {
    if times != [] {
      CountLast(times[1..], t, lo, hi);
      assert (times + [t])[1..] == times[1..] + [t];
    }
  }

  lemma SubmittedLast(receipts: seq<ReceiptRow>, r: ReceiptRow, a: Id, x: int, w: int)
    ensures SubmittedWithin(receipts + [r], a, x, w) == SubmittedWithin(receipts, a, x, w)
            + if r.submittedBy == a && r.createdAt.Some? && x <= r.createdAt.value <= x + w then {|receipts|} else {}
    ensures |receipts| !in SubmittedWithin(receipts, a, x, w)
  {
  }

  /** A window counts receipts, each once. */
  lemma {:induction false} WindowCountsReceipts(receipts: seq<ReceiptRow>, a: Id, x: int, w: int)
    requires a != ""
    ensures InWindow(TimesOf(receipts, a), x, w) == |SubmittedWithin(receipts, a, x, w)|
  {
    if receipts != [] {
      var (init, r) := (receipts[..|receipts| - 1], receipts[|receipts| - 1]);
      assert receipts == init + [r];
      WindowCountsReceipts(init, a, x, w);
      SubmittedLast(init, r, a, x, w);
      TimesStep(init, r);
      if Timed(r) {
        CountLast(TimesOf(init, a), r.createdAt.value, x, x + w);
      }
      hide SubmittedWithin, TimesOf, CountIn;
    }
  }

  lemma {:induction false} TimesOfSomebody(receipts: seq<ReceiptRow>, a: Id)
    ensures TimesOf(receipts, a) != [] <==>
            a != "" && exists i :: 0 <= i < |receipts| && receipts[i].submittedBy == a && receipts[i].createdAt.Some?
  {
    if receipts != [] {
      var n := |receipts| - 1;
      TimesOfSomebody(receipts[..n], a);
      assert forall i :: 0 <= i < n ==> receipts[..n][i] == receipts[i];
    }
  }

  /** A submitter bursts when it has a timed receipt and some window of length `w` holds at least `count` of its
      receipts. */
  lemma BurstsExactly(receipts: seq<ReceiptRow>, w: int, count: int, a: Id)
    ensures Bursts(receipts, w, count, a) <==>
            && a != ""
            && (exists i :: 0 <= i < |receipts| && receipts[i].submittedBy == a && receipts[i].createdAt.Some?)
            && exists x :: |SubmittedWithin(receipts, a, x, w)| >= count
  {
    TimesOfSomebody(receipts, a);
    hide TimesOf, InWindow;
    if a != "" {
      forall x
        ensures InWindow(TimesOf(receipts, a), x, w) == |SubmittedWithin(receipts, a, x, w)|
      {
        WindowCountsReceipts(receipts, a, x, w);
      }
    }
  }

  method DetectTimingAnomalies(receipts: seq<ReceiptRow>, w: int, count: int) returns (found: seq<Burst>)
    ensures forall i, j :: 0 <= i < j < |found| ==> found[i].submitter != found[j].submitter
    ensures forall i :: 0 <= i < |found| ==>
      IsWindowMax(TimesOf(receipts, found[i].submitter), w, found[i].maxInWindow)
    ensures forall a :: Bursts(receipts, w, count, a) <==> Names(found, a)
  {
    var groups := GroupBySubmitter(receipts);
    found := [];
    assert Reported(receipts, w, count, found, groups.keys[..0]);
    hide Reported, Bursts, IsWindowMax, TimesOf, InWindow, Grouped;
    for k := 0 to |groups.keys|
      invariant Reported(receipts, w, count, found, groups.keys[..k])
    {
      GroupAt(groups, receipts, k);
      var a := groups.keys[k];
      var m := MaxInWindow(groups.vals[a], w);
      BurstIffMax(receipts, w, count, a, m);
      ReportStep(receipts, w, count, found, groups.keys[..k], a, m);
      if m >= count {
        found := found + [Burst(a, m)];
      }
    }
    assert groups.keys[..|groups.keys|] == groups.keys;
    BurstNeedsKey(groups, receipts, w, count);
    ReportIsExact(receipts, w, count, found, groups.keys);
  }

  lemma GroupAt(m: OrderedMap<Id, seq<int>>, receipts: seq<ReceiptRow>, k: nat)
    requires Grouped(m, receipts) && k < |m.keys|
    ensures var a := m.keys[k];
            a in m.vals && m.vals[a] == TimesOf(receipts, a) && m.vals[a] != []
            && a !in m.keys[..k] && m.keys[..k + 1] == m.keys[..k] + [a]
  {
    hide TimesOf;
    assert m.keys[k] in m.keys;
  }

  lemma BurstNeedsKey(m: OrderedMap<Id, seq<int>>, receipts: seq<ReceiptRow>, w: int, count: int)
    requires Grouped(m, receipts)
    ensures forall a :: Bursts(receipts, w, count, a) ==> a in m.keys
  {
    hide TimesOf, InWindow;
  }

  ghost predicate Names(found: seq<Burst>, a: Id) {
    exists i :: 0 <= i < |found| && found[i].submitter == a
  }

  /** The report is right about the submitters in `keys`. */
  ghost predicate Reported(receipts: seq<ReceiptRow>, w: int, count: int, found: seq<Burst>, keys: seq<Id>) {
    && (forall i, j :: 0 <= i < j < |found| ==> found[i].submitter != found[j].submitter)
    && (forall i :: 0 <= i < |found| ==>
          found[i].submitter in keys && IsWindowMax(TimesOf(receipts, found[i].submitter), w, found[i].maxInWindow))
    && (forall a :: a in keys ==> (Bursts(receipts, w, count, a) <==> Names(found, a)))
  }

  lemma ReportStep(receipts: seq<ReceiptRow>, w: int, count: int, found: seq<Burst>, keys: seq<Id>, a: Id, m: nat)
    requires Reported(receipts, w, count, found, keys) && a !in keys
    requires IsWindowMax(TimesOf(receipts, a), w, m) && (Bursts(receipts, w, count, a) <==> m >= count)
    ensures Reported(receipts, w, count, if m >= count then found + [Burst(a, m)] else found, keys + [a])
  {
    hide Bursts, IsWindowMax, TimesOf, InWindow;
    var next := if m >= count then found + [Burst(a, m)] else found;
    forall x ensures Names(next, x) <==> Names(found, x) || (m >= count && x == a) {
      if Names(found, x) {
        var i :| 0 <= i < |found| && found[i].submitter == x;
        assert next[i].submitter == x;
      }
      if m >= count {
        assert next[|found|].submitter == a;
      }
    }
  }

  lemma ReportIsExact(receipts: seq<ReceiptRow>, w: int, count: int, found: seq<Burst>, keys: seq<Id>)
    requires Reported(receipts, w, count, found, keys)
    requires forall a :: Bursts(receipts, w, count, a) ==> a in keys
    ensures forall i, j :: 0 <= i < j < |found| ==> found[i].submitter != found[j].submitter
    ensures forall i :: 0 <= i < |found| ==>
      IsWindowMax(TimesOf(receipts, found[i].submitter), w, found[i].maxInWindow)
    ensures forall a :: Bursts(receipts, w, count, a) <==> Names(found, a)
  {
    hide Bursts, IsWindowMax, TimesOf, InWindow;
  }

  lemma BurstIffMax(receipts: seq<ReceiptRow>, w: int, count: int, a: Id, m: nat)
    requires TimesOf(receipts, a) != [] && IsWindowMax(TimesOf(receipts, a), w, m)
    ensures Bursts(receipts, w, count, a) <==> m >= count
  {
  }
}
