/** serializeFileStore of lib/agent-mailbox.ts: a mutex made of chained promises, one chain per
    key.  Every operation has a `current` promise it releases and a `tail` promise that resolves
    after its predecessor's tail and its own release. */
module MailboxQueue {
  import opened Common

  datatype Phase = Waiting | Running | Done

  /** One call.  `previous` is the call whose tail it awaits; `settled` says its own tail resolved. */
  datatype Call = Call(key: string, previous: Option<nat>, phase: Phase, settled: bool)

  /** All calls in arrival order, the FILE_STORE_QUEUES map (the call that owns the tail), and the
      order in which operations started. */
  datatype State = State(calls: seq<Call>, queues: map<string, nat>, starts: seq<nat>)

  datatype Action =
    | Arrive(key: string)
    | Start(i: nat)
    | Finish(i: nat, threw: bool)
    | Settle(i: nat)

  const INITIAL := State([], map[], [])

  ghost predicate Resolved(s: State, p: Option<nat>) {
    p.None? || (p.value < |s.calls| && s.calls[p.value].settled)
  }

  ghost predicate Enabled(s: State, a: Action) {
    match a
    case Arrive(_) => true
    case Start(i) => i < |s.calls| && s.calls[i].phase == Waiting && Resolved(s, s.calls[i].previous)
    case Finish(i, _) => i < |s.calls| && s.calls[i].phase == Running
    case Settle(i) =>
      i < |s.calls| && !s.calls[i].settled && s.calls[i].phase == Done && Resolved(s, s.calls[i].previous)
  }

  ghost function Apply(s: State, a: Action): State
    requires Enabled(s, a)
  {
    match a
    case Arrive(key) =>
      var previous := if key in s.queues then Some(s.queues[key]) else None;
      State(s.calls + [Call(key, previous, Waiting, false)], s.queues[key := |s.calls|], s.starts)
    case Start(i) =>
      s.(calls := s.calls[i := s.calls[i].(phase := Running)], starts := s.starts + [i])
    case Finish(i, threw) =>
      // `finally`: the same whether the operation returned or threw
      var key := s.calls[i].key;
      s.(calls := s.calls[i := s.calls[i].(phase := Done)],
         queues := if key in s.queues && s.queues[key] == i then s.queues - {key} else s.queues)
    case Settle(i) => s.(calls := s.calls[i := s.calls[i].(settled := true)])
  }

  ghost predicate Runs(s: State, actions: seq<Action>, t: State)
    decreases |actions|
  {
    if actions == [] then s == t
    else Enabled(s, actions[0]) && Runs(Apply(s, actions[0]), actions[1..], t)
  }

  // ----- what every step keeps ---------------------------------------------

  /** Every earlier call for the same key is done. */
  ghost predicate EarlierDone(calls: seq<Call>, i: int) {
    forall j :: 0 <= j < i && i < |calls| && calls[j].key == calls[i].key ==> calls[j].phase == Done
  }

  /** `p` is the latest call for the key of `i` before `i`. */
  ghost predicate JustBefore(calls: seq<Call>, p: int, i: int) {
    0 <= p < i < |calls| && calls[p].key == calls[i].key
    && forall j :: p < j < i ==> calls[j].key != calls[i].key
  }

  ghost predicate CallSound(calls: seq<Call>, i: int)
    requires 0 <= i < |calls|
  {
    var c := calls[i];
    && (match c.previous case Some(p) => JustBefore(calls, p, i) case None => EarlierDone(calls, i))
    && (c.phase != Waiting ==> EarlierDone(calls, i))
    && (c.settled ==> c.phase == Done)
  }

  /** The map points to the last call for its key. */
  ghost predicate EntrySound(s: State, key: string) {
    if key in s.queues then
      s.queues[key] < |s.calls| && s.calls[s.queues[key]].key == key
      && forall j :: s.queues[key] < j < |s.calls| ==> s.calls[j].key != key
    else
      forall j :: 0 <= j < |s.calls| && s.calls[j].key == key ==> s.calls[j].phase == Done
  }

  ghost predicate StartsSound(s: State) {
    && (forall a :: 0 <= a < |s.starts| ==> s.starts[a] < |s.calls| && s.calls[s.starts[a]].phase != Waiting)
    && (forall a, b :: 0 <= a < b < |s.starts| && s.calls[s.starts[a]].key == s.calls[s.starts[b]].key
                       ==> s.starts[a] < s.starts[b])
    && (forall i :: 0 <= i < |s.calls| && s.calls[i].phase != Waiting ==> i in s.starts)
  }

  ghost predicate Inv(s: State) {
    && (forall i :: 0 <= i < |s.calls| ==> CallSound(s.calls, i))
    && (forall key :: EntrySound(s, key))
    && StartsSound(s)
  }

  lemma KeepArrive(s: State, a: Action)
    requires Inv(s) && Enabled(s, a) && a.Arrive?
    ensures Inv(Apply(s, a))
  {
    var t := Apply(s, a);
    var n := |s.calls|;
    assert EntrySound(s, a.key);
    forall i | 0 <= i < |t.calls| ensures CallSound(t.calls, i) {
      if i < n {
        assert CallSound(s.calls, i);
        assert forall j :: 0 <= j <= i ==> t.calls[j] == s.calls[j];
      }
    }
    forall key ensures EntrySound(t, key) {
      assert EntrySound(s, key);
    }
  }

  /** A call whose predecessor's tail has settled has only finished calls before it. */
  lemma ResolvedMeansDone(s: State, i: nat)
    requires Inv(s) && i < |s.calls| && Resolved(s, s.calls[i].previous)
    ensures EarlierDone(s.calls, i)
  {
    assert CallSound(s.calls, i);
    if s.calls[i].previous.Some? {
      var p := s.calls[i].previous.value;
      assert CallSound(s.calls, p);
      assert EarlierDone(s.calls, p);
    }
  }

  lemma CallsKept(s: State, t: State, i: nat)
    requires i < |s.calls| && |t.calls| == |s.calls|
    requires forall j :: 0 <= j < |s.calls| && j != i ==> t.calls[j] == s.calls[j]
    requires t.calls[i].key == s.calls[i].key && t.calls[i].previous == s.calls[i].previous
    requires s.calls[i].phase == Done ==> t.calls[i].phase == Done
    requires forall j :: 0 <= j < |s.calls| ==> CallSound(s.calls, j)
    requires t.calls[i].phase != Waiting ==> EarlierDone(s.calls, i)
    requires t.calls[i].settled ==> t.calls[i].phase == Done
    ensures forall j :: 0 <= j < |t.calls| ==> CallSound(t.calls, j)
  {
    forall j | 0 <= j < |t.calls| ensures CallSound(t.calls, j) {
      assert CallSound(s.calls, j);
    }
  }

  lemma KeepStart(s: State, a: Action)
    requires Inv(s) && Enabled(s, a) && a.Start?
    ensures Inv(Apply(s, a))
  {
    hide CallSound;
    var t := Apply(s, a);
    ResolvedMeansDone(s, a.i);
    assert !s.calls[a.i].settled by {
      SettledIsDone(s, a.i);
    }
    CallsKept(s, t, a.i);
    forall key ensures EntrySound(t, key) {
      assert EntrySound(s, key);
    }
    StartsGrow(s, t, a.i);
  }

  lemma SettledIsDone(s: State, i: nat)
    requires Inv(s) && i < |s.calls| && s.calls[i].phase != Done
    ensures !s.calls[i].settled
  {
    assert CallSound(s.calls, i);
  }

  /** Operations start in arrival order: whatever started before is earlier, or of another key. */
  lemma StartsGrow(s: State, t: State, i: nat)
    requires StartsSound(s) && i < |s.calls| && EarlierDone(s.calls, i) && s.calls[i].phase == Waiting
    requires forall j :: 0 <= j < |s.calls| ==> CallSound(s.calls, j)
    requires t.calls == s.calls[i := s.calls[i].(phase := Running)] && t.starts == s.starts + [i]
    ensures StartsSound(t)
  {
    forall a | 0 <= a < |s.starts| && s.calls[s.starts[a]].key == s.calls[i].key ensures s.starts[a] < i {
      var k := s.starts[a];
      assert CallSound(s.calls, k);
      assert k != i && EarlierDone(s.calls, k);
    }
    forall j | 0 <= j < |t.calls| && t.calls[j].phase != Waiting ensures j in t.starts {
      if j != i {
        assert j in s.starts;
      } else {
        assert t.starts[|s.starts|] == i;
      }
    }
  }

  lemma KeepFinish(s: State, a: Action)
    requires Inv(s) && Enabled(s, a) && a.Finish?
    ensures Inv(Apply(s, a))
  {
    hide CallSound;
    var t := Apply(s, a);
    RunningEarlierDone(s, a.i);
    CallsKept(s, t, a.i);
    forall key ensures EntrySound(t, key) {
      assert EntrySound(s, key);
    }
  }

  lemma RunningEarlierDone(s: State, i: nat)
    requires Inv(s) && i < |s.calls| && s.calls[i].phase == Running
    ensures EarlierDone(s.calls, i) && !s.calls[i].settled
  {
    assert CallSound(s.calls, i);
  }

  lemma KeepSettle(s: State, a: Action)
    requires Inv(s) && Enabled(s, a) && a.Settle?
    ensures Inv(Apply(s, a))
  {
    hide CallSound;
    var t := Apply(s, a);
    ResolvedMeansDone(s, a.i);
    CallsKept(s, t, a.i);
    forall key ensures EntrySound(t, key) {
      assert EntrySound(s, key);
    }
  }

  lemma {:induction false} RunKeepsInv(s: State, actions: seq<Action>, t: State)
    requires Inv(s) && Runs(s, actions, t)
    ensures Inv(t)
    decreases |actions|
  {
    hide Inv, Apply;
    if actions != [] {
      match actions[0] {
        case Arrive(_) => KeepArrive(s, actions[0]);
        case Start(_) => KeepStart(s, actions[0]);
        case Finish(_, _) => KeepFinish(s, actions[0]);
        case Settle(_) => KeepSettle(s, actions[0]);
      }
      RunKeepsInv(Apply(s, actions[0]), actions[1..], t);
    }
  }

  // ----- the mutex ---------------------------------------------------------

  ghost predicate AtMostOneRunning(s: State) {
    forall i, j :: 0 <= i < j < |s.calls| && s.calls[i].key == s.calls[j].key ==>
      !(s.calls[i].phase == Running && s.calls[j].phase == Running)
  }

  /** For one key, operations started in the order their calls arrived, none left out. */
  ghost predicate StartedInArrivalOrder(s: State) {
    && StartsInRange(s)
    && (forall a, b :: 0 <= a < b < |s.starts| && s.calls[s.starts[a]].key == s.calls[s.starts[b]].key
                       ==> s.starts[a] < s.starts[b])
    && (forall i, j :: 0 <= i < j < |s.calls| && s.calls[i].key == s.calls[j].key && s.calls[j].phase != Waiting
                       ==> s.calls[i].phase == Done)
  }

  ghost predicate StartsInRange(s: State) {
    forall a :: 0 <= a < |s.starts| ==> s.starts[a] < |s.calls|
  }

  /** Over every interleaving of arrivals, completions and throwing operations. */
  lemma FifoMutex(actions: seq<Action>, t: State)
    requires Runs(INITIAL, actions, t)
    ensures AtMostOneRunning(t) && StartedInArrivalOrder(t)
  {
    RunKeepsInv(INITIAL, actions, t);
    forall i, j | 0 <= i < j < |t.calls| && t.calls[i].key == t.calls[j].key && t.calls[j].phase != Waiting
      ensures t.calls[i].phase == Done
    {
      assert CallSound(t.calls, j);
    }
  }

  /** The map entry disappears only with the last call for its key, when all are done. */
  lemma EntryRemovedOnlyWhenIdle(actions: seq<Action>, s: State, a: Action, key: string)
    requires Runs(INITIAL, actions, s) && Enabled(s, a)
    requires key in s.queues && key !in Apply(s, a).queues
    ensures a.Finish? && s.calls[a.i].key == key
    ensures forall j :: a.i < j < |s.calls| ==> s.calls[j].key != key
    ensures forall j :: 0 <= j < |s.calls| && s.calls[j].key == key ==> Apply(s, a).calls[j].phase == Done
  {
    RunKeepsInv(INITIAL, actions, s);
    assert EntrySound(s, key);
    RunningEarlierDone(s, a.i);
  }

  lemma {:induction false} FirstUnfinished(s: State, key: string, n: nat) returns (i: nat)
    requires n < |s.calls| && s.calls[n].key == key && s.calls[n].phase != Done
    ensures i <= n && s.calls[i].key == key && s.calls[i].phase != Done
    ensures forall j :: 0 <= j < i && s.calls[j].key == key ==> s.calls[j].phase == Done
  {
    i := n;
    if j :| 0 <= j < n && s.calls[j].key == key && s.calls[j].phase != Done {
      i := FirstUnfinished(s, key, j);
    }
  }

  lemma {:induction false} FirstUnsettled(s: State, key: string, n: nat) returns (i: nat)
    requires n < |s.calls| && s.calls[n].key == key && !s.calls[n].settled
    ensures i <= n && s.calls[i].key == key && !s.calls[i].settled
    ensures forall j :: 0 <= j < i && s.calls[j].key == key ==> s.calls[j].settled
  {
    i := n;
    if j :| 0 <= j < n && s.calls[j].key == key && !s.calls[j].settled {
      i := FirstUnsettled(s, key, j);
    }
  }

  /** No call waits for ever on a queue that cannot move: while one is unfinished, some call for
      that key can start, finish or settle, whether or not earlier operations threw. */
  lemma NeverStuck(actions: seq<Action>, s: State, n: nat) returns (a: Action)
    requires Runs(INITIAL, actions, s) && n < |s.calls| && s.calls[n].phase != Done
    ensures Enabled(s, a) && !a.Arrive? && s.calls[a.i].key == s.calls[n].key
  {
    RunKeepsInv(INITIAL, actions, s);
    var key := s.calls[n].key;
    var i := FirstUnfinished(s, key, n);
    assert CallSound(s.calls, i);
    if s.calls[i].phase == Running {
      a := Finish(i, false);
    } else if Resolved(s, s.calls[i].previous) {
      a := Start(i);
    } else {
      var p := s.calls[i].previous.value;
      var q := FirstUnsettled(s, key, p);
      assert CallSound(s.calls, q);
      a := Settle(q);
    }
  }
}
