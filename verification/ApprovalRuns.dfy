/** Whole runs of concurrent presentations against one replay store: single use of a receipt. */
module ApprovalRuns {
  import opened Common
  import opened ApprovalGate
  import opened ApprovalEvidence

  /** Where one resume call stands; `key` is the store key of the id its evidence was signed for. */
  datatype Phase =
    | Waiting
    | Ready(key: Option<string>)
    | Verified(key: Option<string>)
    | Executed(key: Option<string>)
    | Ended(status: string)

  datatype Call = Call(receiptId: string, expected: Option<Request>, policy: Policy, phase: Phase)

  datatype State = State(store: set<string>, calls: map<nat, Call>)

  /** Calls interleave freely; only the test-and-set on the store is atomic.  A call that dies
      takes no further step. */
  datatype Step =
    | Arrive(id: nat, receiptId: string, expected: Option<Request>, policy: Policy)
    | Judge(id: nat, evidence: Value, now: Option<real>)
    | Redeem(id: nat)
    | Execute(id: nat)

  predicate Enabled(s: State, step: Step) {
    match step
    case Arrive(id, _, _, _) => id !in s.calls
    case Judge(id, _, _) => id in s.calls && s.calls[id].phase == Waiting
    case Redeem(id) => id in s.calls && s.calls[id].phase.Ready?
    case Execute(id) => id in s.calls && s.calls[id].phase.Verified?
  }

  function Move(s: State, id: nat, phase: Phase): State
    requires id in s.calls
  {
    s.(calls := s.calls[id := s.calls[id].(phase := phase)])
  }

  function Apply(host: Host, s: State, step: Step): State
    requires Enabled(s, step)
  {
    match step
    case Arrive(id, receiptId, expected, policy) =>
      s.(calls := s.calls[id := Call(receiptId, expected, policy, Waiting)])
    case Judge(id, evidence, now) =>
      var gate := Gates(host, evidence, s.calls[id].expected, s.calls[id].policy, now);
      Move(s, id, if gate == Passed then Ready(ReceiptKey(host, evidence)) else Ended(gate.status))
    case Redeem(id) =>
      var key := s.calls[id].phase.key;
      if key.Some? && key.value in s.store then Move(s, id, Ended("replay"))
      else Move(s, id, Verified(key)).(store := if key.Some? then s.store + {key.value} else s.store)
    case Execute(id) => Move(s, id, Executed(s.calls[id].phase.key))
  }

  ghost predicate Reaches(host: Host, s: State, steps: seq<Step>, t: State)
    decreases |steps|
  {
    if steps == [] then s == t
    else Enabled(s, steps[0]) && Reaches(host, Apply(host, s, steps[0]), steps[1..], t)
  }

  const EMPTY := State({}, map[])

  /** The call was answered verified=True for this store key. */
  ghost predicate RedeemedFor(c: Call, key: string) {
    (c.phase.Verified? || c.phase.Executed?) && c.phase.key == Some(key)
  }

  ghost predicate Redeemed(s: State, id: nat, key: string) {
    id in s.calls && RedeemedFor(s.calls[id], key)
  }

  /** The request names its receipt, as the release path hands it on. */
  ghost predicate NamesReceipt(c: Call) {
    c.expected.Some? && Wants(c.expected.value, "receipt_id", Text(c.receiptId))
  }

  ghost predicate BoundCall(c: Call) {
    NamesReceipt(c) && (c.phase.Ready? || c.phase.Verified? || c.phase.Executed?) ==> c.phase.key == Some(c.receiptId)
  }

  /** Each receipt id verified at most once, the store is exactly the ids that verified, and a
      call that names its receipt holds that receipt's key. */
  ghost predicate Inv(s: State) {
    && (forall i, j, k :: Redeemed(s, i, k) && Redeemed(s, j, k) ==> i == j)
    && (forall i, k :: Redeemed(s, i, k) ==> k in s.store)
    && (forall k :: k in s.store ==> exists i :: Redeemed(s, i, k))
    && (forall i :: i in s.calls ==> BoundCall(s.calls[i]))
  }

  lemma BindingFixesKey(host: Host, evidence: Value, c: Call, now: Option<real>)
    requires Plain(host) && NamesReceipt(c) && Gates(host, evidence, c.expected, c.policy, now) == Passed
    ensures ReceiptKey(host, evidence) == Some(c.receiptId)
  {
    GatesPassExactly(host, evidence, c.expected, c.policy, now);
    var payload := SignedPayload(Get(evidence, "document"));
    assert Carries(host, payload, ReceiptId, Wanted(c.expected.value, ReceiptId));
  }

  /** A step that redeems nothing new and keeps the redeemed calls keeps the invariant. */
  lemma QuietStep(s: State, t: State)
    requires Inv(s) && t.store == s.store
    requires forall i, k :: Redeemed(t, i, k) <==> Redeemed(s, i, k)
    requires forall i :: i in t.calls ==> BoundCall(t.calls[i])
    ensures Inv(t)
  {
    hide Redeemed, BoundCall;
    forall k | k in t.store ensures exists i :: Redeemed(t, i, k) {
      var i :| Redeemed(s, i, k);
      assert Redeemed(t, i, k);
    }
  }

  lemma RedeemKeepsInv(host: Host, s: State, id: nat)
    requires Inv(s) && Enabled(s, Redeem(id))
    ensures Inv(Apply(host, s, Redeem(id)))
  {
    var t := Apply(host, s, Redeem(id));
    var key := s.calls[id].phase.key;
    if key.None? || key.value in s.store {
      forall i, k ensures Redeemed(t, i, k) <==> Redeemed(s, i, k) {}
      QuietStep(s, t);
    } else {
      NewRedemption(s, t, id, key.value);
    }
  }

  lemma NewRedemption(s: State, t: State, id: nat, key: string)
    requires Inv(s) && id in s.calls && s.calls[id].phase == Ready(Some(key)) && key !in s.store
    requires t == State(s.store + {key}, s.calls[id := s.calls[id].(phase := Verified(Some(key)))])
    ensures Inv(t)
  {
    forall i, k ensures Redeemed(t, i, k) <==> Redeemed(s, i, k) || (i == id && k == key) {}
    assert BoundCall(s.calls[id]) && BoundCall(t.calls[id]);
    assert forall i :: i in t.calls && i != id ==> t.calls[i] == s.calls[i];
    hide Redeemed, BoundCall;
    forall k | k in t.store ensures exists i :: Redeemed(t, i, k) {
      if k == key {
        assert Redeemed(t, id, k);
      } else {
        var i :| Redeemed(s, i, k);
        assert Redeemed(t, i, k);
      }
    }
  }

  lemma StepKeepsInv(host: Host, s: State, step: Step)
    requires Plain(host) && Inv(s) && Enabled(s, step)
    ensures Inv(Apply(host, s, step))
  {
    if step.Redeem? {
      RedeemKeepsInv(host, s, step.id);
    } else {
      var t := Apply(host, s, step);
      if step.Judge? {
        var c := s.calls[step.id];
        if NamesReceipt(c) && Gates(host, step.evidence, c.expected, c.policy, step.now) == Passed {
          BindingFixesKey(host, step.evidence, c, step.now);
        }
      }
      hide Gates, ReceiptKey, NamesReceipt, Wanted, Plain;
      forall i, k ensures Redeemed(t, i, k) <==> Redeemed(s, i, k) {}
      forall i | i in t.calls ensures BoundCall(t.calls[i]) {
        assert i != step.id ==> t.calls[i] == s.calls[i];
      }
      QuietStep(s, t);
    }
  }

  lemma {:induction false} RunKeepsInv(host: Host, s: State, steps: seq<Step>, t: State)
    requires Plain(host) && Inv(s) && Reaches(host, s, steps, t)
    ensures Inv(t)
    decreases |steps|
  {
    hide Inv, Apply, Plain;
    if steps != [] {
      StepKeepsInv(host, s, steps[0]);
      RunKeepsInv(host, Apply(host, s, steps[0]), steps[1..], t);
    }
  }

  /** Over every interleaving: a signed receipt id is verified at most once, and the store holds
      exactly the ids that were, so a call stopped at an earlier gate spends nothing. */
  lemma SingleUse(host: Host, steps: seq<Step>, t: State)
    requires Plain(host) && Reaches(host, EMPTY, steps, t)
    ensures forall i, j, k :: Redeemed(t, i, k) && Redeemed(t, j, k) ==> i == j
    ensures forall k :: k in t.store <==> exists i :: Redeemed(t, i, k)
  {
    RunKeepsInv(host, EMPTY, steps, t);
  }

  /** Resuming with the request handed on executes at most once per receipt id. */
  lemma ExecutesOnce(host: Host, steps: seq<Step>, t: State, i: nat, j: nat)
    requires Plain(host) && Reaches(host, EMPTY, steps, t) && i in t.calls && j in t.calls
    requires t.calls[i].phase.Executed? && t.calls[j].phase.Executed?
    requires t.calls[i].expected.Some? && Wants(t.calls[i].expected.value, "receipt_id", Text(t.calls[i].receiptId))
    requires t.calls[j].expected.Some? && Wants(t.calls[j].expected.value, "receipt_id", Text(t.calls[j].receiptId))
    requires t.calls[i].receiptId == t.calls[j].receiptId
    ensures i == j
  {
    RunKeepsInv(host, EMPTY, steps, t);
    assert BoundCall(t.calls[i]) && BoundCall(t.calls[j]);
    assert Redeemed(t, i, t.calls[i].receiptId) && Redeemed(t, j, t.calls[j].receiptId);
  }

  // ----- what an execution rests on ----------------------------------------

  ghost predicate PastGates(c: Call) {
    c.phase.Ready? || c.phase.Verified? || c.phase.Executed?
  }

  /** In these steps the call was judged on evidence that proves what its own request and policy ask for. */
  ghost predicate ProvenIn(host: Host, steps: seq<Step>, id: nat, c: Call) {
    exists p :: 0 <= p < |steps| && ProvenAt(host, steps[p], id, c)
  }

  ghost predicate ProvenAt(host: Host, step: Step, id: nat, c: Call) {
    && step.Judge? && step.id == id && Proven(host, step.evidence, c.expected, c.policy, step.now)
    && (PastGates(c) ==> c.phase.key == ReceiptKey(host, step.evidence))
  }

  /** A judged call keeps its request and its key, and is not judged again. */
  ghost predicate SameCall(c: Call, d: Call) {
    c.receiptId == d.receiptId && c.expected == d.expected && c.policy == d.policy && !d.phase.Waiting?
    && (PastGates(d) ==> PastGates(c) && c.phase.key == d.phase.key)
  }

  lemma StepOnCall(host: Host, s: State, step: Step, id: nat)
    requires Enabled(s, step) && id in Apply(host, s, step).calls && PastGates(Apply(host, s, step).calls[id])
    ensures var c := Apply(host, s, step).calls[id];
            (id in s.calls && PastGates(s.calls[id]) && SameCall(s.calls[id], c)) || ProvenAt(host, step, id, c)
  {
    hide Gates, ReceiptKey, Proven, Shown;
    if step.Judge? && step.id == id {
      var d := s.calls[id];
      GatesPassExactly(host, step.evidence, d.expected, d.policy, step.now);
      ShownExactly(host, step.evidence, d.expected, d.policy, step.now);
    }
  }

  lemma {:induction false} CallStays(host: Host, s: State, steps: seq<Step>, t: State, id: nat)
    requires Reaches(host, s, steps, t) && id in s.calls && !s.calls[id].phase.Waiting?
    ensures id in t.calls && SameCall(s.calls[id], t.calls[id])
    decreases |steps|
  {
    hide Gates, ReceiptKey;
    if steps != [] {
      CallStays(host, Apply(host, s, steps[0]), steps[1..], t, id);
    }
  }

  lemma {:induction false} ProvenInRun(host: Host, s: State, steps: seq<Step>, t: State, id: nat)
    requires Reaches(host, s, steps, t) && id in t.calls && PastGates(t.calls[id])
    requires id in s.calls ==> !PastGates(s.calls[id])
    ensures ProvenIn(host, steps, id, t.calls[id])
    decreases |steps|
  {
    hide Apply, ProvenAt;
    if steps != [] {
      var next := Apply(host, s, steps[0]);
      if id in next.calls && PastGates(next.calls[id]) {
        StepOnCall(host, s, steps[0], id);
        CallStays(host, next, steps[1..], t, id);
        ProvenForSame(host, steps[0], id, next.calls[id], t.calls[id]);
      } else {
        ProvenInRun(host, next, steps[1..], t, id);
        var p :| 0 <= p < |steps[1..]| && ProvenAt(host, steps[1..][p], id, t.calls[id]);
        assert steps[p + 1] == steps[1..][p];
      }
    }
  }

  lemma ProvenForSame(host: Host, step: Step, id: nat, c: Call, d: Call)
    requires ProvenAt(host, step, id, c) && SameCall(c, d)
    ensures ProvenAt(host, step, id, d)
  {
    hide Proven, ReceiptKey;
  }

  /** Whatever was verified or executed in any interleaving was judged, in that same run, on evidence that proves a
      trusted signer, the call's own request and the call's own freshness policy. */
  lemma ExecutedOnProof(host: Host, steps: seq<Step>, t: State, id: nat)
    requires Reaches(host, EMPTY, steps, t) && id in t.calls
    requires t.calls[id].phase.Verified? || t.calls[id].phase.Executed?
    ensures exists p ::
              && 0 <= p < |steps| && steps[p].Judge? && steps[p].id == id
              && Proven(host, steps[p].evidence, t.calls[id].expected, t.calls[id].policy, steps[p].now)
              && t.calls[id].phase.key == ReceiptKey(host, steps[p].evidence)
  {
    ProvenInRun(host, EMPTY, steps, t, id);
    hide Proven, ReceiptKey;
    var p :| 0 <= p < |steps| && ProvenAt(host, steps[p], id, t.calls[id]);
  }

  /** In any state, evidence that proves what a new call asks for carries it to execution, unless the signed receipt
      id was already redeemed. */
  lemma FreshProofExecutes(host: Host, s: State, id: nat, receiptId: string, expected: Option<Request>, policy: Policy,
                           evidence: Value, now: Option<real>)
    requires id !in s.calls && Proven(host, evidence, expected, policy, now)
    requires var key := ReceiptKey(host, evidence); key.Some? ==> key.value !in s.store
    ensures var (key, c) := (ReceiptKey(host, evidence), Call(receiptId, expected, policy, Waiting));
            Reaches(host, s, OneUse(id, receiptId, expected, policy, evidence, now),
                    State(if key.Some? then s.store + {key.value} else s.store,
                          s.calls[id := c.(phase := Executed(key))]))
  {
    hide Reaches, Gates, ReceiptKey, Proven, Shown;
    GatesPassExactly(host, evidence, expected, policy, now);
    ShownExactly(host, evidence, expected, policy, now);
    var (key, c) := (ReceiptKey(host, evidence), Call(receiptId, expected, policy, Waiting));
    var store := if key.Some? then s.store + {key.value} else s.store;
    var s1 := s.(calls := s.calls[id := c]);
    var s2 := s.(calls := s.calls[id := c.(phase := Ready(key))]);
    var s3 := State(store, s.calls[id := c.(phase := Verified(key))]);
    var s4 := State(store, s.calls[id := c.(phase := Executed(key))]);
    assert Apply(host, s, Arrive(id, receiptId, expected, policy)) == s1;
    assert Apply(host, s1, Judge(id, evidence, now)) == s2;
    assert Apply(host, s2, Redeem(id)) == s3;
    assert Apply(host, s3, Execute(id)) == s4;
    ReachesFour(host, s, OneUse(id, receiptId, expected, policy, evidence, now), s1, s2, s3, s4);
  }

  // ----- exactly when one piece of evidence can be used twice --------------

  /** Two calls in a run were both executed on this evidence. */
  ghost predicate UsedTwice(host: Host, evidence: Value, steps: seq<Step>, t: State, i: nat, j: nat, p: nat, q: nat) {
    && Reaches(host, EMPTY, steps, t) && i != j && p < |steps| && q < |steps|
    && steps[p].Judge? && steps[p].id == i && steps[p].evidence == evidence
    && steps[q].Judge? && steps[q].id == j && steps[q].evidence == evidence
    && i in t.calls && j in t.calls && t.calls[i].phase.Executed? && t.calls[j].phase.Executed?
  }

  /** What a judged call knows about its evidence. */
  ghost predicate JudgedOn(s: State, i: nat, key: Option<string>) {
    i in s.calls && match s.calls[i].phase
      case Waiting => false
      case Ready(k) => k == key
      case Verified(k) => k == key
      case Executed(k) => k == key
      case Ended(_) => true
  }

  lemma {:induction false} JudgedStays(host: Host, s: State, steps: seq<Step>, t: State, i: nat, key: Option<string>)
    requires Reaches(host, s, steps, t) && JudgedOn(s, i, key)
    ensures JudgedOn(t, i, key)
    decreases |steps|
  {
    if steps != [] {
      JudgedStep(host, s, steps[0], i, key);
      JudgedStays(host, Apply(host, s, steps[0]), steps[1..], t, i, key);
    }
  }

  lemma JudgedStep(host: Host, s: State, step: Step, i: nat, key: Option<string>)
    requires Enabled(s, step) && JudgedOn(s, i, key)
    ensures JudgedOn(Apply(host, s, step), i, key)
  {
    hide Gates, ReceiptKey;
  }

  lemma {:induction false} JudgedInRun(host: Host, s: State, steps: seq<Step>, t: State, p: nat)
    requires Reaches(host, s, steps, t) && p < |steps| && steps[p].Judge?
    ensures JudgedOn(t, steps[p].id, ReceiptKey(host, steps[p].evidence))
    decreases |steps|
  {
    hide Gates, ReceiptKey;
    var next := Apply(host, s, steps[0]);
    if p == 0 {
      JudgedStays(host, next, steps[1..], t, steps[0].id, ReceiptKey(host, steps[0].evidence));
    } else {
      JudgedInRun(host, next, steps[1..], t, p - 1);
    }
  }

  ghost predicate CanBeUsedTwice(host: Host, evidence: Value) {
    exists steps, t, i, j, p, q :: UsedTwice(host, evidence, steps, t, i, j, p, q)
  }

  lemma {:induction false} ReachesConcat(host: Host, s: State, a: seq<Step>, t: State, b: seq<Step>, u: State)
    requires Reaches(host, s, a, t) && Reaches(host, t, b, u)
    ensures Reaches(host, s, a + b, u)
    decreases |a|
  {
    hide Apply;
    if a == [] {
      assert a + b == b;
    } else {
      assert (a + b)[1..] == a[1..] + b;
      ReachesConcat(host, Apply(host, s, a[0]), a[1..], t, b, u);
    }
  }

  function OneUse(id: nat, receiptId: string, expected: Option<Request>, policy: Policy, evidence: Value,
                  now: Option<real>): seq<Step>
  {
    [Arrive(id, receiptId, expected, policy), Judge(id, evidence, now), Redeem(id), Execute(id)]
  }

  lemma ReachesFour(host: Host, s: State, steps: seq<Step>, s1: State, s2: State, s3: State, s4: State)
    requires |steps| == 4 && Enabled(s, steps[0]) && Apply(host, s, steps[0]) == s1
    requires Enabled(s1, steps[1]) && Apply(host, s1, steps[1]) == s2
    requires Enabled(s2, steps[2]) && Apply(host, s2, steps[2]) == s3
    requires Enabled(s3, steps[3]) && Apply(host, s3, steps[3]) == s4
    ensures Reaches(host, s, steps, s4)
  {
    hide Apply, Enabled;
    assert steps[3..][1..] == [] && steps[2..][1..] == steps[3..] && steps[1..][1..] == steps[2..];
    assert Reaches(host, s3, steps[3..], s4);
    assert Reaches(host, s2, steps[2..], s4);
    assert Reaches(host, s1, steps[1..], s4);
  }

  /** Evidence that proves what some request asks for can be executed on twice exactly when it is signed for no
      receipt id. */
  lemma TwiceIffUnkeyed(host: Host, receiptId: string, expected: Option<Request>, policy: Policy, evidence: Value,
                        now: Option<real>)
    requires Plain(host) && Proven(host, evidence, expected, policy, now)
    ensures CanBeUsedTwice(host, evidence) <==> Read(evidence, ["document", "payload", "receipt_id"]) == Null
  {
    ReadPayload(evidence, "receipt_id");
    assert ReceiptKey(host, evidence).None? <==> Read(evidence, ["document", "payload", "receipt_id"]) == Null;
    hide Proven, Apply, Reaches, ReceiptKey, Plain, Read;
    if CanBeUsedTwice(host, evidence) && ReceiptKey(host, evidence).Some? {
      var steps, t, i, j, p, q :| UsedTwice(host, evidence, steps, t, i, j, p, q);
      KeyedOnce(host, evidence, steps, t, i, j, p, q);
    }
    if ReceiptKey(host, evidence).None? {
      UnkeyedTwice(host, receiptId, expected, policy, evidence, now);
    }
  }

  lemma KeyedOnce(host: Host, evidence: Value, steps: seq<Step>, t: State, i: nat, j: nat, p: nat, q: nat)
    requires Plain(host) && UsedTwice(host, evidence, steps, t, i, j, p, q)
    ensures ReceiptKey(host, evidence).None?
  {
    hide Reaches, ReceiptKey, Plain;
    JudgedInRun(host, EMPTY, steps, t, p);
    JudgedInRun(host, EMPTY, steps, t, q);
    var key := ReceiptKey(host, evidence);
    assert key.Some? ==> Redeemed(t, i, key.value) && Redeemed(t, j, key.value);
    SingleUse(host, steps, t);
  }

  lemma UnkeyedTwice(host: Host, receiptId: string, expected: Option<Request>, policy: Policy, evidence: Value,
                     now: Option<real>)
    requires Proven(host, evidence, expected, policy, now) && ReceiptKey(host, evidence).None?
    ensures CanBeUsedTwice(host, evidence)
  {
    hide Proven, Apply, Reaches, ReceiptKey;
    var done := Call(receiptId, expected, policy, Executed(None));
    var s := State({}, map[0 := done]);
    var t := State({}, map[0 := done, 1 := done]);
    var first := OneUse(0, receiptId, expected, policy, evidence, now);
    var second := OneUse(1, receiptId, expected, policy, evidence, now);
    FreshProofExecutes(host, EMPTY, 0, receiptId, expected, policy, evidence, now);
    FreshProofExecutes(host, s, 1, receiptId, expected, policy, evidence, now);
    assert s == EMPTY.(calls := EMPTY.calls[0 := done]) && t == s.(calls := s.calls[1 := done]);
    ReachesConcat(host, EMPTY, first, s, second, t);
    assert (first + second)[1] == first[1] && (first + second)[5] == second[1];
    assert UsedTwice(host, evidence, first + second, t, 0, 1, 1, 5);
  }
}
