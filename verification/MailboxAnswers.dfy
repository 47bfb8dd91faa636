/** Concurrent `acknowledge` calls of the mailbox service in lib/agent-mailbox.ts.  A call awaits the
    store three times: it lists, writes, and lists again to confirm; anything may happen between. */
module MailboxAnswers {
  import opened Common
  import opened MailboxRecords
  import opened MailboxStores
  import opened MailboxService
  import opened MailboxDelivery
  import opened MailboxCalls
  import MailboxRuns

  datatype Phase =
    | Started
    | Listed(existing: Stored, pending: Ack)
    | Written(returned: Stored)
    | Missed
    | Answered(answer: Option<Ack>)
    | Failed

  /** One call: the service instance it runs on and the read time it took when it began. */
  datatype Call = Call(svc: Service, recipientId: string, envelopeId: string, readAt: string, phase: Phase)

  datatype World = World(base: State, calls: map<nat, Call>)

  datatype Move =
    | Elsewhere(step: Step)
    | Begin(id: nat, recipientId: string, envelopeId: string)
    | ListBefore(id: nat)
    | Write(id: nat)
    | Confirm(id: nat)

  ghost predicate Possible(env: Env, w: World, move: Move) {
    match move
    case Elsewhere(step) => Enabled(env, w.base, step)
    case Begin(id, recipientId, envelopeId) => id !in w.calls && Identifier(recipientId) && Identifier(envelopeId)
    case ListBefore(id) => id in w.calls && w.calls[id].phase.Started?
    case Write(id) => id in w.calls && w.calls[id].phase.Listed?
    case Confirm(id) => id in w.calls && (w.calls[id].phase.Written? || w.calls[id].phase.Missed?)
  }

  /** verifiedList for a call: its own instance, its own read time, the store as it is now. */
  ghost function VerifiedFor(env: Env, c: Call, m: Memory): Option<seq<Stored>>
    requires m.Valid()
  {
    var listed := Wrap(ListFor(Values(m), c.recipientId));
    if AllPass(env, c.svc, c.recipientId, c.readAt, listed)
      && KeysConsistent(listed) then Some(FirstOccurrences(listed)) else None
  }

  ghost function AfterList(env: Env, c: Call, m: Memory): Phase
    requires m.Valid()
  {
    var before := VerifiedFor(env, c, m);
    if before.None? then Failed
    else
      var existing := FindEnvelope(before.value, c.envelopeId);
      if existing.None? then Answered(None)
      else if existing.value.ack.Some? then Answered(existing.value.ack)
      else
        var pending := CreateAck(env, c.svc, existing.value, c.readAt);
        if pending.None? then Failed else Listed(existing.value, pending.value)
  }

  ghost function AfterWrite(env: Env, c: Call, result: AckResult): Phase
    requires c.phase.Listed?
  {
    match result
    case Missing => Missed
    case Invalid => Failed
    case Held(record) =>
      if ReturnedFits(env, c.svc, c.readAt, c.recipientId, c.envelopeId, record, c.phase.existing)
        then Written(record) else Failed
  }

  ghost function AfterConfirm(env: Env, c: Call, m: Memory): Phase
    requires m.Valid() && (c.phase.Written? || c.phase.Missed?)
  {
    var after := VerifiedFor(env, c, m);
    if after.None? then Failed
    else
      var persisted := FindEnvelope(after.value, c.envelopeId);
      if c.phase.Missed? then if persisted.Some? then Failed else Answered(None)
      else if persisted.None? || persisted.value.ack.None? || persisted.value.ack != c.phase.returned.ack then Failed
      else Answered(persisted.value.ack)
  }

  ghost function At(w: World, id: nat, phase: Phase): map<nat, Call>
    requires id in w.calls
  {
    w.calls[id := w.calls[id].(phase := phase)]
  }

  ghost function WriteStep(env: Env, w: World, id: nat): World
    requires id in w.calls && w.calls[id].phase.Listed?
  {
    var c := w.calls[id];
    var (store, result) := MemoryAck(env, w.base.store, c.recipientId, c.envelopeId, c.phase.pending);
    World(w.base.(store := store), At(w, id, AfterWrite(env, c, result)))
  }

  ghost function ConfirmStep(env: Env, w: World, id: nat): World
    requires id in w.calls && (w.calls[id].phase.Written? || w.calls[id].phase.Missed?) && w.base.store.Valid()
  {
    w.(calls := At(w, id, AfterConfirm(env, w.calls[id], w.base.store)))
  }

  ghost function Perform(env: Env, w: World, move: Move): World
    requires Possible(env, w, move) && w.base.store.Valid()
  {
    match move
    case Elsewhere(step) => w.(base := Apply(env, w.base, step))
    case Begin(id, recipientId, envelopeId) =>
      w.(calls := w.calls[id := Call(w.base.svc, recipientId, envelopeId, w.base.now, Started)])
    case ListBefore(id) => w.(calls := At(w, id, AfterList(env, w.calls[id], w.base.store)))
    case Write(id) => WriteStep(env, w, id)
    case Confirm(id) => ConfirmStep(env, w, id)
  }

  ghost predicate Leads(env: Env, w: World, moves: seq<Move>, t: World)
    decreases |moves|
  {
    if moves == [] then w == t
    else w.base.store.Valid() && Possible(env, w, moves[0]) && Leads(env, Perform(env, w, moves[0]), moves[1..], t)
  }

  // ----- what a call can read ----------------------------------------------

  /** The record can be read by this instance as of this time. */
  ghost predicate ReadableBy(env: Env, svc: Service, asOf: string, r: Stored) {
    env.canonical(StoredDoc(r)).Some? && r.binding.signerKeyId in svc.keys
    && (r.ack.Some? ==> r.ack.value.signerKeyId in svc.keys && NotLater(env, r.ack.value.readAt, asOf))
  }

  ghost predicate NotLater(env: Env, a: string, b: string) {
    env.instant(a).Some? && env.instant(b).Some? && env.instant(a).value <= env.instant(b).value
  }

  ghost predicate AllReadable(env: Env, c: Call, m: Memory) {
    forall k :: k in m.vals && m.vals[k].recipientId == c.recipientId ==> ReadableBy(env, c.svc, c.readAt, m.vals[k])
  }

  /** An earlier instance and time read a good record exactly when it is ReadableBy them. */
  lemma PassesIff(env: Env, svc: Service, asOf: string, svc': Service, now: string, r: Stored)
    requires RecordGood(env, svc', now, r) && Later(env, svc, asOf, svc', now)
    ensures Passes(env, svc, r.recipientId, asOf, Some(r)) <==> ReadableBy(env, svc, asOf, r)
  {
    CheckedCanonical(env, r);
    hide VerifyEnvelope, Checked, Verifies;
  }

  lemma CheckedCanonical(env: Env, r: Stored)
    ensures Checked(env, r) ==> env.canonical(StoredDoc(r)).Some?
  {
  }

  /** In a good state the list of a call throws exactly when some record of its recipient is not
      readable for it, and otherwise is the whole listing. */
  lemma ListExactly(env: Env, s: State, c: Call)
    requires Good(env, s) && Later(env, c.svc, c.readAt, s.svc, s.now)
    ensures s.store.Valid()
    ensures VerifiedFor(env, c, s.store) == if AllReadable(env, c, s.store)
            then Some(ListFor(Values(s.store), c.recipientId)) else None
  {
    assert s.store.Valid();
    ListingUsable(env, s, c.recipientId);
    GoodValuesDistinct(env, s.svc, s.now, s.store);
    ListEffect(Values(s.store), c.recipientId);
    hide ListFor, KeysConsistent, FirstOccurrences, Later, AllReadable;
    PassesWhenReadable(env, s, c, ListFor(Values(s.store), c.recipientId));
  }

  lemma PassesWhenReadable(env: Env, s: State, c: Call, records: seq<Stored>)
    requires Good(env, s) && Later(env, c.svc, c.readAt, s.svc, s.now) && s.store.Valid()
    requires forall x :: x in records <==> x in Values(s.store) && x.recipientId == c.recipientId
    ensures AllPass(env, c.svc, c.recipientId, c.readAt, Wrap(records)) <==> AllReadable(env, c, s.store)
  {
    var m := s.store;
    hide Later, Passes, ReadableBy, Values, RecordGood;
    if AllPass(env, c.svc, c.recipientId, c.readAt, Wrap(records)) {
      forall k | k in m.vals && m.vals[k].recipientId == c.recipientId
        ensures ReadableBy(env, c.svc, c.readAt, m.vals[k])
      {
        KeyHasValue(m, k);
        var i :| 0 <= i < |records| && records[i] == m.vals[k];
        assert Passes(env, c.svc, c.recipientId, c.readAt, Wrap(records)[i]);
        PassesIff(env, c.svc, c.readAt, s.svc, s.now, m.vals[k]);
      }
    }
    if AllReadable(env, c, m) {
      forall i | 0 <= i < |records| ensures Passes(env, c.svc, c.recipientId, c.readAt, Wrap(records)[i]) {
        assert records[i] in records;
        ValueHasKey(m, records[i]);
        var k :| k in m.vals && m.vals[k] == records[i];
        PassesIff(env, c.svc, c.readAt, s.svc, s.now, m.vals[k]);
      }
    }
  }

  // ----- what every run keeps ----------------------------------------------

  /** The call belongs to an instance and a time that the present state is later than. */
  ghost predicate Begun(env: Env, s: State, c: Call) {
    Configured(env, c.svc) && Later(env, c.svc, c.readAt, s.svc, s.now) && Identifier(c.recipientId)
      && Identifier(c.envelopeId)
  }

  /** What a call in progress relies on in the store. */
  ghost predicate PhaseGood(env: Env, m: Memory, c: Call) {
    var k := KeyText(c.recipientId, c.envelopeId);
    match c.phase
    case Started => true
    case Listed(x, a) =>
      k in m.vals && Delivery(m.vals[k]) == x && env.canonical(StoredDoc(m.vals[k])).Some? && ListedGood(env, c, x, a)
    case Written(x) => k in m.vals && m.vals[k] == x && x.ack.Some?
    case Missed => false
    case Answered(a) => a.Some? ==> k in m.vals && m.vals[k].ack == a
    case Failed => true
  }

  /** The listed record was read by this call, and the acknowledgement was made for it. */
  ghost predicate ListedGood(env: Env, c: Call, x: Stored, a: Ack) {
    x.ack.None? && x.recipientId == c.recipientId && x.envelopeId == c.envelopeId
    && Passes(env, c.svc, c.recipientId, c.readAt, Some(x)) && CreateAck(env, c.svc, x, c.readAt) == Some(a)
  }

  ghost predicate CallGood(env: Env, s: State, c: Call) {
    Begun(env, s, c) && PhaseGood(env, s.store, c)
  }

  ghost predicate WorldGood(env: Env, w: World) {
    Good(env, w.base) && forall id :: id in w.calls ==> CallGood(env, w.base, w.calls[id])
  }

  lemma CallStaysGood(env: Env, s: State, t: State, c: Call)
    requires CallGood(env, s, c) && Grows(env, s, t)
    ensures CallGood(env, t, c)
  {
    LaterTransitive(env, c.svc, c.readAt, s.svc, s.now, t.svc, t.now);
    hide Later, Configured, Identifier, ListedGood, KeyText;
    if c.phase.Written? {
      MailboxRuns.AckedIsWhole(s.store.vals[KeyText(c.recipientId, c.envelopeId)],
          t.store.vals[KeyText(c.recipientId, c.envelopeId)]);
    }
  }

  lemma LaterTransitive(env: Env, a: Service, t: string, b: Service, u: string, c: Service, v: string)
    requires Later(env, a, t, b, u) && Later(env, b, u, c, v)
    ensures Later(env, a, t, c, v)
  {
  }

  lemma OthersStayGood(env: Env, w: World, t: World, id: nat)
    requires WorldGood(env, w) && Good(env, t.base) && Grows(env, w.base, t.base)
    requires id in t.calls && CallGood(env, t.base, t.calls[id])
    requires forall j :: j in t.calls && j != id ==> j in w.calls && t.calls[j] == w.calls[j]
    ensures WorldGood(env, t)
  {
    hide Good, Grows, CallGood;
    forall j | j in t.calls ensures CallGood(env, t.base, t.calls[j]) {
      if j != id {
        CallStaysGood(env, w.base, t.base, t.calls[j]);
      }
    }
  }

  // ----- the list steps ----------------------------------------------------

  /** What a call finds: its own envelope under its own key, if the list can be read at all. */
  ghost predicate Finds(env: Env, c: Call, m: Memory)
    requires m.Valid()
  {
    var k := KeyText(c.recipientId, c.envelopeId);
    if AllReadable(env, c, m) then
      VerifiedFor(env, c, m).Some?
      && FindEnvelope(VerifiedFor(env, c, m).value, c.envelopeId) == if k in m.vals then Some(m.vals[k]) else None
    else VerifiedFor(env, c, m).None?
  }

  lemma CallFinds(env: Env, s: State, c: Call)
    requires Good(env, s) && Begun(env, s, c)
    ensures s.store.Valid() && Finds(env, c, s.store)
  {
    ListExactly(env, s, c);
    FindIsLookup(env, s.svc, s.now, s.store, c.recipientId, c.envelopeId);
    hide StoreGood, PoolsGood, Later, Configured, Identifier, KeyText, ListFor, Values, FindEnvelope, VerifiedFor,
         AllReadable;
  }

  lemma ListedPasses(env: Env, s: State, c: Call)
    requires Good(env, s) && Begun(env, s, c) && AllReadable(env, c, s.store)
             && KeyText(c.recipientId, c.envelopeId) in s.store.vals
    ensures var x := s.store.vals[KeyText(c.recipientId, c.envelopeId)];
            x.recipientId == c.recipientId && x.envelopeId == c.envelopeId
            && Passes(env, c.svc, c.recipientId, c.readAt, Some(x))
  {
    hide StoreGood, PoolsGood, Later, Configured, Identifier, KeyText, ReadableBy, Passes, RecordGood;
    var k := KeyText(c.recipientId, c.envelopeId);
    KeyedRecord(env, s.svc, s.now, s.store, c.recipientId, c.envelopeId);
    GoodRecordAt(env, s, k);
    PassesIff(env, c.svc, c.readAt, s.svc, s.now, s.store.vals[k]);
  }

  lemma GoodRecordAt(env: Env, s: State, k: string)
    requires Good(env, s) && k in s.store.vals
    ensures RecordGood(env, s.svc, s.now, s.store.vals[k])
  {
    hide RecordGood, KeyOf, PoolsGood, Configured;
  }

  lemma ListKeepsPhase(env: Env, s: State, c: Call)
    requires Good(env, s) && Begun(env, s, c) && c.phase.Started?
    ensures s.store.Valid() && PhaseGood(env, s.store, c.(phase := AfterList(env, c, s.store)))
  {
    hide Good, Begun, KeyText, FindEnvelope, CreateAck, VerifiedFor, AllReadable, Passes, ListedGood;
    CallFinds(env, s, c);
    var after := AfterList(env, c, s.store);
    if after.Listed? {
      ListedPasses(env, s, c);
      PassedIsCanonical(env, c.svc, c.recipientId, c.readAt, Some(after.existing));
      ListedIsGood(env, c, after.existing, after.pending, after);
      assert Delivery(after.existing) == after.existing;
    }
  }

  lemma ListedIsGood(env: Env, c: Call, x: Stored, a: Ack, after: Phase)
    requires x.ack.None? && x.recipientId == c.recipientId && x.envelopeId == c.envelopeId
    requires Passes(env, c.svc, c.recipientId, c.readAt, Some(x)) && CreateAck(env, c.svc, x, c.readAt) == Some(a)
    ensures ListedGood(env, c.(phase := after), x, a)
  {
    hide Passes, CreateAck;
  }

  lemma ConfirmPhase(env: Env, s: State, c: Call)
    requires Good(env, s) && CallGood(env, s, c) && (c.phase.Written? || c.phase.Missed?)
    ensures var k := KeyText(c.recipientId, c.envelopeId);
            s.store.Valid() && k in s.store.vals && s.store.vals[k].ack.Some?
            && AfterConfirm(env, c, s.store) == if AllReadable(env, c, s.store) then Answered(s.store.vals[k].ack)
              else Failed
  {
    hide Good, Begun, KeyText, FindEnvelope, VerifiedFor, AllReadable;
    CallFinds(env, s, c);
  }

  // ----- the write step ----------------------------------------------------

  lemma PendingVerifies(env: Env, s: State, c: Call)
    requires Honest(env) && CallGood(env, s, c) && c.phase.Listed?
    ensures AckVerifies(env, c.phase.pending, c.svc.keys, c.readAt)
            && AckVerifies(env, c.phase.pending, s.svc.keys, s.now)
  {
    hide Honest, CreateAck, AckVerifies, Passes, Identifier, KeyText, Configured;
    CreatedAckVerifies(env, c.svc, c.readAt, c.phase.existing, c.readAt);
    AckStaysGood(env, c.svc, c.readAt, s.svc, s.now, c.phase.pending);
  }

  lemma AckStepGrows(env: Env, m: Memory, recipientId: string, envelopeId: string, a: Ack)
    requires m.Valid()
    ensures MailboxRuns.Evolves(m, MemoryAck(env, m, recipientId, envelopeId, a).0)
    ensures StaysCanonical(env, m, MemoryAck(env, m, recipientId, envelopeId, a).0)
  {
    hide MemoryAck, MailboxRuns.Evolves, StaysCanonical;
    MailboxRuns.StepEvolves(env, m, MailboxRuns.AckOp(recipientId, envelopeId, a));
    StoreStaysCanonical(env, m, MailboxRuns.AckOp(recipientId, envelopeId, a));
  }

  /** Writing a verifying acknowledgement leaves the base state good and only grown. */
  lemma WriteKeepsBase(env: Env, s: State, recipientId: string, envelopeId: string, a: Ack)
    requires Good(env, s) && AckVerifies(env, a, s.svc.keys, s.now)
    ensures var t := s.(store := MemoryAck(env, s.store, recipientId, envelopeId, a).0);
            Good(env, t) && Grows(env, s, t)
  {
    assert s.store.Valid();
    hide StoreGood, PoolsGood, MemoryAck, Configured, AckVerifies, MailboxRuns.Evolves, StaysCanonical;
    AckKeepsStore(env, s.svc, s.now, s.store, recipientId, envelopeId, a);
    AckStepGrows(env, s.store, recipientId, envelopeId, a);
    PoolsKept(env, s, s.(store := MemoryAck(env, s.store, recipientId, envelopeId, a).0));
  }

  lemma WriteKeepsPhase(env: Env, m: Memory, c: Call)
    requires m.Valid() && PhaseGood(env, m, c) && c.phase.Listed?
    ensures var (n, result) := MemoryAck(env, m, c.recipientId, c.envelopeId, c.phase.pending);
            PhaseGood(env, n, c.(phase := AfterWrite(env, c, result)))
  {
    hide KeyText, ListedGood, ReturnedFits, MemoryAck;
    MailboxRuns.AckHolds(env, m, c.recipientId, c.envelopeId, c.phase.pending);
    NeverMissing(env, m, c.recipientId, c.envelopeId, c.phase.pending);
  }

  lemma NeverMissing(env: Env, m: Memory, recipientId: string, envelopeId: string, a: Ack)
    requires KeyText(recipientId, envelopeId) in m.vals
    ensures MemoryAck(env, m, recipientId, envelopeId, a).1 != Missing
  {
    hide Checked, KeyText;
  }

  // ----- every move --------------------------------------------------------

  lemma BegunAnew(env: Env, s: State, c: Call)
    requires Good(env, s) && c.svc == s.svc && c.readAt == s.now && c.phase == Started
    requires Identifier(c.recipientId) && Identifier(c.envelopeId)
    ensures CallGood(env, s, c)
  {
    hide StoreGood, PoolsGood, Identifier;
  }

  lemma BegunKept(env: Env, s: State, c: Call, phase: Phase)
    requires Begun(env, s, c)
    ensures Begun(env, s, c.(phase := phase))
  {
    hide Configured, Later, Identifier;
  }

  lemma ElsewhereKeepsGood(env: Env, w: World, step: Step)
    requires Honest(env) && WorldGood(env, w) && Enabled(env, w.base, step)
    ensures w.base.store.Valid() && WorldGood(env, w.(base := Apply(env, w.base, step)))
  {
    hide Honest, Good, Grows, CallGood, Apply, Enabled;
    StepGrows(env, w.base, step);
    StepKeepsGood(env, w.base, step);
    var t := Apply(env, w.base, step);
    forall j | j in w.calls ensures CallGood(env, t, w.calls[j]) {
      CallStaysGood(env, w.base, t, w.calls[j]);
    }
  }

  lemma GoodGrows(env: Env, s: State)
    requires Good(env, s)
    ensures Grows(env, s, s)
  {
    hide StoreGood, PoolsGood, Configured;
    GrowsReflexive(env, s);
  }

  lemma CallMoveKeepsGood(env: Env, w: World, id: nat, phase: Phase)
    requires WorldGood(env, w) && id in w.calls && PhaseGood(env, w.base.store, w.calls[id].(phase := phase))
    ensures WorldGood(env, w.(calls := At(w, id, phase)))
  {
    hide Good, Grows, Begun, PhaseGood;
    GoodGrows(env, w.base);
    assert CallGood(env, w.base, w.calls[id]);
    BegunKept(env, w.base, w.calls[id], phase);
    OthersStayGood(env, w, w.(calls := At(w, id, phase)), id);
  }

  lemma WriteKeepsGood(env: Env, w: World, id: nat)
    requires Honest(env) && WorldGood(env, w) && id in w.calls && w.calls[id].phase.Listed? && w.base.store.Valid()
    ensures WorldGood(env, WriteStep(env, w, id))
  {
    hide Honest, Good, Grows, Begun, PhaseGood, MemoryAck, AfterWrite, Later;
    var c := w.calls[id];
    assert CallGood(env, w.base, c);
    PendingVerifies(env, w.base, c);
    WriteKeepsBase(env, w.base, c.recipientId, c.envelopeId, c.phase.pending);
    WriteKeepsPhase(env, w.base.store, c);
    var t := WriteStep(env, w, id);
    CallStaysGood(env, w.base, t.base, c);
    BegunKept(env, t.base, c, t.calls[id].phase);
    OthersStayGood(env, w, t, id);
  }

  lemma MoveKeepsGood(env: Env, w: World, move: Move)
    requires Honest(env) && WorldGood(env, w) && Possible(env, w, move)
    ensures w.base.store.Valid() && WorldGood(env, Perform(env, w, move))
  {
    ValidStore(env, w.base);
    hide Honest, Good, Begun, PhaseGood, AfterList, AfterWrite, AfterConfirm, MemoryAck, Apply, Enabled, Identifier;
    match move
    case Elsewhere(step) => ElsewhereKeepsGood(env, w, step);
    case Begin(id, recipientId, envelopeId) => BeginKeepsGood(env, w, id, recipientId, envelopeId);
    case ListBefore(id) =>
      assert CallGood(env, w.base, w.calls[id]);
      ListKeepsPhase(env, w.base, w.calls[id]);
      CallMoveKeepsGood(env, w, id, AfterList(env, w.calls[id], w.base.store));
    case Write(id) => WriteKeepsGood(env, w, id);
    case Confirm(id) =>
      assert CallGood(env, w.base, w.calls[id]);
      ConfirmKeepsPhase(env, w.base, w.calls[id]);
      CallMoveKeepsGood(env, w, id, AfterConfirm(env, w.calls[id], w.base.store));
  }

  lemma ValidStore(env: Env, s: State)
    requires Good(env, s)
    ensures s.store.Valid()
  {
  }

  lemma BeginKeepsGood(env: Env, w: World, id: nat, recipientId: string, envelopeId: string)
    requires WorldGood(env, w) && id !in w.calls && Identifier(recipientId) && Identifier(envelopeId)
    ensures WorldGood(env, w.(calls := w.calls[id := Call(w.base.svc, recipientId, envelopeId, w.base.now, Started)]))
  {
    hide Good, Grows, CallGood, Identifier;
    GoodGrows(env, w.base);
    var c := Call(w.base.svc, recipientId, envelopeId, w.base.now, Started);
    BegunAnew(env, w.base, c);
    OthersStayGood(env, w, w.(calls := w.calls[id := c]), id);
  }

  lemma ConfirmKeepsPhase(env: Env, s: State, c: Call)
    requires Good(env, s) && CallGood(env, s, c) && (c.phase.Written? || c.phase.Missed?)
    ensures s.store.Valid() && PhaseGood(env, s.store, c.(phase := AfterConfirm(env, c, s.store)))
  {
    hide Good, Begun, KeyText, AfterConfirm, AllReadable;
    ConfirmPhase(env, s, c);
  }

  lemma {:induction false} RunKeepsWorldGood(env: Env, w: World, moves: seq<Move>, t: World)
    requires Honest(env) && WorldGood(env, w) && Leads(env, w, moves, t)
    ensures WorldGood(env, t)
    decreases |moves|
  {
    hide Honest, WorldGood, Perform, Possible;
    if moves != [] {
      MoveKeepsGood(env, w, moves[0]);
      RunKeepsWorldGood(env, Perform(env, w, moves[0]), moves[1..], t);
    }
  }

  // ----- the answers -------------------------------------------------------

  /** The call was answered with this acknowledgement. */
  ghost predicate AnsweredWith(w: World, id: nat, recipientId: string, envelopeId: string, a: Ack) {
    id in w.calls && w.calls[id].recipientId == recipientId && w.calls[id].envelopeId == envelopeId
    && w.calls[id].phase == Answered(Some(a))
  }

  /** Over every interleaving of acknowledge calls with one another and with everything else the
      service does, all answers for one envelope are one acknowledgement, and the store holds it. */
  lemma AnswersAgree(env: Env, svc: Service, directory: Directory, now: string, moves: seq<Move>, t: World)
    requires Honest(env) && Configured(env, svc) && env.instant(now).Some?
    requires Leads(env, World(Start(svc, directory, now), map[]), moves, t)
    ensures forall i, j, recipientId, envelopeId, a, b ::
              AnsweredWith(t, i, recipientId, envelopeId, a) && AnsweredWith(t, j, recipientId, envelopeId, b) ==>
                  a == b
    ensures forall i, recipientId, envelopeId, a :: AnsweredWith(t, i, recipientId, envelopeId, a) ==>
              var k := KeyText(recipientId, envelopeId); k in t.base.store.vals && t.base.store.vals[k].ack == Some(a)
  {
    StartIsGood(env, svc, directory, now);
    hide Honest, Configured, Good, Begun, KeyText;
    RunKeepsWorldGood(env, World(Start(svc, directory, now), map[]), moves, t);
    forall i, recipientId, envelopeId, a | AnsweredWith(t, i, recipientId, envelopeId, a)
      ensures var k := KeyText(recipientId, envelopeId); k in t.base.store.vals && t.base.store.vals[k].ack == Some(a)
    {
      assert CallGood(env, t.base, t.calls[i]);
    }
  }

  // ----- when a call throws after its write --------------------------------

  /** A write that is the first for its envelope is followed by the confirming list, unless the store
      refused it and nothing was written. */
  lemma FirstWriteFits(env: Env, w: World, id: nat, t: World)
    requires Honest(env) && WorldGood(env, w) && id in w.calls && w.calls[id].phase.Listed?
             && t == WriteStep(env, w, id)
    requires var k := KeyText(w.calls[id].recipientId, w.calls[id].envelopeId);
             k in w.base.store.vals && w.base.store.vals[k].ack.None?
    ensures var (c, k) := (w.calls[id], KeyText(w.calls[id].recipientId, w.calls[id].envelopeId));
            if t.calls[id].phase == Failed then t.base == w.base
            else t.calls[id].phase.Written? && t.base.store == w.base.store.Set(k, t.calls[id].phase.returned)
                 && t.calls[id].phase.returned == c.phase.existing.(ack := Some(c.phase.pending))
                 && w.base.store.vals[k] == c.phase.existing
  {
    var c := w.calls[id];
    assert CallGood(env, w.base, c);
    PendingVerifies(env, w.base, c);
    UnacknowledgedIsListed(env, w.base.store, c);
    FreshWrite(env, w.base.store, c);
    hide Honest, WorldGood, CallGood, KeyText, ListedGood, MemoryAck, AckVerifies, Checked, AfterWrite;
  }

  /** A write that finds an acknowledgement changes nothing.  It goes on exactly when that one is not
      later than the call's read time and signed under a key the call's instance knows; otherwise the
      call throws although the envelope is acknowledged. */
  lemma LateWriteExactly(env: Env, w: World, id: nat, t: World)
    requires WorldGood(env, w) && id in w.calls && w.calls[id].phase.Listed? && t == WriteStep(env, w, id)
    requires var k := KeyText(w.calls[id].recipientId, w.calls[id].envelopeId);
             k in w.base.store.vals && w.base.store.vals[k].ack.Some?
    ensures var c := w.calls[id];
            var held := w.base.store.vals[KeyText(c.recipientId, c.envelopeId)];
            t.base == w.base
            && t.calls[id].phase
               == if held.ack.value.signerKeyId in c.svc.keys && NotLater(env, held.ack.value.readAt, c.readAt)
                  then Written(held) else Failed
  {
    var c := w.calls[id];
    var k := KeyText(c.recipientId, c.envelopeId);
    hide Good, KeyText, MemoryAck, AfterWrite, Begun, ListedGood, NotLater, ReturnedFits;
    assert CallGood(env, w.base, c);
    AckOfHeld(env, w.base.store, c.recipientId, c.envelopeId, c.phase.pending);
    HeldFits(env, w.base, c);
  }

  lemma AckOfHeld(env: Env, m: Memory, recipientId: string, envelopeId: string, a: Ack)
    requires KeyText(recipientId, envelopeId) in m.vals && m.vals[KeyText(recipientId, envelopeId)].ack.Some?
    ensures MemoryAck(env, m, recipientId, envelopeId, a) == (m, Held(m.vals[KeyText(recipientId, envelopeId)]))
  {
    hide Checked, KeyText;
  }

  lemma HeldFits(env: Env, s: State, c: Call)
    requires Good(env, s) && CallGood(env, s, c) && c.phase.Listed?
    requires s.store.vals[KeyText(c.recipientId, c.envelopeId)].ack.Some?
    ensures var held := s.store.vals[KeyText(c.recipientId, c.envelopeId)];
            AfterWrite(env, c, Held(held))
            == if held.ack.value.signerKeyId in c.svc.keys && NotLater(env, held.ack.value.readAt, c.readAt)
               then Written(held) else Failed
  {
    var k := KeyText(c.recipientId, c.envelopeId);
    var x, held := c.phase.existing, s.store.vals[k];
    GoodRecordAt(env, s, k);
    assert RecordGood(env, s.svc, s.now, held) && Later(env, c.svc, c.readAt, s.svc, s.now) && Delivery(held) == x;
    assert env.canonical(StoredDoc(held)).Some? && ListedGood(env, c, x, c.phase.pending);
    hide Good, CallGood, KeyText, NotLater;
    HeldFitsRecord(env, s, c, x, held);
  }

  lemma HeldFitsRecord(env: Env, s: State, c: Call, x: Stored, held: Stored)
    requires RecordGood(env, s.svc, s.now, held) && Later(env, c.svc, c.readAt, s.svc, s.now)
    requires Delivery(held) == x && held.ack.Some? && env.canonical(StoredDoc(held)).Some? && c.phase.Listed?
    requires c.phase.existing == x && ListedGood(env, c, x, c.phase.pending)
    ensures AfterWrite(env, c, Held(held))
            == if held.ack.value.signerKeyId in c.svc.keys && NotLater(env, held.ack.value.readAt, c.readAt)
               then Written(held) else Failed
  {
    PassedIsCanonical(env, c.svc, c.recipientId, c.readAt, Some(x));
    PassedKnowsKey(env, c, x);
    PassesIff(env, c.svc, c.readAt, s.svc, s.now, held);
    assert held.recipientId == x.recipientId && held.envelopeId == x.envelopeId && held.binding == x.binding;
    SameDelivery(env, held, x);
    assert Checked(env, held);
    hide Checked, VerifyStored, CreateAck, NotLater, Later, RecordGood, SameStoredDelivery;
  }

  lemma PassedKnowsKey(env: Env, c: Call, x: Stored)
    requires Passes(env, c.svc, c.recipientId, c.readAt, Some(x))
    ensures x.binding.signerKeyId in c.svc.keys
  {
    hide VerifyEnvelope, Checked, Verifies;
  }

  lemma FreshWrite(env: Env, m: Memory, c: Call)
    requires c.phase.Listed? && ListedGood(env, c, c.phase.existing, c.phase.pending)
    requires AckVerifies(env, c.phase.pending, c.svc.keys, c.readAt)
    requires KeyText(c.recipientId, c.envelopeId) in m.vals
             && m.vals[KeyText(c.recipientId, c.envelopeId)] == c.phase.existing
    ensures var k := KeyText(c.recipientId, c.envelopeId);
            var u := c.phase.existing.(ack := Some(c.phase.pending));
            var (after, result) := MemoryAck(env, m, c.recipientId, c.envelopeId, c.phase.pending);
            if Checked(env, u) then after == m.Set(k, u) && AfterWrite(env, c, result) == Written(u)
            else after == m && AfterWrite(env, c, result) == Failed
  {
    OwnWriteFits(env, c, c.phase.existing, c.phase.pending);
    assert c.phase.existing.ack.None?;
    hide ListedGood, KeyText, MemoryAck, AckVerifies, ReturnedFits, Checked;
    AckOfFresh(env, m, c.recipientId, c.envelopeId, c.phase.pending);
  }

  lemma UnacknowledgedIsListed(env: Env, m: Memory, c: Call)
    requires PhaseGood(env, m, c) && c.phase.Listed?
    ensures KeyText(c.recipientId, c.envelopeId) in m.vals && ListedGood(env, c, c.phase.existing, c.phase.pending)
    ensures m.vals[KeyText(c.recipientId, c.envelopeId)].ack.None? ==>
            m.vals[KeyText(c.recipientId, c.envelopeId)] == c.phase.existing
  {
    hide KeyText, ListedGood;
    var held := m.vals[KeyText(c.recipientId, c.envelopeId)];
    assert held.ack.None? ==> Delivery(held) == held;
  }

  lemma OwnWriteFits(env: Env, c: Call, x: Stored, a: Ack)
    requires ListedGood(env, c, x, a) && AckVerifies(env, a, c.svc.keys, c.readAt)
    ensures Checked(env, x.(ack := Some(a))) ==>
            ReturnedFits(env, c.svc, c.readAt, c.recipientId, c.envelopeId, x.(ack := Some(a)), x)
  {
    CheckedCanonical(env, x);
    hide Checked, CreateAck, VerifyEnvelope, AckVerifies, Verifies;
    var u := x.(ack := Some(a));
    assert Delivery(u) == x && DeliveryOf(u) == DeliveryOf(x);
    SameDelivery(env, u, x);
  }

  /** A call that reached its confirming list throws there exactly when some record of its recipient
      is not readable for it, although its envelope is acknowledged by then; otherwise it answers
      with the acknowledgement the store holds. */
  lemma ConfirmExactly(env: Env, w: World, id: nat, t: World)
    requires WorldGood(env, w) && w.base.store.Valid()
    requires id in w.calls && (w.calls[id].phase.Written? || w.calls[id].phase.Missed?) && t == ConfirmStep(env, w, id)
    ensures var (c, k) := (w.calls[id], KeyText(w.calls[id].recipientId, w.calls[id].envelopeId));
            && k in w.base.store.vals && w.base.store.vals[k].ack.Some?
            && t == w.(calls := At(w, id, if AllReadable(env, c, w.base.store)
              then Answered(w.base.store.vals[k].ack) else Failed))
  {
    hide Good, CallGood, KeyText, AllReadable, AfterConfirm;
    assert CallGood(env, w.base, w.calls[id]);
    ConfirmPhase(env, w.base, w.calls[id]);
  }

  /** Some record of the recipient carries an acknowledgement later than the call's read time. */
  ghost predicate LaterAck(env: Env, c: Call, m: Memory) {
    exists k :: k in m.vals && m.vals[k].recipientId == c.recipientId && m.vals[k].ack.Some?
                && !NotLater(env, m.vals[k].ack.value.readAt, c.readAt)
  }

  /** On an instance that still knows every mailbox key, with no oversized record in the way, that
      is exactly when some record of the recipient carries a later acknowledgement. */
  lemma ThrowsExactlyOnLaterAck(env: Env, w: World, id: nat, t: World)
    requires WorldGood(env, w) && w.base.store.Valid()
    requires id in w.calls && (w.calls[id].phase.Written? || w.calls[id].phase.Missed?) && t == ConfirmStep(env, w, id)
    requires w.calls[id].svc.keys == w.base.svc.keys && Usable(env, w.base.store, w.calls[id].recipientId)
    ensures t.calls[id].phase == Failed <==> LaterAck(env, w.calls[id], w.base.store)
  {
    hide Good, CallGood, LaterAck, Usable, AllReadable, AfterConfirm, AfterList, AfterWrite, MemoryAck;
    ConfirmExactly(env, w, id, t);
    ReadableUnlessLater(env, w.base, w.calls[id]);
  }

  lemma ReadableUnlessLater(env: Env, s: State, c: Call)
    requires Good(env, s) && c.svc.keys == s.svc.keys && Usable(env, s.store, c.recipientId)
    ensures AllReadable(env, c, s.store) <==> !LaterAck(env, c, s.store)
  {
    hide Good, NotLater;
    forall k | k in s.store.vals
      ensures s.store.vals[k].binding.signerKeyId in s.svc.keys
      ensures s.store.vals[k].ack.Some? ==> s.store.vals[k].ack.value.signerKeyId in s.svc.keys
    {
      GoodRecordAt(env, s, k);
      KnownKeys(env, s, s.store.vals[k]);
    }
  }

  lemma KnownKeys(env: Env, s: State, r: Stored)
    requires RecordGood(env, s.svc, s.now, r)
    ensures r.binding.signerKeyId in s.svc.keys && (r.ack.Some? ==> r.ack.value.signerKeyId in s.svc.keys)
  {
    hide VerifyEnvelope, Checked, Verifies;
  }

  /** The interleaving behind it: a call has written and not yet confirmed, another call for the same
      recipient that began later writes in between, and the first one throws with its own
      acknowledgement in the store. */
  lemma LaterWriteSpoilsConfirm(env: Env, w: World, i: nat, j: nat, v: World, t: World)
    requires Honest(env) && WorldGood(env, w) && i != j && i in w.calls && w.calls[i].phase.Written?
    requires j in w.calls && w.calls[j].phase.Listed? && v == WriteStep(env, w, j) && v.calls[j].phase.Written?
    requires v.base.store.Valid() && t == ConfirmStep(env, v, i)
    requires w.calls[j].recipientId == w.calls[i].recipientId && !NotLater(env, w.calls[j].readAt, w.calls[i].readAt)
    requires var k := KeyText(w.calls[j].recipientId, w.calls[j].envelopeId);
             k in w.base.store.vals && w.base.store.vals[k].ack.None?
    ensures var k := KeyText(w.calls[i].recipientId, w.calls[i].envelopeId);
            t.calls[i].phase == Failed && k in t.base.store.vals && t.base.store.vals[k] == w.calls[i].phase.returned
  {
    ValidStore(env, w.base);
    WriteKeepsGood(env, w, j);
    OthersUntouched(env, w, j, v, i);
    hide Honest, WorldGood, KeyText, AllReadable, NotLater, WriteStep, ConfirmStep;
    WrittenStays(env, v, i);
    LaterWriteIsUnreadable(env, w, i, j, v);
    ConfirmExactly(env, v, i, t);
  }

  lemma OthersUntouched(env: Env, w: World, j: nat, v: World, i: nat)
    requires j in w.calls && w.calls[j].phase.Listed? && v == WriteStep(env, w, j) && i in w.calls && i != j
    ensures i in v.calls && v.calls[i] == w.calls[i]
  {
    hide MemoryAck, AfterWrite;
  }

  lemma WrittenStays(env: Env, w: World, i: nat)
    requires WorldGood(env, w) && i in w.calls && w.calls[i].phase.Written?
    ensures var k := KeyText(w.calls[i].recipientId, w.calls[i].envelopeId);
            k in w.base.store.vals && w.base.store.vals[k] == w.calls[i].phase.returned
  {
    hide Good, Begun, KeyText;
    assert CallGood(env, w.base, w.calls[i]);
  }

  lemma LaterWriteIsUnreadable(env: Env, w: World, i: nat, j: nat, v: World)
    requires Honest(env) && WorldGood(env, w) && i in w.calls
    requires j in w.calls && w.calls[j].phase.Listed? && v == WriteStep(env, w, j) && v.calls[j].phase.Written?
    requires w.calls[j].recipientId == w.calls[i].recipientId && !NotLater(env, w.calls[j].readAt, w.calls[i].readAt)
    requires var k := KeyText(w.calls[j].recipientId, w.calls[j].envelopeId);
             k in w.base.store.vals && w.base.store.vals[k].ack.None?
    ensures !AllReadable(env, w.calls[i], v.base.store)
  {
    var c := w.calls[j];
    var k := KeyText(c.recipientId, c.envelopeId);
    assert CallGood(env, w.base, c);
    UnacknowledgedIsListed(env, w.base.store, c);
    PendingTime(env, c);
    hide Honest, WorldGood, CallGood, KeyText, NotLater, ListedGood;
    FirstWriteFits(env, w, j, v);
    hide WriteStep;
    var u := v.calls[j].phase.returned;
    assert k in v.base.store.vals && v.base.store.vals[k] == u && u.recipientId == w.calls[i].recipientId;
    assert !ReadableBy(env, w.calls[i].svc, w.calls[i].readAt, u);
  }

  lemma PendingTime(env: Env, c: Call)
    requires c.phase.Listed? && ListedGood(env, c, c.phase.existing, c.phase.pending)
    ensures c.phase.pending.readAt == c.readAt && c.phase.existing.recipientId == c.recipientId
  {
    hide Passes, DigestOf;
  }
}
