/** Concurrent `deliver` calls of the mailbox service in lib/agent-mailbox.ts.  A call verifies and binds
    its envelope, awaits the store's put, and judges the answer with the keys and the time it began with. */
module MailboxReceipts {
  import opened Common
  import opened MailboxRecords
  import opened MailboxStores
  import opened MailboxService
  import opened MailboxDelivery
  import opened MailboxCalls
  import MailboxAnswers
  import MailboxRuns
  import MailboxAgreement

  /** A call whose envelope was verified and bound; `receipt` is its answer, once it has one. */
  datatype DeliverCall = DeliverCall(svc: Service, pending: Stored, receipt: Option<Status>)

  datatype Desk = Desk(base: State, calls: map<nat, DeliverCall>)

  datatype Turn =
    | Elsewhere(step: Step)
    | Begin(id: nat, to: string, envelope: Envelope)
    | Put(id: nat)

  ghost predicate Possible(env: Env, d: Desk, turn: Turn) {
    match turn
    case Elsewhere(step) => Enabled(env, d.base, step)
    case Begin(id, to, e) =>
      id !in d.calls && Identifier(to) && Prepare(env, d.base.svc, d.base.directory, d.base.now, to, Some(e)).Bound?
    case Put(id) => id in d.calls && d.calls[id].receipt.None?
  }

  function PutTurn(env: Env, d: Desk, id: nat): Desk
    requires d.base.store.Valid() && id in d.calls
  {
    var c := d.calls[id];
    var (store, result) := MemoryPut(d.base.store, c.pending);
    Desk(d.base.(store := store), d.calls[id := c.(receipt := Some(Conclude(env, c.svc, c.pending, Some(result))))])
  }

  ghost function Perform(env: Env, d: Desk, turn: Turn): Desk
    requires Possible(env, d, turn) && d.base.store.Valid()
  {
    match turn
    case Elsewhere(step) => d.(base := Apply(env, d.base, step))
    case Begin(id, to, e) =>
      var r := Prepare(env, d.base.svc, d.base.directory, d.base.now, to, Some(e)).record;
      d.(calls := d.calls[id := DeliverCall(d.base.svc, r, None)])
    case Put(id) => PutTurn(env, d, id)
  }

  ghost predicate Leads(env: Env, d: Desk, turns: seq<Turn>, t: Desk)
    decreases |turns|
  {
    if turns == [] then d == t
    else d.base.store.Valid() && Possible(env, d, turns[0]) && Leads(env, Perform(env, d, turns[0]), turns[1..], t)
  }

  // ----- one receipt -------------------------------------------------------

  /** What a call brings to its put: a record that is good for the instance and time it began with. */
  ghost predicate Brought(env: Env, s: State, c: DeliverCall) {
    Later(env, c.svc, c.pending.receivedAt, s.svc, s.now) && RecordGood(env, c.svc, c.pending.receivedAt, c.pending)
    && c.pending.ack.None? && c.pending.envelopeId == c.pending.envelope.envelopeId
  }

  /** The recipient holds this very envelope, in a record this call can read. */
  ghost predicate HeldFor(env: Env, m: Memory, c: DeliverCall) {
    var k := KeyOf(c.pending);
    k in m.vals && m.vals[k].envelope == c.pending.envelope
    && MailboxAnswers.ReadableBy(env, c.svc, c.pending.receivedAt, m.vals[k])
  }

  ghost predicate FreeFor(m: Memory, c: DeliverCall) {
    KeysFree(m, c.pending.recipientId, c.pending.envelope)
  }

  /** In every good state, whatever happened since the call began: ACCEPTED if and only if both keys are
      free now and the record can be canonicalized; DUPLICATE if and only if the envelope is held in a
      record readable for the call, so not one acknowledged later; the store gains exactly this record
      when both keys are free, and otherwise nothing. */
  lemma ReceiptExactly(env: Env, s: State, c: DeliverCall)
    requires Honest(env) && Good(env, s) && s.store.Valid() && Brought(env, s, c)
    ensures var status := Conclude(env, c.svc, c.pending, Some(MemoryPut(s.store, c.pending).1));
            && (status == DeliveryAccepted <==> FreeFor(s.store, c) && env.canonical(StoredDoc(c.pending)).Some?)
            && (status == DeliveryDuplicate <==> HeldFor(env, s.store, c))
    ensures MemoryPut(s.store, c.pending).0
         == if FreeFor(s.store, c) then s.store.Set(KeyOf(c.pending), c.pending) else s.store
  {
    hide Honest, Good, Brought, Conclude, MemoryPut, HeldFor, KeysFree, KeyOf;
    PendingNames(env, s, c);
    FreeKeysPut(s.store, c.pending.recipientId, c.pending.envelope, c.pending);
    AcceptedHere(env, s, c);
    DuplicateHere(env, s, c);
  }

  lemma PendingNames(env: Env, s: State, c: DeliverCall)
    requires Brought(env, s, c)
    ensures c.pending.envelopeId == c.pending.envelope.envelopeId && c.pending.ack.None?
  {
    hide Later, RecordGood;
  }

  lemma AcceptedHere(env: Env, s: State, c: DeliverCall)
    requires Honest(env) && s.store.Valid() && Brought(env, s, c)
    ensures Conclude(env, c.svc, c.pending, Some(MemoryPut(s.store, c.pending).1)) == DeliveryAccepted
            <==> FreeFor(s.store, c) && env.canonical(StoredDoc(c.pending)).Some?
  {
    FreeKeysPut(s.store, c.pending.recipientId, c.pending.envelope, c.pending);
    CanonicalIfChecked(env);
    hide Honest, Later, Conclude, MemoryPut, KeysFree, KeyOf, VerifyStored, Checked;
    ReceiptNeedsRecord(env, c.svc, c.pending, Some(MemoryPut(s.store, c.pending).1));
  }

  lemma DuplicateHere(env: Env, s: State, c: DeliverCall)
    requires Honest(env) && Good(env, s) && s.store.Valid() && Brought(env, s, c)
    ensures Conclude(env, c.svc, c.pending, Some(MemoryPut(s.store, c.pending).1)) == DeliveryDuplicate
            <==> HeldFor(env, s.store, c)
  {
    hide Honest, Good, Brought, Conclude, MemoryPut, HeldFor;
    if Conclude(env, c.svc, c.pending, Some(MemoryPut(s.store, c.pending).1)) == DeliveryDuplicate {
      DuplicateIsHeld(env, s, c);
    }
    if HeldFor(env, s.store, c) {
      HeldIsDuplicate(env, s, c);
    }
  }

  lemma DuplicateIsHeld(env: Env, s: State, c: DeliverCall)
    requires Honest(env) && Good(env, s) && s.store.Valid() && Brought(env, s, c)
    requires Conclude(env, c.svc, c.pending, Some(MemoryPut(s.store, c.pending).1)) == DeliveryDuplicate
    ensures HeldFor(env, s.store, c)
  {
    var result := MemoryPut(s.store, c.pending).1;
    hide Honest, StoreGood, PoolsGood, RecordGood, Conclude, MemoryPut, Passes, Checked, Later, Configured, KeyText;
    ReceiptNeedsRecord(env, c.svc, c.pending, Some(result));
    DuplicateShows(env, c.svc, c.pending, result);
    HeldAfterDuplicate(env, s.svc, s.now, s.store, c.pending.recipientId, c.pending.envelope, c.pending);
    MailboxAnswers.GoodRecordAt(env, s, KeyOf(c.pending));
    MailboxAgreement.IdAnswers(s.store, c.pending);
    MailboxAnswers.PassesIff(env, c.svc, c.pending.receivedAt, s.svc, s.now, s.store.vals[KeyOf(c.pending)]);
  }

  lemma HeldIsDuplicate(env: Env, s: State, c: DeliverCall)
    requires Good(env, s) && s.store.Valid() && Brought(env, s, c) && HeldFor(env, s.store, c)
    ensures Conclude(env, c.svc, c.pending, Some(MemoryPut(s.store, c.pending).1)) == DeliveryDuplicate
  {
    var held := s.store.vals[KeyOf(c.pending)];
    hide StoreGood, PoolsGood, RecordGood, Conclude, MemoryPut, Checked, VerifyStored, Later, Configured, KeyText,
         Identifier;
    MailboxAnswers.GoodRecordAt(env, s, KeyOf(c.pending));
    GoodDigest(env, s.svc, s.now, held);
    GoodDigest(env, c.svc, c.pending.receivedAt, c.pending);
    MailboxAgreement.IdAnswers(s.store, c.pending);
    MailboxAnswers.PassesIff(env, c.svc, c.pending.receivedAt, s.svc, s.now, held);
    CheckedNames(env, held);
    DuplicateFits(env, c.svc, c.pending, held);
  }

  lemma DuplicateFits(env: Env, svc: Service, pending: Stored, held: Stored)
    requires Checked(env, held) && VerifyStored(env, held, svc.mailboxId, svc.keys, pending.receivedAt)
    requires held.envelope == pending.envelope && held.recipientId == pending.recipientId
    requires held.envelopeId == pending.envelopeId && held.envelopeDigest == pending.envelopeDigest
    ensures Conclude(env, svc, pending, Some(Compare(held, pending, EnvelopeIdConflict))) == DeliveryDuplicate
  {
    hide Checked, VerifyStored;
  }

  // ----- whole runs --------------------------------------------------------

  ghost predicate AcceptedCall(d: Desk, id: nat) {
    id in d.calls && d.calls[id].receipt == Some(DeliveryAccepted)
  }

  /** An accepted call's record is held, as it was delivered. */
  ghost predicate Keeps(s: State, c: DeliverCall) {
    c.receipt == Some(DeliveryAccepted) ==>
      KeyOf(c.pending) in s.store.vals && Delivery(s.store.vals[KeyOf(c.pending)]) == c.pending
  }

  ghost predicate OneEach(d: Desk) {
    forall i, j ::
      AcceptedCall(d, i) && AcceptedCall(d, j) && KeyOf(d.calls[i].pending) == KeyOf(d.calls[j].pending) ==> i == j
  }

  ghost predicate DeskGood(env: Env, d: Desk) {
    Good(env, d.base) && OneEach(d)
    && forall id :: id in d.calls ==> Brought(env, d.base, d.calls[id]) && Keeps(d.base, d.calls[id])
  }

  lemma CallStays(env: Env, s: State, t: State, c: DeliverCall)
    requires Brought(env, s, c) && Keeps(s, c) && Grows(env, s, t)
    ensures Brought(env, t, c) && Keeps(t, c)
  {
    MailboxAnswers.LaterTransitive(env, c.svc, c.pending.receivedAt, s.svc, s.now, t.svc, t.now);
    hide Later, RecordGood, KeyOf, StaysCanonical;
  }

  lemma ElsewhereKeepsDesk(env: Env, d: Desk, step: Step)
    requires Honest(env) && DeskGood(env, d) && Enabled(env, d.base, step)
    ensures d.base.store.Valid() && DeskGood(env, d.(base := Apply(env, d.base, step)))
  {
    hide Honest, Good, Grows, Brought, Keeps, Apply, Enabled, KeyOf;
    StepGrows(env, d.base, step);
    StepKeepsGood(env, d.base, step);
    var t := Apply(env, d.base, step);
    forall id | id in d.calls ensures Brought(env, t, d.calls[id]) && Keeps(t, d.calls[id]) {
      CallStays(env, d.base, t, d.calls[id]);
    }
    assert forall id :: AcceptedCall(d.(base := t), id) <==> AcceptedCall(d, id);
  }

  /** One call changes; if it is newly accepted, its key was free. */
  lemma OthersStay(env: Env, d: Desk, t: Desk, id: nat)
    requires DeskGood(env, d) && Good(env, t.base) && Grows(env, d.base, t.base)
    requires id in t.calls && Brought(env, t.base, t.calls[id]) && Keeps(t.base, t.calls[id])
    requires forall j :: j in t.calls && j != id ==> j in d.calls && t.calls[j] == d.calls[j]
    requires AcceptedCall(t, id) ==> KeyOf(t.calls[id].pending) !in d.base.store.vals
    ensures DeskGood(env, t)
  {
    hide Good, Grows, Brought, KeyOf;
    forall j | j in t.calls ensures Brought(env, t.base, t.calls[j]) && Keeps(t.base, t.calls[j]) {
      if j != id {
        CallStays(env, d.base, t.base, d.calls[j]);
      }
    }
    forall i, j | AcceptedCall(t, i) && AcceptedCall(t, j) && KeyOf(t.calls[i].pending) == KeyOf(t.calls[j].pending)
      ensures i == j
    {
      assert i != id ==> AcceptedCall(d, i) && Keeps(d.base, d.calls[i]);
      assert j != id ==> AcceptedCall(d, j) && Keeps(d.base, d.calls[j]);
    }
  }

  lemma BeginKeepsDesk(env: Env, d: Desk, id: nat, to: string, e: Envelope)
    requires Honest(env) && DeskGood(env, d) && Possible(env, d, Begin(id, to, e)) && d.base.store.Valid()
    ensures DeskGood(env, Perform(env, d, Begin(id, to, e)))
  {
    hide Honest, Good, Grows, Brought, Prepare, KeyOf, Identifier, OneEach;
    BroughtAnew(env, d.base, to, e);
    MailboxAnswers.GoodGrows(env, d.base);
    OthersStay(env, d, Perform(env, d, Begin(id, to, e)), id);
  }

  lemma BroughtAnew(env: Env, s: State, to: string, e: Envelope)
    requires Honest(env) && Good(env, s) && Prepare(env, s.svc, s.directory, s.now, to, Some(e)).Bound?
    ensures Brought(env, s, DeliverCall(s.svc, Prepare(env, s.svc, s.directory, s.now, to, Some(e)).record, None))
  {
    PreparedIsGood(env, s.svc, s.directory, s.now, to, e);
    hide Honest, StoreGood, PoolsGood, RecordGood, Configured, VerifyEnvelope;
  }

  lemma PutKeepsDesk(env: Env, d: Desk, id: nat)
    requires Honest(env) && DeskGood(env, d) && Possible(env, d, Put(id)) && d.base.store.Valid()
    ensures DeskGood(env, PutTurn(env, d, id))
  {
    hide Honest, Good, Brought, Keeps, Grows, Conclude, MemoryPut, KeyOf, OneEach;
    PutKeepsBase(env, d.base, d.calls[id]);
    PutKeepsCall(env, d.base, d.calls[id]);
    OthersStay(env, d, PutTurn(env, d, id), id);
  }

  lemma PutKeepsCall(env: Env, s: State, c: DeliverCall)
    requires Honest(env) && Good(env, s) && s.store.Valid() && Brought(env, s, c)
    ensures var (store, result) := MemoryPut(s.store, c.pending);
            var after := c.(receipt := Some(Conclude(env, c.svc, c.pending, Some(result))));
            Brought(env, s.(store := store), after) && Keeps(s.(store := store), after)
            && (after.receipt == Some(DeliveryAccepted) ==> KeyOf(c.pending) !in s.store.vals)
  {
    hide Honest, Good, Brought, Conclude, MemoryPut, KeyOf, FreeFor, HeldFor;
    var (store, result) := MemoryPut(s.store, c.pending);
    ReceiptExactly(env, s, c);
    PendingNames(env, s, c);
    FreshKey(s.store, c);
    BroughtKept(env, s, c, s.(store := store), Some(Conclude(env, c.svc, c.pending, Some(result))));
    assert Delivery(c.pending) == c.pending;
  }

  lemma FreshKey(m: Memory, c: DeliverCall)
    requires c.pending.envelopeId == c.pending.envelope.envelopeId
    ensures FreeFor(m, c) ==> KeyOf(c.pending) !in m.vals
  {
    hide KeyText;
  }

  lemma BroughtKept(env: Env, s: State, c: DeliverCall, t: State, receipt: Option<Status>)
    requires Brought(env, s, c) && t.svc == s.svc && t.now == s.now
    ensures Brought(env, t, c.(receipt := receipt))
  {
    hide Later, RecordGood;
  }

  lemma PutKeepsBase(env: Env, s: State, c: DeliverCall)
    requires Good(env, s) && s.store.Valid() && Brought(env, s, c)
    ensures var t := s.(store := MemoryPut(s.store, c.pending).0); Good(env, t) && Grows(env, s, t)
  {
    GoodStaysGood(env, c.svc, c.pending.receivedAt, s.svc, s.now, c.pending);
    hide StoreGood, PoolsGood, RecordGood, Configured, Later, MemoryPut, MailboxRuns.Evolves, StaysCanonical;
    var t := s.(store := MemoryPut(s.store, c.pending).0);
    PutKeepsStore(env, s.svc, s.now, s.store, c.pending);
    PutGrows(env, s.store, c.pending);
    PoolsKept(env, s, t);
    GrowsReflexive(env, s);
  }

  lemma PutGrows(env: Env, m: Memory, r: Stored)
    requires m.Valid()
    ensures MailboxRuns.Evolves(m, MemoryPut(m, r).0) && StaysCanonical(env, m, MemoryPut(m, r).0)
  {
    hide MemoryPut, MailboxRuns.Evolves, StaysCanonical;
    MailboxRuns.StepEvolves(env, m, MailboxRuns.PutOp(r));
    StoreStaysCanonical(env, m, MailboxRuns.PutOp(r));
  }

  lemma TurnKeepsDesk(env: Env, d: Desk, turn: Turn)
    requires Honest(env) && DeskGood(env, d) && Possible(env, d, turn)
    ensures d.base.store.Valid() && DeskGood(env, Perform(env, d, turn))
  {
    MailboxAnswers.ValidStore(env, d.base);
    hide Honest, DeskGood, PutTurn, Apply, Enabled, Prepare, Identifier;
    match turn
    case Elsewhere(step) => ElsewhereKeepsDesk(env, d, step);
    case Begin(id, to, e) => BeginKeepsDesk(env, d, id, to, e);
    case Put(id) => PutKeepsDesk(env, d, id);
  }

  lemma {:induction false} RunKeepsDesk(env: Env, d: Desk, turns: seq<Turn>, t: Desk)
    requires Honest(env) && DeskGood(env, d) && Leads(env, d, turns, t)
    ensures DeskGood(env, t)
    decreases |turns|
  {
    hide Honest, DeskGood, Perform, Possible;
    if turns != [] {
      TurnKeepsDesk(env, d, turns[0]);
      RunKeepsDesk(env, Perform(env, d, turns[0]), turns[1..], t);
    }
  }

  /** Over every interleaving of deliveries with one another and with everything else the service does:
      at most one ACCEPTED receipt for a recipient and envelope id, its record is held as delivered, and
      the next put of any call is answered exactly as ReceiptExactly says. */
  lemma ReceiptsOverRuns(env: Env, svc: Service, directory: Directory, now: string, turns: seq<Turn>, t: Desk)
    requires Honest(env) && Configured(env, svc) && env.instant(now).Some?
    requires Leads(env, Desk(Start(svc, directory, now), map[]), turns, t)
    ensures OneEach(t) && t.base.store.Valid()
    ensures forall i :: AcceptedCall(t, i) ==> Keeps(t.base, t.calls[i])
    ensures forall i :: i in t.calls && t.calls[i].receipt.None? ==>
              var c := t.calls[i];
              var receipt := PutTurn(env, t, i).calls[i].receipt;
              && (receipt == Some(DeliveryAccepted)
                <==> FreeFor(t.base.store, c) && env.canonical(StoredDoc(c.pending)).Some?)
              && (receipt == Some(DeliveryDuplicate) <==> HeldFor(env, t.base.store, c))
  {
    StartIsGood(env, svc, directory, now);
    hide Honest, Configured, Good, Brought, FreeFor, HeldFor, KeyOf, Leads, Conclude, MemoryPut;
    var d := Desk(Start(svc, directory, now), map[]);
    assert DeskGood(env, d);
    RunKeepsDesk(env, d, turns, t);
    MailboxAnswers.ValidStore(env, t.base);
    forall i | i in t.calls && t.calls[i].receipt.None?
      ensures var c := t.calls[i];
              var receipt := PutTurn(env, t, i).calls[i].receipt;
              && (receipt == Some(DeliveryAccepted)
                <==> FreeFor(t.base.store, c) && env.canonical(StoredDoc(c.pending)).Some?)
              && (receipt == Some(DeliveryDuplicate) <==> HeldFor(env, t.base.store, c))
    {
      ReceiptExactly(env, t.base, t.calls[i]);
    }
  }
}
