/** `deliver` and `acknowledge` of the mailbox service in lib/agent-mailbox.ts, each run to its end
    against an honest in-memory store with nothing in between. */
module MailboxCalls {
  import opened Common
  import opened MailboxRecords
  import opened MailboxStores
  import opened MailboxService
  import opened MailboxVerdicts
  import opened MailboxDelivery

  datatype Delivered = DeliverThrew | Receipt(status: Status)
  datatype AckAnswer = AckThrew | NoAck | Answer(ack: Ack)

  // ----- deliver -----------------------------------------------------------

  /** The stored record holds the place of this envelope in its thread. */
  ghost predicate TakesSlot(r: Stored, recipientId: string, e: Envelope) {
    r.recipientId == recipientId && r.envelope.senderId == e.senderId && r.envelope.threadId == e.threadId
    && r.envelope.sequence == e.sequence
  }

  ghost predicate KeysFree(m: Memory, recipientId: string, e: Envelope) {
    KeyText(recipientId, e.envelopeId) !in m.vals && forall k :: k in m.vals ==> !TakesSlot(m.vals[k], recipientId, e)
  }

  /** The recipient already holds this very envelope, in a record that can be read. */
  ghost predicate AlreadyHeld(env: Env, m: Memory, recipientId: string, e: Envelope) {
    var k := KeyText(recipientId, e.envelopeId);
    k in m.vals && m.vals[k].envelope == e && env.canonical(StoredDoc(m.vals[k])).Some?
  }

  /** The recipient already holds another envelope of this id, in a record that can be read. */
  ghost predicate IdTaken(env: Env, m: Memory, recipientId: string, r: Stored) {
    var k := KeyText(recipientId, r.envelopeId);
    k in m.vals && m.vals[k].envelopeDigest != r.envelopeDigest && env.canonical(StoredDoc(m.vals[k])).Some?
  }

  /** The id is free, and the recipient holds another envelope in the place of this one. */
  ghost predicate PlaceTaken(env: Env, m: Memory, recipientId: string, r: Stored) {
    KeyText(recipientId, r.envelopeId) !in m.vals
    && exists k :: k in m.vals && TakesSlot(m.vals[k], recipientId, r.envelope)
                   && m.vals[k].envelopeDigest != r.envelopeDigest && env.canonical(StoredDoc(m.vals[k])).Some?
  }

  /** Each conflict is answered exactly when it is one. */
  ghost predicate ConflictsTold(env: Env, m: Memory, recipientId: string, made: Stored, r: Delivered) {
    && (r == Receipt(DeliveryRefused("envelope_id_conflict")) <==> IdTaken(env, m, recipientId, made))
    && (r == Receipt(DeliveryRefused("thread_sequence_conflict")) <==> PlaceTaken(env, m, recipientId, made))
  }

  /** The record of this delivery: the envelope as verified now, bound by this mailbox. */
  ghost predicate Records(env: Env, svc: Service, now: string, recipientId: string, e: Envelope,
                          v: MailboxRecords.Verdict, r: Stored)
    requires v.Accepted?
  {
    r.recipientId == recipientId && r.envelopeId == e.envelopeId && r.envelopeDigest == v.accepted && r.envelope == e
    && r.receivedAt == now && r.ack.None? && r.sender == v.sender && r.binding.signerKeyId == svc.keyId
    && BindingVerifies(env, r, svc.mailboxId, svc.keys)
  }

  /** deliver.  `made` is the record handed to the store.  It is kept exactly when both of its keys
      are free; the receipt says ACCEPTED for it unless it cannot be canonicalized, which is the one
      case in which something is kept and the answer is a refusal. */
  method Deliver(env: Env, svc: Service, directory: Directory, now: string, recipientId: string, raw: Option<Envelope>,
                 store: MemoryStore) returns (r: Delivered, ghost made: Option<Stored>)
    requires Honest(env) && Configured(env, svc) && env.instant(now).Some? && StoreGood(env, svc, now, store.records)
    modifies store
    ensures StoreGood(env, svc, now, store.records)
    ensures var v := VerifyEnvelope(env, raw, directory, recipientId, now);
            && (made.Some? ==>
                  raw.Some? && v.Accepted? && Records(env, svc, now, recipientId, raw.value, v, made.value))
            && (Identifier(recipientId) && raw.Some? && v.Accepted? ==>
                  var draft := Unbound(svc, recipientId, now, raw.value, v.accepted, v.sender);
                  made.Some? <==> env.canonical(DeliveryOf(draft)).Some?)
            && (r == DeliverThrew <==> !Identifier(recipientId) || (v.Accepted? && made.None?))
            && (Identifier(recipientId) && v.Refused? ==> r == Receipt(DeliveryRefused(v.reason)) && made.None?)
    ensures made.Some? ==>
              Listed(directory, raw.value)
              && Authentic(env, raw.value, recipientId, now, directory[raw.value.senderId].publicKey)
    ensures r == Receipt(DeliveryAccepted) <==>
            made.Some? && old(KeysFree(store.records, recipientId, raw.value))
              && env.canonical(StoredDoc(made.value)).Some?
    ensures r == Receipt(DeliveryDuplicate)
            <==> made.Some? && old(AlreadyHeld(env, store.records, recipientId, raw.value))
    ensures made.Some? ==> ConflictsTold(env, old(store.records), recipientId, made.value, r)
    ensures store.records == if made.Some? && old(KeysFree(store.records, recipientId, raw.value))
                             then old(store.records).Set(KeyOf(made.value), made.value) else old(store.records)
    ensures store.records != old(store.records) && r != Receipt(DeliveryAccepted) ==>
            r == Receipt(DeliveryRefused(STORE_RESULT_INVALID)) && env.canonical(StoredDoc(made.value)).None?
  {
    assert store.records.Valid();
    made := None;
    hide Honest, StoreGood, Configured, Identifier, VerifyEnvelope, Conclude, MemoryPut, KeysFree, AlreadyHeld, KeyOf,
         Records, ConflictsTold, Authentic, Listed;
    if !Identifier(recipientId) { return DeliverThrew, None; }
    ghost var m := store.records;
    var prepared := Prepare(env, svc, directory, now, recipientId, raw);
    match prepared {
      case NotVerified(reason) => return Receipt(DeliveryRefused(reason)), None;
      case SigningFailed => return DeliverThrew, None;
      case Bound(pending) =>
        made := Some(pending);
        BoundRecords(env, svc, directory, now, recipientId, raw.value);
        PutKeepsStore(env, svc, now, m, pending);
        EnvelopeAcceptedExactly(env, raw, directory, recipientId, now);
        DeliverEffect(env, svc, now, m, recipientId, raw.value, pending);
        ConflictsExactly(env, svc, now, m, pending);
        var result := store.Put(pending);
        return Receipt(Conclude(env, svc, pending, Some(result))), made;
    }
  }

  lemma BoundRecords(env: Env, svc: Service, directory: Directory, now: string, recipientId: string, e: Envelope)
    requires Honest(env) && Configured(env, svc) && Prepare(env, svc, directory, now, recipientId, Some(e)).Bound?
    ensures var (v, r) := (VerifyEnvelope(env, Some(e), directory, recipientId, now),
                           Prepare(env, svc, directory, now, recipientId, Some(e)).record);
            v.Accepted? && Records(env, svc, now, recipientId, e, v, r) && RecordGood(env, svc, now, r)
  {
    PreparedIsGood(env, svc, directory, now, recipientId, e);
    hide Honest, VerifyEnvelope, BindingVerifies, Checked;
  }

  /** What the memory store and the receipt make of a good record. */
  lemma DeliverEffect(env: Env, svc: Service, now: string, m: Memory, recipientId: string, e: Envelope, pending: Stored)
    requires Honest(env) && Configured(env, svc) && env.instant(now).Some? && StoreGood(env, svc, now, m) && m.Valid()
    requires RecordGood(env, svc, now, pending) && pending.ack.None? && pending.receivedAt == now
    requires pending.recipientId == recipientId && pending.envelope == e && pending.envelopeId == e.envelopeId
    ensures var status := Conclude(env, svc, pending, Some(MemoryPut(m, pending).1));
            && (status == DeliveryAccepted <==> KeysFree(m, recipientId, e) && env.canonical(StoredDoc(pending)).Some?)
            && (status == DeliveryDuplicate <==> AlreadyHeld(env, m, recipientId, e))
            && MemoryPut(m, pending).0 == (if KeysFree(m, recipientId, e) then m.Set(KeyOf(pending), pending) else m)
            && (KeysFree(m, recipientId, e) && status != DeliveryAccepted ==>
                status == DeliveryRefused(STORE_RESULT_INVALID))
  {
    hide Honest, StoreGood, RecordGood, Configured, Conclude;
    FreeKeysPut(m, recipientId, e, pending);
    AcceptedWhenFree(env, svc, now, m, pending);
    DuplicateWhenHeld(env, svc, now, m, recipientId, e, pending);
    if KeysFree(m, recipientId, e) {
      StoredNewConcludes(env, svc, pending);
    }
  }

  lemma FreeKeysPut(m: Memory, recipientId: string, e: Envelope, pending: Stored)
    requires m.Valid() && pending.recipientId == recipientId && pending.envelope == e
             && pending.envelopeId == e.envelopeId
    ensures KeysFree(m, recipientId, e) <==>
            KeyOf(pending) !in m.vals && forall k :: k in m.vals ==> !SameSlot(m.vals[k], pending)
    ensures if KeysFree(m, recipientId, e) then MemoryPut(m, pending)
            == (m.Set(KeyOf(pending), pending), PutResult(StoredNew, pending))
            else MemoryPut(m, pending).0 == m && MemoryPut(m, pending).1.outcome != StoredNew
  {
    hide KeyText, FindSlot, Values;
    FoundInMemory(m, pending);
    assert forall k :: k in m.vals ==> (SameSlot(m.vals[k], pending) <==> TakesSlot(m.vals[k], recipientId, e));
  }

  lemma AcceptedWhenFree(env: Env, svc: Service, now: string, m: Memory, pending: Stored)
    requires Honest(env) && Configured(env, svc) && env.instant(now).Some? && StoreGood(env, svc, now, m) && m.Valid()
    requires RecordGood(env, svc, now, pending) && pending.ack.None?
    ensures Conclude(env, svc, pending, Some(MemoryPut(m, pending).1)) == DeliveryAccepted
            <==> KeyOf(pending) !in m.vals && (forall k :: k in m.vals ==> !SameSlot(m.vals[k], pending))
                 && env.canonical(StoredDoc(pending)).Some?
  {
    hide Honest, StoreGood, RecordGood, Configured, Conclude, KeyOf, MemoryPut;
    var s := State(svc, map[], now, m, {pending}, {});
    assert Good(env, s);
    AcceptedExactly(env, s, pending);
  }

  lemma StoredNewConcludes(env: Env, svc: Service, pending: Stored)
    ensures Conclude(env, svc, pending, Some(PutResult(StoredNew, pending))) in
            {DeliveryAccepted, DeliveryRefused(STORE_RESULT_INVALID)}
  {
    hide PutResultFits, VerifyStored;
  }

  lemma DuplicateWhenHeld(env: Env, svc: Service, now: string, m: Memory, recipientId: string, e: Envelope,
                          pending: Stored)
    requires Honest(env) && StoreGood(env, svc, now, m) && m.Valid()
    requires RecordGood(env, svc, now, pending) && pending.receivedAt == now
    requires pending.recipientId == recipientId && pending.envelope == e && pending.envelopeId == e.envelopeId
    ensures Conclude(env, svc, pending, Some(MemoryPut(m, pending).1)) == DeliveryDuplicate
            <==> AlreadyHeld(env, m, recipientId, e)
  {
    hide Honest, StoreGood, RecordGood, Conclude, KeyText, FindSlot, Values;
    var result := MemoryPut(m, pending).1;
    ReceiptNeedsRecord(env, svc, pending, Some(result));
    if Conclude(env, svc, pending, Some(result)) == DeliveryDuplicate {
      DuplicateShows(env, svc, pending, result);
      HeldAfterDuplicate(env, svc, now, m, recipientId, e, pending);
    }
    if AlreadyHeld(env, m, recipientId, e) {
      HeldConcludes(env, svc, now, m, pending);
    }
  }

  lemma ConflictsExactly(env: Env, svc: Service, now: string, m: Memory, pending: Stored)
    requires Honest(env) && StoreGood(env, svc, now, m) && m.Valid()
    requires RecordGood(env, svc, now, pending) && pending.receivedAt == now
    requires pending.envelopeId == pending.envelope.envelopeId
    ensures ConflictsTold(env, m, pending.recipientId, pending,
                          Receipt(Conclude(env, svc, pending, Some(MemoryPut(m, pending).1))))
  {
    hide Honest, StoreGood, RecordGood, Conclude, KeyText, FindSlot, Values, Believed, Identifier;
    var result := MemoryPut(m, pending).1;
    ConcludeExactly(env, svc, pending, Some(result));
    FoundInMemory(m, pending);
    if KeyOf(pending) in m.vals {
      HeldIsBelieved(env, svc, now, m, KeyOf(pending));
      PendingNames(env, svc, now, pending);
      KeyedRecord(env, svc, now, m, pending.recipientId, pending.envelopeId);
    } else if result.outcome != StoredNew {
      var k :| k in m.vals && m.vals[k] == result.record && SameSlot(m.vals[k], pending);
      HeldIsBelieved(env, svc, now, m, k);
      OneInPlace(env, svc, now, m, pending, k);
    }
  }

  lemma HeldIsBelieved(env: Env, svc: Service, now: string, m: Memory, k: string)
    requires StoreGood(env, svc, now, m) && k in m.vals
    ensures var x := m.vals[k];
            env.canonical(StoredDoc(x)).Some? <==> Believed(env, svc, x.recipientId, now, x)
  {
    hide StoreGood, Checked, VerifyStored, Attested;
    var x := m.vals[k];
    PassesExactly(env, svc, x.recipientId, now, Some(x));
    if env.canonical(StoredDoc(x)).Some? {
      HeldPasses(env, svc, now, m, k);
    }
  }

  lemma PendingNames(env: Env, svc: Service, now: string, pending: Stored)
    requires RecordGood(env, svc, now, pending) && pending.envelopeId == pending.envelope.envelopeId
    ensures Identifier(pending.recipientId) && Identifier(pending.envelopeId)
  {
    hide RecordGood, Identifier;
    GoodIsShaped(env, svc, now, pending);
  }

  lemma OneInPlace(env: Env, svc: Service, now: string, m: Memory, pending: Stored, k: string)
    requires StoreGood(env, svc, now, m) && k in m.vals && SameSlot(m.vals[k], pending)
    ensures forall l :: l in m.vals && TakesSlot(m.vals[l], pending.recipientId, pending.envelope) ==> l == k
  {
    hide RecordGood, KeyOf;
    forall l | l in m.vals && TakesSlot(m.vals[l], pending.recipientId, pending.envelope)
      ensures l == k
    {
      assert SameSlot(m.vals[l], m.vals[k]);
    }
  }

  lemma DuplicateShows(env: Env, svc: Service, pending: Stored, result: PutResult)
    requires Conclude(env, svc, pending, Some(result)) == DeliveryDuplicate
    ensures result.outcome == Duplicate && Checked(env, result.record)
            && result.record.recipientId == pending.recipientId
  {
    hide VerifyStored, Checked;
  }

  /** A duplicate was shown a record of this envelope, and that record sits under its own key. */
  lemma HeldAfterDuplicate(env: Env, svc: Service, now: string, m: Memory, recipientId: string, e: Envelope,
                           pending: Stored)
    requires Honest(env) && StoreGood(env, svc, now, m) && m.Valid()
    requires pending.recipientId == recipientId && pending.envelope == e && pending.envelopeId == e.envelopeId
    requires var result := MemoryPut(m, pending).1;
             result.outcome != StoredNew && result.record.envelope == e && Checked(env, result.record)
             && result.record.recipientId == recipientId
    ensures AlreadyHeld(env, m, recipientId, e)
  {
    var record := MemoryPut(m, pending).1.record;
    assert record.envelopeId == e.envelopeId && env.canonical(StoredDoc(record)).Some?;
    KeyFollows(record, pending);
    FoundInMemory(m, pending);
    hide Honest, RecordGood, Checked, KeyText, FindSlot, Values;
  }

  lemma HeldConcludes(env: Env, svc: Service, now: string, m: Memory, pending: Stored)
    requires Honest(env) && StoreGood(env, svc, now, m) && m.Valid()
    requires RecordGood(env, svc, now, pending) && pending.receivedAt == now
             && pending.envelopeId == pending.envelope.envelopeId
    requires AlreadyHeld(env, m, pending.recipientId, pending.envelope)
    ensures Conclude(env, svc, pending, Some(MemoryPut(m, pending).1)) == DeliveryDuplicate
  {
    var held := m.vals[KeyOf(pending)];
    GoodDigest(env, svc, now, pending);
    GoodDigest(env, svc, now, held);
    assert RecordGood(env, svc, now, held) && Checked(env, held)
      && VerifyStored(env, held, svc.mailboxId, svc.keys, now);
    CheckedNames(env, held);
    hide Honest, StoreGood, RecordGood, Checked, VerifyStored, KeyText, DigestOf;
  }

  lemma GoodDigest(env: Env, svc: Service, now: string, r: Stored)
    requires RecordGood(env, svc, now, r)
    ensures DigestOf(env, EnvelopeDoc(r.envelope)) == Some(r.envelopeDigest) && r.envelope.recipientId == r.recipientId
  {
    hide BindingVerifies, AckVerifies, Checked, EnvelopeShape, DigestOf, Verifies;
  }

  lemma CheckedNames(env: Env, r: Stored)
    requires Checked(env, r)
    ensures r.envelopeId == r.envelope.envelopeId
  {
  }

  // ----- acknowledge -------------------------------------------------------

  /** `records.find((record) => record.envelope_id === envelopeId)`. */
  function FindEnvelope(s: seq<Stored>, envelopeId: string): (x: Option<Stored>)
    ensures x.Some? ==> x.value in s && x.value.envelopeId == envelopeId
    ensures x.None? ==> forall i :: 0 <= i < |s| ==> s[i].envelopeId != envelopeId
  {
    if s == [] then None else if s[0].envelopeId == envelopeId then Some(s[0]) else FindEnvelope(s[1..], envelopeId)
  }

  /** The recipient's list can be read now. */
  ghost predicate Usable(env: Env, m: Memory, recipientId: string) {
    forall k :: k in m.vals && m.vals[k].recipientId == recipientId ==> env.canonical(StoredDoc(m.vals[k])).Some?
  }

  /** With a good store and a usable list, looking an envelope up in the list finds exactly the
      record under its key. */
  lemma FindIsLookup(env: Env, svc: Service, now: string, m: Memory, recipientId: string, envelopeId: string)
    requires StoreGood(env, svc, now, m) && Identifier(recipientId) && Identifier(envelopeId)
    ensures m.Valid()
    ensures var x := FindEnvelope(ListFor(Values(m), recipientId), envelopeId);
            var k := KeyText(recipientId, envelopeId);
            (x.Some? <==> k in m.vals) && (x.Some? ==> x.value == m.vals[k] && x.value.recipientId == recipientId)
  {
    assert m.Valid();
    GoodValuesDistinct(env, svc, now, m);
    ListEffect(Values(m), recipientId);
    var listed := ListFor(Values(m), recipientId);
    var x := FindEnvelope(listed, envelopeId);
    var k := KeyText(recipientId, envelopeId);
    hide FindEnvelope, ListFor, Values, RecordGood, KeyText, Identifier;
    if x.Some? {
      ValueHasKey(m, x.value);
      var l :| l in m.vals && m.vals[l] == x.value;
      assert KeyOf(x.value) == l;
    }
    if k in m.vals {
      KeyedRecord(env, svc, now, m, recipientId, envelopeId);
      KeyHasValue(m, k);
      assert m.vals[k] in listed;
    }
  }

  lemma KeyedRecord(env: Env, svc: Service, now: string, m: Memory, recipientId: string, envelopeId: string)
    requires StoreGood(env, svc, now, m) && Identifier(recipientId) && Identifier(envelopeId)
    requires KeyText(recipientId, envelopeId) in m.vals
    ensures var r := m.vals[KeyText(recipientId, envelopeId)];
            r.recipientId == recipientId && r.envelopeId == envelopeId
  {
    var r := m.vals[KeyText(recipientId, envelopeId)];
    GoodIsShaped(env, svc, now, r);
    IdentifierHasNoNul(r.recipientId);
    IdentifierHasNoNul(recipientId);
    hide RecordGood, Identifier;
    KeyTextParts(recipientId, envelopeId);
    KeyTextParts(r.recipientId, r.envelopeId);
    HeadsEqual(r.recipientId, r.envelopeId, recipientId, envelopeId, '\0');
  }

  lemma KeyTextParts(recipientId: string, envelopeId: string)
    ensures KeyText(recipientId, envelopeId) == recipientId + ['\0'] + envelopeId
  {
    var parts := [recipientId, envelopeId];
    assert parts[1..] == [envelopeId] && Join([envelopeId], '\0') == envelopeId;
  }

  /** What `acknowledge` must do: answer with the acknowledgement the store holds, writing it first
      if there is none; fail without a trace when it cannot be written. */
  ghost predicate AckEffect(env: Env, svc: Service, now: string, m: Memory, recipientId: string, envelopeId: string,
                            r: AckAnswer, after: Memory)
  {
    var k := KeyText(recipientId, envelopeId);
    if k !in m.vals then r == NoAck && after == m
    else if m.vals[k].ack.Some? then r == Answer(m.vals[k].ack.value) && after == m
    else
      var a := CreateAck(env, svc, m.vals[k], now);
      if a.Some? && Checked(env, m.vals[k].(ack := a)) then r == Answer(a.value)
        && after == m.Set(k, m.vals[k].(ack := a))
      else r == AckThrew && after == m
  }

  method ReadList(env: Env, svc: Service, now: string, recipientId: string, store: MemoryStore)
    returns (r: Option<seq<Stored>>)
    requires Honest(env) && Configured(env, svc) && env.instant(now).Some?
    requires StoreGood(env, svc, now, store.records)
    ensures store.records.Valid()
    ensures r == if Usable(env, store.records, recipientId) then Some(ListFor(Values(store.records), recipientId))
            else None
  {
    assert store.records.Valid();
    ghost var s := State(svc, map[], now, store.records, {}, {});
    assert Good(env, s);
    ListingUsable(env, s, recipientId);
    hide ListFor, StoreGood, AllPass, KeysConsistent, FirstOccurrences, Honest;
    r := VerifiedList(env, svc, recipientId, now, Wrap(ListFor(Values(store.records), recipientId)));
  }

  /** sameStoredDelivery: equal canonical texts once the acknowledgement is set aside. */
  predicate SameStoredDelivery(env: Env, a: Stored, b: Stored) {
    env.canonical(StoredDoc(Delivery(a))).Some?
      && env.canonical(StoredDoc(Delivery(a))) == env.canonical(StoredDoc(Delivery(b)))
  }

  /** The checks on what the store returned from acknowledge. */
  predicate ReturnedFits(env: Env, svc: Service, now: string, recipientId: string, envelopeId: string,
                         returned: Stored, existing: Stored)
  {
    Checked(env, returned) && returned.recipientId == recipientId && returned.envelopeId == envelopeId
    && returned.ack.Some? && SameStoredDelivery(env, returned, existing)
    && VerifyStored(env, returned, svc.mailboxId, svc.keys, now)
  }

  /** What the store returned from acknowledge is used only if it is a believed record of the same delivery, and
      acknowledged. */
  lemma ReturnedFitsExactly(env: Env, svc: Service, now: string, recipientId: string, envelopeId: string,
                            returned: Stored, existing: Stored)
    requires Honest(env)
    ensures ReturnedFits(env, svc, now, recipientId, envelopeId, returned, existing) <==>
            && Believed(env, svc, recipientId, now, returned) && returned.envelopeId == envelopeId && returned.ack.Some?
            && env.canonical(StoredDoc(returned.(ack := None))).Some?
            && returned.(ack := None) == existing.(ack := None)
  {
    hide Honest, Checked, VerifyStored, Coherent, Attested;
    PassesExactly(env, svc, recipientId, now, Some(returned));
    var (a, b) := (StoredDoc(returned.(ack := None)), StoredDoc(existing.(ack := None)));
    if env.canonical(a).Some? && env.canonical(a) == env.canonical(b) {
      SameBytes(env, returned.(ack := None), existing.(ack := None));
    }
  }

  method Acknowledge(env: Env, svc: Service, now: string, recipientId: string, envelopeId: string, store: MemoryStore)
    returns (r: AckAnswer)
    requires Honest(env) && Configured(env, svc) && env.instant(now).Some?
    requires StoreGood(env, svc, now, store.records)
    modifies store
    ensures StoreGood(env, svc, now, store.records)
    ensures !(Identifier(recipientId) && Identifier(envelopeId) && old(Usable(env, store.records, recipientId))) ==>
      r == AckThrew && store.records == old(store.records)
    ensures Identifier(recipientId) && Identifier(envelopeId) && old(Usable(env, store.records, recipientId)) ==>
      AckEffect(env, svc, now, old(store.records), recipientId, envelopeId, r, store.records)
  {
    assert store.records.Valid();
    hide Honest, StoreGood, Identifier, ListFor, Values, FindEnvelope, CreateAck, Checked, KeyText, Configured, Usable;
    if !Identifier(recipientId) || !Identifier(envelopeId) { return AckThrew; }
    ghost var m := store.records;
    FindIsLookup(env, svc, now, m, recipientId, envelopeId);
    var before := ReadList(env, svc, now, recipientId, store);
    if before.None? { return AckThrew; }
    var existing := FindEnvelope(before.value, envelopeId);
    if existing.None? { return NoAck; }
    if existing.value.ack.Some? { return Answer(existing.value.ack.value); }
    r := WriteAck(env, svc, now, recipientId, envelopeId, existing.value, store);
  }

  /** The second half of acknowledge, for a listed record that has no acknowledgement yet. */
  method WriteAck(env: Env, svc: Service, now: string, recipientId: string, envelopeId: string, existing: Stored,
                  store: MemoryStore) returns (r: AckAnswer)
    requires Honest(env) && Configured(env, svc) && env.instant(now).Some?
    requires StoreGood(env, svc, now, store.records) && Usable(env, store.records, recipientId)
    requires Identifier(recipientId) && Identifier(envelopeId)
    requires KeyText(recipientId, envelopeId) in store.records.vals
    requires store.records.vals[KeyText(recipientId, envelopeId)] == existing && existing.ack.None?
    modifies store
    ensures StoreGood(env, svc, now, store.records)
    ensures AckEffect(env, svc, now, old(store.records), recipientId, envelopeId, r, store.records)
  {
    assert store.records.Valid();
    hide Honest, StoreGood, Identifier, ListFor, Values, FindEnvelope, CreateAck, Checked, KeyText, Configured,
         VerifyStored, SameStoredDelivery, Usable, ReturnedFits, MemoryAck;
    ghost var m := store.records;
    var pending := CreateAck(env, svc, existing, now);
    if pending.None? { return AckThrew; }
    AckOfFresh(env, m, recipientId, envelopeId, pending.value);
    var returned := store.Acknowledge(env, recipientId, envelopeId, pending.value);
    if returned.Invalid? { return AckThrew; }
    AckedState(env, svc, now, m, recipientId, envelopeId);
    if returned.Missing? || !ReturnedFits(env, svc, now, recipientId, envelopeId, returned.record, existing) {
      return AckThrew;
    }
    r := ConfirmAck(env, svc, now, recipientId, envelopeId, returned.record, store);
  }

  /** The list is read once more: the acknowledgement that was returned must be the one that stays. */
  method ConfirmAck(env: Env, svc: Service, now: string, recipientId: string, envelopeId: string, returned: Stored,
                    store: MemoryStore) returns (r: AckAnswer)
    requires Honest(env) && Configured(env, svc) && env.instant(now).Some?
    requires StoreGood(env, svc, now, store.records) && Usable(env, store.records, recipientId)
    requires Identifier(recipientId) && Identifier(envelopeId) && returned.ack.Some?
    ensures r == if KeyText(recipientId, envelopeId) in store.records.vals
                    && store.records.vals[KeyText(recipientId, envelopeId)].ack == returned.ack
                 then Answer(returned.ack.value) else AckThrew
  {
    hide Honest, StoreGood, Identifier, ListFor, Values, FindEnvelope, KeyText, Configured, Usable;
    FindIsLookup(env, svc, now, store.records, recipientId, envelopeId);
    var after := ReadList(env, svc, now, recipientId, store);
    var persisted := FindEnvelope(after.value, envelopeId);
    if persisted.None? || persisted.value.ack.None? || persisted.value.ack != returned.ack {
      return AckThrew;
    }
    return Answer(persisted.value.ack.value);
  }

  lemma AckOfFresh(env: Env, m: Memory, recipientId: string, envelopeId: string, a: Ack)
    requires KeyText(recipientId, envelopeId) in m.vals && m.vals[KeyText(recipientId, envelopeId)].ack.None?
    ensures var k := KeyText(recipientId, envelopeId);
            var u := m.vals[k].(ack := Some(a));
            MemoryAck(env, m, recipientId, envelopeId, a) == if Checked(env, u) then (m.Set(k, u), Held(u))
              else (m, Invalid)
  {
    hide Checked, KeyText;
  }

  /** The state after a written acknowledgement passes every check that follows the write. */
  lemma AckedState(env: Env, svc: Service, now: string, m: Memory, recipientId: string, envelopeId: string)
    requires Honest(env) && Configured(env, svc) && env.instant(now).Some?
    requires StoreGood(env, svc, now, m) && Usable(env, m, recipientId) && Identifier(recipientId)
             && Identifier(envelopeId)
    requires var k := KeyText(recipientId, envelopeId);
             k in m.vals && m.vals[k].ack.None? && CreateAck(env, svc, m.vals[k], now).Some?
             && Checked(env, m.vals[k].(ack := CreateAck(env, svc, m.vals[k], now)))
    ensures var k := KeyText(recipientId, envelopeId);
            var u := m.vals[k].(ack := CreateAck(env, svc, m.vals[k], now));
            StoreGood(env, svc, now, m.Set(k, u)) && Usable(env, m.Set(k, u), recipientId)
            && ReturnedFits(env, svc, now, recipientId, envelopeId, u, m.vals[k])
  {
    hide Honest, StoreGood, RecordGood, Identifier, CreateAck, Checked, KeyText, Configured, VerifyStored;
    var k := KeyText(recipientId, envelopeId);
    var r := m.vals[k];
    var a := CreateAck(env, svc, r, now);
    var u := r.(ack := a);
    CreatedAckVerifies(env, svc, now, r, now);
    AckKeepsStore(env, svc, now, m, recipientId, envelopeId, a.value);
    assert MemoryAck(env, m, recipientId, envelopeId, a.value).0 == m.Set(k, u);
    KeyedRecord(env, svc, now, m, recipientId, envelopeId);
    GoodAt(env, svc, now, m.Set(k, u), k);
    CheckedIsCanonical(env, u);
    assert env.canonical(StoredDoc(r)).Some?;
    SameDelivery(env, u, r);
  }

  lemma GoodAt(env: Env, svc: Service, now: string, m: Memory, k: string)
    requires StoreGood(env, svc, now, m) && k in m.vals
    ensures VerifyStored(env, m.vals[k], svc.mailboxId, svc.keys, now)
  {
  }

  lemma SameDelivery(env: Env, u: Stored, r: Stored)
    requires Delivery(u) == r && env.canonical(StoredDoc(r)).Some?
    ensures SameStoredDelivery(env, u, r)
  {
    assert Delivery(r) == r;
  }
}
