/** Delivery and acknowledgement through the mailbox service of lib/agent-mailbox.ts: what a
    receipt promises whatever the store answers, and why what was accepted once stays listable. */
module MailboxDelivery {
  import opened Common
  import opened MailboxRecords
  import opened MailboxStores
  import opened MailboxService
  import opened MailboxVerdicts
  import MailboxRuns
  import JsonText

  datatype Status = DeliveryAccepted | DeliveryDuplicate | DeliveryRefused(reason: string)

  // ----- deliver, before and after the store is asked ----------------------

  function UnsignedBinding(svc: Service): Binding {
    Binding(STORED_DELIVERY_VERSION, svc.mailboxId, svc.keyId, false, UNSIGNED)
  }

  function Unbound(svc: Service, recipientId: string, receivedAt: string, e: Envelope, digest: string,
                   sender: SenderVerification): Stored
  {
    Stored(recipientId, e.envelopeId, digest, e, receivedAt, None, sender, UnsignedBinding(svc))
  }

  /** Refused before anything was stored, a thrown error, or the bound record handed to the store. */
  datatype Preparation = NotVerified(reason: string) | SigningFailed | Bound(record: Stored)

  function Prepare(env: Env, svc: Service, directory: Directory, now: string, recipientId: string,
                   raw: Option<Envelope>): Preparation
  {
    match VerifyEnvelope(env, raw, directory, recipientId, now)
    case Refused(reason, _) => NotVerified(reason)
    case Accepted(digest, sender) =>
      assert raw.Some?;
      var draft := Unbound(svc, recipientId, now, raw.value, digest, sender);
      var text := env.canonical(DeliveryOf(draft));
      if text.None? then SigningFailed
      else Bound(draft.(binding := draft.binding.(
                          signature := Signature(ED25519, env.sign(DeliveryDomain, text.value, svc.privateKey)))))
  }

  /** checkedStorePutResult: the claimed outcome fits the returned record. */
  predicate PutResultFits(env: Env, result: PutResult, pending: Stored) {
    var r := result.record;
    && Checked(env, r) && r.recipientId == pending.recipientId
    && match result.outcome
       case StoredNew => env.canonical(StoredDoc(r)) == env.canonical(StoredDoc(pending))
       case Duplicate =>
         r.envelopeId == pending.envelopeId && r.envelopeDigest == pending.envelopeDigest
         && env.canonical(EnvelopeDoc(r.envelope)) == env.canonical(EnvelopeDoc(pending.envelope))
       case EnvelopeIdConflict => r.envelopeId == pending.envelopeId && r.envelopeDigest != pending.envelopeDigest
       case ThreadSequenceConflict =>
         r.envelopeDigest != pending.envelopeDigest && r.envelope.senderId == pending.envelope.senderId
         && r.envelope.threadId == pending.envelope.threadId && r.envelope.sequence == pending.envelope.sequence
  }

  const STORE_RESULT_INVALID := "mailbox_store_result_invalid"

  /** The receipt for whatever the store answered; an ill-shaped answer is `None`. */
  function Conclude(env: Env, svc: Service, pending: Stored, answer: Option<PutResult>): Status {
    if answer.None? || !PutResultFits(env, answer.value, pending)
       || !VerifyStored(env, answer.value.record, svc.mailboxId, svc.keys, pending.receivedAt)
    then DeliveryRefused(STORE_RESULT_INVALID)
    else
      match answer.value.outcome
      case StoredNew => DeliveryAccepted
      case Duplicate => DeliveryDuplicate
      case EnvelopeIdConflict => DeliveryRefused("envelope_id_conflict")
      case ThreadSequenceConflict => DeliveryRefused("thread_sequence_conflict")
  }

  /** Whatever the store answers, ACCEPTED means it showed exactly the delivered record, and
      DUPLICATE means it showed a verified record of exactly the delivered envelope. */
  lemma ReceiptNeedsRecord(env: Env, svc: Service, pending: Stored, answer: Option<PutResult>)
    requires Honest(env)
    ensures Conclude(env, svc, pending, answer) == DeliveryAccepted
            <==> answer == Some(PutResult(StoredNew, pending)) && Checked(env, pending)
                 && VerifyStored(env, pending, svc.mailboxId, svc.keys, pending.receivedAt)
    ensures Conclude(env, svc, pending, answer) == DeliveryDuplicate ==>
              answer.Some? && answer.value.record.envelope == pending.envelope
              && Passes(env, svc, pending.recipientId, pending.receivedAt, Some(answer.value.record))
  {
    hide VerifyStored, EnvelopeShape, SenderShape, BindingShape, AckBelongs, DigestOf;
    if answer.Some? && PutResultFits(env, answer.value, pending) {
      var r := answer.value.record;
      if answer.value.outcome == StoredNew {
        SameBytes(env, r, pending);
      } else if answer.value.outcome == Duplicate {
        CheckedEnvelopeCanonical(env, r);
        assert EnvelopeDoc(r.envelope) == EnvelopeDoc(pending.envelope);
      }
    }
  }

  /** Which receipt each answer of the store leads to: the shown record must be believed as it is when delivered, and
      bear the claimed outcome out. */
  lemma ConcludeExactly(env: Env, svc: Service, pending: Stored, answer: Option<PutResult>)
    requires Honest(env)
    ensures var status := Conclude(env, svc, pending, answer);
            if answer.None? || !Believed(env, svc, pending.recipientId, pending.receivedAt, answer.value.record)
            then status == DeliveryRefused("mailbox_store_result_invalid")
            else
              var (x, outcome) := (answer.value.record, answer.value.outcome);
              && (status == DeliveryAccepted <==> outcome == StoredNew && x == pending)
              && (status == DeliveryDuplicate <==>
                  outcome == Duplicate && x.envelopeId == pending.envelopeId
                  && x.envelopeDigest == pending.envelopeDigest && x.envelope == pending.envelope)
              && (status == DeliveryRefused("envelope_id_conflict") <==>
                  outcome == EnvelopeIdConflict && x.envelopeId == pending.envelopeId
                  && x.envelopeDigest != pending.envelopeDigest)
              && (status == DeliveryRefused("thread_sequence_conflict") <==>
                  outcome == ThreadSequenceConflict && x.envelopeDigest != pending.envelopeDigest
                  && x.envelope.senderId == pending.envelope.senderId
                  && x.envelope.threadId == pending.envelope.threadId
                  && x.envelope.sequence == pending.envelope.sequence)
              && (status in {DeliveryAccepted, DeliveryDuplicate} || status.DeliveryRefused?)
              && (status.DeliveryRefused? ==>
                  status.reason in {"envelope_id_conflict", "thread_sequence_conflict", "mailbox_store_result_invalid"})
  {
    hide VerifyStored, Checked, Coherent, Attested, Honest;
    if answer.Some? {
      var x := answer.value.record;
      PassesExactly(env, svc, pending.recipientId, pending.receivedAt, Some(x));
      SameTexts(env, x, pending);
    }
  }

  /** For checked records, equal canonical texts are equal values. */
  lemma SameTexts(env: Env, x: Stored, pending: Stored)
    requires Honest(env)
    ensures Checked(env, x) ==>
              && (env.canonical(StoredDoc(x)) == env.canonical(StoredDoc(pending)) <==> x == pending)
              && (env.canonical(EnvelopeDoc(x.envelope)) == env.canonical(EnvelopeDoc(pending.envelope))
                  <==> x.envelope == pending.envelope)
  {
    hide EnvelopeShape, SenderShape, BindingShape, AckBelongs, Identifier;
    if Checked(env, x) {
      CheckedEnvelopeCanonical(env, x);
      assert SameKind(StoredDoc(x), StoredDoc(pending));
      assert SameKind(EnvelopeDoc(x.envelope), EnvelopeDoc(pending.envelope));
    }
  }

  lemma CheckedEnvelopeCanonical(env: Env, r: Stored)
    requires Checked(env, r)
    ensures env.canonical(EnvelopeDoc(r.envelope)).Some?
  {
  }

  // ----- a bound record verifies, now and later ----------------------------

  /** Everything a listed record must satisfy, except that a record too large to canonicalize
      fails the check. */
  ghost predicate RecordGood(env: Env, svc: Service, now: string, r: Stored) {
    VerifyStored(env, r, svc.mailboxId, svc.keys, now)
    && (env.canonical(StoredDoc(r)).Some? ==> Checked(env, r))
  }

  /** The recorded directory entry is enough to repeat the verification at the recorded time,
      whatever the real directory says then. */
  lemma VerificationRepeats(env: Env, e: Envelope, directory: Directory, recipientId: string, now: string)
    requires VerifyEnvelope(env, Some(e), directory, recipientId, now).Accepted?
    ensures var v := VerifyEnvelope(env, Some(e), directory, recipientId, now);
            v.sender.verifiedAt == now && v.sender.senderId == e.senderId && v.sender.signerKeyId == e.signerKeyId
            && v.sender.profile == VERIFICATION_PROFILE && !v.sender.authorizes
            && env.publicKey(v.sender.publicKey).Some?
            && VerifyEnvelope(env, Some(e), RecordedDirectory(v.sender), recipientId, now) == v
    ensures EnvelopeShape(env, e) && e.recipientId == recipientId && env.instant(now).Some?
    ensures DigestOf(env, PayloadDoc(e.payload)) == Some(e.payloadDigest)
    ensures DigestOf(env, EnvelopeDoc(e)) == Some(VerifyEnvelope(env, Some(e), directory, recipientId, now).accepted)
  {
    hide EnvelopeShape, DigestOf, Verifies;
  }

  /** A record that deliver hands to the store passes every check it can be put to. */
  lemma PreparedIsGood(env: Env, svc: Service, directory: Directory, now: string, recipientId: string, e: Envelope)
    requires Honest(env) && Configured(env, svc)
    requires Prepare(env, svc, directory, now, recipientId, Some(e)).Bound?
    ensures RecordGood(env, svc, now, Prepare(env, svc, directory, now, recipientId, Some(e)).record)
    ensures Prepare(env, svc, directory, now, recipientId, Some(e)).record.ack.None?
    ensures Prepare(env, svc, directory, now, recipientId, Some(e)).record.receivedAt == now
  {
    VerificationRepeats(env, e, directory, recipientId, now);
    hide VerifyEnvelope, EnvelopeShape, DigestOf, Honest;
    var v := VerifyEnvelope(env, Some(e), directory, recipientId, now);
    var r := Prepare(env, svc, directory, now, recipientId, Some(e)).record;
    SignedBinding(env, svc, Unbound(svc, recipientId, now, e, v.accepted, v.sender), r);
    PreparedChecked(env, svc, recipientId, now, v.sender, r);
  }

  lemma SignedBinding(env: Env, svc: Service, draft: Stored, r: Stored)
    requires Honest(env) && Configured(env, svc) && draft.binding == UnsignedBinding(svc)
    requires env.canonical(DeliveryOf(draft)).Some?
    requires r == draft.(binding := draft.binding.(signature :=
                    Signature(ED25519, env.sign(DeliveryDomain, env.canonical(DeliveryOf(draft)).value,
                        svc.privateKey))))
    ensures BindingShape(env, r.binding) && BindingVerifies(env, r, svc.mailboxId, svc.keys)
  {
    assert DeliveryOf(r) == DeliveryOf(draft);
  }

  lemma PreparedChecked(env: Env, svc: Service, recipientId: string, now: string, sender: SenderVerification, r: Stored)
    requires Honest(env) && BindingShape(env, r.binding)
    requires EnvelopeShape(env, r.envelope) && r.envelope.recipientId == recipientId && env.instant(now).Some?
    requires DigestOf(env, PayloadDoc(r.envelope.payload)) == Some(r.envelope.payloadDigest)
    requires DigestOf(env, EnvelopeDoc(r.envelope)) == Some(r.envelopeDigest)
    requires r.recipientId == recipientId && r.envelopeId == r.envelope.envelopeId && r.receivedAt == now
    requires r.sender == sender && r.ack.None?
    requires sender.verifiedAt == now && sender.senderId == r.envelope.senderId
             && sender.signerKeyId == r.envelope.signerKeyId
    requires sender.profile == VERIFICATION_PROFILE && !sender.authorizes && env.publicKey(sender.publicKey).Some?
    ensures env.canonical(StoredDoc(r)).Some? ==> Checked(env, r)
  {
    hide Identifier;
  }

  /** Time moves on, keys are added, none is dropped or changed. */
  ghost predicate Later(env: Env, svc: Service, now: string, svc': Service, now': string) {
    && svc'.mailboxId == svc.mailboxId
    && (forall k :: k in svc.keys ==> k in svc'.keys && svc'.keys[k] == svc.keys[k])
    && env.instant(now).Some? && env.instant(now').Some? && env.instant(now).value <= env.instant(now').value
  }

  lemma GoodStaysGood(env: Env, svc: Service, now: string, svc': Service, now': string, r: Stored)
    requires RecordGood(env, svc, now, r) && Later(env, svc, now, svc', now')
    ensures RecordGood(env, svc', now', r)
  {
    hide VerifyEnvelope, Checked, Verifies;
  }

  lemma AckStaysGood(env: Env, svc: Service, now: string, svc': Service, now': string, a: Ack)
    requires AckVerifies(env, a, svc.keys, now) && Later(env, svc, now, svc', now')
    ensures AckVerifies(env, a, svc'.keys, now')
  {
    hide Verifies;
  }

  /** Writing a verifying acknowledgement keeps a record good. */
  lemma AckedIsGood(env: Env, svc: Service, now: string, r: Stored, a: Ack)
    requires RecordGood(env, svc, now, r) && AckVerifies(env, a, svc.keys, now) && Checked(env, r.(ack := Some(a)))
    ensures RecordGood(env, svc, now, r.(ack := Some(a)))
  {
    hide VerifyEnvelope, Checked, Verifies, AckVerifies;
    assert DeliveryOf(r) == DeliveryOf(r.(ack := Some(a)));
  }

  // ----- acknowledgements --------------------------------------------------

  /** createReadAcknowledgement; a value too large to canonicalize throws. */
  function CreateAck(env: Env, svc: Service, r: Stored, readAt: string): Option<Ack> {
    var digest :- DigestOf(env, BindingDoc(r.binding));
    var unsigned := Ack(ACKNOWLEDGEMENT_VERSION, svc.mailboxId, r.recipientId, r.envelopeId, r.envelopeDigest,
                        digest, readAt, false, svc.keyId, UNSIGNED);
    var text :- env.canonical(AckDoc(unsigned));
    Some(unsigned.(signature := Signature(ED25519, env.sign(AcknowledgementDomain, text, svc.privateKey))))
  }

  /** The acknowledgement names the record and the binding it acknowledges, the reader's mailbox and the read time, and
      is signed as such with this mailbox's current key; only an oversized value prevents it. */
  lemma CreatedAckExactly(env: Env, svc: Service, r: Stored, readAt: string, a: Ack)
    ensures CreateAck(env, svc, r, readAt) == Some(a) <==>
            var unsigned := Ack("EP-AGENT-MAILBOX-READ-ACKNOWLEDGEMENT-v0.1", svc.mailboxId, r.recipientId,
                                r.envelopeId, r.envelopeDigest, a.bindingDigest, readAt, false, svc.keyId,
                                Signature("", ""));
            && Digests(env, BindingDoc(r.binding), a.bindingDigest)
            && env.canonical(AckDoc(unsigned)).Some?
            && a == unsigned.(signature := Signature("Ed25519",
                       env.sign(AcknowledgementDomain, env.canonical(AckDoc(unsigned)).value, svc.privateKey)))
  {
  }

  lemma CreatedAckVerifies(env: Env, svc: Service, now: string, r: Stored, readAt: string)
    requires Honest(env) && Configured(env, svc) && CreateAck(env, svc, r, readAt).Some?
    requires env.instant(readAt).Some? && env.instant(now).Some? && env.instant(readAt).value <= env.instant(now).value
    ensures AckVerifies(env, CreateAck(env, svc, r, readAt).value, svc.keys, now)
  {
    var a := CreateAck(env, svc, r, readAt).value;
    hide DigestOf;
    var digest := DigestOf(env, BindingDoc(r.binding)).value;
    assert a.(signature := UNSIGNED) == Ack(ACKNOWLEDGEMENT_VERSION, svc.mailboxId, r.recipientId, r.envelopeId,
                                            r.envelopeDigest, digest, readAt, false, svc.keyId, UNSIGNED);
  }

  // ----- whole runs --------------------------------------------------------

  /** One mailbox over an honest store.  `bound` and `acks` are the values that in-flight calls
      built and may hand to the store at any later moment. */
  datatype State = State(svc: Service, directory: Directory, now: string, store: Memory,
                         bound: set<Stored>, acks: set<Ack>)

  /** Concurrent calls interleave at their store operations. */
  datatype Step =
    | Tick(time: string)
    | Rotate(next: Service)
    | ChangeDirectory(entries: Directory)
    | BeginDeliver(to: string, raw: Option<Envelope>)
    | StorePut(pending: Stored)
    | BeginAck(existing: Stored, readAt: string)
    | StoreAck(ack: Ack)

  ghost predicate Enabled(env: Env, s: State, step: Step) {
    match step
    case Tick(t) => Later(env, s.svc, s.now, s.svc, t)
    case Rotate(next) => Configured(env, next) && Later(env, s.svc, s.now, next, s.now)
    case ChangeDirectory(_) => true
    case BeginDeliver(to, raw) => Identifier(to)
    case StorePut(r) => r in s.bound
    // the record was listed; readAt was the clock when the call began
    case BeginAck(r, readAt) =>
      KeyOf(r) in s.store.vals && s.store.vals[KeyOf(r)] == r && r.ack.None?
      && env.instant(readAt).Some? && env.instant(s.now).Some?
      && env.instant(readAt).value <= env.instant(s.now).value
    case StoreAck(a) => a in s.acks
  }

  function Apply(env: Env, s: State, step: Step): State
    requires s.store.Valid()
  {
    match step
    case Tick(t) => s.(now := t)
    case Rotate(next) => s.(svc := next)
    case ChangeDirectory(entries) => s.(directory := entries)
    case BeginDeliver(to, raw) =>
      var p := Prepare(env, s.svc, s.directory, s.now, to, raw);
      if p.Bound? then s.(bound := s.bound + {p.record}) else s
    case StorePut(r) => s.(store := MailboxRuns.MemoryStep(env, s.store, MailboxRuns.PutOp(r)).0)
    case BeginAck(r, readAt) =>
      var a := CreateAck(env, s.svc, r, readAt);
      if a.Some? then s.(acks := s.acks + {a.value}) else s
    case StoreAck(a) =>
      s.(store := MailboxRuns.MemoryStep(env, s.store, MailboxRuns.AckOp(a.recipientId, a.envelopeId, a)).0)
  }

  ghost predicate StoreGood(env: Env, svc: Service, now: string, m: Memory) {
    && m.Valid()
    && (forall k :: k in m.vals ==> KeyOf(m.vals[k]) == k && RecordGood(env, svc, now, m.vals[k]))
    && (forall k, l :: k in m.vals && l in m.vals && SameSlot(m.vals[k], m.vals[l]) ==> k == l)
  }

  ghost predicate PoolsGood(env: Env, s: State) {
    && (forall r :: r in s.bound ==> r.ack.None? && RecordGood(env, s.svc, s.now, r))
    && (forall a :: a in s.acks ==> AckVerifies(env, a, s.svc.keys, s.now))
  }

  ghost predicate Good(env: Env, s: State) {
    Configured(env, s.svc) && env.instant(s.now).Some? && StoreGood(env, s.svc, s.now, s.store) && PoolsGood(env, s)
  }

  lemma StoreGoodLater(env: Env, svc: Service, now: string, svc': Service, now': string, m: Memory)
    requires StoreGood(env, svc, now, m) && Later(env, svc, now, svc', now')
    ensures StoreGood(env, svc', now', m)
  {
    hide RecordGood, Later, KeyOf;
    forall k | k in m.vals ensures RecordGood(env, svc', now', m.vals[k]) {
      GoodStaysGood(env, svc, now, svc', now', m.vals[k]);
    }
  }

  lemma PoolsGoodLater(env: Env, s: State, t: State)
    requires PoolsGood(env, s) && Later(env, s.svc, s.now, t.svc, t.now) && t.bound == s.bound && t.acks == s.acks
    ensures PoolsGood(env, t)
  {
    hide RecordGood, Later, AckVerifies;
    forall r | r in t.bound ensures RecordGood(env, t.svc, t.now, r) {
      GoodStaysGood(env, s.svc, s.now, t.svc, t.now, r);
    }
    forall a | a in t.acks ensures AckVerifies(env, a, t.svc.keys, t.now) {
      AckStaysGood(env, s.svc, s.now, t.svc, t.now, a);
    }
  }

  lemma PutKeepsStore(env: Env, svc: Service, now: string, m: Memory, r: Stored)
    requires StoreGood(env, svc, now, m) && RecordGood(env, svc, now, r)
    ensures StoreGood(env, svc, now, MemoryPut(m, r).0)
  {
    assert m.Valid();
    FoundInMemory(m, r);
    hide StoreGood, RecordGood, KeyOf, FindSlot, Values, SameSlot;
    if MemoryPut(m, r).1.outcome == StoredNew {
      AddGood(env, svc, now, m, r);
    }
  }

  lemma AddGood(env: Env, svc: Service, now: string, m: Memory, r: Stored)
    requires StoreGood(env, svc, now, m) && RecordGood(env, svc, now, r)
    requires KeyOf(r) !in m.vals && forall k :: k in m.vals ==> !SameSlot(m.vals[k], r)
    ensures StoreGood(env, svc, now, m.Set(KeyOf(r), r))
  {
    hide RecordGood, KeyOf;
    SetKeepsValid(m, KeyOf(r), r);
  }

  lemma SetGood(env: Env, svc: Service, now: string, m: Memory, key: string, u: Stored)
    requires StoreGood(env, svc, now, m) && key in m.vals && RecordGood(env, svc, now, u)
    requires KeyOf(u) == key && u.envelope == m.vals[key].envelope && u.recipientId == m.vals[key].recipientId
    ensures StoreGood(env, svc, now, m.Set(key, u))
  {
    hide RecordGood, KeyOf;
    SetKeepsValid(m, key, u);
    var n := m.Set(key, u);
    forall k, l | k in n.vals && l in n.vals && SameSlot(n.vals[k], n.vals[l]) ensures k == l {
      assert SameSlot(m.vals[k], m.vals[l]);
    }
  }

  lemma AckKeepsStore(env: Env, svc: Service, now: string, m: Memory, recipientId: string, envelopeId: string, a: Ack)
    requires StoreGood(env, svc, now, m) && AckVerifies(env, a, svc.keys, now)
    ensures StoreGood(env, svc, now, MemoryAck(env, m, recipientId, envelopeId, a).0)
  {
    hide RecordGood, KeyOf, KeyText, AckVerifies, Checked;
    var key := KeyText(recipientId, envelopeId);
    if key in m.vals && Acknowledged(env, m.vals[key], a).0.Some? {
      var r := m.vals[key];
      AckedIsGood(env, svc, now, r, a);
      KeyFollows(r, r.(ack := Some(a)));
      SetGood(env, svc, now, m, key, r.(ack := Some(a)));
    }
  }

  lemma StepKeepsGood(env: Env, s: State, step: Step)
    requires Honest(env) && Good(env, s) && Enabled(env, s, step)
    ensures Good(env, Apply(env, s, step))
  {
    assert s.store.Valid();
    hide StoreGood, PoolsGood, Prepare, CreateAck, Honest, MailboxRuns.MemoryStep;
    var t := Apply(env, s, step);
    match step
    case Tick(_) => LaterKeepsGood(env, s, t);
    case Rotate(_) => LaterKeepsGood(env, s, t);
    case ChangeDirectory(_) => PoolsKept(env, s, t);
    case BeginDeliver(to, raw) => BeginKeepsPools(env, s, to, raw);
    case StorePut(r) =>
      StoreStepKeepsGood(env, s, step);
      PoolsKept(env, s, t);
    case BeginAck(r, readAt) => BeginAckKeepsPools(env, s, r, readAt);
    case StoreAck(a) =>
      StoreStepKeepsGood(env, s, step);
      PoolsKept(env, s, t);
  }

  lemma PoolsKept(env: Env, s: State, t: State)
    requires PoolsGood(env, s) && t.bound == s.bound && t.acks == s.acks && t.svc == s.svc && t.now == s.now
    ensures PoolsGood(env, t)
  {
    hide RecordGood, AckVerifies;
  }

  lemma LaterKeepsGood(env: Env, s: State, t: State)
    requires Good(env, s) && Configured(env, t.svc) && Later(env, s.svc, s.now, t.svc, t.now)
    requires t.store == s.store && t.bound == s.bound && t.acks == s.acks
    ensures Good(env, t)
  {
    hide StoreGood, PoolsGood, Configured;
    StoreGoodLater(env, s.svc, s.now, t.svc, t.now, s.store);
    PoolsGoodLater(env, s, t);
  }

  lemma StoreStepKeepsGood(env: Env, s: State, step: Step)
    requires StoreGood(env, s.svc, s.now, s.store) && PoolsGood(env, s)
    requires Enabled(env, s, step) && (step.StorePut? || step.StoreAck?)
    ensures s.store.Valid() && StoreGood(env, s.svc, s.now, Apply(env, s, step).store)
  {
    assert s.store.Valid();
    hide RecordGood, AckVerifies, StoreGood, MemoryPut, MemoryAck, Prepare, CreateAck;
    if step.StorePut? {
      PutKeepsStore(env, s.svc, s.now, s.store, step.pending);
    } else {
      AckKeepsStore(env, s.svc, s.now, s.store, step.ack.recipientId, step.ack.envelopeId, step.ack);
    }
  }

  lemma BeginKeepsPools(env: Env, s: State, to: string, raw: Option<Envelope>)
    requires Honest(env) && Configured(env, s.svc) && PoolsGood(env, s) && s.store.Valid()
    ensures PoolsGood(env, Apply(env, s, BeginDeliver(to, raw)))
  {
    NothingBound(env, s.svc, s.directory, s.now, to, raw);
    hide RecordGood, AckVerifies, Prepare, Configured, Honest;
    if Prepare(env, s.svc, s.directory, s.now, to, raw).Bound? {
      PreparedIsGood(env, s.svc, s.directory, s.now, to, raw.value);
    }
  }

  lemma BeginAckKeepsPools(env: Env, s: State, r: Stored, readAt: string)
    requires Honest(env) && Configured(env, s.svc) && PoolsGood(env, s) && s.store.Valid()
    requires Enabled(env, s, BeginAck(r, readAt))
    ensures PoolsGood(env, Apply(env, s, BeginAck(r, readAt)))
  {
    hide RecordGood, AckVerifies, CreateAck, Configured, Honest;
    if CreateAck(env, s.svc, r, readAt).Some? {
      CreatedAckVerifies(env, s.svc, s.now, r, readAt);
    }
  }

  lemma NothingBound(env: Env, svc: Service, directory: Directory, now: string, to: string, raw: Option<Envelope>)
    ensures raw.None? ==> !Prepare(env, svc, directory, now, to, raw).Bound?
  {
  }

  /** `steps` leads from s to t. */
  ghost predicate Reaches(env: Env, s: State, steps: seq<Step>, t: State)
    decreases |steps|
  {
    if steps == [] then s == t
    else s.store.Valid() && Enabled(env, s, steps[0]) && Reaches(env, Apply(env, s, steps[0]), steps[1..], t)
  }

  /** Once canonical, always canonical: an acknowledgement that would not fit is never written. */
  ghost predicate StaysCanonical(env: Env, m: Memory, n: Memory) {
    forall k :: k in m.vals && env.canonical(StoredDoc(m.vals[k])).Some? ==>
      k in n.vals && env.canonical(StoredDoc(n.vals[k])).Some?
  }

  /** What one step never undoes. */
  ghost predicate Grows(env: Env, s: State, t: State) {
    Later(env, s.svc, s.now, t.svc, t.now) && MailboxRuns.Evolves(s.store, t.store)
      && StaysCanonical(env, s.store, t.store)
  }

  lemma StoreStaysCanonical(env: Env, m: Memory, op: MailboxRuns.Op)
    requires m.Valid()
    ensures StaysCanonical(env, m, MailboxRuns.MemoryStep(env, m, op).0)
  {
    CanonicalIfChecked(env);
    hide Checked, KeyText, KeyOf, ListFor;
  }

  lemma CanonicalIfChecked(env: Env)
    ensures forall r :: Checked(env, r) ==> env.canonical(StoredDoc(r)).Some?
  {
  }

  lemma StepGrows(env: Env, s: State, step: Step)
    requires Good(env, s) && Enabled(env, s, step)
    ensures s.store.Valid() && Grows(env, s, Apply(env, s, step))
  {
    assert s.store.Valid() && env.instant(s.now).Some?;
    hide Good, Enabled, Apply, MailboxRuns.Evolves, StaysCanonical, Later;
    ClockGrows(env, s, step);
    StoreGrows(env, s, step);
  }

  lemma StoreGrows(env: Env, s: State, step: Step)
    requires s.store.Valid() && Enabled(env, s, step)
    ensures MailboxRuns.Evolves(s.store, Apply(env, s, step).store)
    ensures StaysCanonical(env, s.store, Apply(env, s, step).store)
  {
    hide Prepare, CreateAck, MailboxRuns.MemoryStep, Configured, MailboxRuns.Evolves, StaysCanonical, KeyOf, Later;
    StoreReflexive(env, s.store);
    if step.StorePut? {
      MailboxRuns.StepEvolves(env, s.store, MailboxRuns.PutOp(step.pending));
      StoreStaysCanonical(env, s.store, MailboxRuns.PutOp(step.pending));
    } else if step.StoreAck? {
      MailboxRuns.StepEvolves(env, s.store, MailboxRuns.AckOp(step.ack.recipientId, step.ack.envelopeId, step.ack));
      StoreStaysCanonical(env, s.store, MailboxRuns.AckOp(step.ack.recipientId, step.ack.envelopeId, step.ack));
    }
  }

  lemma ClockGrows(env: Env, s: State, step: Step)
    requires s.store.Valid() && env.instant(s.now).Some? && Enabled(env, s, step)
    ensures Later(env, s.svc, s.now, Apply(env, s, step).svc, Apply(env, s, step).now)
  {
    hide Prepare, CreateAck, MailboxRuns.MemoryStep, Configured, KeyOf;
  }

  lemma GrowsTransitive(env: Env, s: State, t: State, u: State)
    requires Grows(env, s, t) && Grows(env, t, u)
    ensures Grows(env, s, u)
  {
  }

  lemma {:induction false} RunKeepsGood(env: Env, s: State, steps: seq<Step>, t: State)
    requires Honest(env) && Good(env, s) && Reaches(env, s, steps, t)
    ensures Good(env, t) && Grows(env, s, t)
    decreases |steps|
  {
    hide Apply, Enabled, StoreGood, PoolsGood, Grows, Honest;
    if steps == [] {
      GrowsReflexive(env, s);
    } else {
      var next := Apply(env, s, steps[0]);
      StepKeepsGood(env, s, steps[0]);
      StepGrows(env, s, steps[0]);
      RunKeepsGood(env, next, steps[1..], t);
      GrowsTransitive(env, s, next, t);
    }
  }

  /** First write wins, for the service: once a record carries an acknowledgement, every later
      state of every run holds that same record, so every later answer is that acknowledgement. */
  lemma AcknowledgementStays(env: Env, s: State, steps: seq<Step>, t: State, key: string)
    requires Honest(env) && Good(env, s) && Reaches(env, s, steps, t)
    requires key in s.store.vals && s.store.vals[key].ack.Some?
    ensures key in t.store.vals && t.store.vals[key] == s.store.vals[key]
  {
    hide Good, Reaches, Honest, StaysCanonical, Later;
    RunKeepsGood(env, s, steps, t);
    MailboxRuns.AckedIsWhole(s.store.vals[key], t.store.vals[key]);
  }

  lemma StoreReflexive(env: Env, m: Memory)
    ensures MailboxRuns.Evolves(m, m) && StaysCanonical(env, m, m)
  {
  }

  lemma GrowsReflexive(env: Env, s: State)
    requires env.instant(s.now).Some?
    ensures Grows(env, s, s)
  {
  }

  function Start(svc: Service, directory: Directory, now: string): State {
    State(svc, directory, now, OrderedMap([], map[]), {}, {})
  }

  lemma StartIsGood(env: Env, svc: Service, directory: Directory, now: string)
    requires Configured(env, svc) && env.instant(now).Some?
    ensures Good(env, Start(svc, directory, now))
  {
  }

  // ----- once accepted, always listable ------------------------------------

  /** With an honest store, a delivery is ACCEPTED exactly when neither of its keys is taken and
      the whole record can be canonicalized. */
  lemma AcceptedExactly(env: Env, s: State, pending: Stored)
    requires Honest(env) && Good(env, s) && pending in s.bound
    ensures s.store.Valid()
    ensures Conclude(env, s.svc, pending, Some(MemoryPut(s.store, pending).1)) == DeliveryAccepted
            <==> KeyOf(pending) !in s.store.vals
                 && (forall k :: k in s.store.vals ==> !SameSlot(s.store.vals[k], pending))
                 && env.canonical(StoredDoc(pending)).Some?
  {
    assert RecordGood(env, s.svc, s.now, pending);
    CanonicalIfChecked(env);
    UnacknowledgedAnyTime(env, pending, s.svc, s.now, pending.receivedAt);
    hide Checked, VerifyStored, KeyOf, Conclude, Honest;
    FoundInMemory(s.store, pending);
    ReceiptNeedsRecord(env, s.svc, pending, Some(MemoryPut(s.store, pending).1));
  }

  lemma UnacknowledgedAnyTime(env: Env, r: Stored, svc: Service, now: string, asOf: string)
    requires r.ack.None? && VerifyStored(env, r, svc.mailboxId, svc.keys, now)
    ensures VerifyStored(env, r, svc.mailboxId, svc.keys, asOf)
  {
    hide VerifyEnvelope, BindingVerifies;
  }

  /** Every record once accepted is in the store at every later moment of every run, with the
      delivered fields, and passes both checks there: after it was acknowledged, after its
      envelope expired, after the directory changed, after the mailbox key was rotated. */
  lemma OnceAcceptedAlwaysListable(env: Env, s: State, pending: Stored, steps: seq<Step>, t: State)
    requires Honest(env) && Good(env, s) && Enabled(env, s, StorePut(pending))
    requires s.store.Valid() && Conclude(env, s.svc, pending, Some(MemoryPut(s.store, pending).1)) == DeliveryAccepted
    requires Reaches(env, Apply(env, s, StorePut(pending)), steps, t)
    ensures KeyOf(pending) in t.store.vals
    ensures var held := t.store.vals[KeyOf(pending)];
            Delivery(held) == pending && Passes(env, t.svc, pending.recipientId, t.now, Some(held))
  {
    hide Honest, Checked, VerifyStored, KeyOf, Conclude, Reaches, StoreGood;
    var next := Apply(env, s, StorePut(pending));
    StepKeepsGood(env, s, StorePut(pending));
    RunKeepsGood(env, next, steps, t);
    ReceiptNeedsRecord(env, s.svc, pending, Some(MemoryPut(s.store, pending).1));
    StoredIsHeld(s.store, pending);
    CanonicalIfChecked(env);
    HeldPasses(env, t.svc, t.now, t.store, KeyOf(pending));
  }

  lemma StoredIsHeld(m: Memory, r: Stored)
    requires m.Valid()
    ensures var (n, result) := MemoryPut(m, r);
            result.outcome == StoredNew ==> KeyOf(r) in n.vals && n.vals[KeyOf(r)] == r
  {
    hide KeyOf;
  }

  lemma HeldPasses(env: Env, svc: Service, now: string, m: Memory, k: string)
    requires StoreGood(env, svc, now, m) && k in m.vals && env.canonical(StoredDoc(m.vals[k])).Some?
    ensures Passes(env, svc, m.vals[k].recipientId, now, Some(m.vals[k]))
  {
    hide Checked, VerifyStored, KeyOf;
  }

  /** What a call begins and the store is later given takes hold: a listed record without an acknowledgement carries,
      two steps on, the one that the service made for it, if that one fits. */
  lemma AcknowledgementTakesHold(env: Env, s: State, r: Stored, readAt: string, a: Ack)
    requires s.store.Valid() && Enabled(env, s, BeginAck(r, readAt)) && CreateAck(env, s.svc, r, readAt) == Some(a)
    requires Checked(env, r.(ack := Some(a)))
    ensures var t := s.(acks := s.acks + {a}, store := s.store.Set(KeyOf(r), r.(ack := Some(a))));
            Reaches(env, s, [BeginAck(r, readAt), StoreAck(a)], t)
  {
    var next := s.(acks := s.acks + {a});
    var t := next.(store := s.store.Set(KeyOf(r), r.(ack := Some(a))));
    assert a.recipientId == r.recipientId && a.envelopeId == r.envelopeId;
    hide Checked, CreateAck, KeyText;
    assert Apply(env, s, BeginAck(r, readAt)) == next;
    assert MemoryAck(env, s.store, r.recipientId, r.envelopeId, a).0 == t.store;
    assert Apply(env, next, StoreAck(a)) == t;
    hide Apply, Enabled;
    SetKeepsValid(s.store, KeyOf(r), r.(ack := Some(a)));
    TwoSteps(env, s, next, t, BeginAck(r, readAt), StoreAck(a));
  }

  lemma TwoSteps(env: Env, s: State, next: State, t: State, first: Step, second: Step)
    requires s.store.Valid() && Enabled(env, s, first) && Apply(env, s, first) == next
    requires next.store.Valid() && Enabled(env, next, second) && Apply(env, next, second) == t
    ensures Reaches(env, s, [first, second], t)
  {
    hide Apply, Enabled;
    assert [first, second][1..] == [second] && [second][1..] == [];
    assert Reaches(env, t, [], t);
    assert Reaches(env, next, [second], t);
  }

  /** And a record that a delivery made is in the store two steps on, if its keys are free. */
  lemma DeliveryTakesHold(env: Env, s: State, to: string, raw: Option<Envelope>, r: Stored)
    requires s.store.Valid() && Identifier(to) && Prepare(env, s.svc, s.directory, s.now, to, raw) == Bound(r)
    requires KeyOf(r) !in s.store.vals && forall k :: k in s.store.vals ==> !SameSlot(s.store.vals[k], r)
    ensures var t := s.(bound := s.bound + {r}, store := s.store.Set(KeyOf(r), r));
            Reaches(env, s, [BeginDeliver(to, raw), StorePut(r)], t)
  {
    var next := s.(bound := s.bound + {r});
    var t := next.(store := s.store.Set(KeyOf(r), r));
    hide Prepare, KeyOf, Identifier;
    FoundInMemory(s.store, r);
    assert Apply(env, s, BeginDeliver(to, raw)) == next;
    assert Apply(env, next, StorePut(r)) == t;
    assert Enabled(env, s, BeginDeliver(to, raw)) && Enabled(env, next, StorePut(r));
    hide Apply, Enabled;
    SetKeepsValid(s.store, KeyOf(r), r);
    TwoSteps(env, s, next, t, BeginDeliver(to, raw), StorePut(r));
  }

  // ----- when a whole listing can be used ----------------------------------

  function Wrap(records: seq<Stored>): (r: seq<Option<Stored>>)
    ensures |r| == |records| && forall i :: 0 <= i < |r| ==> r[i] == Some(records[i])
  {
    seq(|records|, i requires 0 <= i < |records| => Some(records[i]))
  }

  lemma SlotKeyInjective(a: Stored, b: Stored)
    requires Identifier(a.recipientId) && Identifier(a.envelope.senderId) && Identifier(a.envelope.threadId)
    requires Identifier(b.recipientId) && Identifier(b.envelope.senderId) && Identifier(b.envelope.threadId)
    requires a.envelope.sequence >= 0 && b.envelope.sequence >= 0 && SequenceKey(a) == SequenceKey(b)
    ensures SameSlot(a, b)
  {
    var (p, q) := (SlotParts(a), SlotParts(b));
    PartsHaveNoNul(a);
    PartsHaveNoNul(b);
    JoinInjective(p, q, '\0');
    assert p[0] == q[0] && p[1] == q[1] && p[2] == q[2] && p[3] == q[3];
    JsonText.NatOfDigits(a.envelope.sequence);
    JsonText.NatOfDigits(b.envelope.sequence);
  }

  function SlotParts(r: Stored): seq<string> {
    [r.recipientId, r.envelope.senderId, r.envelope.threadId, JsonText.IntText(r.envelope.sequence)]
  }

  /** The two keys of the list are the two things no two records may share. */
  lemma SharesKeyExactly(env: Env, a: Stored, b: Stored)
    requires Coherent(env, a) && Coherent(env, b)
    ensures SharesKey(a, b) <==>
            a.recipientId == b.recipientId
            && (a.envelopeId == b.envelopeId
                || (a.envelope.senderId == b.envelope.senderId && a.envelope.threadId == b.envelope.threadId
                    && a.envelope.sequence == b.envelope.sequence))
  {
    CheckedExactly(env, a);
    CheckedExactly(env, b);
    CheckedIdentifiers(env, a);
    CheckedIdentifiers(env, b);
    hide Checked, Coherent, Identifier, SequenceKey;
    IdentifierHasNoNul(a.recipientId);
    IdentifierHasNoNul(b.recipientId);
    KeyIsJoined(a);
    KeyIsJoined(b);
    if KeyOf(a) == KeyOf(b) {
      HeadsEqual(a.recipientId, a.envelopeId, b.recipientId, b.envelopeId, '\0');
    }
    if a.recipientId == b.recipientId && a.envelopeId == b.envelopeId {
      KeyFollows(a, b);
    }
    SlotKeyExactly(a, b);
  }

  lemma KeyIsJoined(r: Stored)
    ensures KeyOf(r) == r.recipientId + ['\0'] + r.envelopeId
  {
    var parts := [r.recipientId, r.envelopeId];
    assert parts[1..] == [r.envelopeId] && Join([r.envelopeId], '\0') == r.envelopeId;
  }

  lemma SlotKeyExactly(a: Stored, b: Stored)
    requires Identifier(a.recipientId) && Identifier(a.envelope.senderId) && Identifier(a.envelope.threadId)
    requires Identifier(b.recipientId) && Identifier(b.envelope.senderId) && Identifier(b.envelope.threadId)
    requires a.envelope.sequence >= 0 && b.envelope.sequence >= 0
    ensures SequenceKey(a) == SequenceKey(b) <==> SameSlot(a, b)
  {
    hide Identifier;
    if SequenceKey(a) == SequenceKey(b) {
      SlotKeyInjective(a, b);
    }
  }

  lemma CheckedIdentifiers(env: Env, r: Stored)
    requires Checked(env, r)
    ensures Identifier(r.recipientId) && Identifier(r.envelope.senderId) && Identifier(r.envelope.threadId)
    ensures r.envelope.sequence >= 0
  {
    hide Identifier, SenderShape, BindingShape, AckBelongs, DigestOf;
  }

  lemma PartsHaveNoNul(r: Stored)
    requires Identifier(r.recipientId) && Identifier(r.envelope.senderId) && Identifier(r.envelope.threadId)
    requires r.envelope.sequence >= 0
    ensures SeparatorFree(SlotParts(r), '\0')
  {
    hide Identifier;
    IdentifierHasNoNul(r.recipientId);
    IdentifierHasNoNul(r.envelope.senderId);
    IdentifierHasNoNul(r.envelope.threadId);
    assert '\0' !in JsonText.Digits(r.envelope.sequence) by {
      assert !JsonText.IsDigit('\0');
    }
  }

  lemma GoodIsShaped(env: Env, svc: Service, now: string, r: Stored)
    requires RecordGood(env, svc, now, r)
    ensures EnvelopeShape(env, r.envelope) && r.envelope.recipientId == r.recipientId
  {
    hide BindingVerifies, AckVerifies, Checked, EnvelopeShape, DigestOf, Verifies;
  }

  /** Two records of a good store that share either key are one record. */
  lemma SharedKeyIsOne(env: Env, svc: Service, now: string, m: Memory, k: string, l: string)
    requires StoreGood(env, svc, now, m) && k in m.vals && l in m.vals && SharesKey(m.vals[k], m.vals[l])
    ensures k == l
  {
    GoodIsShaped(env, svc, now, m.vals[k]);
    GoodIsShaped(env, svc, now, m.vals[l]);
    hide RecordGood, SequenceKey, KeyOf, Identifier, SignatureShape;
    if SequenceKey(m.vals[k]) == SequenceKey(m.vals[l]) {
      SlotKeyInjective(m.vals[k], m.vals[l]);
    }
  }

  lemma {:induction false} FirstOccurrencesOfDistinct(records: seq<Stored>)
    requires Distinct(records)
    ensures FirstOccurrences(Wrap(records)) == records
  {
    if records != [] {
      var n := |records| - 1;
      FirstOccurrencesOfDistinct(records[..n]);
      assert Wrap(records)[..n] == Wrap(records[..n]);
      assert records == records[..n] + [records[n]];
    }
  }

  lemma GoodValuesDistinct(env: Env, svc: Service, now: string, m: Memory)
    requires StoreGood(env, svc, now, m)
    ensures Distinct(Values(m))
  {
    hide RecordGood, KeyOf;
    var s := Values(m);
    forall i, j | 0 <= i < j < |s| ensures s[i] != s[j] {
      assert m.keys[i] in m.keys && m.keys[j] in m.keys;
      assert KeyOf(s[i]) == m.keys[i] && KeyOf(s[j]) == m.keys[j];
    }
  }

  /** In every state of every run the list of a recipient can be read exactly when each of its
      records can be canonicalized, and it is then all of them, each once, in sequence order. */
  lemma ListingUsable(env: Env, s: State, recipientId: string)
    requires Good(env, s)
    ensures s.store.Valid()
    ensures var records := ListFor(Values(s.store), recipientId);
            FirstOccurrences(Wrap(records)) == records && KeysConsistent(Wrap(records)) && Ordered(records)
            && (AllPass(env, s.svc, recipientId, s.now, Wrap(records))
                <==> forall k :: k in s.store.vals && s.store.vals[k].recipientId == recipientId
                                 ==> env.canonical(StoredDoc(s.store.vals[k])).Some?)
  {
    var m := s.store;
    assert m.Valid();
    GoodValuesDistinct(env, s.svc, s.now, m);
    ListEffect(Values(m), recipientId);
    var records := ListFor(Values(m), recipientId);
    FirstOccurrencesOfDistinct(records);
    ListingConsistent(env, s.svc, s.now, m, records);
    ListingPasses(env, s.svc, s.now, m, recipientId, records);
  }

  lemma ValueHasKey(m: Memory, x: Stored)
    requires m.Valid() && x in Values(m)
    ensures exists k :: k in m.vals && m.vals[k] == x
  {
    var i :| 0 <= i < |Values(m)| && Values(m)[i] == x;
    assert m.keys[i] in m.keys;
  }

  lemma KeyHasValue(m: Memory, k: string)
    requires m.Valid() && k in m.vals
    ensures m.vals[k] in Values(m)
  {
    var i :| 0 <= i < |m.keys| && m.keys[i] == k;
    assert Values(m)[i] == m.vals[k];
  }

  lemma ListingConsistent(env: Env, svc: Service, now: string, m: Memory, records: seq<Stored>)
    requires StoreGood(env, svc, now, m) && forall x :: x in records ==> x in Values(m)
    ensures KeysConsistent(Wrap(records))
  {
    assert m.Valid();
    hide StoreGood, SharesKey, Values;
    forall i, j | 0 <= i < j < |records| && SharesKey(records[i], records[j]) ensures records[i] == records[j] {
      ValueHasKey(m, records[i]);
      ValueHasKey(m, records[j]);
      var k :| k in m.vals && m.vals[k] == records[i];
      var l :| l in m.vals && m.vals[l] == records[j];
      SharedKeyIsOne(env, svc, now, m, k, l);
    }
  }

  lemma ListingPasses(env: Env, svc: Service, now: string, m: Memory, recipientId: string, records: seq<Stored>)
    requires StoreGood(env, svc, now, m)
    requires forall x :: x in records <==> x in Values(m) && x.recipientId == recipientId
    ensures AllPass(env, svc, recipientId, now, Wrap(records))
            <==> forall k :: k in m.vals && m.vals[k].recipientId == recipientId ==>
                env.canonical(StoredDoc(m.vals[k])).Some?
  {
    assert m.Valid();
    hide StoreGood, Values, Passes;
    if AllPass(env, svc, recipientId, now, Wrap(records)) {
      forall k | k in m.vals && m.vals[k].recipientId == recipientId ensures env.canonical(StoredDoc(m.vals[k])).Some? {
        KeyHasValue(m, k);
        var i :| 0 <= i < |records| && records[i] == m.vals[k];
        assert Passes(env, svc, recipientId, now, Wrap(records)[i]);
        PassedIsCanonical(env, svc, recipientId, now, Wrap(records)[i]);
      }
    } else {
      var i :| 0 <= i < |records| && !Passes(env, svc, recipientId, now, Wrap(records)[i]);
      ValueHasKey(m, records[i]);
      var k :| k in m.vals && m.vals[k] == records[i];
      if env.canonical(StoredDoc(m.vals[k])).Some? {
        HeldPasses(env, svc, now, m, k);
      }
    }
  }

  // ----- the gap between what can be signed and what can be listed ----------

  lemma Ed25519Bytes()
    ensures Utf8Bytes(ED25519) == 7
  {
    assert ED25519[1..][1..][1..][1..] == "519" && "519"[1..] == "19" && "19"[1..] == "9" && "9"[1..] == "";
    assert Utf8Bytes("519") == 3;
  }

  /** The stored record has four values and 137 string bytes more than the delivery value that was
      signed, and is nested one level less. */
  lemma RecordOutgrowsDelivery(env: Env, r: Stored)
    requires SignatureSized(env) && SignatureShape(env, r.binding.signature) && r.ack.None?
    ensures Nodes(StoredDoc(r)) == Nodes(DeliveryOf(r)) + 4
    ensures StringBytes(StoredDoc(r)) == StringBytes(DeliveryOf(r)) + 137
    ensures Depth(StoredDoc(r)) + 1 == Depth(DeliveryOf(r))
  {
    Ed25519Bytes();
    hide Utf8Bytes, DeliveredBytes;
    assert r.binding.signature != UNSIGNED;
    assert BindingBytes(r.binding) == BindingBytes(r.binding.(signature := UNSIGNED)) + 9 + 9 + 5 + 7 + 86;
    hide BindingBytes;
    assert |"read_acknowledgement"| == 20 && |"delivery_binding"| == 16 && |"stored_delivery"| == 15;
  }

  /** A delivery small enough to be signed makes a record too large to be listed exactly in two
      bands: the last four node counts and the last 137 string byte counts. */
  lemma SizeGaps(env: Env, r: Stored)
    requires SignatureSized(env) && SignatureShape(env, r.binding.signature) && r.ack.None? && Fits(DeliveryOf(r))
    ensures !Fits(StoredDoc(r)) <==> 9997 <= Nodes(DeliveryOf(r)) || 262008 <= StringBytes(DeliveryOf(r))
    ensures 9997 <= Nodes(DeliveryOf(r)) <==> 9980 <= EnvelopeNodes(r.envelope)
  {
    hide StringBytes, Depth;
    RecordOutgrowsDelivery(env, r);
  }

  /** An acknowledgement adds twelve values and its own bytes; one that does not fit is refused and
      the record stays as it was. */
  lemma AckOutgrowsRecord(env: Env, r: Stored, a: Ack)
    requires Limited(env) && r.ack.None?
    ensures Nodes(StoredDoc(r.(ack := Some(a)))) == Nodes(StoredDoc(r)) + if a.signature == UNSIGNED then 9 else 12
    ensures StringBytes(StoredDoc(r.(ack := Some(a)))) == StringBytes(StoredDoc(r)) + AckBytes(a)
    ensures Nodes(StoredDoc(r)) + 12 > MAX_CANONICAL_NODES
            || StringBytes(StoredDoc(r)) + AckBytes(a) > MAX_CANONICAL_STRING_BYTES
            ==> Acknowledged(env, r, a) == (None, Invalid)
  {
    AckAdds(r, a);
    var u := r.(ack := Some(a));
    CheckedAckIsSigned(env, u);
    hide AckBytes, StringBytes, Nodes, Checked;
    assert env.canonical(StoredDoc(u)).Some? ==> Fits(StoredDoc(u));
  }

  lemma AckAdds(r: Stored, a: Ack)
    requires r.ack.None?
    ensures Nodes(StoredDoc(r.(ack := Some(a)))) == Nodes(StoredDoc(r)) + if a.signature == UNSIGNED then 9 else 12
    ensures StringBytes(StoredDoc(r.(ack := Some(a)))) == StringBytes(StoredDoc(r)) + AckBytes(a)
  {
    hide AckBytes, BindingBytes, DeliveredBytes, EnvelopeNodes;
  }

  lemma CheckedAckIsSigned(env: Env, u: Stored)
    ensures Checked(env, u) ==> env.canonical(StoredDoc(u)).Some?
    ensures Checked(env, u) && u.ack.Some? ==> u.ack.value.signature != UNSIGNED
  {
    hide SenderShape, BindingShape, EnvelopeShape, DigestOf, Identifier;
  }

  /** Whatever acknowledgement it carries, a record is no smaller than its delivery. */
  lemma AckOnlyAdds(r: Stored)
    ensures Fits(StoredDoc(r)) ==> Fits(StoredDoc(Delivery(r)))
  {
    hide AckBytes, BindingBytes, DeliveredBytes, EnvelopeNodes;
  }

  /** A delivery whose record is over a limit is answered REFUSED, yet its record stays in the store,
      and from then on the recipient's list fails its checks in every later state of every run. */
  lemma OversizedBlocksTheList(env: Env, s: State, pending: Stored, steps: seq<Step>, t: State)
    requires Honest(env) && Limited(env) && Good(env, s) && Enabled(env, s, StorePut(pending)) && s.store.Valid()
    requires KeyOf(pending) !in s.store.vals && forall k :: k in s.store.vals ==> !SameSlot(s.store.vals[k], pending)
    requires !Fits(StoredDoc(pending))
    requires Reaches(env, Apply(env, s, StorePut(pending)), steps, t)
    ensures Conclude(env, s.svc, pending, Some(MemoryPut(s.store, pending).1)) == DeliveryRefused(STORE_RESULT_INVALID)
    ensures t.store.Valid()
            && !AllPass(env, t.svc, pending.recipientId, t.now, Wrap(ListFor(Values(t.store), pending.recipientId)))
  {
    assert pending.ack.None?;
    hide Honest, Checked, VerifyStored, KeyOf, Reaches, StoreGood, PoolsGood, AllPass, Later, Fits;
    var next := Apply(env, s, StorePut(pending));
    FoundInMemory(s.store, pending);
    StoredIsHeld(s.store, pending);
    StepKeepsGood(env, s, StorePut(pending));
    RunKeepsGood(env, next, steps, t);
    CanonicalIfChecked(env);
    var held := t.store.vals[KeyOf(pending)];
    assert Delivery(held) == Delivery(pending) == pending;
    AckOnlyAdds(held);
    ListingUsable(env, t, pending.recipientId);
  }
}
