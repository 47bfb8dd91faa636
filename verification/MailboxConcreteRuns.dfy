/** The interleaving in which `acknowledge` throws after its write, carried out in full: from an empty
    mailbox in the concrete environment, through two deliveries. */
module MailboxConcreteRuns {
  import opened Common
  import opened MailboxRecords
  import opened MailboxStores
  import opened MailboxService
  import opened MailboxDelivery
  import opened MailboxCalls
  import opened MailboxAnswers
  import opened MailboxSpoiledRun
  import opened MailboxConcrete

  const FIRST := SampleRecord("env-1", 1, 1)
  const SECOND := SampleRecord("env-2", 2, 1)
  const LATER := "aaaa"

  /** A fresh acknowledgement that can be canonicalized with its record passes the store's check. */
  lemma FreshAckChecks(env: Env, svc: Service, r: Stored, readAt: string)
    requires Honest(env) && Configured(env, svc) && Checked(env, r) && r.ack.None?
             && r.binding.mailboxId == svc.mailboxId
    requires NotLater(env, r.receivedAt, readAt) && CreateAck(env, svc, r, readAt).Some?
    requires env.canonical(StoredDoc(r.(ack := CreateAck(env, svc, r, readAt)))).Some?
    ensures Checked(env, r.(ack := CreateAck(env, svc, r, readAt)))
  {
    var a := CreateAck(env, svc, r, readAt).value;
    AckIsShaped(env, svc, r, readAt);
    hide Honest, Identifier, EnvelopeShape, CreateAck, AckShape;
    assert AckBelongs(env, r.(ack := Some(a)), a);
    hide AckBelongs;
  }

  lemma AckIsShaped(env: Env, svc: Service, r: Stored, readAt: string)
    requires Honest(env) && Configured(env, svc) && CreateAck(env, svc, r, readAt).Some? && env.instant(readAt).Some?
    requires Identifier(r.recipientId) && Identifier(r.envelopeId) && env.isDigest(r.envelopeDigest)
    ensures var a := CreateAck(env, svc, r, readAt).value;
            AckShape(env, a) && a.mailboxId == svc.mailboxId && a.recipientId == r.recipientId
              && a.envelopeId == r.envelopeId
            && a.envelopeDigest == r.envelopeDigest && a.readAt == readAt
            && DigestOf(env, BindingDoc(r.binding)) == Some(a.bindingDigest)
  {
    hide Identifier;
  }

  // ----- two deliveries ----------------------------------------------------

  const NO_RECORDS: Memory := OrderedMap([], map[])

  /** The store after two deliveries that share neither key. */
  function StoreOf(r: Stored, q: Stored): Memory {
    NO_RECORDS.Set(KeyOf(r), r).Set(KeyOf(q), q)
  }

  function Deliveries(r: Stored, q: Stored): seq<Move> {
    [] + [Elsewhere(BeginDeliver(r.recipientId, Some(r.envelope)))] + [Elsewhere(BeginDeliver(q.recipientId,
        Some(q.envelope)))]
    + [Elsewhere(StorePut(r))] + [Elsewhere(StorePut(q))]
  }

  ghost predicate Bindable(env: Env, svc: Service, directory: Directory, now: string, r: Stored) {
    Identifier(r.recipientId) && r.envelopeId == r.envelope.envelopeId
    && Prepare(env, svc, directory, now, r.recipientId, Some(r.envelope)) == Bound(r)
  }

  lemma ElsewhereMove(env: Env, start: World, before: seq<Move>, w: World, step: Step, s: State)
    requires Honest(env) && Leads(env, start, before, w) && WorldGood(env, w) && Enabled(env, w.base, step)
    requires w.base.store.Valid() && Apply(env, w.base, step) == s
    ensures Leads(env, start, before + [Elsewhere(step)], w.(base := s)) && WorldGood(env, w.(base := s))
  {
    hide Honest, WorldGood, Leads, Apply, Enabled;
    LeadsExtend(env, start, before, w, Elsewhere(step), w.(base := s));
    MoveKeepsGood(env, w, Elsewhere(step));
  }

  lemma BeginApplies(env: Env, s: State, r: Stored)
    requires Bindable(env, s.svc, s.directory, s.now, r) && s.store.Valid()
    ensures var step := BeginDeliver(r.recipientId, Some(r.envelope));
            Enabled(env, s, step) && Apply(env, s, step) == s.(bound := s.bound + {r})
  {
    hide Prepare, Identifier;
  }

  lemma PutApplies(env: Env, s: State, r: Stored)
    requires s.store.Valid() && r in s.bound && r.envelopeId == r.envelope.envelopeId
    requires KeysFree(s.store, r.recipientId, r.envelope)
    ensures Enabled(env, s, StorePut(r)) && Apply(env, s, StorePut(r)) == s.(store := s.store.Set(KeyOf(r), r))
  {
    hide MemoryPut, KeysFree, KeyOf;
    FreeKeysPut(s.store, r.recipientId, r.envelope, r);
  }

  /** Two records of one recipient with different ids and different places in their thread. */
  ghost predicate Unrelated(r: Stored, q: Stored) {
    r.recipientId == q.recipientId && r.envelopeId != q.envelopeId && !TakesSlot(r, q.recipientId, q.envelope)
  }

  lemma FreeTwice(r: Stored, q: Stored)
    requires Unrelated(r, q) && q.envelopeId == q.envelope.envelopeId
    ensures KeysFree(NO_RECORDS, r.recipientId, r.envelope)
    ensures KeysFree(NO_RECORDS.Set(KeyOf(r), r), q.recipientId, q.envelope)
    ensures NO_RECORDS.Valid() && NO_RECORDS.Set(KeyOf(r), r).Valid()
  {
    KeysDiffer(r, q);
    SetKeepsValid(NO_RECORDS, KeyOf(r), r);
    hide KeyText;
  }

  lemma DeliverTwo(env: Env, svc: Service, directory: Directory, now: string, r: Stored, q: Stored) returns (w: World)
    requires Honest(env) && Configured(env, svc) && env.instant(now).Some? && Unrelated(r, q)
    requires Bindable(env, svc, directory, now, r) && Bindable(env, svc, directory, now, q)
    ensures Leads(env, World(Start(svc, directory, now), map[]), Deliveries(r, q), w) && WorldGood(env, w)
            && w.calls == map[]
    ensures w.base.svc == svc && w.base.now == now && w.base.store == StoreOf(r, q)
  {
    FreeTwice(r, q);
    StartIsGood(env, svc, directory, now);
    hide Honest, Configured, Leads, Apply, Enabled, KeysFree, KeyOf, Good, Unrelated;
    var s := Start(svc, directory, now);
    var w0 := World(s, map[]);
    LeadsNothing(env, w0);
    assert WorldGood(env, w0);
    hide WorldGood;
    BeginApplies(env, s, r);
    var s1 := s.(bound := s.bound + {r});
    ElsewhereMove(env, w0, [], w0, BeginDeliver(r.recipientId, Some(r.envelope)), s1);
    BeginApplies(env, s1, q);
    var s2 := s1.(bound := s1.bound + {q});
    var m2 := [] + [Elsewhere(BeginDeliver(r.recipientId, Some(r.envelope)))];
    ElsewhereMove(env, w0, m2, w0.(base := s1), BeginDeliver(q.recipientId, Some(q.envelope)), s2);
    w := PutTwo(env, w0, m2 + [Elsewhere(BeginDeliver(q.recipientId, Some(q.envelope)))], w0.(base := s2), r, q);
  }

  lemma PutTwo(env: Env, start: World, before: seq<Move>, v: World, r: Stored, q: Stored) returns (w: World)
    requires Honest(env) && Leads(env, start, before, v) && WorldGood(env, v) && Unrelated(r, q)
    requires r.envelopeId == r.envelope.envelopeId && q.envelopeId == q.envelope.envelopeId
    requires r in v.base.bound && q in v.base.bound && v.base.store == NO_RECORDS
    ensures Leads(env, start, before + [Elsewhere(StorePut(r))] + [Elsewhere(StorePut(q))], w) && WorldGood(env, w)
    ensures w == v.(base := v.base.(store := StoreOf(r, q)))
  {
    FreeTwice(r, q);
    hide Honest, Leads, Apply, Enabled, KeysFree, KeyOf, WorldGood, Unrelated;
    var s := v.base;
    PutApplies(env, s, r);
    var s1 := s.(store := s.store.Set(KeyOf(r), r));
    ElsewhereMove(env, start, before, v, StorePut(r), s1);
    PutApplies(env, s1, q);
    var s2 := s1.(store := s1.store.Set(KeyOf(q), q));
    ElsewhereMove(env, start, before + [Elsewhere(StorePut(r))], v.(base := s1), StorePut(q), s2);
    w := v.(base := s2);
  }

  // ----- the acknowledgements fit ------------------------------------------

  lemma SampleAckBytes(id: string, readAt: string)
    requires |id| <= 10 && |readAt| <= 10
    ensures AckBytes(SampleAck(id, readAt)) <= 2500 && AckBytes(SampleAck(id, readAt).(signature := UNSIGNED)) <= 2500
  {
    hide Repeat;
    AtMostFourEach(ACKNOWLEDGEMENT_VERSION);
    AtMostFourEach("mailbox");
    AtMostFourEach("bobby");
    AtMostFourEach(id);
    AtMostFourEach("sha256:" + ZEROS);
    AtMostFourEach(readAt);
    AtMostFourEach("key-0");
    AtMostFourEach(ED25519);
    AtMostFourEach(SIGNED);
    hide Utf8Bytes;
  }

  function SampleAck(id: string, readAt: string): Ack {
    Ack(ACKNOWLEDGEMENT_VERSION, "mailbox", "bobby", id, "sha256:" + ZEROS, "sha256:" + ZEROS, readAt, false, "key-0",
        Signature(ED25519, SIGNED))
  }

  lemma SampleAcks(env: Env, id: string, sequence: int, readAt: string)
    requires Sampled(env) && |id| <= 10 && |readAt| <= 10
    ensures var r := SampleRecord(id, sequence, 1);
            CreateAck(env, MAILBOX, r, readAt) == Some(SampleAck(id, readAt))
            && env.canonical(StoredDoc(r)).Some?
              && env.canonical(StoredDoc(r.(ack := Some(SampleAck(id, readAt))))).Some?
  {
    hide Repeat, Text, Fits, SampleEnvelope, CreateAck, DigestOf;
    var r := SampleRecord(id, sequence, 1);
    var a := SampleAck(id, readAt);
    SampleAckFits(id, sequence, readAt);
    SampleSeals(env, BindingDoc(r.binding));
    SampleSigns(env, AckDoc(a.(signature := UNSIGNED)));
    SampleSigns(env, StoredDoc(r));
    SampleSigns(env, StoredDoc(r.(ack := Some(a))));
    hide Sampled;
    AckWhen(env, MAILBOX, r, readAt, a);
  }

  /** createReadAcknowledgement, when nothing stands in the way. */
  lemma AckWhen(env: Env, svc: Service, r: Stored, readAt: string, a: Ack)
    requires DigestOf(env, BindingDoc(r.binding)) == Some(a.bindingDigest)
    requires a == Ack(ACKNOWLEDGEMENT_VERSION, svc.mailboxId, r.recipientId, r.envelopeId, r.envelopeDigest,
               a.bindingDigest,
                      readAt, false, svc.keyId, a.signature)
    requires env.canonical(AckDoc(a.(signature := UNSIGNED))).Some?
    requires a.signature == Signature(ED25519, env.sign(AcknowledgementDomain,
                                                        env.canonical(AckDoc(a.(signature := UNSIGNED))).value,
                                                            svc.privateKey))
    ensures CreateAck(env, svc, r, readAt) == Some(a)
  {
    hide DigestOf;
  }

  lemma SampleAckFits(id: string, sequence: int, readAt: string)
    requires |id| <= 10 && |readAt| <= 10
    ensures var (r, a) := (SampleRecord(id, sequence, 1), SampleAck(id, readAt));
            Fits(StoredDoc(r)) && Fits(BindingDoc(r.binding)) && Fits(AckDoc(a.(signature := UNSIGNED)))
            && Fits(StoredDoc(r.(ack := Some(a))))
  {
    hide Repeat, StringBytes, AckBytes, BindingBytes, Fits;
    SampleAckBytes(id, readAt);
    RecordBytes(id, sequence, 1);
    BindingShort();
    SampleFits(id, sequence, 1);
    AckFits(SampleRecord(id, sequence, 1), SampleAck(id, readAt));
  }

  lemma AckFits(r: Stored, a: Ack)
    requires Fits(StoredDoc(r)) && r.ack.None? && EnvelopeNodes(r.envelope) <= 100 && StringBytes(StoredDoc(r)) <= 6000
    requires AckBytes(a) <= 2500 && AckBytes(a.(signature := UNSIGNED)) <= 2500 && BindingBytes(r.binding) <= 1000
    ensures Fits(BindingDoc(r.binding)) && Fits(AckDoc(a.(signature := UNSIGNED)))
            && Fits(StoredDoc(r.(ack := Some(a))))
  {
    hide AckBytes, BindingBytes, DeliveredBytes;
    assert StringBytes(StoredDoc(r.(ack := Some(a)))) == StringBytes(StoredDoc(r)) + AckBytes(a);
  }

  lemma SampleAwaits(env: Env, s: State, id: string, sequence: int, readAt: string)
    requires Sampled(env) && Honest(env) && Good(env, s) && s.svc == MAILBOX
    requires SampleArguments(id, sequence) && Identifier("bobby") && |NOW| <= |readAt| <= 10
    requires var r := SampleRecord(id, sequence, 1); KeyOf(r) in s.store.vals && s.store.vals[KeyOf(r)] == r
    ensures AwaitsAck(env, s, SampleRecord(id, sequence, 1), readAt)
  {
    hide Repeat, Text, CreateAck, Identifier, Fits, SampleEnvelope;
    var r := SampleRecord(id, sequence, 1);
    SampleAcks(env, id, sequence, readAt);
    GoodRecordAt(env, s, KeyOf(r));
    assert env.instant(NOW) == Some(|NOW|) && env.instant(readAt) == Some(|readAt|);
    GoodIsChecked(env, s, r);
    hide Sampled, Honest, StoreGood, PoolsGood, KeyText;
    FreshAckChecks(env, MAILBOX, r, readAt);
  }

  lemma GoodIsChecked(env: Env, s: State, r: Stored)
    requires RecordGood(env, s.svc, s.now, r) && env.canonical(StoredDoc(r)).Some?
    ensures Checked(env, r)
  {
    hide VerifyStored, Checked;
  }

  // ----- the whole run -----------------------------------------------------

  lemma {:induction false} LeadsConcat(env: Env, w: World, a: seq<Move>, v: World, b: seq<Move>, t: World)
    requires Leads(env, w, a, v) && Leads(env, v, b, t)
    ensures Leads(env, w, a + b, t)
    decreases |a|
  {
    hide Perform, Possible;
    if a == [] {
      assert a + b == b;
    } else {
      assert (a + b)[1..] == a[1..] + b;
      LeadsConcat(env, Perform(env, w, a[0]), a[1..], v, b, t);
    }
  }

  lemma SamplesUnrelated()
    ensures Unrelated(FIRST, SECOND) && KeyOf(FIRST) != KeyOf(SECOND)
  {
    hide Repeat;
    assert "env-1"[4] != "env-2"[4];
    KeysDiffer(FIRST, SECOND);
  }

  lemma SamplesBindable(env: Env)
    requires Sampled(env)
    ensures Bindable(env, MAILBOX, DIRECTORY, NOW, FIRST) && Bindable(env, MAILBOX, DIRECTORY, NOW, SECOND)
  {
    hide Repeat, Sampled, Prepare, Identifier;
    SampleNames();
    SamplePrepares(env, "env-1", 1, 1);
    SamplePrepares(env, "env-2", 2, 1);
  }

  /** In an honest environment, from an empty mailbox: two deliveries, two acknowledge calls, and the
      first of them throws with its own acknowledgement in the store. */
  lemma SpoiledOccurs() returns (moves: seq<Move>, t: World)
    ensures Honest(SAMPLE) && Leads(SAMPLE, World(Start(MAILBOX, DIRECTORY, NOW), map[]), moves, t)
    ensures 0 in t.calls && t.calls[0].phase == Failed && KeyOf(FIRST) in t.base.store.vals
    ensures t.base.store.vals[KeyOf(FIRST)].ack == Some(SampleAck("env-1", NOW))
  {
    hide Repeat, Leads, Identifier, Text, Fits, SampleEnvelope, Utf8Bytes;
    SampleIsHonest();
    SampleIsSampled();
    SampleNames();
    MailboxConfigured(SAMPLE);
    SamplesUnrelated();
    SamplesBindable(SAMPLE);
    SampleAcks(SAMPLE, "env-1", 1, NOW);
    SampleAcks(SAMPLE, "env-2", 2, LATER);
    assert SAMPLE.instant(NOW) == Some(2) && SAMPLE.instant(LATER) == Some(4);
    moves, t := SpoiledFrom(SAMPLE);
  }

  lemma HoldsBoth(env: Env, r: Stored, q: Stored)
    requires KeyOf(r) != KeyOf(q) && env.canonical(StoredDoc(r)).Some? && env.canonical(StoredDoc(q)).Some?
    ensures var m := StoreOf(r, q);
            KeyOf(r) in m.vals && m.vals[KeyOf(r)] == r && KeyOf(q) in m.vals && m.vals[KeyOf(q)] == q
            && Usable(env, m, r.recipientId)
  {
    hide KeyOf;
  }

  lemma SpoiledFrom(env: Env) returns (moves: seq<Move>, t: World)
    requires Honest(env) && Sampled(env) && Configured(env, MAILBOX) && env.instant(NOW) == Some(2)
             && env.instant(LATER) == Some(4)
    requires Unrelated(FIRST, SECOND) && KeyOf(FIRST) != KeyOf(SECOND) && Identifier("bobby")
    requires SampleArguments("env-1", 1) && SampleArguments("env-2", 2)
    requires Bindable(env, MAILBOX, DIRECTORY, NOW, FIRST) && Bindable(env, MAILBOX, DIRECTORY, NOW, SECOND)
    requires CreateAck(env, MAILBOX, FIRST, NOW) == Some(SampleAck("env-1", NOW))
    requires env.canonical(StoredDoc(FIRST)).Some? && env.canonical(StoredDoc(SECOND)).Some?
    ensures Leads(env, World(Start(MAILBOX, DIRECTORY, NOW), map[]), moves, t)
    ensures 0 in t.calls && t.calls[0].phase == Failed && KeyOf(FIRST) in t.base.store.vals
    ensures t.base.store.vals[KeyOf(FIRST)].ack == Some(SampleAck("env-1", NOW))
  {
    assert KeyOf(FIRST) == KeyText(FIRST.recipientId, FIRST.envelopeId);
    hide Repeat, Leads, Identifier, Honest, Sampled, Configured, Bindable, Unrelated, CreateAck, SampleEnvelope,
         KeyText, WorldGood;
    var w := DeliverTwo(env, MAILBOX, DIRECTORY, NOW, FIRST, SECOND);
    ValidWorld(env, w);
    hide Good, AwaitsAck, Usable, KeyOf;
    HoldsBoth(env, FIRST, SECOND);
    SampleAwaits(env, w.base, "env-1", 1, NOW);
    SampleAwaits(env, w.base, "env-2", 2, LATER);
    assert FIRST.envelopeId != SECOND.envelopeId && Before(env, NOW, LATER);
    var rest: seq<Move>;
    rest, t := SpoiledConfirmRun(env, w, 0, 1, FIRST, SECOND, LATER);
    LeadsConcat(env, World(Start(MAILBOX, DIRECTORY, NOW), map[]), Deliveries(FIRST, SECOND), w, rest, t);
    moves := Deliveries(FIRST, SECOND) + rest;
  }
}
