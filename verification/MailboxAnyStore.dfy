/** `acknowledge` of the mailbox service in lib/agent-mailbox.ts against a store that may answer anything. */
module MailboxAnyStore {
  import opened Common
  import opened MailboxRecords
  import opened MailboxStores
  import opened MailboxVerdicts
  import opened MailboxService
  import opened MailboxDelivery
  import opened MailboxCalls

  /** What the store's acknowledge did: throw, return null, or return a value; `None` is an ill-shaped one. */
  datatype Reply = Thrown | Null | Shown(value: Option<Stored>)

  /** The list can be used. */
  ghost predicate Readable(env: Env, svc: Service, recipientId: string, asOf: string, listed: seq<Option<Stored>>) {
    AllPass(env, svc, recipientId, asOf, listed) && KeysConsistent(listed)
  }

  ghost predicate Lists(listed: seq<Option<Stored>>, envelopeId: string, x: Stored) {
    Some(x) in listed && x.envelopeId == envelopeId
  }

  /** The store returned a believed record of the same delivery, acknowledged by `a`, and the list read afterwards holds
      that acknowledgement. */
  ghost predicate Confirms(env: Env, svc: Service, now: string, recipientId: string, envelopeId: string, x: Stored,
                           reply: Reply, after: seq<Option<Stored>>, a: Ack)
  {
    && (exists y ::
          reply == Shown(Some(y)) && Believed(env, svc, recipientId, now, y) && y.envelopeId == envelopeId
          && y.ack == Some(a) && y.(ack := None) == x && env.canonical(StoredDoc(x)).Some?)
    && Readable(env, svc, recipientId, now, after)
    && exists z :: Lists(after, envelopeId, z) && z.ack == Some(a)
  }

  /** The call is answered with `a`: it was listed already, or the store confirms it. */
  ghost predicate Answers(env: Env, svc: Service, now: string, recipientId: string, envelopeId: string,
                          before: seq<Option<Stored>>, reply: Reply, after: seq<Option<Stored>>, a: Ack)
  {
    && Identifier(recipientId) && Identifier(envelopeId) && Readable(env, svc, recipientId, now, before)
    && exists x ::
         Lists(before, envelopeId, x)
         && if x.ack.Some? then x.ack == Some(a)
            else CreateAck(env, svc, x, now).Some?
                 && Confirms(env, svc, now, recipientId, envelopeId, x, reply, after, a)
  }

  /** The call finds nothing to acknowledge, at first or when it comes to write. */
  ghost predicate FindsNothing(env: Env, svc: Service, now: string, recipientId: string, envelopeId: string,
                               before: seq<Option<Stored>>, reply: Reply, after: seq<Option<Stored>>)
  {
    && Identifier(recipientId) && Identifier(envelopeId) && Readable(env, svc, recipientId, now, before)
    && ((forall x :: !Lists(before, envelopeId, x))
        || (reply == Null && Readable(env, svc, recipientId, now, after) && (forall z :: !Lists(after, envelopeId, z))
            && exists x :: Lists(before, envelopeId, x) && x.ack.None? && CreateAck(env, svc, x, now).Some?))
  }

  /** A readable list holds one record of an envelope id at most. */
  lemma OneListed(env: Env, svc: Service, recipientId: string, asOf: string, listed: seq<Option<Stored>>,
                  envelopeId: string, x: Stored, y: Stored)
    requires Readable(env, svc, recipientId, asOf, listed)
    requires Lists(listed, envelopeId, x) && Lists(listed, envelopeId, y)
    ensures x == y
  {
    var i :| 0 <= i < |listed| && listed[i] == Some(x);
    var j :| 0 <= j < |listed| && listed[j] == Some(y);
    assert Passes(env, svc, recipientId, asOf, listed[i]) && Passes(env, svc, recipientId, asOf, listed[j]);
    hide Checked, VerifyStored, SequenceKey, KeyOf;
    KeyFollows(x, y);
    KeyFollows(y, x);
    assert SharesKey(x, y) && SharesKey(y, x);
  }

  method Find(env: Env, svc: Service, now: string, recipientId: string, envelopeId: string,
              listed: seq<Option<Stored>>) returns (ok: bool, found: Option<Stored>)
    requires Honest(env)
    ensures ok <==> Readable(env, svc, recipientId, now, listed)
    ensures ok ==> forall x :: Lists(listed, envelopeId, x) <==> found == Some(x)
  {
    hide AllPass, KeysConsistent, Honest, Believed;
    found := None;
    var records := VerifiedList(env, svc, recipientId, now, listed);
    ok := records.Some?;
    if ok {
      found := FindEnvelope(records.value, envelopeId);
      forall x | Lists(listed, envelopeId, x)
        ensures found == Some(x)
      {
        assert x in records.value && found.Some? && Lists(listed, envelopeId, found.value);
        OneListed(env, svc, recipientId, now, listed, envelopeId, x, found.value);
      }
    }
  }

  /** acknowledge, given the two lists it reads and what its one write came to. */
  method Acknowledge(env: Env, svc: Service, now: string, recipientId: string, envelopeId: string,
                     before: seq<Option<Stored>>, reply: Reply, after: seq<Option<Stored>>) returns (r: AckAnswer)
    requires Honest(env)
    ensures forall a :: r == Answer(a) <==> Answers(env, svc, now, recipientId, envelopeId, before, reply, after, a)
    ensures r == NoAck <==> FindsNothing(env, svc, now, recipientId, envelopeId, before, reply, after)
  {
    hide Readable, Honest, Believed, Identifier, CreateAck, ReturnedFits;
    if !Identifier(recipientId) || !Identifier(envelopeId) { return AckThrew; }
    var ok, existing := Find(env, svc, now, recipientId, envelopeId, before);
    if !ok { return AckThrew; }
    if existing.None? { return NoAck; }
    if existing.value.ack.Some? { return Answer(existing.value.ack.value); }
    var pending := CreateAck(env, svc, existing.value, now);
    if pending.None? || reply.Thrown? { return AckThrew; }
    if reply.Null? {
      var readable, present := Find(env, svc, now, recipientId, envelopeId, after);
      return if !readable || present.Some? then AckThrew else NoAck;
    }
    if reply.value.None? { return AckThrew; }
    var returned := reply.value.value;
    ReturnedFitsExactly(env, svc, now, recipientId, envelopeId, returned, existing.value);
    if !ReturnedFits(env, svc, now, recipientId, envelopeId, returned, existing.value) { return AckThrew; }
    var readable, persisted := Find(env, svc, now, recipientId, envelopeId, after);
    if !readable || persisted.None? || persisted.value.ack.None? || persisted.value.ack != returned.ack {
      return AckThrew;
    }
    return Answer(persisted.value.ack.value);
  }
}
