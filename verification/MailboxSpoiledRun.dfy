/** A run of the mailbox service of lib/agent-mailbox.ts, from any good state, in which an
    `acknowledge` call throws after its own acknowledgement was written. */
module MailboxSpoiledRun {
  import opened Common
  import opened MailboxRecords
  import opened MailboxStores
  import opened MailboxService
  import opened MailboxDelivery
  import opened MailboxCalls
  import opened MailboxAnswers

  /** The held record is unacknowledged, and an acknowledgement read at `readAt` fits on it. */
  ghost predicate AwaitsAck(env: Env, s: State, r: Stored, readAt: string) {
    var k := KeyText(r.recipientId, r.envelopeId);
    && k in s.store.vals && s.store.vals[k] == r && r.ack.None? && Identifier(r.recipientId) && Identifier(r.envelopeId)
    && CreateAck(env, s.svc, r, readAt).Some? && Checked(env, r.(ack := CreateAck(env, s.svc, r, readAt)))
  }

  ghost predicate Before(env: Env, a: string, b: string) {
    env.instant(a).Some? && env.instant(b).Some? && env.instant(a).value < env.instant(b).value
  }

  /** At the present moment or later, the present instance reads everything. */
  lemma NowReadable(env: Env, s: State, c: Call)
    requires Good(env, s) && c.svc == s.svc && NotLater(env, s.now, c.readAt) && Usable(env, s.store, c.recipientId)
    ensures AllReadable(env, c, s.store)
  {
    hide Good, Usable;
    forall k | k in s.store.vals && s.store.vals[k].ack.Some?
      ensures NotLater(env, s.store.vals[k].ack.value.readAt, c.readAt)
    {
      GoodRecordAt(env, s, k);
      AckNotLater(env, s, s.store.vals[k]);
    }
    ReadableUnlessLater(env, s, c);
  }

  lemma AckNotLater(env: Env, s: State, r: Stored)
    requires RecordGood(env, s.svc, s.now, r) && r.ack.Some?
    ensures NotLater(env, r.ack.value.readAt, s.now)
  {
    hide VerifyEnvelope, Checked, Verifies;
  }

  lemma ListsPending(env: Env, w: World, id: nat, r: Stored, a: Ack)
    requires WorldGood(env, w) && id in w.calls && w.calls[id].phase.Started?
             && AllReadable(env, w.calls[id], w.base.store)
    requires var c := w.calls[id];
             var k := KeyText(c.recipientId, c.envelopeId);
             k in w.base.store.vals && w.base.store.vals[k] == r && r.ack.None?
               && CreateAck(env, c.svc, r, c.readAt) == Some(a)
    ensures w.base.store.Valid() && AfterList(env, w.calls[id], w.base.store) == Listed(r, a)
  {
    hide Good, KeyText, CreateAck, AllReadable, VerifiedFor, FindEnvelope, PhaseGood;
    assert CallGood(env, w.base, w.calls[id]);
    CallFinds(env, w.base, w.calls[id]);
  }

  /** One more move at the end of a run. */
  lemma {:induction false} LeadsExtend(env: Env, w: World, moves: seq<Move>, v: World, move: Move, t: World)
    requires Leads(env, w, moves, v) && v.base.store.Valid() && Possible(env, v, move) && t == Perform(env, v, move)
    ensures Leads(env, w, moves + [move], t)
    decreases |moves|
  {
    hide Perform, Possible;
    if moves == [] {
      assert moves + [move] == [move] && [move][1..] == [];
      assert Leads(env, t, [], t);
    } else {
      assert (moves + [move])[1..] == moves[1..] + [move];
      LeadsExtend(env, Perform(env, w, moves[0]), moves[1..], v, move, t);
    }
  }

  /** Both calls have listed: `i` began before the clock moved, `j` after. */
  ghost predicate BothListed(env: Env, s: State, w: World, i: nat, j: nat, r: Stored, q: Stored, later: string) {
    && WorldGood(env, w) && i != j && w.base.store == s.store
    && i in w.calls && CreateAck(env, s.svc, r, s.now).Some?
    && w.calls[i] == Call(s.svc, r.recipientId, r.envelopeId, s.now, Listed(r, CreateAck(env, s.svc, r, s.now).value))
    && j in w.calls && CreateAck(env, s.svc, q, later).Some?
    && w.calls[j] == Call(s.svc, q.recipientId, q.envelopeId, later, Listed(q, CreateAck(env, s.svc, q, later).value))
  }

  lemma ReachBothListed(env: Env, w: World, i: nat, j: nat, r: Stored, q: Stored, later: string)
    returns (moves: seq<Move>, v: World)
    requires Honest(env) && WorldGood(env, w) && i != j && i !in w.calls && j !in w.calls
    requires r.recipientId == q.recipientId && Usable(env, w.base.store, r.recipientId)
             && Before(env, w.base.now, later)
    requires AwaitsAck(env, w.base, r, w.base.now) && AwaitsAck(env, w.base, q, later)
    ensures Leads(env, w, moves, v) && BothListed(env, w.base, v, i, j, r, q, later)
  {
    hide Honest, WorldGood, Leads, AllReadable, AfterList, AfterWrite, AfterConfirm, Usable, KeyText, CreateAck,
         Checked, Identifier;
    var s := w.base;
    var begin, tick, start := Begin(i, r.recipientId, r.envelopeId), Elsewhere(Tick(later)),
        Begin(j, q.recipientId, q.envelopeId);
    ValidWorld(env, w);
    var w1 := w.(calls := w.calls[i := Call(s.svc, r.recipientId, r.envelopeId, s.now, Started)]);
    assert w1 == Perform(env, w, begin);
    LeadsNothing(env, w);
    LeadsExtend(env, w, [], w, begin, w1);
    MoveKeepsGood(env, w, begin);
    var w2 := w1.(base := s.(now := later));
    assert Enabled(env, s, Tick(later)) && Apply(env, s, Tick(later)) == s.(now := later);
    assert w2 == Perform(env, w1, tick);
    LeadsExtend(env, w, [] + [begin], w1, tick, w2);
    MoveKeepsGood(env, w1, tick);
    var w3 := w2.(calls := w2.calls[j := Call(s.svc, q.recipientId, q.envelopeId, later, Started)]);
    assert w3 == Perform(env, w2, start);
    LeadsExtend(env, w, [] + [begin] + [tick], w2, start, w3);
    MoveKeepsGood(env, w2, start);
    moves, v := ListBoth(env, w, [] + [begin] + [tick] + [start], w3, i, j, r, q, later);
  }

  lemma ValidWorld(env: Env, w: World)
    requires WorldGood(env, w)
    ensures w.base.store.Valid() && Good(env, w.base)
  {
    hide CallGood;
    ValidStore(env, w.base);
  }

  lemma LeadsNothing(env: Env, w: World)
    ensures Leads(env, w, [], w)
  {
  }

  lemma ListBoth(env: Env, w: World, before: seq<Move>, w3: World, i: nat, j: nat, r: Stored, q: Stored, later: string)
    returns (moves: seq<Move>, v: World)
    requires Honest(env) && WorldGood(env, w) && WorldGood(env, w3) && i != j && Leads(env, w, before, w3)
    requires r.recipientId == q.recipientId && Usable(env, w.base.store, r.recipientId)
             && Before(env, w.base.now, later)
    requires AwaitsAck(env, w.base, r, w.base.now) && AwaitsAck(env, w.base, q, later) && w3.base.store == w.base.store
    requires i in w3.calls && w3.calls[i] == Call(w.base.svc, r.recipientId, r.envelopeId, w.base.now, Started)
    requires j in w3.calls && w3.calls[j] == Call(w.base.svc, q.recipientId, q.envelopeId, later, Started)
    ensures Leads(env, w, moves, v) && BothListed(env, w.base, v, i, j, r, q, later)
  {
    hide Honest, WorldGood, Leads, AllReadable, Usable, KeyText, CreateAck, Checked, Identifier;
    var s := w.base;
    ValidWorld(env, w);
    NowReadable(env, s, w3.calls[i]);
    NowReadable(env, s, w3.calls[j]);
    var a, b := CreateAck(env, s.svc, r, s.now).value, CreateAck(env, s.svc, q, later).value;
    ListMove(env, w, before, w3, i, r, a);
    var w4 := w3.(calls := At(w3, i, Listed(r, a)));
    ListMove(env, w, before + [ListBefore(i)], w4, j, q, b);
    v := w4.(calls := At(w4, j, Listed(q, b)));
    moves := before + [ListBefore(i)] + [ListBefore(j)];
  }

  lemma ListMove(env: Env, start: World, before: seq<Move>, w: World, id: nat, r: Stored, a: Ack)
    requires Honest(env) && Leads(env, start, before, w)
    requires WorldGood(env, w) && id in w.calls && w.calls[id].phase.Started?
             && AllReadable(env, w.calls[id], w.base.store)
    requires var c := w.calls[id];
             var k := KeyText(c.recipientId, c.envelopeId);
             k in w.base.store.vals && w.base.store.vals[k] == r && r.ack.None?
               && CreateAck(env, c.svc, r, c.readAt) == Some(a)
    ensures Leads(env, start, before + [ListBefore(id)], w.(calls := At(w, id, Listed(r, a))))
    ensures WorldGood(env, w.(calls := At(w, id, Listed(r, a))))
  {
    hide Honest, WorldGood, Leads, AllReadable, AfterList, KeyText, CreateAck, Perform, Possible;
    ValidWorld(env, w);
    ListsPending(env, w, id, r, a);
    ListPerforms(env, w, id);
    LeadsExtend(env, start, before, w, ListBefore(id), w.(calls := At(w, id, Listed(r, a))));
    MoveKeepsGood(env, w, ListBefore(id));
  }

  lemma ListPerforms(env: Env, w: World, id: nat)
    requires id in w.calls && w.calls[id].phase.Started? && w.base.store.Valid()
    ensures Possible(env, w, ListBefore(id))
    ensures Perform(env, w, ListBefore(id)) == w.(calls := At(w, id, AfterList(env, w.calls[id], w.base.store)))
  {
    hide AfterList;
  }

  /** From any good state that holds two unacknowledged readable records of one recipient: two calls for
      them, the second begun after the clock moved, interleave so that the first throws at its
      confirming list with its own acknowledgement in the store. */
  lemma SpoiledConfirmRun(env: Env, w: World, i: nat, j: nat, r: Stored, q: Stored, later: string)
    returns (moves: seq<Move>, t: World)
    requires Honest(env) && WorldGood(env, w) && i != j && i !in w.calls && j !in w.calls
    requires r.recipientId == q.recipientId && r.envelopeId != q.envelopeId
    requires Usable(env, w.base.store, r.recipientId) && Before(env, w.base.now, later)
    requires AwaitsAck(env, w.base, r, w.base.now) && AwaitsAck(env, w.base, q, later)
    ensures Leads(env, w, moves, t) && i in t.calls && t.calls[i].phase == Failed
    ensures var k := KeyText(r.recipientId, r.envelopeId);
            k in t.base.store.vals && t.base.store.vals[k].ack == CreateAck(env, w.base.svc, r, w.base.now)
            && t.base.store.vals[k].ack.Some?
  {
    hide Honest, WorldGood, Leads, AllReadable, AfterList, AfterWrite, AfterConfirm, Usable, KeyText, CreateAck,
         Checked, Identifier;
    var before, v := ReachBothListed(env, w, i, j, r, q, later);
    KeysDiffer(r, q);
    moves, t := WriteBothConfirmFirst(env, w, before, v, i, j, r, q, later);
  }

  lemma KeysDiffer(r: Stored, q: Stored)
    requires r.recipientId == q.recipientId && r.envelopeId != q.envelopeId
    ensures KeyText(r.recipientId, r.envelopeId) != KeyText(q.recipientId, q.envelopeId)
  {
    KeyTextParts(r.recipientId, r.envelopeId);
    KeyTextParts(q.recipientId, q.envelopeId);
    var n := |r.recipientId| + 1;
    assert (r.recipientId + ['\0'] + r.envelopeId)[n..] == r.envelopeId;
    assert (q.recipientId + ['\0'] + q.envelopeId)[n..] == q.envelopeId;
  }

  lemma WritesOwn(env: Env, w: World, id: nat, r: Stored, a: Ack)
    requires Honest(env) && WorldGood(env, w) && id in w.calls && w.calls[id].phase == Listed(r, a)
    requires var k := KeyText(w.calls[id].recipientId, w.calls[id].envelopeId);
             k in w.base.store.vals && w.base.store.vals[k] == r
    requires Checked(env, r.(ack := Some(a)))
    ensures var k := KeyText(w.calls[id].recipientId, w.calls[id].envelopeId);
            var u := r.(ack := Some(a));
            WriteStep(env, w, id) == World(w.base.(store := w.base.store.Set(k, u)), At(w, id, Written(u)))
  {
    var c := w.calls[id];
    hide Honest, Good, KeyText, Checked, MemoryAck, AfterWrite, Begun, AckVerifies;
    assert CallGood(env, w.base, c);
    PendingVerifies(env, w.base, c);
    FreshWrite(env, w.base.store, c);
  }

  lemma WriteBothConfirmFirst(env: Env, w: World, before: seq<Move>, v: World, i: nat, j: nat, r: Stored, q: Stored,
                              later: string)
    returns (moves: seq<Move>, t: World)
    requires Honest(env) && Leads(env, w, before, v) && BothListed(env, w.base, v, i, j, r, q, later)
    requires AwaitsAck(env, w.base, r, w.base.now) && AwaitsAck(env, w.base, q, later) && Before(env, w.base.now, later)
    requires r.recipientId == q.recipientId
    requires KeyText(r.recipientId, r.envelopeId) != KeyText(q.recipientId, q.envelopeId)
    ensures Leads(env, w, moves, t) && i in t.calls && t.calls[i].phase == Failed
    ensures var k := KeyText(r.recipientId, r.envelopeId);
            k in t.base.store.vals && t.base.store.vals[k].ack == CreateAck(env, w.base.svc, r, w.base.now)
            && t.base.store.vals[k].ack.Some?
  {
    hide Honest, WorldGood, Leads, KeyText, CreateAck, Checked, Identifier, WriteStep, ConfirmStep;
    var s := w.base;
    var k, l := KeyText(r.recipientId, r.envelopeId), KeyText(q.recipientId, q.envelopeId);
    var a, b := CreateAck(env, s.svc, r, s.now).value, CreateAck(env, s.svc, q, later).value;
    WritesOwn(env, v, i, r, a);
    WriteMove(env, w, before, v, i);
    var w6 := WriteStep(env, v, i);
    assert w6.base.store.vals[l] == q && w6.calls[j] == v.calls[j];
    WritesOwn(env, w6, j, q, b);
    WriteMove(env, w, before + [Write(i)], w6, j);
    var w7 := WriteStep(env, w6, j);
    assert w7.calls[i] == w6.calls[i];
    ValidWorld(env, w7);
    t := ConfirmStep(env, w7, i);
    ConfirmMove(env, w, before + [Write(i)] + [Write(j)], w7, i);
    moves := before + [Write(i)] + [Write(j)] + [Confirm(i)];
    LaterWriteSpoilsConfirm(env, w6, i, j, w7, t);
  }

  lemma WriteMove(env: Env, start: World, before: seq<Move>, w: World, id: nat)
    requires Honest(env) && Leads(env, start, before, w) && WorldGood(env, w) && id in w.calls
             && w.calls[id].phase.Listed?
    ensures Leads(env, start, before + [Write(id)], WriteStep(env, w, id)) && WorldGood(env, WriteStep(env, w, id))
  {
    hide Honest, WorldGood, Leads, WriteStep, AfterList, AfterConfirm;
    ValidWorld(env, w);
    assert WriteStep(env, w, id) == Perform(env, w, Write(id));
    LeadsExtend(env, start, before, w, Write(id), WriteStep(env, w, id));
    MoveKeepsGood(env, w, Write(id));
  }

  lemma ConfirmMove(env: Env, start: World, before: seq<Move>, w: World, id: nat)
    requires Leads(env, start, before, w) && w.base.store.Valid() && id in w.calls && w.calls[id].phase.Written?
    ensures Leads(env, start, before + [Confirm(id)], ConfirmStep(env, w, id)) && id in ConfirmStep(env, w, id).calls
  {
    ConfirmKeepsId(env, w, id);
    hide Leads, ConfirmStep, AfterList, WriteStep;
    assert ConfirmStep(env, w, id) == Perform(env, w, Confirm(id));
    LeadsExtend(env, start, before, w, Confirm(id), ConfirmStep(env, w, id));
  }

  lemma ConfirmKeepsId(env: Env, w: World, i: nat)
    requires i in w.calls && w.calls[i].phase.Written? && w.base.store.Valid()
    ensures i in ConfirmStep(env, w, i).calls
  {
    hide AfterConfirm;
  }
}
