/** The list of the mailbox service of lib/agent-mailbox.ts, which re-checks whatever the store
    returns. */
module MailboxService {
  import opened Common
  import opened MailboxRecords
  import opened MailboxStores
  import opened MailboxVerdicts
  import JsonText

  /** One mailbox: its id, the signing key in use, and every verification key it retains. */
  datatype Service = Service(mailboxId: string, keyId: string, privateKey: Key, keys: Keys)

  /** createAgentMailbox: well-formed ids, and the current key is one of the verification keys. */
  ghost predicate Configured(env: Env, svc: Service) {
    Identifier(svc.mailboxId) && Identifier(svc.keyId)
    && svc.keyId in svc.keys && svc.keys[svc.keyId] == env.publicOf(svc.privateKey)
  }

  // ----- the list that trusts nothing --------------------------------------

  function EnvelopeKey(r: Stored): string {
    KeyOf(r)
  }

  function SequenceKey(r: Stored): string {
    Join([r.recipientId, r.envelope.senderId, r.envelope.threadId, JsonText.IntText(r.envelope.sequence)], '\0')
  }

  /** One listed value passes the service's checks; an ill-shaped value is `None`. */
  predicate Passes(env: Env, svc: Service, recipientId: string, asOf: string, c: Option<Stored>) {
    c.Some? && Checked(env, c.value) && c.value.recipientId == recipientId
    && VerifyStored(env, c.value, svc.mailboxId, svc.keys, asOf)
  }

  predicate SharesKey(a: Stored, b: Stored) {
    EnvelopeKey(a) == EnvelopeKey(b) || SequenceKey(a) == SequenceKey(b)
  }

  ghost predicate AllPass(env: Env, svc: Service, recipientId: string, asOf: string, listed: seq<Option<Stored>>) {
    forall i :: 0 <= i < |listed| ==> Passes(env, svc, recipientId, asOf, listed[i])
  }

  /** Values that share either key are identical. */
  ghost predicate KeysConsistent(listed: seq<Option<Stored>>) {
    forall i, j ::
      0 <= i < j < |listed| && listed[i].Some? && listed[j].Some? && SharesKey(listed[i].value, listed[j].value) ==>
        listed[i] == listed[j]
  }

  /** The first occurrence of each value, in order. */
  function FirstOccurrences(listed: seq<Option<Stored>>): seq<Stored> {
    if listed == [] then [] else
      var init, last := FirstOccurrences(listed[..|listed| - 1]), listed[|listed| - 1];
      if last.Some? && last.value !in init then init + [last.value] else init
  }

  ghost predicate KeysApart(records: seq<Stored>) {
    forall i, j :: 0 <= i < j < |records| ==> !SharesKey(records[i], records[j])
  }

  /** The maps hold, for each kept record, its bytes under both keys, and nothing else. */
  ghost predicate MapsTrack(env: Env, byId: map<string, string>, bySlot: map<string, string>, records: seq<Stored>) {
    && (forall i :: 0 <= i < |records| ==> Tracked(env, byId, bySlot, records[i]))
    && (forall k :: k in byId ==> IdKept(records, k))
    && (forall k :: k in bySlot ==> SlotKept(records, k))
  }

  ghost predicate IdKept(records: seq<Stored>, key: string) {
    exists i :: 0 <= i < |records| && EnvelopeKey(records[i]) == key
  }

  ghost predicate SlotKept(records: seq<Stored>, key: string) {
    exists i :: 0 <= i < |records| && SequenceKey(records[i]) == key
  }

  ghost predicate Tracked(env: Env, byId: map<string, string>, bySlot: map<string, string>, r: Stored) {
    env.canonical(StoredDoc(r)).Some?
    && EnvelopeKey(r) in byId && byId[EnvelopeKey(r)] == env.canonical(StoredDoc(r)).value
    && SequenceKey(r) in bySlot && bySlot[SequenceKey(r)] == env.canonical(StoredDoc(r)).value
  }

  /** For an arbitrary list from the store: the verified records, or a thrown error. */
  method VerifiedList(env: Env, svc: Service, recipientId: string, asOf: string, listed: seq<Option<Stored>>)
    returns (r: Option<seq<Stored>>)
    requires Honest(env)
    ensures r.Some? <==> AllPass(env, svc, recipientId, asOf, listed) && KeysConsistent(listed)
    ensures r.Some? ==> r.value == FirstOccurrences(listed) && KeysApart(r.value)
    ensures r.Some? ==> forall x :: x in r.value <==> Some(x) in listed
    ensures r.Some? ==> forall x :: x in r.value ==> Believed(env, svc, recipientId, asOf, x)
  {
    hide Believed, Passes, EnvelopeKey, SequenceKey, Honest, SharesKey, KeysApart, KeysConsistent, MapsTrack;
    var records: seq<Stored> := [];
    var byId: map<string, string> := map[];
    var bySlot: map<string, string> := map[];
    NothingListed(env);
    var n := 0;
    while n < |listed|
      invariant 0 <= n <= |listed|
      invariant records == FirstOccurrences(listed[..n]) && KeysApart(records)
      invariant AllPass(env, svc, recipientId, asOf, listed[..n]) && KeysConsistent(listed[..n])
      invariant MapsTrack(env, byId, bySlot, records)
      invariant forall x :: x in records <==> Some(x) in listed[..n]
    {
      var candidate := listed[n];
      assert listed[..n + 1][..n] == listed[..n];
      if !Passes(env, svc, recipientId, asOf, candidate) {
        return None;
      }
      PassedIsCanonical(env, svc, recipientId, asOf, candidate);
      var record := candidate.value;
      var bytes := env.canonical(StoredDoc(record)).value;
      var envelopeKey, sequenceKey := EnvelopeKey(record), SequenceKey(record);
      if envelopeKey in byId || sequenceKey in bySlot {
        KnownKey(env, byId, bySlot, records, record);
        if envelopeKey in byId && byId[envelopeKey] == bytes && sequenceKey in bySlot && bySlot[sequenceKey] == bytes {
          ConsistentRepeat(listed, n, records);
        } else {
          InconsistentRepeat(listed, n, records);
          return None;
        }
      } else {
        FreshApart(env, byId, bySlot, records, record);
        FreshKey(env, byId, bySlot, records, record, bytes);
        AppendApart(records, record);
        ConsistentFresh(listed, n, records);
        byId, bySlot := byId[envelopeKey := bytes], bySlot[sequenceKey := bytes];
        records := records + [record];
      }
      n := n + 1;
    }
    assert listed[..n] == listed;
    r := Some(records);
    forall x | x in records ensures Believed(env, svc, recipientId, asOf, x) {
      var i :| 0 <= i < |listed| && listed[i] == Some(x);
      PassesExactly(env, svc, recipientId, asOf, Some(x));
    }
  }

  /** A record that the service believes: its parts fit each other, it is the recipient's, its envelope was signed by
      the recorded sender key, and this mailbox signed the delivery and any acknowledgement. */
  ghost predicate Believed(env: Env, svc: Service, recipientId: string, asOf: string, r: Stored) {
    Coherent(env, r) && r.recipientId == recipientId && Attested(env, r, svc.mailboxId, svc.keys, asOf)
  }

  lemma PassesExactly(env: Env, svc: Service, recipientId: string, asOf: string, c: Option<Stored>)
    ensures Passes(env, svc, recipientId, asOf, c) <==> c.Some? && Believed(env, svc, recipientId, asOf, c.value)
  {
    hide Checked, VerifyStored, Coherent, Attested;
    if c.Some? {
      CheckedExactly(env, c.value);
      StoredVerifiedExactly(env, c.value, svc.mailboxId, svc.keys, asOf);
    }
  }

  /** Of two listed records, the one kept first is listed before the other one ever is. */
  lemma {:induction false} FirstOccurrencesInOrder(listed: seq<Option<Stored>>, i: nat, j: nat)
    requires i < j < |FirstOccurrences(listed)|
    ensures var r := FirstOccurrences(listed);
            r[i] != r[j] && exists a :: 0 <= a < |listed| && listed[a] == Some(r[i]) && Some(r[j]) !in listed[..a + 1]
    decreases |listed|
  {
    var (init, last) := (listed[..|listed| - 1], listed[|listed| - 1]);
    var (s, r) := (FirstOccurrences(init), FirstOccurrences(listed));
    if j < |s| {
      FirstOccurrencesInOrder(init, i, j);
      var a :| 0 <= a < |init| && init[a] == Some(s[i]) && Some(s[j]) !in init[..a + 1];
      assert listed[..a + 1] == init[..a + 1];
    } else {
      FirstOccurrencesAll(init);
      assert r[i] == s[i] && s[i] in s;
      var a :| 0 <= a < |init| && init[a] == Some(s[i]);
      assert forall x :: x in listed[..a + 1] ==> x in init;
    }
  }

  /** Exactly the listed records are kept. */
  lemma {:induction false} FirstOccurrencesAll(listed: seq<Option<Stored>>)
    ensures forall x :: x in FirstOccurrences(listed) <==> Some(x) in listed
    decreases |listed|
  {
    if listed != [] {
      FirstOccurrencesAll(listed[..|listed| - 1]);
      assert listed == listed[..|listed| - 1] + [listed[|listed| - 1]];
    }
  }

  lemma NothingListed(env: Env)
    ensures MapsTrack(env, map[], map[], []) && KeysApart([]) && KeysConsistent([])
  {
  }

  lemma PassedIsCanonical(env: Env, svc: Service, recipientId: string, asOf: string, c: Option<Stored>)
    requires Passes(env, svc, recipientId, asOf, c)
    ensures c.Some? && env.canonical(StoredDoc(c.value)).Some?
  {
  }

  lemma SameBytes(env: Env, a: Stored, b: Stored)
    requires Honest(env) && env.canonical(StoredDoc(a)).Some?
    requires env.canonical(StoredDoc(a)) == env.canonical(StoredDoc(b))
    ensures a == b
  {
    assert StoredDoc(a) == StoredDoc(b);
  }

  /** Both maps hold the record's own bytes exactly when the record was kept. */
  lemma KnownKey(env: Env, byId: map<string, string>, bySlot: map<string, string>, records: seq<Stored>, r: Stored)
    requires Honest(env) && MapsTrack(env, byId, bySlot, records)
    requires EnvelopeKey(r) in byId || SequenceKey(r) in bySlot
    ensures Tracked(env, byId, bySlot, r) <==> r in records
    ensures exists i :: 0 <= i < |records| && SharesKey(records[i], r)
  {
    hide EnvelopeKey, SequenceKey, Honest;
    assert r in records ==> Tracked(env, byId, bySlot, r);
    if EnvelopeKey(r) in byId {
      assert IdKept(records, EnvelopeKey(r));
      var i :| 0 <= i < |records| && EnvelopeKey(records[i]) == EnvelopeKey(r);
      assert Tracked(env, byId, bySlot, records[i]) && SharesKey(records[i], r);
      if Tracked(env, byId, bySlot, r) {
        SameBytes(env, r, records[i]);
      }
    } else {
      assert SlotKept(records, SequenceKey(r));
      var i :| 0 <= i < |records| && SequenceKey(records[i]) == SequenceKey(r);
      assert SharesKey(records[i], r);
    }
  }

  lemma ConsistentRepeat(listed: seq<Option<Stored>>, n: nat, records: seq<Stored>)
    requires n < |listed| && listed[n].Some? && listed[n].value in records && KeysConsistent(listed[..n])
    requires forall x :: x in records <==> Some(x) in listed[..n]
    ensures KeysConsistent(listed[..n + 1])
  {
    hide SharesKey;
    var m :| 0 <= m < n && listed[..n][m] == listed[n];
    forall i | 0 <= i < n && listed[i].Some? && SharesKey(listed[i].value, listed[n].value)
      ensures listed[i] == listed[n]
    {
      SharesKeySymmetric(listed[i].value, listed[n].value);
      assert listed[..n][i] == listed[i] && listed[m] == listed[n];
      if i != m {
        assert i < m || m < i;
      }
    }
    ConsistentExtends(listed, n);
  }

  lemma SharesKeySymmetric(a: Stored, b: Stored)
    ensures SharesKey(a, b) == SharesKey(b, a)
  {
  }

  lemma ConsistentExtends(listed: seq<Option<Stored>>, n: nat)
    requires n < |listed| && KeysConsistent(listed[..n]) && listed[n].Some?
    requires forall i :: 0 <= i < n && listed[i].Some? && SharesKey(listed[i].value, listed[n].value) ==>
               listed[i] == listed[n]
    ensures KeysConsistent(listed[..n + 1])
  {
    hide SharesKey;
    var s := listed[..n + 1];
    forall i, j | 0 <= i < j < |s| && s[i].Some? && s[j].Some? && SharesKey(s[i].value, s[j].value)
      ensures s[i] == s[j]
    {
      if j < n {
        assert listed[..n][i] == s[i] && listed[..n][j] == s[j];
      }
    }
  }

  lemma InconsistentRepeat(listed: seq<Option<Stored>>, n: nat, records: seq<Stored>)
    requires n < |listed| && listed[n].Some? && listed[n].value !in records
    requires forall x :: x in records <==> Some(x) in listed[..n]
    requires exists i :: 0 <= i < |records| && SharesKey(records[i], listed[n].value)
    ensures !KeysConsistent(listed)
  {
    hide SharesKey;
    var i :| 0 <= i < |records| && SharesKey(records[i], listed[n].value);
    assert records[i] in records;
    var m :| 0 <= m < n && listed[..n][m] == Some(records[i]);
    assert listed[m] == Some(records[i]);
  }

  lemma FreshApart(env: Env, byId: map<string, string>, bySlot: map<string, string>, records: seq<Stored>, r: Stored)
    requires MapsTrack(env, byId, bySlot, records) && EnvelopeKey(r) !in byId && SequenceKey(r) !in bySlot
    ensures forall i :: 0 <= i < |records| ==> !SharesKey(records[i], r)
  {
    hide EnvelopeKey, SequenceKey;
    forall i | 0 <= i < |records| ensures !SharesKey(records[i], r) {
      assert Tracked(env, byId, bySlot, records[i]);
    }
  }

  lemma AppendApart(records: seq<Stored>, r: Stored)
    requires KeysApart(records) && (forall i :: 0 <= i < |records| ==> !SharesKey(records[i], r))
    ensures KeysApart(records + [r]) && r !in records
  {
    assert SharesKey(r, r);
    hide SharesKey;
  }

  lemma FreshKey(env: Env, byId: map<string, string>, bySlot: map<string, string>, records: seq<Stored>, r: Stored,
                 bytes: string)
    requires MapsTrack(env, byId, bySlot, records) && env.canonical(StoredDoc(r)) == Some(bytes)
    requires forall i :: 0 <= i < |records| ==> !SharesKey(records[i], r)
    ensures MapsTrack(env, byId[EnvelopeKey(r) := bytes], bySlot[SequenceKey(r) := bytes], records + [r])
  {
    hide EnvelopeKey, SequenceKey, Tracked, SharesKey, IdKept, SlotKept;
    var after := records + [r];
    var byId', bySlot' := byId[EnvelopeKey(r) := bytes], bySlot[SequenceKey(r) := bytes];
    NewTracked(env, byId, bySlot, r, bytes);
    forall i | 0 <= i < |after| ensures Tracked(env, byId', bySlot', after[i]) {
      if i < |records| {
        assert after[i] == records[i];
        StaysTracked(env, byId, bySlot, records[i], r, bytes);
      }
    }
    forall k | k in byId' ensures IdKept(after, k) {
      KeptAfter(records, r, k);
    }
    forall k | k in bySlot' ensures SlotKept(after, k) {
      KeptAfter(records, r, k);
    }
  }

  lemma NewTracked(env: Env, byId: map<string, string>, bySlot: map<string, string>, r: Stored, bytes: string)
    requires env.canonical(StoredDoc(r)) == Some(bytes)
    ensures Tracked(env, byId[EnvelopeKey(r) := bytes], bySlot[SequenceKey(r) := bytes], r)
  {
    hide EnvelopeKey, SequenceKey;
  }

  lemma KeptAfter(records: seq<Stored>, r: Stored, key: string)
    ensures IdKept(records, key) || key == EnvelopeKey(r) ==> IdKept(records + [r], key)
    ensures SlotKept(records, key) || key == SequenceKey(r) ==> SlotKept(records + [r], key)
  {
    hide EnvelopeKey, SequenceKey;
    var after := records + [r];
    assert after[|records|] == r && forall i :: 0 <= i < |records| ==> after[i] == records[i];
  }

  lemma StaysTracked(env: Env, byId: map<string, string>, bySlot: map<string, string>, x: Stored, r: Stored,
                     bytes: string)
    requires Tracked(env, byId, bySlot, x) && !SharesKey(x, r)
    ensures Tracked(env, byId[EnvelopeKey(r) := bytes], bySlot[SequenceKey(r) := bytes], x)
  {
    hide EnvelopeKey, SequenceKey;
  }

  lemma ConsistentFresh(listed: seq<Option<Stored>>, n: nat, records: seq<Stored>)
    requires n < |listed| && listed[n].Some? && KeysConsistent(listed[..n])
    requires forall x :: x in records <==> Some(x) in listed[..n]
    requires forall i :: 0 <= i < |records| ==> !SharesKey(records[i], listed[n].value)
    ensures KeysConsistent(listed[..n + 1])
  {
    hide SharesKey;
    forall i | 0 <= i < n && listed[i].Some? ensures !SharesKey(listed[i].value, listed[n].value) {
      assert listed[..n][i] == Some(listed[i].value);
      assert listed[i].value in records;
    }
    ConsistentExtends(listed, n);
  }
}
