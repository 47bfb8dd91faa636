/** The memory store and the file store of lib/agent-mailbox.ts, and why they agree. */
module MailboxStores {
  import opened Common
  import opened MailboxRecords

  datatype Outcome = StoredNew | Duplicate | EnvelopeIdConflict | ThreadSequenceConflict
  datatype PutResult = PutResult(outcome: Outcome, record: Stored)

  /** `acknowledge`: null, a thrown error, or the record now held. */
  datatype AckResult = Missing | Invalid | Held(record: Stored)

  type Memory = OrderedMap<string, Stored>
  type Files = map<string, Stored>

  /** The memory key, and the preimage of a file name. */
  function KeyText(recipientId: string, envelopeId: string): string {
    Join([recipientId, envelopeId], '\0')
  }

  function KeyOf(r: Stored): string {
    KeyText(r.recipientId, r.envelopeId)
  }

  /** `[...].find(sameSlot)`. */
  function FindSlot(s: seq<Stored>, r: Stored): (x: Option<Stored>)
    ensures x.Some? ==> x.value in s && SameSlot(x.value, r)
    ensures x.None? ==> forall i :: 0 <= i < |s| ==> !SameSlot(s[i], r)
  {
    if s == [] then None else if SameSlot(s[0], r) then Some(s[0]) else FindSlot(s[1..], r)
  }

  function Values(m: Memory): (r: seq<Stored>)
    requires forall k :: k in m.keys ==> k in m.vals
    ensures |r| == |m.keys|
  {
    seq(|m.keys|, i requires 0 <= i < |m.keys| => m.vals[m.keys[i]])
  }

  function ReadAll(dir: Files, names: seq<string>): (r: seq<Stored>)
    requires forall i :: 0 <= i < |names| ==> names[i] in dir
    ensures |r| == |names|
  {
    seq(|names|, i requires 0 <= i < |names| => dir[names[i]])
  }

  function Compare(existing: Stored, r: Stored, conflict: Outcome): PutResult {
    PutResult(if existing.envelopeDigest == r.envelopeDigest then Duplicate else conflict, existing)
  }

  // ----- the two stores as functions ---------------------------------------

  /** Memory: the envelope-id key is tested first, then the thread slot. */
  function MemoryPut(m: Memory, r: Stored): (Memory, PutResult)
    requires m.Valid()
  {
    if KeyOf(r) in m.vals then (m, Compare(m.vals[KeyOf(r)], r, EnvelopeIdConflict))
    else
      var slot := FindSlot(Values(m), r);
      if slot.Some? then (m, Compare(slot.value, r, ThreadSequenceConflict))
      else (m.Set(KeyOf(r), r), PutResult(StoredNew, r))
  }

  /** Every read of a file checks it; a file that fails is as good as corrupt. */
  predicate Readable(env: Env, s: seq<Stored>) {
    forall i :: 0 <= i < |s| ==> Checked(env, s[i])
  }

  /** Files: the thread slot is tested first, then creation of the file fails on the id key. */
  function FileOutcome(sha: Hash, dir: Files, names: seq<string>, r: Stored): (Files, PutResult)
    requires forall i :: 0 <= i < |names| ==> names[i] in dir
  {
    var slot := FindSlot(ReadAll(dir, names), r);
    if slot.Some? then (dir, Compare(slot.value, r, ThreadSequenceConflict))
    else
      var name := sha(KeyOf(r));
      if name in dir then (dir, Compare(dir[name], r, EnvelopeIdConflict))
      else (dir[name := r], PutResult(StoredNew, r))
  }

  /** `None` is a thrown error: a file it read fails its check, or the new record cannot be
      canonicalized, which leaves a file in place that will fail its check. */
  function FilePut(env: Env, dir: Files, names: seq<string>, r: Stored): (Files, Option<PutResult>)
    requires forall i :: 0 <= i < |names| ==> names[i] in dir
  {
    var (dir', result) := FileOutcome(env.sha, dir, names, r);
    if !Readable(env, ReadAll(dir, names)) then (dir, None)
    else if result.outcome == StoredNew then
      (dir', if env.canonical(StoredDoc(r)).Some? then Some(result) else None)
    else (dir', if Checked(env, result.record) then Some(result) else None)
  }

  function FileList(env: Env, dir: Files, names: seq<string>, recipientId: string): Option<seq<Stored>>
    requires forall i :: 0 <= i < |names| ==> names[i] in dir
  {
    if Readable(env, ReadAll(dir, names)) then Some(ListFor(ReadAll(dir, names), recipientId)) else None
  }

  function Acknowledged(env: Env, r: Stored, a: Ack): (Option<Stored>, AckResult) {
    if r.ack.Some? then (None, Held(r))
    else if !Checked(env, r.(ack := Some(a))) then (None, Invalid)
    else (Some(r.(ack := Some(a))), Held(r.(ack := Some(a))))
  }

  function MemoryAck(env: Env, m: Memory, recipientId: string, envelopeId: string, a: Ack): (Memory, AckResult) {
    var k := KeyText(recipientId, envelopeId);
    if k !in m.vals then (m, Missing)
    else
      var (updated, result) := Acknowledged(env, m.vals[k], a);
      (if updated.Some? then m.Set(k, updated.value) else m, result)
  }

  function FileAck(env: Env, dir: Files, recipientId: string, envelopeId: string, a: Ack): (Files, AckResult) {
    var name := env.sha(KeyText(recipientId, envelopeId));
    if name !in dir then (dir, Missing)
    else if !Checked(env, dir[name]) then (dir, Invalid)
    else
      var (updated, result) := Acknowledged(env, dir[name], a);
      (if updated.Some? then dir[name := updated.value] else dir, result)
  }

  // ----- the stores as objects ---------------------------------------------

  class MemoryStore {
    var records: Memory

    constructor ()
      ensures records == OrderedMap([], map[]) && records.Valid()
    {
      records := OrderedMap([], map[]);
    }

    method Put(record: Stored) returns (result: PutResult)
      requires records.Valid()
      modifies this
      ensures records.Valid() && (records, result) == MemoryPut(old(records), record)
    {
      var key := KeyOf(record);
      SetKeepsValid(records, key, record);
      if key in records.vals {
        return Compare(records.vals[key], record, EnvelopeIdConflict);
      }
      var i := 0;
      while i < |records.keys|
        invariant 0 <= i <= |records.keys| && records == old(records)
        invariant FindSlot(Values(records)[i..], record) == FindSlot(Values(records), record)
      {
        var candidate := records.vals[records.keys[i]];
        assert Values(records)[i..][0] == candidate && Values(records)[i..][1..] == Values(records)[i + 1..];
        if SameSlot(candidate, record) {
          return Compare(candidate, record, ThreadSequenceConflict);
        }
        i := i + 1;
      }
      records := records.Set(key, record);
      return PutResult(StoredNew, record);
    }

    /** Filter by recipient, then sort by sequence. */
    method List(recipientId: string) returns (listed: seq<Stored>)
      requires records.Valid()
      ensures listed == ListFor(Values(records), recipientId)
    {
      return ListFor(Values(records), recipientId);
    }

    method Acknowledge(env: Env, recipientId: string, envelopeId: string, a: Ack) returns (result: AckResult)
      requires records.Valid()
      modifies this
      ensures records.Valid() && (records, result) == MemoryAck(env, old(records), recipientId, envelopeId, a)
    {
      var key := KeyText(recipientId, envelopeId);
      if key !in records.vals { return Missing; }
      var record := records.vals[key];
      if record.ack.None? {
        var updated := record.(ack := Some(a));
        if !Checked(env, updated) { return Invalid; }
        SetKeepsValid(records, key, updated);
        records := records.Set(key, updated);
        return Held(updated);
      }
      return Held(record);
    }
  }

  class FileStore {
    const env: Env
    var dir: Files

    constructor (env: Env)
      ensures this.env == env && dir == map[]
    {
      this.env, dir := env, map[];
    }

    /** Reads every listed file; `None` is the thrown error. */
    method ReadRecords(names: seq<string>) returns (records: Option<seq<Stored>>)
      requires forall i :: 0 <= i < |names| ==> names[i] in dir
      ensures records == if Readable(env, ReadAll(dir, names)) then Some(ReadAll(dir, names)) else None
    {
      hide Checked;
      var read: seq<Stored> := [];
      for i := 0 to |names|
        invariant read == ReadAll(dir, names)[..i] && Readable(env, read)
      {
        var record := dir[names[i]];
        assert ReadAll(dir, names)[i] == record;
        if !Checked(env, record) { return None; }
        read := read + [record];
      }
      assert ReadAll(dir, names)[..|names|] == ReadAll(dir, names);
      return Some(read);
    }

    /** `names` is what readdir returned. */
    method Put(names: seq<string>, record: Stored) returns (result: Option<PutResult>)
      requires forall i :: 0 <= i < |names| ==> names[i] in dir
      modifies this
      ensures (dir, result) == FilePut(env, old(dir), names, record)
    {
      hide Checked, ReadAll;
      var existing := ReadRecords(names);
      if existing.None? { return None; }
      var i := 0;
      while i < |existing.value|
        invariant 0 <= i <= |existing.value| && dir == old(dir)
        invariant FindSlot(existing.value[i..], record) == FindSlot(existing.value, record)
      {
        var candidate := existing.value[i];
        assert existing.value[i..][0] == candidate && existing.value[i..][1..] == existing.value[i + 1..];
        if SameSlot(candidate, record) {
          return Some(Compare(candidate, record, ThreadSequenceConflict));
        }
        i := i + 1;
      }
      var target := env.sha(KeyOf(record));
      if target in dir {
        if !Checked(env, dir[target]) { return None; }
        return Some(Compare(dir[target], record, EnvelopeIdConflict));
      }
      dir := dir[target := record];
      if env.canonical(StoredDoc(record)).None? { return None; }
      return Some(PutResult(StoredNew, record));
    }

    method List(names: seq<string>, recipientId: string) returns (listed: Option<seq<Stored>>)
      requires forall i :: 0 <= i < |names| ==> names[i] in dir
      ensures listed == FileList(env, dir, names, recipientId)
    {
      var records := ReadRecords(names);
      return if records.None? then None else Some(ListFor(records.value, recipientId));
    }

    method Acknowledge(recipientId: string, envelopeId: string, a: Ack) returns (result: AckResult)
      modifies this
      ensures (dir, result) == FileAck(env, old(dir), recipientId, envelopeId, a)
    {
      var target := env.sha(KeyText(recipientId, envelopeId));
      if target !in dir { return Missing; }
      var record := dir[target];
      if !Checked(env, record) { return Invalid; }
      if record.ack.Some? { return Held(record); }
      var updated := record.(ack := Some(a));
      if !Checked(env, updated) { return Invalid; }
      dir := dir[target := updated];
      return Held(updated);
    }
  }

  // ----- what both keep ----------------------------------------------------

  /** Records sit under their own key and no two share a thread slot. */
  ghost predicate Sound(env: Env, m: Memory) {
    && m.Valid()
    && (forall k :: k in m.vals ==> Checked(env, m.vals[k]) && KeyOf(m.vals[k]) == k)
    && (forall k, l :: k in m.vals && l in m.vals && SameSlot(m.vals[k], m.vals[l]) ==> k == l)
  }

  /** The directory is the memory map with keys replaced by their digests. */
  ghost predicate Mirrors(sha: Hash, m: Memory, dir: Files) {
    && (forall k :: k in m.vals ==> sha(k) in dir && dir[sha(k)] == m.vals[k])
    && (forall n :: n in dir ==> exists k :: k in m.vals && sha(k) == n)
  }

  ghost predicate InjectiveOn(h: Hash, texts: set<string>) {
    forall x, y :: x in texts && y in texts && h(x) == h(y) ==> x == y
  }

  /** The strings hashed for a record: its key and its canonical envelope. */
  ghost predicate TextsOf(env: Env, texts: set<string>, r: Stored) {
    KeyOf(r) in texts
    && env.canonical(EnvelopeDoc(r.envelope)).Some? && env.canonical(EnvelopeDoc(r.envelope)).value in texts
  }

  ghost predicate AllTexts(env: Env, texts: set<string>, m: Memory) {
    forall k :: k in m.vals ==> TextsOf(env, texts, m.vals[k])
  }

  datatype Verdict = Kept | Known | Turned

  /** stored, duplicate or refused. */
  function VerdictOf(o: Outcome): Verdict {
    match o
    case StoredNew => Kept
    case Duplicate => Known
    case _ => Turned
  }

  lemma IdentifierHasNoNul(s: string)
    requires Identifier(s)
    ensures '\0' !in s
  {
    forall i | 0 <= i < |s| ensures s[i] != '\0' {
      assert i == 0 || IdentifierChar(s[i]);
    }
  }

  /** Equal envelope digests mean equal envelopes, hence the same key and the same slot. */
  lemma SameDigestSameEnvelope(env: Env, texts: set<string>, a: Stored, b: Stored)
    requires Honest(env) && InjectiveOn(env.sha, texts) && TextsOf(env, texts, a) && TextsOf(env, texts, b)
    requires Checked(env, a) && Checked(env, b) && a.envelopeDigest == b.envelopeDigest
    ensures a.envelope == b.envelope && KeyOf(a) == KeyOf(b) && SameSlot(a, b)
  {
    hide KeyOf, EnvelopeShape, SenderShape, BindingShape, AckBelongs;
    var x, y := env.canonical(EnvelopeDoc(a.envelope)).value, env.canonical(EnvelopeDoc(b.envelope)).value;
    DigestTextInjective(env.sha(x), env.sha(y));
    assert a.envelope == b.envelope;
    KeyFollows(a, b);
  }

  lemma DigestTextInjective(x: string, y: string)
    requires "sha256:" + x == "sha256:" + y
    ensures x == y
  {
    assert ("sha256:" + x)[7..] == x && ("sha256:" + y)[7..] == y;
  }

  lemma KeyFollows(a: Stored, b: Stored)
    requires a.recipientId == b.recipientId && a.envelopeId == b.envelopeId
    ensures KeyOf(a) == KeyOf(b)
  {
  }

  lemma FoundInMemory(m: Memory, r: Stored)
    requires m.Valid()
    ensures var x := FindSlot(Values(m), r);
            (x.Some? ==> exists k :: k in m.vals && m.vals[k] == x.value && SameSlot(x.value, r))
            && (x.None? ==> forall k :: k in m.vals ==> !SameSlot(m.vals[k], r))
  {
    var s := Values(m);
    var x := FindSlot(s, r);
    if x.Some? {
      var i :| 0 <= i < |s| && s[i] == x.value;
      assert m.keys[i] in m.keys;
    } else {
      forall k | k in m.vals ensures !SameSlot(m.vals[k], r) {
        var i :| 0 <= i < |m.keys| && m.keys[i] == k;
        assert s[i] == m.vals[k];
      }
    }
  }

  /** `names` lists the directory. */
  ghost predicate Lists(names: seq<string>, dir: Files) {
    forall n :: n in names <==> n in dir
  }

  lemma FoundInFiles(sha: Hash, m: Memory, dir: Files, names: seq<string>, r: Stored)
    requires Mirrors(sha, m, dir) && Lists(names, dir)
    ensures forall i :: 0 <= i < |names| ==> names[i] in dir
    ensures var x := FindSlot(ReadAll(dir, names), r);
            (x.Some? ==> exists k :: k in m.vals && m.vals[k] == x.value && SameSlot(x.value, r))
            && (x.None? ==> forall k :: k in m.vals ==> !SameSlot(m.vals[k], r))
  {
    forall i | 0 <= i < |names| ensures names[i] in dir {
      assert names[i] in names;
    }
    var s := ReadAll(dir, names);
    var x := FindSlot(s, r);
    if x.Some? {
      var i :| 0 <= i < |s| && s[i] == x.value;
      var k :| k in m.vals && sha(k) == names[i];
    } else {
      forall k | k in m.vals ensures !SameSlot(m.vals[k], r) {
        assert sha(k) in names;
        var i :| 0 <= i < |names| && names[i] == sha(k);
        assert s[i] == m.vals[k];
      }
    }
  }

  // ----- put ---------------------------------------------------------------

  lemma MemoryPutSound(env: Env, texts: set<string>, m: Memory, r: Stored)
    requires Sound(env, m) && AllTexts(env, texts, m) && Checked(env, r) && TextsOf(env, texts, r)
    ensures Sound(env, MemoryPut(m, r).0) && AllTexts(env, texts, MemoryPut(m, r).0)
  {
    hide Checked, KeyOf, TextsOf;
    FoundInMemory(m, r);
    SetKeepsValid(m, KeyOf(r), r);
  }

  /** The record under the same id, if any, and the record in the same slot, if any, have the
      new record's digest only together: then they are one record. */
  lemma DuplicateIsOne(env: Env, texts: set<string>, m: Memory, r: Stored, k: string)
    requires Honest(env) && Sound(env, m) && InjectiveOn(env.sha, texts) && AllTexts(env, texts, m)
    requires Checked(env, r) && TextsOf(env, texts, r)
    requires k in m.vals && m.vals[k].envelopeDigest == r.envelopeDigest
    ensures k == KeyOf(r) && SameSlot(m.vals[k], r)
    ensures forall l :: l in m.vals && SameSlot(m.vals[l], r) ==> l == k
  {
    hide Checked, KeyOf;
    SameDigestSameEnvelope(env, texts, m.vals[k], r);
    assert forall l :: l in m.vals && SameSlot(m.vals[l], r) ==> SameSlot(m.vals[l], m.vals[k]);
  }

  lemma OutcomeRefines(env: Env, texts: set<string>, m: Memory, dir: Files, names: seq<string>, r: Stored)
    requires Honest(env) && Sound(env, m) && Mirrors(env.sha, m, dir) && Lists(names, dir)
    requires InjectiveOn(env.sha, texts) && AllTexts(env, texts, m)
    requires Checked(env, r) && TextsOf(env, texts, r)
    requires forall i :: 0 <= i < |names| ==> names[i] in dir
    ensures var (m', a) := MemoryPut(m, r);
            var (dir', b) := FileOutcome(env.sha, dir, names, r);
            VerdictOf(a.outcome) == VerdictOf(b.outcome)
            && (VerdictOf(a.outcome) != Turned ==> a.record == b.record)
            && Mirrors(env.sha, m', dir')
  {
    hide Checked, KeyOf, Honest, Values, ReadAll, FindSlot;
    FoundInMemory(m, r);
    FoundInFiles(env.sha, m, dir, names, r);
    NameTaken(env, texts, m, dir, r);
    var a, b := MemoryPut(m, r).1, FileOutcome(env.sha, dir, names, r).1;
    if a.outcome == StoredNew {
      MirrorsSet(env.sha, texts, m, dir, KeyOf(r), r);
    } else if a.outcome == Duplicate {
      var k :| k in m.vals && m.vals[k] == a.record;
      DuplicateIsOne(env, texts, m, r, k);
    } else if b.outcome == Duplicate {
      var k :| k in m.vals && m.vals[k] == b.record;
      DuplicateIsOne(env, texts, m, r, k);
    }
  }

  /** The two stores give one verdict, the same record when it is not a conflict, and stay in
      step, although they test the two keys in opposite orders. */
  lemma PutRefines(env: Env, texts: set<string>, m: Memory, dir: Files, names: seq<string>, r: Stored)
    requires Honest(env) && Sound(env, m) && Mirrors(env.sha, m, dir) && Lists(names, dir)
    requires InjectiveOn(env.sha, texts) && AllTexts(env, texts, m)
    requires Checked(env, r) && TextsOf(env, texts, r)
    ensures forall i :: 0 <= i < |names| ==> names[i] in dir
    ensures var (m', a) := MemoryPut(m, r);
            var (dir', result) := FilePut(env, dir, names, r);
            result.Some? && VerdictOf(a.outcome) == VerdictOf(result.value.outcome)
            && (VerdictOf(a.outcome) != Turned ==> a.record == result.value.record)
            && Mirrors(env.sha, m', dir')
  {
    CheckedIsCanonical(env, r);
    hide Checked, KeyOf, Honest, Values, FindSlot, MemoryPut, Mirrors, Sound, AllTexts;
    FilesReadable(env, m, dir, names);
    OutcomeRefines(env, texts, m, dir, names, r);
    ExistingIsRead(env, dir, names, r);
  }

  /** What a conflict or a duplicate is reported with was read from a file. */
  lemma ExistingIsRead(env: Env, dir: Files, names: seq<string>, r: Stored)
    requires (forall i :: 0 <= i < |names| ==> names[i] in dir) && forall n :: n in dir ==> Checked(env, dir[n])
    ensures var (_, b) := FileOutcome(env.sha, dir, names, r); b.outcome != StoredNew ==> Checked(env, b.record)
  {
    hide Checked, KeyOf, FindSlot;
  }

  lemma CheckedIsCanonical(env: Env, r: Stored)
    requires Checked(env, r)
    ensures env.canonical(StoredDoc(r)).Some?
  {
  }

  /** Files that mirror a sound memory all pass their check. */
  lemma FilesReadable(env: Env, m: Memory, dir: Files, names: seq<string>)
    requires Sound(env, m) && Mirrors(env.sha, m, dir) && Lists(names, dir)
    ensures forall n :: n in dir ==> Checked(env, dir[n])
    ensures forall i :: 0 <= i < |names| ==> names[i] in dir
    ensures Readable(env, ReadAll(dir, names))
  {
    hide Checked, KeyOf;
    forall i | 0 <= i < |names| ensures names[i] in dir {
      assert names[i] in names;
    }
    forall n | n in dir ensures Checked(env, dir[n]) {
      var k :| k in m.vals && env.sha(k) == n;
    }
  }

  /** The file name of a new record is taken exactly when its key is. */
  lemma NameTaken(env: Env, texts: set<string>, m: Memory, dir: Files, r: Stored)
    requires Mirrors(env.sha, m, dir) && InjectiveOn(env.sha, texts) && KeyOf(r) in texts
    requires AllTexts(env, texts, m) && (forall k :: k in m.vals ==> KeyOf(m.vals[k]) == k)
    ensures env.sha(KeyOf(r)) in dir <==> KeyOf(r) in m.vals
    ensures KeyOf(r) in m.vals ==> dir[env.sha(KeyOf(r))] == m.vals[KeyOf(r)]
  {
    hide KeyOf;
    if env.sha(KeyOf(r)) in dir {
      var k :| k in m.vals && env.sha(k) == env.sha(KeyOf(r));
      assert TextsOf(env, texts, m.vals[k]);
    }
  }

  lemma MirrorsSet(sha: Hash, texts: set<string>, m: Memory, dir: Files, key: string, r: Stored)
    requires Mirrors(sha, m, dir) && InjectiveOn(sha, texts) && key in texts
    requires forall k :: k in m.vals ==> k in texts
    ensures Mirrors(sha, m.Set(key, r), dir[sha(key) := r])
  {
    var m', dir' := m.Set(key, r), dir[sha(key) := r];
    forall k | k in m'.vals ensures sha(k) in dir' && dir'[sha(k)] == m'.vals[k] {
      if k != key {
        assert sha(k) != sha(key);
      }
    }
    forall n | n in dir' ensures exists k :: k in m'.vals && sha(k) == n {
      if n == sha(key) {
        assert key in m'.vals;
      } else {
        var k :| k in m.vals && sha(k) == n;
        assert k in m'.vals;
      }
    }
  }

  // ----- list --------------------------------------------------------------

  function InsertBySequence(r: Stored, s: seq<Stored>): seq<Stored> {
    if s == [] || r.envelope.sequence <= s[0].envelope.sequence then [r] + s
    else [s[0]] + InsertBySequence(r, s[1..])
  }

  /** Filter by recipient, then the stable sort by sequence. */
  function ListFor(s: seq<Stored>, recipientId: string): seq<Stored> {
    if s == [] then []
    else if s[0].recipientId == recipientId then InsertBySequence(s[0], ListFor(s[1..], recipientId))
    else ListFor(s[1..], recipientId)
  }

  ghost predicate Ordered(s: seq<Stored>) {
    forall i, j :: 0 <= i < j < |s| ==> s[i].envelope.sequence <= s[j].envelope.sequence
  }

  /** The recipient's records with one sequence number, in the order they have in s. */
  ghost function OfSequence(s: seq<Stored>, recipientId: string, q: int): seq<Stored> {
    if s == [] then []
    else (if s[0].recipientId == recipientId && s[0].envelope.sequence == q then [s[0]] else [])
         + OfSequence(s[1..], recipientId, q)
  }

  lemma {:induction false} InsertIsStable(r: Stored, s: seq<Stored>, recipientId: string, q: int)
    ensures OfSequence(InsertBySequence(r, s), recipientId, q) == OfSequence([r] + s, recipientId, q)
    decreases |s|
  {
    assert ([r] + s)[1..] == s;
    if s != [] && r.envelope.sequence > s[0].envelope.sequence {
      InsertIsStable(r, s[1..], recipientId, q);
      assert ([r] + s[1..])[1..] == s[1..];
      var t := InsertBySequence(r, s[1..]);
      assert ([s[0]] + t)[1..] == t;
    }
  }

  /** A list is in sequence order and holds, for every sequence number, exactly the recipient's records with that
      number, in the order the store has them. */
  lemma {:induction false} ListIsStable(s: seq<Stored>, recipientId: string)
    ensures Ordered(ListFor(s, recipientId))
    ensures forall x :: x in ListFor(s, recipientId) ==> x.recipientId == recipientId
    ensures forall q :: OfSequence(ListFor(s, recipientId), recipientId, q) == OfSequence(s, recipientId, q)
    decreases |s|
  {
    if s != [] {
      ListIsStable(s[1..], recipientId);
      var rest := ListFor(s[1..], recipientId);
      if s[0].recipientId == recipientId {
        InsertOrdered(s[0], rest);
        InsertMembers(s[0], rest);
        forall q
          ensures OfSequence(InsertBySequence(s[0], rest), recipientId, q) == OfSequence(s, recipientId, q)
        {
          InsertIsStable(s[0], rest, recipientId, q);
          assert ([s[0]] + rest)[1..] == rest;
        }
      }
    }
  }

  lemma {:induction false} InsertMembers(r: Stored, s: seq<Stored>)
    ensures forall x :: x in InsertBySequence(r, s) <==> x == r || x in s
    decreases |s|
  {
    if s != [] && r.envelope.sequence > s[0].envelope.sequence {
      InsertMembers(r, s[1..]);
      assert s == [s[0]] + s[1..];
    }
  }

  lemma {:induction false} InsertOrdered(r: Stored, s: seq<Stored>)
    requires Ordered(s)
    ensures Ordered(InsertBySequence(r, s))
    decreases |s|
  {
    if s != [] && r.envelope.sequence > s[0].envelope.sequence {
      InsertOrdered(r, s[1..]);
      InsertMembers(r, s[1..]);
      PrependOrdered(s[0], InsertBySequence(r, s[1..]));
    }
  }

  lemma PrependOrdered(r: Stored, s: seq<Stored>)
    requires Ordered(s) && (forall x :: x in s ==> r.envelope.sequence <= x.envelope.sequence)
    ensures Ordered([r] + s)
  {
    assert forall j :: 0 <= j < |s| ==> s[j] in s;
  }

  lemma {:induction false} InsertDistinct(r: Stored, s: seq<Stored>)
    requires Distinct(s) && r !in s
    ensures Distinct(InsertBySequence(r, s))
    decreases |s|
  {
    if s != [] && r.envelope.sequence > s[0].envelope.sequence {
      InsertDistinct(r, s[1..]);
      InsertMembers(r, s[1..]);
      assert s[0] in s && s[0] !in s[1..];
      PrependDistinct(s[0], InsertBySequence(r, s[1..]));
    }
  }

  lemma PrependDistinct(r: Stored, s: seq<Stored>)
    requires Distinct(s) && r !in s
    ensures Distinct([r] + s)
  {
    assert forall j :: 0 <= j < |s| ==> s[j] in s;
  }

  lemma {:induction false} ListEffect(s: seq<Stored>, recipientId: string)
    requires Distinct(s)
    ensures Ordered(ListFor(s, recipientId)) && Distinct(ListFor(s, recipientId))
    ensures forall x :: x in ListFor(s, recipientId) <==> x in s && x.recipientId == recipientId
    decreases |s|
  {
    if s != [] {
      ListEffect(s[1..], recipientId);
      assert s == [s[0]] + s[1..];
      assert s[0] !in s[1..];
      if s[0].recipientId == recipientId {
        InsertMembers(s[0], ListFor(s[1..], recipientId));
        InsertOrdered(s[0], ListFor(s[1..], recipientId));
        InsertDistinct(s[0], ListFor(s[1..], recipientId));
      }
    }
  }

  /** Same records, none twice, in sequence order; ties may come in either order. */
  ghost predicate ListingsAgree(a: seq<Stored>, b: seq<Stored>) {
    Ordered(a) && Ordered(b) && Distinct(a) && Distinct(b) && forall x :: x in a <==> x in b
  }

  lemma ListRefines(env: Env, m: Memory, dir: Files, names: seq<string>, recipientId: string)
    requires Sound(env, m) && Mirrors(env.sha, m, dir) && Lists(names, dir) && Distinct(names)
    ensures forall i :: 0 <= i < |names| ==> names[i] in dir
    ensures FileList(env, dir, names, recipientId).Some?
    ensures ListingsAgree(ListFor(Values(m), recipientId), FileList(env, dir, names, recipientId).value)
  {
    FilesReadable(env, m, dir, names);
    hide Checked, ListFor;
    forall i | 0 <= i < |names| ensures names[i] in dir {
      assert names[i] in names;
    }
    var a, b := Values(m), ReadAll(dir, names);
    ValuesDistinct(env, m);
    FilesDistinct(env, m, dir, names);
    ListEffect(a, recipientId);
    ListEffect(b, recipientId);
    forall x ensures x in a <==> x in b {
      SameMembers(env.sha, m, dir, names, x);
    }
  }

  lemma ValuesDistinct(env: Env, m: Memory)
    requires Sound(env, m)
    ensures Distinct(Values(m))
  {
    hide Checked, KeyOf;
    var s := Values(m);
    forall i, j | 0 <= i < j < |s| ensures s[i] != s[j] {
      assert m.keys[i] in m.keys && m.keys[j] in m.keys;
      assert KeyOf(s[i]) == m.keys[i] && KeyOf(s[j]) == m.keys[j];
    }
  }

  lemma FilesDistinct(env: Env, m: Memory, dir: Files, names: seq<string>)
    requires Sound(env, m) && Mirrors(env.sha, m, dir) && Distinct(names)
    requires forall i :: 0 <= i < |names| ==> names[i] in dir
    ensures Distinct(ReadAll(dir, names))
  {
    hide Checked, KeyOf;
    var s := ReadAll(dir, names);
    forall i, j | 0 <= i < j < |s| ensures s[i] != s[j] {
      assert names[i] in dir && names[j] in dir;
      var k :| k in m.vals && env.sha(k) == names[i];
      var l :| l in m.vals && env.sha(l) == names[j];
      assert KeyOf(s[i]) == k && KeyOf(s[j]) == l;
    }
  }

  lemma SameMembers(sha: Hash, m: Memory, dir: Files, names: seq<string>, x: Stored)
    requires m.Valid() && Mirrors(sha, m, dir) && Lists(names, dir)
    requires forall i :: 0 <= i < |names| ==> names[i] in dir
    ensures x in Values(m) <==> x in ReadAll(dir, names)
  {
    if x in Values(m) {
      MemoryInFiles(sha, m, dir, names, x);
    }
    if x in ReadAll(dir, names) {
      FilesInMemory(sha, m, dir, names, x);
    }
  }

  lemma MemoryInFiles(sha: Hash, m: Memory, dir: Files, names: seq<string>, x: Stored)
    requires m.Valid() && Mirrors(sha, m, dir) && Lists(names, dir) && x in Values(m)
    requires forall i :: 0 <= i < |names| ==> names[i] in dir
    ensures x in ReadAll(dir, names)
  {
    var i :| 0 <= i < |m.keys| && Values(m)[i] == x;
    assert m.keys[i] in m.keys;
    assert sha(m.keys[i]) in names;
    var j :| 0 <= j < |names| && names[j] == sha(m.keys[i]);
    assert ReadAll(dir, names)[j] == x;
  }

  lemma FilesInMemory(sha: Hash, m: Memory, dir: Files, names: seq<string>, x: Stored)
    requires m.Valid() && Mirrors(sha, m, dir)
    requires forall i :: 0 <= i < |names| ==> names[i] in dir
    requires x in ReadAll(dir, names)
    ensures x in Values(m)
  {
    var j :| 0 <= j < |names| && ReadAll(dir, names)[j] == x;
    var k :| k in m.vals && sha(k) == names[j];
    var i :| 0 <= i < |m.keys| && m.keys[i] == k;
    assert Values(m)[i] == x;
  }

  // ----- acknowledge -------------------------------------------------------

  lemma AcknowledgedKeeps(env: Env, r: Stored, a: Ack)
    requires Checked(env, r) && Acknowledged(env, r, a).0.Some?
    ensures var u := Acknowledged(env, r, a).0.value;
            Checked(env, u) && KeyOf(u) == KeyOf(r) && u.envelope == r.envelope && Delivery(u) == Delivery(r)
            && r.ack.None? && u.ack == Some(a)
  {
  }

  lemma AckRefines(env: Env, texts: set<string>, m: Memory, dir: Files, recipientId: string, envelopeId: string, a: Ack)
    requires Sound(env, m) && Mirrors(env.sha, m, dir)
    requires InjectiveOn(env.sha, texts) && AllTexts(env, texts, m) && KeyText(recipientId, envelopeId) in texts
    ensures MemoryAck(env, m, recipientId, envelopeId, a).1 == FileAck(env, dir, recipientId, envelopeId, a).1
    ensures Sound(env, MemoryAck(env, m, recipientId, envelopeId, a).0)
    ensures AllTexts(env, texts, MemoryAck(env, m, recipientId, envelopeId, a).0)
    ensures Mirrors(env.sha, MemoryAck(env, m, recipientId, envelopeId, a).0,
              FileAck(env, dir, recipientId, envelopeId, a).0)
  {
    hide Checked, KeyText, Acknowledged;
    var key := KeyText(recipientId, envelopeId);
    assert forall n :: n in dir ==> Checked(env, dir[n]);
    assert forall k :: k in m.vals ==> TextsOf(env, texts, m.vals[k]) && k in texts;
    if key in m.vals {
      if Acknowledged(env, m.vals[key], a).0.Some? {
        var u := Acknowledged(env, m.vals[key], a).0.value;
        AcknowledgedKeeps(env, m.vals[key], a);
        SetKeepsValid(m, key, u);
        MirrorsSet(env.sha, texts, m, dir, key, u);
        SetSound(env, texts, m, key, u);
      }
    }
  }

  lemma SetSound(env: Env, texts: set<string>, m: Memory, key: string, u: Stored)
    requires Sound(env, m) && AllTexts(env, texts, m) && key in m.vals && m.Set(key, u).Valid()
    requires Checked(env, u) && KeyOf(u) == KeyOf(m.vals[key]) && u.envelope == m.vals[key].envelope
    requires u.recipientId == m.vals[key].recipientId
    ensures Sound(env, m.Set(key, u)) && AllTexts(env, texts, m.Set(key, u))
  {
    hide Checked, KeyOf;
    assert forall k :: k in m.vals ==> TextsOf(env, texts, m.vals[k]);
    var n := m.Set(key, u);
    forall k, l | k in n.vals && l in n.vals && SameSlot(n.vals[k], n.vals[l]) ensures k == l {
      assert SameSlot(m.vals[k], m.vals[l]);
    }
  }
}
