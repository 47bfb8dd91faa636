/** Whole sequences of store operations: the file store refines the memory store, and the first
    acknowledgement of an envelope is the only one it ever has. */
module MailboxRuns {
  import opened Common
  import opened MailboxRecords
  import opened MailboxStores

  datatype Op =
    | PutOp(record: Stored)
    | ListOp(listed: string)
    | AckOp(recipientId: string, envelopeId: string, ack: Ack)

  datatype Obs = PutObs(put: PutResult) | ListObs(records: seq<Stored>) | AckObs(acked: AckResult) | Threw

  /** readdir: some order of the names, each once. */
  type Readdir = set<string> -> seq<string>

  ghost predicate ListsEachOnce(readdir: Readdir) {
    forall names :: Distinct(readdir(names)) && (forall n :: n in readdir(names) <==> n in names)
  }

  function MemoryStep(env: Env, m: Memory, op: Op): (Memory, Obs)
    requires m.Valid()
  {
    match op
    case PutOp(r) => var (m', result) := MemoryPut(m, r); (m', PutObs(result))
    case ListOp(recipient) => (m, ListObs(ListFor(Values(m), recipient)))
    case AckOp(recipient, id, a) => var (m', result) := MemoryAck(env, m, recipient, id, a); (m', AckObs(result))
  }

  ghost function FileStep(env: Env, readdir: Readdir, dir: Files, op: Op): (Files, Obs)
    requires ListsEachOnce(readdir)
  {
    var names := readdir(dir.Keys);
    assert forall i :: 0 <= i < |names| ==> names[i] in names;
    match op
    case PutOp(r) =>
      var (dir', result) := FilePut(env, dir, names, r);
      (dir', if result.Some? then PutObs(result.value) else Threw)
    case ListOp(recipient) =>
      var listed := FileList(env, dir, names, recipient);
      (dir, if listed.Some? then ListObs(listed.value) else Threw)
    case AckOp(recipient, id, a) => var (dir', result) := FileAck(env, dir, recipient, id, a); (dir', AckObs(result))
  }

  lemma StepValid(env: Env, m: Memory, op: Op)
    requires m.Valid()
    ensures MemoryStep(env, m, op).0.Valid()
  {
    hide KeyOf, KeyText, Acknowledged;
    match op
    case PutOp(r) => SetKeepsValid(m, KeyOf(r), r);
    case ListOp(_) =>
    case AckOp(recipient, id, a) =>
      var k := KeyText(recipient, id);
      if k in m.vals && Acknowledged(env, m.vals[k], a).0.Some? {
        SetKeepsValid(m, k, Acknowledged(env, m.vals[k], a).0.value);
      }
  }

  /** The memory store after `ops`, from empty. */
  function MemoryAfter(env: Env, ops: seq<Op>): (m: Memory)
    ensures m.Valid()
  {
    if ops == [] then OrderedMap([], map[])
    else
      var m := MemoryAfter(env, ops[..|ops| - 1]);
      StepValid(env, m, ops[|ops| - 1]);
      MemoryStep(env, m, ops[|ops| - 1]).0
  }

  ghost function FilesAfter(env: Env, readdir: Readdir, ops: seq<Op>): Files
    requires ListsEachOnce(readdir)
  {
    if ops == [] then map[]
    else FileStep(env, readdir, FilesAfter(env, readdir, ops[..|ops| - 1]), ops[|ops| - 1]).0
  }

  function MemoryObs(env: Env, ops: seq<Op>, i: nat): Obs
    requires i < |ops|
  {
    MemoryStep(env, MemoryAfter(env, ops[..i]), ops[i]).1
  }

  ghost function FileObs(env: Env, readdir: Readdir, ops: seq<Op>, i: nat): Obs
    requires i < |ops| && ListsEachOnce(readdir)
  {
    FileStep(env, readdir, FilesAfter(env, readdir, ops[..i]), ops[i]).1
  }

  /** What a caller may tell apart: only which conflict, with which record, and ties in a list. */
  ghost predicate Agree(a: Obs, b: Obs) {
    match (a, b)
    case (PutObs(p), PutObs(q)) =>
      VerdictOf(p.outcome) == VerdictOf(q.outcome) && (VerdictOf(p.outcome) != Turned ==> p.record == q.record)
    case (ListObs(x), ListObs(y)) => ListingsAgree(x, y)
    case (AckObs(x), AckObs(y)) => x == y
    case _ => false
  }

  /** The strings an operation hashes. */
  ghost predicate OpTexts(env: Env, texts: set<string>, op: Op) {
    match op
    case PutOp(r) => TextsOf(env, texts, r)
    case ListOp(_) => true
    case AckOp(recipient, id, _) => KeyText(recipient, id) in texts
  }

  /** Puts carry checked records, and `texts` holds every hashed string. */
  ghost predicate OpsFit(env: Env, texts: set<string>, ops: seq<Op>) {
    forall i :: 0 <= i < |ops| ==> OpTexts(env, texts, ops[i]) && (ops[i].PutOp? ==> Checked(env, ops[i].record))
  }

  ghost predicate InStep(env: Env, texts: set<string>, m: Memory, dir: Files) {
    Sound(env, m) && AllTexts(env, texts, m) && Mirrors(env.sha, m, dir)
  }

  lemma StepRefines(env: Env, texts: set<string>, readdir: Readdir, m: Memory, dir: Files, op: Op)
    requires Honest(env) && ListsEachOnce(readdir) && InjectiveOn(env.sha, texts)
    requires InStep(env, texts, m, dir) && OpTexts(env, texts, op) && (op.PutOp? ==> Checked(env, op.record))
    ensures InStep(env, texts, MemoryStep(env, m, op).0, FileStep(env, readdir, dir, op).0)
    ensures Agree(MemoryStep(env, m, op).1, FileStep(env, readdir, dir, op).1)
  {
    hide Checked, Honest, KeyText, KeyOf, ListFor, MemoryPut, FilePut, MemoryAck, FileAck, Sound, Mirrors, AllTexts;
    var names := readdir(dir.Keys);
    match op
    case PutOp(r) =>
      MemoryPutSound(env, texts, m, r);
      PutRefines(env, texts, m, dir, names, r);
    case ListOp(recipient) =>
      ListRefines(env, m, dir, names, recipient);
    case AckOp(recipient, id, a) =>
      AckRefines(env, texts, m, dir, recipient, id, a);
  }

  lemma {:induction false} StaysInStep(env: Env, texts: set<string>, readdir: Readdir, ops: seq<Op>)
    requires Honest(env) && ListsEachOnce(readdir) && InjectiveOn(env.sha, texts) && OpsFit(env, texts, ops)
    ensures InStep(env, texts, MemoryAfter(env, ops), FilesAfter(env, readdir, ops))
    decreases |ops|
  {
    hide Honest, MemoryStep, FileStep;
    if ops != [] {
      var init, last := ops[..|ops| - 1], ops[|ops| - 1];
      StaysInStep(env, texts, readdir, init);
      StepRefines(env, texts, readdir, MemoryAfter(env, init), FilesAfter(env, readdir, init), last);
    }
  }

  /** For every sequence of put, list and acknowledge the two stores hold the same records and
      answer alike, unless two of the strings hashed on the way collide. */
  lemma FileRefinesMemory(env: Env, texts: set<string>, readdir: Readdir, ops: seq<Op>)
    requires Honest(env) && ListsEachOnce(readdir) && OpsFit(env, texts, ops)
    ensures (Mirrors(env.sha, MemoryAfter(env, ops), FilesAfter(env, readdir, ops))
             && forall i :: 0 <= i < |ops| ==> Agree(MemoryObs(env, ops, i), FileObs(env, readdir, ops, i)))
         || (exists x, y :: x in texts && y in texts && Collides(env.sha, x, y))
  {
    hide Honest, MemoryStep, FileStep, Mirrors, Agree;
    if InjectiveOn(env.sha, texts) {
      StaysInStep(env, texts, readdir, ops);
      forall i | 0 <= i < |ops| ensures Agree(MemoryObs(env, ops, i), FileObs(env, readdir, ops, i)) {
        assert OpsFit(env, texts, ops[..i]);
        StaysInStep(env, texts, readdir, ops[..i]);
        StepRefines(env, texts, readdir, MemoryAfter(env, ops[..i]), FilesAfter(env, readdir, ops[..i]), ops[i]);
      }
    } else {
      var x, y :| x in texts && y in texts && env.sha(x) == env.sha(y) && x != y;
      assert Collides(env.sha, x, y);
    }
  }

  // ----- first write wins --------------------------------------------------

  /** Records stay, keep their delivery fields, and keep an acknowledgement once they have one. */
  ghost predicate Evolves(m: Memory, n: Memory) {
    forall k :: k in m.vals ==>
      k in n.vals && Delivery(n.vals[k]) == Delivery(m.vals[k])
      && (m.vals[k].ack.Some? ==> n.vals[k].ack == m.vals[k].ack)
  }

  lemma StepEvolves(env: Env, m: Memory, op: Op)
    requires m.Valid()
    ensures Evolves(m, MemoryStep(env, m, op).0)
  {
    hide Checked, KeyText, KeyOf, ListFor;
  }

  lemma {:induction false} RunEvolves(env: Env, ops: seq<Op>, i: nat)
    requires i <= |ops|
    ensures Evolves(MemoryAfter(env, ops[..i]), MemoryAfter(env, ops))
    decreases |ops|
  {
    hide MemoryStep;
    if i == |ops| {
      assert ops[..i] == ops;
    } else {
      var init := ops[..|ops| - 1];
      RunEvolves(env, init, i);
      assert init[..i] == ops[..i];
      StepEvolves(env, MemoryAfter(env, init), ops[|ops| - 1]);
    }
  }

  /** An acknowledge that answers with a record leaves that record in the store, acknowledged. */
  lemma AckHolds(env: Env, m: Memory, recipientId: string, envelopeId: string, a: Ack)
    requires m.Valid()
    ensures var (n, result) := MemoryAck(env, m, recipientId, envelopeId, a);
            result.Held? ==>
              KeyText(recipientId, envelopeId) in n.vals && n.vals[KeyText(recipientId, envelopeId)] == result.record
              && result.record.ack.Some?
    ensures var k := KeyText(recipientId, envelopeId);
            k in m.vals && m.vals[k].ack.Some? ==> MemoryAck(env, m, recipientId, envelopeId, a).1 == Held(m.vals[k])
  {
    hide Checked, KeyText;
  }

  /** Over every interleaving of operations, any two answers of acknowledge for one envelope are
      the same record with the same acknowledgement: the first one written. */
  lemma FirstWriteWins(env: Env, ops: seq<Op>, i: nat, j: nat)
    requires i < j < |ops| && ops[i].AckOp? && ops[j].AckOp?
    requires ops[i].recipientId == ops[j].recipientId && ops[i].envelopeId == ops[j].envelopeId
    requires MemoryObs(env, ops, i).acked.Held?
    ensures MemoryObs(env, ops, j) == MemoryObs(env, ops, i)
  {
    hide KeyText, MemoryAck;
    var key := KeyText(ops[i].recipientId, ops[i].envelopeId);
    var before, after := MemoryAfter(env, ops[..i]), MemoryAfter(env, ops[..i + 1]);
    assert ops[..i + 1][..i] == ops[..i];
    AckHolds(env, before, ops[i].recipientId, ops[i].envelopeId, ops[i].ack);
    RunEvolves(env, ops[..j], i + 1);
    assert ops[..j][..i + 1] == ops[..i + 1];
    AckHolds(env, MemoryAfter(env, ops[..j]), ops[j].recipientId, ops[j].envelopeId, ops[j].ack);
    var held := MemoryObs(env, ops, i).acked.record;
    assert after.vals[key] == held;
    AckedIsWhole(held, MemoryAfter(env, ops[..j]).vals[key]);
  }

  lemma AckedIsWhole(a: Stored, b: Stored)
    requires Delivery(a) == Delivery(b) && a.ack == b.ack
    ensures a == b
  {
    assert a == Delivery(a).(ack := a.ack) && b == Delivery(b).(ack := b.ack);
  }
}
