/** Exactly when the two stores of lib/agent-mailbox.ts agree.  Both take any record, checked or not. */
module MailboxAgreement {
  import opened Common
  import opened MailboxRecords
  import opened MailboxStores
  import opened MailboxRuns

  // ----- one put -----------------------------------------------------------

  ghost predicate Free(m: Memory, r: Stored) {
    KeyOf(r) !in m.vals && forall k :: k in m.vals ==> !SameSlot(m.vals[k], r)
  }

  ghost predicate DigestOfHeld(m: Memory, k: string, r: Stored) {
    k in m.vals && m.vals[k].envelopeDigest == r.envelopeDigest
  }

  /** The record under the id and the record in the slot are two, and exactly one has r's digest. */
  ghost predicate Splits(m: Memory, r: Stored) {
    KeyOf(r) in m.vals
    && exists l :: l in m.vals && l != KeyOf(r) && SameSlot(m.vals[l], r)
                   && (DigestOfHeld(m, KeyOf(r), r) != DigestOfHeld(m, l, r))
  }

  /** Both answer, with one verdict. */
  ghost predicate VerdictsAgree(a: PutResult, b: Option<PutResult>) {
    b.Some? && VerdictOf(a.outcome) == VerdictOf(b.value.outcome)
    && (VerdictOf(a.outcome) != Turned ==> a.record == b.value.record)
  }

  /** From stores in step, and for an arbitrary record, the answers agree exactly when the record does
      not split the stores and, if both keys are free, it can be written at all. */
  lemma PutsAgreeExactly(env: Env, texts: set<string>, m: Memory, dir: Files, names: seq<string>, r: Stored)
    requires Honest(env) && Sound(env, m) && Mirrors(env.sha, m, dir) && Lists(names, dir)
    requires InjectiveOn(env.sha, texts) && AllTexts(env, texts, m) && KeyOf(r) in texts
    ensures forall i :: 0 <= i < |names| ==> names[i] in dir
    ensures VerdictsAgree(MemoryPut(m, r).1, FilePut(env, dir, names, r).1)
            <==> !Splits(m, r) && (Free(m, r) ==> env.canonical(StoredDoc(r)).Some?)
  {
    hide Checked, KeyOf, Honest, MemoryPut, FilePut, Sound, Mirrors, AllTexts, SameSlot, Free, Splits;
    FilesReadable(env, m, dir, names);
    if KeyOf(r) in m.vals {
      if l :| l in m.vals && SameSlot(m.vals[l], r) {
        BothTaken(env, texts, m, dir, names, r, l);
      } else {
        OnlyIdTaken(env, texts, m, dir, names, r);
      }
    } else if l :| l in m.vals && SameSlot(m.vals[l], r) {
      OnlySlotTaken(env, texts, m, dir, names, r, l);
    } else {
      NeitherTaken(env, texts, m, dir, names, r);
    }
  }

  /** What each store answers when the slot of the record is held by `l`. */
  lemma SlotAnswers(env: Env, m: Memory, dir: Files, names: seq<string>, r: Stored, l: string)
    requires Sound(env, m) && Mirrors(env.sha, m, dir) && Lists(names, dir)
    requires l in m.vals && SameSlot(m.vals[l], r) && forall i :: 0 <= i < |names| ==> names[i] in dir
    ensures FilePut(env, dir, names, r) == (dir, Some(Compare(m.vals[l], r, ThreadSequenceConflict)))
    ensures KeyOf(r) !in m.vals ==> MemoryPut(m, r) == (m, Compare(m.vals[l], r, ThreadSequenceConflict))
  {
    hide Checked, KeyOf, FindSlot, Values, ReadAll, Mirrors;
    FilesReadable(env, m, dir, names);
    FoundInMemory(m, r);
    FoundInFiles(env.sha, m, dir, names, r);
    SlotUnique(env, m, r, l);
  }

  lemma SlotUnique(env: Env, m: Memory, r: Stored, l: string)
    requires Sound(env, m) && l in m.vals && SameSlot(m.vals[l], r)
    ensures forall k :: k in m.vals && SameSlot(m.vals[k], r) ==> k == l
  {
    hide Checked, KeyOf;
    forall k | k in m.vals && SameSlot(m.vals[k], r) ensures k == l {
      assert SameSlot(m.vals[k], m.vals[l]);
    }
  }

  lemma BothTaken(env: Env, texts: set<string>, m: Memory, dir: Files, names: seq<string>, r: Stored, l: string)
    requires Honest(env) && Sound(env, m) && Mirrors(env.sha, m, dir) && Lists(names, dir)
    requires InjectiveOn(env.sha, texts) && AllTexts(env, texts, m)
    requires KeyOf(r) in m.vals && l in m.vals && SameSlot(m.vals[l], r)
    requires forall i :: 0 <= i < |names| ==> names[i] in dir
    ensures !Free(m, r) && (VerdictsAgree(MemoryPut(m, r).1, FilePut(env, dir, names, r).1) <==> !Splits(m, r))
    ensures MemoryPut(m, r).0 == m && FilePut(env, dir, names, r).0 == dir
  {
    hide Checked, KeyOf, Honest, MemoryPut, FilePut, Mirrors, SameSlot, Splits, Sound, AllTexts, Lists;
    SoundValid(env, m);
    SlotAnswers(env, m, dir, names, r, l);
    IdAnswers(m, r);
    SplitsAt(env, m, r, l);
    if l != KeyOf(r) && DigestOfHeld(m, l, r) && DigestOfHeld(m, KeyOf(r), r) {
      OneDigestOneRecord(env, texts, m, KeyOf(r), l);
    }
  }

  lemma SoundValid(env: Env, m: Memory)
    requires Sound(env, m)
    ensures m.Valid()
  {
    hide Checked, KeyOf;
  }

  lemma IdAnswers(m: Memory, r: Stored)
    requires m.Valid() && KeyOf(r) in m.vals
    ensures MemoryPut(m, r) == (m, Compare(m.vals[KeyOf(r)], r, EnvelopeIdConflict))
  {
    hide KeyOf, FindSlot, Values;
  }

  lemma SplitsAt(env: Env, m: Memory, r: Stored, l: string)
    requires Sound(env, m) && KeyOf(r) in m.vals && l in m.vals && SameSlot(m.vals[l], r)
    ensures Splits(m, r) <==> l != KeyOf(r) && DigestOfHeld(m, KeyOf(r), r) != DigestOfHeld(m, l, r)
  {
    SlotUnique(env, m, r, l);
    hide Sound, KeyOf, SameSlot;
  }

  lemma OneDigestOneRecord(env: Env, texts: set<string>, m: Memory, k: string, l: string)
    requires Honest(env) && Sound(env, m) && InjectiveOn(env.sha, texts) && AllTexts(env, texts, m)
    requires k in m.vals && l in m.vals && m.vals[k].envelopeDigest == m.vals[l].envelopeDigest
    ensures k == l
  {
    hide Checked, KeyOf, Honest, TextsOf;
    SameDigestSameEnvelope(env, texts, m.vals[k], m.vals[l]);
  }

  lemma OnlyIdTaken(env: Env, texts: set<string>, m: Memory, dir: Files, names: seq<string>, r: Stored)
    requires Honest(env) && Sound(env, m) && Mirrors(env.sha, m, dir) && Lists(names, dir)
    requires InjectiveOn(env.sha, texts) && AllTexts(env, texts, m) && KeyOf(r) in texts
    requires KeyOf(r) in m.vals && forall k :: k in m.vals ==> !SameSlot(m.vals[k], r)
    requires forall i :: 0 <= i < |names| ==> names[i] in dir
    ensures !Free(m, r) && !Splits(m, r) && VerdictsAgree(MemoryPut(m, r).1, FilePut(env, dir, names, r).1)
    ensures MemoryPut(m, r).0 == m && FilePut(env, dir, names, r).0 == dir
  {
    hide Checked, KeyOf, Honest, FindSlot, Values, ReadAll, Mirrors, SameSlot;
    FilesReadable(env, m, dir, names);
    FoundInFiles(env.sha, m, dir, names, r);
    NameTaken(env, texts, m, dir, r);
  }

  lemma OnlySlotTaken(env: Env, texts: set<string>, m: Memory, dir: Files, names: seq<string>, r: Stored, l: string)
    requires Sound(env, m) && Mirrors(env.sha, m, dir) && Lists(names, dir)
    requires KeyOf(r) !in m.vals && l in m.vals && SameSlot(m.vals[l], r)
    requires forall i :: 0 <= i < |names| ==> names[i] in dir
    ensures !Free(m, r) && !Splits(m, r) && VerdictsAgree(MemoryPut(m, r).1, FilePut(env, dir, names, r).1)
    ensures MemoryPut(m, r).0 == m && FilePut(env, dir, names, r).0 == dir
  {
    hide Checked, KeyOf, MemoryPut, FilePut, Mirrors, SameSlot, Sound, Lists;
    SlotAnswers(env, m, dir, names, r, l);
  }

  lemma NeitherTaken(env: Env, texts: set<string>, m: Memory, dir: Files, names: seq<string>, r: Stored)
    requires Sound(env, m) && Mirrors(env.sha, m, dir) && Lists(names, dir)
    requires InjectiveOn(env.sha, texts) && AllTexts(env, texts, m) && KeyOf(r) in texts
    requires KeyOf(r) !in m.vals && forall k :: k in m.vals ==> !SameSlot(m.vals[k], r)
    requires forall i :: 0 <= i < |names| ==> names[i] in dir
    ensures Free(m, r) && !Splits(m, r)
    ensures VerdictsAgree(MemoryPut(m, r).1, FilePut(env, dir, names, r).1) <==> env.canonical(StoredDoc(r)).Some?
    ensures MemoryPut(m, r).0 == m.Set(KeyOf(r), r) && FilePut(env, dir, names, r).0 == dir[env.sha(KeyOf(r)) := r]
    ensures env.sha(KeyOf(r)) !in dir && MemoryPut(m, r).1 == PutResult(StoredNew, r)
    ensures FilePut(env, dir, names, r).1.None? <==> env.canonical(StoredDoc(r)).None?
  {
    hide Checked, KeyOf, FindSlot, Values, ReadAll, Mirrors, SameSlot;
    FilesReadable(env, m, dir, names);
    FoundInMemory(m, r);
    FoundInFiles(env.sha, m, dir, names, r);
    NameTaken(env, texts, m, dir, r);
  }

  /** Whatever both stores held two records of one recipient for, a record with the id and the digest of
      the first and the slot of the second is a duplicate to one store and a conflict to the other. */
  lemma SplitWitness(env: Env, texts: set<string>, m: Memory, dir: Files, names: seq<string>, k: string, l: string)
    returns (r: Stored)
    requires Honest(env) && Sound(env, m) && Mirrors(env.sha, m, dir) && Lists(names, dir)
    requires InjectiveOn(env.sha, texts) && AllTexts(env, texts, m)
    requires k in m.vals && l in m.vals && k != l && m.vals[k].recipientId == m.vals[l].recipientId
    ensures forall i :: 0 <= i < |names| ==> names[i] in dir
    ensures Splits(m, r) && MemoryPut(m, r).1.outcome == Duplicate
    ensures FilePut(env, dir, names, r).1 == Some(PutResult(ThreadSequenceConflict, m.vals[l]))
  {
    hide Checked, Honest, FilePut, MemoryPut, Mirrors, Splits, AllTexts;
    FilesReadable(env, m, dir, names);
    var a, b := m.vals[k], m.vals[l];
    r := a.(envelope := a.envelope.(senderId := b.envelope.senderId, threadId := b.envelope.threadId,
                                    sequence := b.envelope.sequence));
    KeyFollows(r, a);
    assert SameSlot(b, r) && KeyOf(r) == k;
    hide KeyOf, Sound;
    SoundValid(env, m);
    if a.envelopeDigest == b.envelopeDigest {
      OneDigestOneRecord(env, texts, m, k, l);
    }
    SlotAnswers(env, m, dir, names, r, l);
    IdAnswers(m, r);
    SplitsAt(env, m, r, l);
  }

  // ----- whole runs --------------------------------------------------------

  /** A put that does not split the stores, and that is checked if it is going to be kept. */
  ghost predicate Fine(env: Env, m: Memory, op: Op) {
    op.PutOp? ==> !Splits(m, op.record) && (Free(m, op.record) ==> Checked(env, op.record))
  }

  ghost predicate AllFine(env: Env, ops: seq<Op>) {
    forall i :: 0 <= i < |ops| ==> Fine(env, MemoryAfter(env, ops[..i]), ops[i])
  }

  /** The strings an operation hashes, for an arbitrary record. */
  ghost predicate Hashed(env: Env, texts: set<string>, op: Op) {
    match op
    case PutOp(r) =>
      KeyOf(r) in texts
      && (env.canonical(EnvelopeDoc(r.envelope)).Some? ==> env.canonical(EnvelopeDoc(r.envelope)).value in texts)
    case ListOp(_) => true
    case AckOp(recipient, id, _) => KeyText(recipient, id) in texts
  }

  ghost predicate AllHashed(env: Env, texts: set<string>, ops: seq<Op>) {
    forall i :: 0 <= i < |ops| ==> Hashed(env, texts, ops[i])
  }

  lemma CheckedTexts(env: Env, texts: set<string>, r: Stored)
    requires Checked(env, r) && Hashed(env, texts, PutOp(r))
    ensures TextsOf(env, texts, r)
  {
  }

  lemma FineStepRefines(env: Env, texts: set<string>, readdir: Readdir, m: Memory, dir: Files, op: Op)
    requires Honest(env) && ListsEachOnce(readdir) && InjectiveOn(env.sha, texts)
    requires InStep(env, texts, m, dir) && Hashed(env, texts, op) && Fine(env, m, op)
    ensures m.Valid() && InStep(env, texts, MemoryStep(env, m, op).0, FileStep(env, readdir, dir, op).0)
    ensures Agree(MemoryStep(env, m, op).1, FileStep(env, readdir, dir, op).1)
  {
    hide Honest, KeyOf, Checked, Free, Splits, MemoryPut, FilePut, MemoryAck, FileAck, FileList, ListFor, Mirrors,
         AllTexts;
    if op.PutOp? && !Free(m, op.record) {
      PutsAgreeExactly(env, texts, m, dir, readdir(dir.Keys), op.record);
      NotFreeUnchanged(env, texts, m, dir, readdir(dir.Keys), op.record);
    } else {
      if op.PutOp? {
        CheckedTexts(env, texts, op.record);
      }
      StepRefines(env, texts, readdir, m, dir, op);
    }
  }

  lemma NotFreeUnchanged(env: Env, texts: set<string>, m: Memory, dir: Files, names: seq<string>, r: Stored)
    requires Honest(env) && Sound(env, m) && Mirrors(env.sha, m, dir) && Lists(names, dir) && !Free(m, r)
    requires InjectiveOn(env.sha, texts) && AllTexts(env, texts, m) && KeyOf(r) in texts
    requires forall i :: 0 <= i < |names| ==> names[i] in dir
    ensures MemoryPut(m, r).0 == m && FilePut(env, dir, names, r).0 == dir
  {
    hide Checked, KeyOf, Honest, MemoryPut, FilePut, Sound, Mirrors, AllTexts, SameSlot;
    if l :| l in m.vals && SameSlot(m.vals[l], r) {
      if KeyOf(r) in m.vals {
        BothTaken(env, texts, m, dir, names, r, l);
      } else {
        OnlySlotTaken(env, texts, m, dir, names, r, l);
      }
    } else {
      OnlyIdTaken(env, texts, m, dir, names, r);
    }
  }

  lemma {:induction false} FineStaysInStep(env: Env, texts: set<string>, readdir: Readdir, ops: seq<Op>)
    requires Honest(env) && ListsEachOnce(readdir) && InjectiveOn(env.sha, texts)
    requires AllHashed(env, texts, ops) && AllFine(env, ops)
    ensures InStep(env, texts, MemoryAfter(env, ops), FilesAfter(env, readdir, ops))
    decreases |ops|
  {
    hide Honest, MemoryStep, FileStep, Fine, Hashed;
    if ops != [] {
      var init, last := ops[..|ops| - 1], ops[|ops| - 1];
      assert forall i :: 0 <= i < |init| ==> init[..i] == ops[..i] && init[i] == ops[i];
      FineStaysInStep(env, texts, readdir, init);
      FineStepRefines(env, texts, readdir, MemoryAfter(env, init), FilesAfter(env, readdir, init), last);
    }
  }

  // ----- a file that fails its check ---------------------------------------

  ghost predicate Poisoned(env: Env, dir: Files) {
    exists n :: n in dir && !Checked(env, dir[n])
  }

  /** From then on every put and every list of every recipient throws and changes nothing, and no
      acknowledgement repairs it. */
  lemma PoisonStays(env: Env, readdir: Readdir, dir: Files, op: Op)
    requires ListsEachOnce(readdir) && Poisoned(env, dir)
    ensures Poisoned(env, FileStep(env, readdir, dir, op).0)
    ensures !op.AckOp? ==> FileStep(env, readdir, dir, op) == (dir, Threw)
  {
    var n :| n in dir && !Checked(env, dir[n]);
    var names := readdir(dir.Keys);
    assert n in names && forall i :: 0 <= i < |names| ==> names[i] in names;
    var i :| 0 <= i < |names| && names[i] == n;
    assert ReadAll(dir, names)[i] == dir[n];
    assert !Readable(env, ReadAll(dir, names));
    hide Checked, KeyOf, KeyText, FileOutcome, ListFor;
    if op.AckOp? {
      assert n in FileStep(env, readdir, dir, op).0 && FileStep(env, readdir, dir, op).0[n] == dir[n];
    }
  }

  lemma {:induction false} PoisonedRun(env: Env, readdir: Readdir, ops: seq<Op>, i: nat)
    requires ListsEachOnce(readdir) && i <= |ops| && Poisoned(env, FilesAfter(env, readdir, ops[..i]))
    ensures Poisoned(env, FilesAfter(env, readdir, ops))
    decreases |ops|
  {
    hide FileStep, Poisoned;
    if i == |ops| {
      assert ops[..i] == ops;
    } else {
      var init := ops[..|ops| - 1];
      assert init[..i] == ops[..i];
      PoisonedRun(env, readdir, init, i);
      PoisonStays(env, readdir, FilesAfter(env, readdir, init), ops[|ops| - 1]);
    }
  }

  /** Once a file fails its check, every later put and list of every run throws. */
  lemma PoisonedForGood(env: Env, readdir: Readdir, ops: seq<Op>, i: nat, j: nat)
    requires ListsEachOnce(readdir) && i <= j < |ops| && Poisoned(env, FilesAfter(env, readdir, ops[..i]))
             && !ops[j].AckOp?
    ensures FileObs(env, readdir, ops, j) == Threw
    ensures FilesAfter(env, readdir, ops[..j + 1]) == FilesAfter(env, readdir, ops[..j])
  {
    hide FileStep, Poisoned;
    assert ops[..j][..i] == ops[..i] && ops[..j + 1][..j] == ops[..j];
    PoisonedRun(env, readdir, ops[..j], i);
    PoisonStays(env, readdir, FilesAfter(env, readdir, ops[..j]), ops[j]);
  }

  /** A record that both keep and that fails its check poisons the directory; the put itself throws
      exactly when the record cannot be canonicalized. */
  lemma UncheckedPutPoisons(env: Env, texts: set<string>, readdir: Readdir, m: Memory, dir: Files, r: Stored)
    requires ListsEachOnce(readdir) && InjectiveOn(env.sha, texts) && InStep(env, texts, m, dir)
    requires Hashed(env, texts, PutOp(r)) && Free(m, r) && !Checked(env, r)
    ensures var (dir', obs) := FileStep(env, readdir, dir, PutOp(r));
            Poisoned(env, dir') && (obs == Threw <==> env.canonical(StoredDoc(r)).None?)
  {
    var names := readdir(dir.Keys);
    hide Checked, KeyOf, SameSlot, Mirrors, AllTexts, Sound, MemoryPut, FilePut;
    FilesReadable(env, m, dir, names);
    NeitherTaken(env, texts, m, dir, names, r);
    assert dir[env.sha(KeyOf(r)) := r][env.sha(KeyOf(r))] == r;
  }

  // ----- the exact condition -----------------------------------------------

  /** All answers agree, up to and including a list at the end. */
  ghost predicate AnswersAgree(env: Env, readdir: Readdir, ops: seq<Op>, recipientId: string)
    requires ListsEachOnce(readdir)
  {
    var all := ops + [ListOp(recipientId)];
    forall i :: 0 <= i < |all| ==> Agree(MemoryObs(env, all, i), FileObs(env, readdir, all, i))
  }

  /** For every sequence of operations on arbitrary records followed by a list, the two stores answer
      alike exactly when every put was fine where it happened, or two hashed strings collide. */
  lemma RefinesExactly(env: Env, texts: set<string>, readdir: Readdir, ops: seq<Op>, recipientId: string)
    requires Honest(env) && ListsEachOnce(readdir) && AllHashed(env, texts, ops)
    ensures (AnswersAgree(env, readdir, ops, recipientId) <==> AllFine(env, ops))
         || (exists x, y :: x in texts && y in texts && Collides(env.sha, x, y))
  {
    if InjectiveOn(env.sha, texts) {
      if AllFine(env, ops) {
        FineAgrees(env, texts, readdir, ops, recipientId);
      } else {
        NotFineDiffers(env, texts, readdir, ops, recipientId);
      }
    } else {
      hide Honest;
      var x, y :| x in texts && y in texts && env.sha(x) == env.sha(y) && x != y;
      assert Collides(env.sha, x, y);
    }
  }

  lemma FineAgrees(env: Env, texts: set<string>, readdir: Readdir, ops: seq<Op>, recipientId: string)
    requires Honest(env) && ListsEachOnce(readdir) && InjectiveOn(env.sha, texts)
    requires AllHashed(env, texts, ops) && AllFine(env, ops)
    ensures AnswersAgree(env, readdir, ops, recipientId)
  {
    hide Honest, MemoryStep, FileStep, Fine, Hashed, Agree, InStep;
    var all := ops + [ListOp(recipientId)];
    forall i | 0 <= i < |all| ensures Agree(MemoryObs(env, all, i), FileObs(env, readdir, all, i)) {
      assert all[..i] == ops[..i];
      FinePrefix(env, texts, ops, i);
      FineStaysInStep(env, texts, readdir, ops[..i]);
      ListIsFine(env, texts, MemoryAfter(env, ops[..i]), recipientId);
      FineStepRefines(env, texts, readdir, MemoryAfter(env, all[..i]), FilesAfter(env, readdir, all[..i]), all[i]);
    }
  }

  lemma FinePrefix(env: Env, texts: set<string>, ops: seq<Op>, n: nat)
    requires n <= |ops| && AllHashed(env, texts, ops) && forall i :: 0 <= i < n ==>
               Fine(env, MemoryAfter(env, ops[..i]), ops[i])
    ensures AllHashed(env, texts, ops[..n]) && AllFine(env, ops[..n])
  {
    hide Fine, Hashed;
    assert forall i :: 0 <= i < n ==> ops[..n][..i] == ops[..i] && ops[..n][i] == ops[i];
  }

  lemma ListIsFine(env: Env, texts: set<string>, m: Memory, recipientId: string)
    ensures Fine(env, m, ListOp(recipientId)) && Hashed(env, texts, ListOp(recipientId))
  {
  }

  lemma NotFineDiffers(env: Env, texts: set<string>, readdir: Readdir, ops: seq<Op>, recipientId: string)
    requires Honest(env) && ListsEachOnce(readdir) && InjectiveOn(env.sha, texts)
    requires AllHashed(env, texts, ops) && !AllFine(env, ops)
    ensures !AnswersAgree(env, readdir, ops, recipientId)
  {
    hide Honest, MemoryStep, FileStep, Fine, Hashed, Agree, InStep, Poisoned;
    var n :| 0 <= n < |ops| && !Fine(env, MemoryAfter(env, ops[..n]), ops[n]);
    var i := FirstNotFine(env, ops, n);
    FinePrefix(env, texts, ops, i);
    FineStaysInStep(env, texts, readdir, ops[..i]);
    NotFinePut(env, texts, readdir, MemoryAfter(env, ops[..i]), FilesAfter(env, readdir, ops[..i]), ops[i]);
    DiffersLater(env, readdir, ops, i, recipientId);
  }

  lemma DiffersLater(env: Env, readdir: Readdir, ops: seq<Op>, i: nat, recipientId: string)
    requires ListsEachOnce(readdir) && i < |ops|
    requires var (m, dir) := (MemoryAfter(env, ops[..i]), FilesAfter(env, readdir, ops[..i]));
             !Agree(MemoryStep(env, m, ops[i]).1, FileStep(env, readdir, dir, ops[i]).1)
             || Poisoned(env, FileStep(env, readdir, dir, ops[i]).0)
    ensures !AnswersAgree(env, readdir, ops, recipientId)
  {
    hide MemoryStep, FileStep, Agree, Poisoned;
    var all := ops + [ListOp(recipientId)];
    assert all[..i] == ops[..i] && all[..i + 1][..i] == ops[..i];
    if Agree(MemoryObs(env, all, i), FileObs(env, readdir, all, i)) {
      PoisonedForGood(env, readdir, all, i + 1, |ops|);
      ThrewDiffers(env, all, |ops|);
    }
  }

  lemma ThrewDiffers(env: Env, ops: seq<Op>, i: nat)
    requires i < |ops|
    ensures !Agree(MemoryObs(env, ops, i), Threw)
  {
    hide MemoryStep;
  }

  lemma {:induction false} FirstNotFine(env: Env, ops: seq<Op>, n: nat) returns (i: nat)
    requires n < |ops| && !Fine(env, MemoryAfter(env, ops[..n]), ops[n])
    ensures i < |ops| && !Fine(env, MemoryAfter(env, ops[..i]), ops[i])
    ensures forall j :: 0 <= j < i ==> Fine(env, MemoryAfter(env, ops[..j]), ops[j])
    decreases n
  {
    hide Fine, MemoryAfter;
    if j :| 0 <= j < n && !Fine(env, MemoryAfter(env, ops[..j]), ops[j]) {
      i := FirstNotFine(env, ops, j);
    } else {
      i := n;
    }
  }

  /** The first put that is not fine is answered differently at once, or poisons the directory. */
  lemma NotFinePut(env: Env, texts: set<string>, readdir: Readdir, m: Memory, dir: Files, op: Op)
    requires Honest(env) && ListsEachOnce(readdir) && InjectiveOn(env.sha, texts)
    requires InStep(env, texts, m, dir) && Hashed(env, texts, op) && !Fine(env, m, op)
    ensures m.Valid() && (!Agree(MemoryStep(env, m, op).1, FileStep(env, readdir, dir, op).1)
                          || Poisoned(env, FileStep(env, readdir, dir, op).0))
  {
    hide Honest, KeyOf, Checked, Free, Splits, MemoryPut, FilePut, Mirrors, AllTexts, Poisoned;
    PutsAgreeExactly(env, texts, m, dir, readdir(dir.Keys), op.record);
    if !Splits(m, op.record) {
      UncheckedPutPoisons(env, texts, readdir, m, dir, op.record);
    }
  }

  /** A record over a limit, put where both keys are free after a run that went well: the memory store
      keeps it, the file store throws, and from then on the file store throws on every put and on the
      list of every recipient. */
  lemma OversizedBlocksEveryone(env: Env, texts: set<string>, readdir: Readdir, ops: seq<Op>, i: nat, j: nat)
    requires Honest(env) && Limited(env) && ListsEachOnce(readdir) && InjectiveOn(env.sha, texts)
    requires i < j < |ops| && AllHashed(env, texts, ops[..i + 1]) && AllFine(env, ops[..i])
    requires ops[i].PutOp? && Free(MemoryAfter(env, ops[..i]), ops[i].record) && !Fits(StoredDoc(ops[i].record))
    requires !ops[j].AckOp?
    ensures MemoryObs(env, ops, i) == PutObs(PutResult(StoredNew, ops[i].record))
    ensures FileObs(env, readdir, ops, i) == Threw && FileObs(env, readdir, ops, j) == Threw
  {
    var r := ops[i].record;
    assert env.canonical(StoredDoc(r)).None? && !Checked(env, r);
    assert ops[..i + 1][i] == ops[i] && ops[..i + 1][..i] == ops[..i];
    assert forall k :: 0 <= k < i ==> ops[..i + 1][k] == ops[..i][k];
    hide Honest, Limited, Fits, Checked, Free, Fine, Hashed, Poisoned, InjectiveOn, InStep, FileStep, MemoryPut, KeyOf;
    FineStaysInStep(env, texts, readdir, ops[..i]);
    var m, dir := MemoryAfter(env, ops[..i]), FilesAfter(env, readdir, ops[..i]);
    UncheckedPutPoisons(env, texts, readdir, m, dir, r);
    KeptInMemory(m, r);
    PoisonedForGood(env, readdir, ops, i + 1, j);
  }

  lemma KeptInMemory(m: Memory, r: Stored)
    requires m.Valid() && Free(m, r)
    ensures MemoryPut(m, r) == (m.Set(KeyOf(r), r), PutResult(StoredNew, r))
  {
    hide KeyOf, FindSlot, Values;
    FoundInMemory(m, r);
  }
}
