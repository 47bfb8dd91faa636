/** The anchor pipeline of lib/blockchain.ts as a state machine: any number of workers fetch
    unanchored receipts, persist a batch row, claim the receipts, publish the root and confirm.
    A worker may fail or crash between any two steps. */
module AnchorPipeline {
  import opened Common
  import opened MerkleShape
  import opened ReceiptMerkle

  type ReceiptId = string
  type BatchId = string

  datatype Claim = Claim(batch: BatchId, proof: seq<Step<string>>, leafIndex: nat)
  datatype Receipt = Receipt(hash: string, claim: Option<Claim>)
  datatype BatchRow = BatchRow(root: string, leafCount: nat, confirmed: bool)

  /** A transaction on chain.  `ids` is history: the receipts whose hashes are the leaves. */
  datatype Publication = Publication(batch: BatchId, root: string, ids: seq<ReceiptId>)

  /** What a worker holds in memory after its fetch. */
  datatype Job = Job(batch: BatchId, ids: seq<ReceiptId>, hashes: seq<string>)

  datatype Phase =
    | Idle
    | Leased
    | Fetched(job: Job)
    | Persisted(job: Job)
    | Claimed(job: Job)
    | Published(job: Job)

  datatype State = State(
    receipts: map<ReceiptId, Receipt>,
    rows: map<BatchId, BatchRow>,
    chain: seq<Publication>,
    lease: Option<nat>,
    workers: map<nat, Phase>)
  {
    function At(w: nat): Phase {
      if w in workers then workers[w] else Idle
    }

    function Move(w: nat, p: Phase): State {
      this.(workers := workers[w := p])
    }
  }

  datatype Action =
    | NewReceipt(id: ReceiptId, hash: string)
    | Acquire(w: nat)
    | Lapse
    | Fetch(w: nat, batch: BatchId, ids: seq<ReceiptId>)
    | Persist(w: nat)
    | ClaimAll(w: nat)
    | Publish(w: nat)
    | SkipChain(w: nat)
    | Confirm(w: nat)
    | Stop(w: nat, released: bool)

  const INITIAL := State(map[], map[], [], None, map[])

  // ----- the database operations -------------------------------------------

  function Unclaimed(receipts: map<ReceiptId, Receipt>, id: ReceiptId): bool {
    id in receipts && receipts[id].claim.None?
  }

  function HashesOf(receipts: map<ReceiptId, Receipt>, ids: seq<ReceiptId>): (r: seq<string>)
    requires forall i :: 0 <= i < |ids| ==> ids[i] in receipts
    ensures |r| == |ids|
  {
    seq(|ids|, i requires 0 <= i < |ids| => receipts[ids[i]].hash)
  }

  function ClaimFor(h: Hash, job: Job, i: nat): Claim
    requires i < |job.hashes|
  {
    Claim(job.batch, Path(h, true, job.hashes, i), i)
  }

  /** bulk_update_receipt_anchors: one transaction that skips receipts already anchored. */
  function BulkUpdate(h: Hash, receipts: map<ReceiptId, Receipt>, job: Job, i: nat): map<ReceiptId, Receipt>
    requires i <= |job.ids| == |job.hashes|
    decreases |job.ids| - i
  {
    if i == |job.ids| then receipts
    else
      var id := job.ids[i];
      var next := if Unclaimed(receipts, id)
                  then receipts[id := receipts[id].(claim := Some(ClaimFor(h, job, i)))]
                  else receipts;
      BulkUpdate(h, next, job, i + 1)
  }

  // ----- the steps ---------------------------------------------------------

  /** `fenced` states the lease contract: it does not lapse between the fetch and the claim of
      its holder, and a fetch happens under it.  After the claim it may lapse at any time. */
  ghost predicate Enabled(fenced: bool, s: State, a: Action) {
    match a
    case NewReceipt(id, hash) => id !in s.receipts && hash != ""
    case Acquire(w) => s.lease.None? && s.At(w).Idle?
    case Lapse => s.lease.Some? && (fenced ==> !InWindow(s.At(s.lease.value)))
    case Fetch(w, batch, ids) =>
      s.At(w).Leased? && (fenced ==> s.lease == Some(w))
      && 0 < |ids| <= MAX_BATCH && Distinct(ids)
      && forall i :: 0 <= i < |ids| ==> Unclaimed(s.receipts, ids[i])
    case Persist(w) => s.At(w).Fetched? && s.At(w).job.batch !in s.rows
    case ClaimAll(w) => s.At(w).Persisted? && |s.At(w).job.ids| == |s.At(w).job.hashes|
    case Publish(w) => s.At(w).Claimed? && |s.At(w).job.hashes| > 0
    case SkipChain(w) => s.At(w).Claimed?
    case Confirm(w) => s.At(w).Published? && s.At(w).job.batch in s.rows
    case Stop(w, released) => !s.At(w).Idle?
  }

  ghost predicate InWindow(p: Phase) {
    p.Fetched? || p.Persisted?
  }

  function Apply(h: Hash, s: State, a: Action): State
    requires Enabled(false, s, a)
  {
    match a
    case NewReceipt(id, hash) => s.(receipts := s.receipts[id := Receipt(hash, None)])
    case Acquire(w) => s.(lease := Some(w)).Move(w, Leased)
    case Lapse => s.(lease := None)
    case Fetch(w, batch, ids) => s.Move(w, Fetched(Job(batch, ids, HashesOf(s.receipts, ids))))
    case Persist(w) =>
      var job := s.At(w).job;
      // A fetch is never empty, so the guard below only keeps Root defined.
      var root := if |job.hashes| > 0 then Root(h, true, job.hashes) else "";
      s.(rows := s.rows[job.batch := BatchRow(root, |job.hashes|, false)]).Move(w, Persisted(job))
    case ClaimAll(w) =>
      var job := s.At(w).job;
      s.(receipts := BulkUpdate(h, s.receipts, job, 0)).Move(w, Claimed(job))
    case Publish(w) =>
      var job := s.At(w).job;
      s.(chain := s.chain + [Publication(job.batch, Root(h, true, job.hashes), job.ids)]).Move(w, Published(job))
    case SkipChain(w) => s.Move(w, Published(s.At(w).job))
    case Confirm(w) =>
      var job := s.At(w).job;
      s.(rows := s.rows[job.batch := s.rows[job.batch].(confirmed := true)])
    case Stop(w, released) =>
      s.(lease := if released && s.lease == Some(w) then None else s.lease).Move(w, Idle)
  }

  ghost predicate Runs(h: Hash, fenced: bool, s: State, actions: seq<Action>, t: State)
    decreases |actions|
  {
    if actions == [] then s == t
    else Enabled(fenced, s, actions[0]) && Runs(h, fenced, Apply(h, s, actions[0]), actions[1..], t)
  }

  // ----- what every step keeps ---------------------------------------------

  ghost predicate HashesMatch(s: State, ids: seq<ReceiptId>, hashes: seq<string>) {
    |ids| == |hashes| && forall i :: 0 <= i < |ids| ==> ids[i] in s.receipts && s.receipts[ids[i]].hash == hashes[i]
  }

  ghost predicate JobSound(s: State, job: Job) {
    0 < |job.ids| <= MAX_BATCH && Distinct(job.ids) && HashesMatch(s, job.ids, job.hashes)
  }

  ghost predicate RowSound(h: Hash, s: State, job: Job) {
    |job.hashes| > 0 && job.batch in s.rows && s.rows[job.batch].root == Root(h, true, job.hashes)
  }

  ghost predicate AllUnclaimed(s: State, job: Job) {
    forall i :: 0 <= i < |job.ids| ==> Unclaimed(s.receipts, job.ids[i])
  }

  ghost predicate ClaimedBy(s: State, ids: seq<ReceiptId>, batch: BatchId) {
    forall i :: 0 <= i < |ids| ==>
      ids[i] in s.receipts && s.receipts[ids[i]].claim.Some? && s.receipts[ids[i]].claim.value.batch == batch
  }

  ghost predicate NotPublished(s: State, batch: BatchId) {
    forall k :: 0 <= k < |s.chain| ==> s.chain[k].batch != batch
  }

  ghost predicate WorkerSound(h: Hash, s: State, w: nat) {
    match s.At(w)
    case Idle => true
    case Leased => true
    case Fetched(job) => s.lease == Some(w) && JobSound(s, job) && AllUnclaimed(s, job)
    case Persisted(job) =>
      s.lease == Some(w) && JobSound(s, job) && AllUnclaimed(s, job) && RowSound(h, s, job)
      && NotPublished(s, job.batch)
    case Claimed(job) =>
      JobSound(s, job) && RowSound(h, s, job) && ClaimedBy(s, job.ids, job.batch) && NotPublished(s, job.batch)
    case Published(job) => true
  }

  /** A job that still has to be published. */
  ghost predicate Pending(p: Phase) {
    p.Persisted? || p.Claimed?
  }

  ghost predicate JobsApart(s: State) {
    forall w: nat, v: nat :: w != v && Pending(s.At(w)) && Pending(s.At(v)) ==> s.At(w).job.batch != s.At(v).job.batch
  }

  /** The row a claim points to exists and its root accepts the stored proof. */
  ghost predicate ReceiptSound(h: Hash, s: State, id: ReceiptId)
    requires id in s.receipts
  {
    var r := s.receipts[id];
    r.hash != "" &&
    (r.claim.Some? ==>
       r.claim.value.batch in s.rows
       && Accepts(h, true, r.hash, r.claim.value.proof, s.rows[r.claim.value.batch].root))
  }

  ghost predicate PublicationSound(h: Hash, s: State, p: Publication) {
    p.ids != [] && Distinct(p.ids) && ClaimedBy(s, p.ids, p.batch)
    && p.root == Root(h, true, HashesOf(s.receipts, p.ids))
    && p.batch in s.rows && s.rows[p.batch].root == p.root
  }

  ghost predicate ChainDistinct(s: State) {
    forall i, j :: 0 <= i < j < |s.chain| ==> s.chain[i].batch != s.chain[j].batch
  }

  ghost predicate Inv(h: Hash, s: State) {
    && (forall w: nat :: WorkerSound(h, s, w))
    && JobsApart(s)
    && (forall id :: id in s.receipts ==> ReceiptSound(h, s, id))
    && (forall k :: 0 <= k < |s.chain| ==> PublicationSound(h, s, s.chain[k]))
    && ChainDistinct(s)
  }

  // ----- the bulk update ---------------------------------------------------

  /** The loop claims exactly the listed receipts that were free, each with its own proof. */
  lemma {:induction false} BulkUpdateEffect(h: Hash, receipts: map<ReceiptId, Receipt>, job: Job, i: nat)
    requires i <= |job.ids| == |job.hashes| && Distinct(job.ids)
    ensures var r := BulkUpdate(h, receipts, job, i);
            r.Keys == receipts.Keys
            && (forall k :: i <= k < |job.ids| && Unclaimed(receipts, job.ids[k]) ==>
                  r[job.ids[k]] == receipts[job.ids[k]].(claim := Some(ClaimFor(h, job, k))))
            && (forall id :: id in receipts && !(Unclaimed(receipts, id) && id in job.ids[i..]) ==>
                r[id] == receipts[id])
    decreases |job.ids| - i
  {
    hide Path, ClaimFor;
    if i < |job.ids| {
      var id := job.ids[i];
      var next := if Unclaimed(receipts, id)
                  then receipts[id := receipts[id].(claim := Some(ClaimFor(h, job, i)))]
                  else receipts;
      BulkUpdateEffect(h, next, job, i + 1);
      assert job.ids[i..] == [id] + job.ids[i + 1..];
      assert forall k :: i < k < |job.ids| ==> job.ids[k] != id;
    }
  }

  /** Receipts and rows are append-only: hashes, claims and roots never change once set. */
  ghost predicate Grows(s: State, t: State) {
    && (forall id :: id in s.receipts ==>
          id in t.receipts && t.receipts[id].hash == s.receipts[id].hash
          && (s.receipts[id].claim.Some? ==> t.receipts[id].claim == s.receipts[id].claim))
    && (forall b :: b in s.rows ==> b in t.rows && t.rows[b].root == s.rows[b].root)
  }

  lemma EveryStepGrows(h: Hash, s: State, a: Action)
    requires Enabled(false, s, a)
    requires a.Persist? || a.ClaimAll? ==> JobSound(s, s.At(a.w).job)
    ensures Grows(s, Apply(h, s, a))
  {
    hide Root, Path;
    if a.ClaimAll? {
      BulkUpdateEffect(h, s.receipts, s.At(a.w).job, 0);
    }
  }

  lemma PublicationKept(h: Hash, s: State, t: State, p: Publication)
    requires Grows(s, t) && PublicationSound(h, s, p)
    ensures PublicationSound(h, t, p)
  {
    hide Root;
    assert HashesOf(s.receipts, p.ids) == HashesOf(t.receipts, p.ids);
  }

  lemma ChainKept(h: Hash, s: State, t: State)
    requires Grows(s, t) && t.chain == s.chain
    requires forall k :: 0 <= k < |s.chain| ==> PublicationSound(h, s, s.chain[k])
    ensures forall k :: 0 <= k < |t.chain| ==> PublicationSound(h, t, t.chain[k])
  {
    forall k | 0 <= k < |t.chain| ensures PublicationSound(h, t, t.chain[k]) {
      PublicationKept(h, s, t, s.chain[k]);
    }
  }

  /** A worker that does not move stays sound, unless its window loses the lease or a receipt. */
  lemma WorkerKept(h: Hash, s: State, t: State, w: nat)
    requires WorkerSound(h, s, w) && Grows(s, t) && t.At(w) == s.At(w)
    requires InWindow(s.At(w)) ==> t.lease == s.lease && AllUnclaimed(t, s.At(w).job)
    requires Pending(s.At(w)) ==> NotPublished(t, s.At(w).job.batch)
    ensures WorkerSound(h, t, w)
  {
    hide Root;
  }

  ghost predicate ReceiptsSound(h: Hash, s: State) {
    forall id :: id in s.receipts ==> ReceiptSound(h, s, id)
  }

  lemma ReceiptsKept(h: Hash, s: State, t: State)
    requires Grows(s, t) && ReceiptsSound(h, s)
    requires forall id :: id in t.receipts ==>
      (id in s.receipts && t.receipts[id].claim == s.receipts[id].claim)
      || (t.receipts[id].hash != "" && t.receipts[id].claim.None?)
    ensures ReceiptsSound(h, t)
  {
    hide Accepts;
    forall id | id in t.receipts ensures ReceiptSound(h, t, id) {
      if id in s.receipts {
        assert ReceiptSound(h, s, id);
      }
    }
  }

  lemma ApartKept(s: State, t: State)
    requires JobsApart(s)
    requires forall w: nat :: Pending(t.At(w)) ==> Pending(s.At(w)) && t.At(w).job.batch == s.At(w).job.batch
    ensures JobsApart(t)
  {
    forall w: nat, v: nat | w != v && Pending(t.At(w)) && Pending(t.At(v))
      ensures t.At(w).job.batch != t.At(v).job.batch
    {
      assert Pending(s.At(w)) && Pending(s.At(v));
    }
  }

  /** Steps that only move a worker, the lease or a fresh receipt. */
  lemma KeepSimple(h: Hash, s: State, a: Action)
    requires Inv(h, s) && Enabled(true, s, a)
    requires a.NewReceipt? || a.Acquire? || a.Lapse? || a.Fetch? || a.SkipChain? || a.Stop?
    ensures Inv(h, Apply(h, s, a))
  {
    hide Root, Accepts, HashesOf, BulkUpdate, PublicationSound, ReceiptSound;
    var t := Apply(h, s, a);
    EveryStepGrows(h, s, a);
    ChainKept(h, s, t);
    assert ReceiptsSound(h, s);
    ReceiptsKept(h, s, t);
    forall w: nat | Pending(t.At(w)) ensures Pending(s.At(w)) && t.At(w).job.batch == s.At(w).job.batch {
      assert (!a.NewReceipt? && !a.Lapse? && w == a.w) || t.At(w) == s.At(w);
    }
    ApartKept(s, t);
    forall w: nat ensures WorkerSound(h, t, w) {
      SimpleWorker(h, s, a, w);
    }
  }

  lemma SimpleWorker(h: Hash, s: State, a: Action, w: nat)
    requires (forall v: nat :: WorkerSound(h, s, v)) && Enabled(true, s, a)
    requires a.NewReceipt? || a.Acquire? || a.Lapse? || a.Fetch? || a.SkipChain? || a.Stop?
    requires Grows(s, Apply(h, s, a))
    ensures WorkerSound(h, Apply(h, s, a), w)
  {
    hide Root, Accepts, BulkUpdate;
    var t := Apply(h, s, a);
    assert WorkerSound(h, s, w);
    if t.At(w) == s.At(w) {
      WorkerKept(h, s, t, w);
    }
  }

  lemma KeepPersist(h: Hash, s: State, a: Action)
    requires Inv(h, s) && Enabled(true, s, a) && a.Persist?
    ensures Inv(h, Apply(h, s, a))
  {
    hide Root, Accepts, HashesOf, BulkUpdate, ReceiptSound;
    var t := Apply(h, s, a);
    assert WorkerSound(h, s, a.w);
    EveryStepGrows(h, s, a);
    ChainKept(h, s, t);
    assert ReceiptsSound(h, s);
    ReceiptsKept(h, s, t);
    assert NotPublished(s, s.At(a.w).job.batch);
    forall w: nat ensures WorkerSound(h, t, w) {
      assert WorkerSound(h, s, w);
      if w != a.w {
        WorkerKept(h, s, t, w);
      }
    }
    forall w: nat, v: nat | w != v && Pending(t.At(w)) && Pending(t.At(v))
      ensures t.At(w).job.batch != t.At(v).job.batch
    {
      assert WorkerSound(h, s, w) && WorkerSound(h, s, v);
      assert w != a.w ==> s.At(w) == t.At(w);
      assert v != a.w ==> s.At(v) == t.At(v);
    }
  }

  lemma KeepConfirm(h: Hash, s: State, a: Action)
    requires Inv(h, s) && Enabled(true, s, a) && a.Confirm?
    ensures Inv(h, Apply(h, s, a))
  {
    hide Root, Accepts, HashesOf, BulkUpdate, ReceiptSound, PublicationSound;
    var t := Apply(h, s, a);
    EveryStepGrows(h, s, a);
    ChainKept(h, s, t);
    assert ReceiptsSound(h, s);
    ReceiptsKept(h, s, t);
    forall w: nat | Pending(t.At(w)) ensures Pending(s.At(w)) && t.At(w).job.batch == s.At(w).job.batch {
      assert w == a.w || t.At(w) == s.At(w);
    }
    ApartKept(s, t);
    forall w: nat ensures WorkerSound(h, t, w) {
      assert WorkerSound(h, s, w);
      WorkerKept(h, s, t, w);
    }
  }

  lemma KeepClaim(h: Hash, s: State, a: Action)
    requires Inv(h, s) && Enabled(true, s, a) && a.ClaimAll?
    ensures Inv(h, Apply(h, s, a))
  {
    hide Root, Accepts, HashesOf, BulkUpdate, PublicationSound;
    var t := Apply(h, s, a);
    var job := s.At(a.w).job;
    assert WorkerSound(h, s, a.w);
    EveryStepGrows(h, s, a);
    ChainKept(h, s, t);
    BulkUpdateEffect(h, s.receipts, job, 0);
    forall id | id in t.receipts ensures ReceiptSound(h, t, id) {
      ClaimedReceipt(h, s, a, id);
    }
    forall w: nat | Pending(t.At(w)) ensures Pending(s.At(w)) && t.At(w).job.batch == s.At(w).job.batch {
      assert w == a.w || t.At(w) == s.At(w);
    }
    ApartKept(s, t);
    forall w: nat ensures WorkerSound(h, t, w) {
      assert WorkerSound(h, s, w);
      if w != a.w {
        WorkerKept(h, s, t, w);
      }
    }
  }

  /** The proof written by the claim is accepted against the batch row's root. */
  lemma ClaimedReceipt(h: Hash, s: State, a: Action, id: ReceiptId)
    requires Inv(h, s) && Enabled(true, s, a) && a.ClaimAll?
    requires id in Apply(h, s, a).receipts
    ensures ReceiptSound(h, Apply(h, s, a), id)
  {
    hide Accepts, HashesOf, BulkUpdate, PublicationSound, Path, Root;
    var job := s.At(a.w).job;
    assert WorkerSound(h, s, a.w);
    BulkUpdateEffect(h, s.receipts, job, 0);
    assert ReceiptSound(h, s, id);
    if Unclaimed(s.receipts, id) && id in job.ids {
      var k :| 0 <= k < |job.ids| && job.ids[k] == id;
      assert Unclaimed(s.receipts, job.ids[k]);
      RoundTripV2(h, job.hashes, k);
      ProofDepth(h, true, job.hashes, k);
    }
  }

  lemma KeepPublish(h: Hash, s: State, a: Action)
    requires Inv(h, s) && Enabled(true, s, a) && a.Publish?
    ensures Inv(h, Apply(h, s, a))
  {
    hide Root, Accepts, HashesOf, BulkUpdate, ReceiptSound;
    var t := Apply(h, s, a);
    var job := s.At(a.w).job;
    assert WorkerSound(h, s, a.w);
    EveryStepGrows(h, s, a);
    assert ReceiptsSound(h, s);
    ReceiptsKept(h, s, t);
    forall k | 0 <= k < |t.chain| ensures PublicationSound(h, t, t.chain[k]) {
      if k < |s.chain| {
        PublicationKept(h, s, t, s.chain[k]);
      } else {
        JobHashes(s, job);
      }
    }
    forall w: nat | Pending(t.At(w)) ensures Pending(s.At(w)) && t.At(w).job.batch == s.At(w).job.batch {
      assert w == a.w || t.At(w) == s.At(w);
    }
    ApartKept(s, t);
    forall w: nat ensures WorkerSound(h, t, w) {
      assert WorkerSound(h, s, w);
      if w != a.w {
        WorkerKept(h, s, t, w);
      }
    }
  }

  lemma JobHashes(s: State, job: Job)
    requires HashesMatch(s, job.ids, job.hashes)
    ensures HashesOf(s.receipts, job.ids) == job.hashes
  {
  }

  lemma StepKeepsInv(h: Hash, s: State, a: Action)
    requires Inv(h, s) && Enabled(true, s, a)
    ensures Inv(h, Apply(h, s, a))
  {
    hide Inv, Enabled, Apply;
    if a.Persist? { KeepPersist(h, s, a); }
    else if a.ClaimAll? { KeepClaim(h, s, a); }
    else if a.Publish? { KeepPublish(h, s, a); }
    else if a.Confirm? { KeepConfirm(h, s, a); }
    else { KeepSimple(h, s, a); }
  }

  // ----- whole runs --------------------------------------------------------

  lemma {:induction false} RunKeepsInv(h: Hash, s: State, actions: seq<Action>, t: State)
    requires Inv(h, s) && Runs(h, true, s, actions, t)
    ensures Inv(h, t)
    decreases |actions|
  {
    hide Inv, Apply;
    if actions != [] {
      StepKeepsInv(h, s, actions[0]);
      RunKeepsInv(h, Apply(h, s, actions[0]), actions[1..], t);
    }
  }

  /** No receipt is in two publications. */
  ghost predicate PublishedOnce(s: State) {
    forall i, j, id :: 0 <= i < j < |s.chain| && id in s.chain[i].ids ==> id !in s.chain[j].ids
  }

  /** Every published root has a persisted row holding that root, and it is the root of exactly
      the hashes of the receipts it covers. */
  ghost predicate PublicationsBacked(h: Hash, s: State) {
    forall k :: 0 <= k < |s.chain| ==> PublicationSound(h, s, s.chain[k])
  }

  /** Every claimed receipt joins to a persisted row whose root accepts its stored proof. */
  ghost predicate ClaimsBacked(h: Hash, s: State) {
    forall id :: id in s.receipts && s.receipts[id].claim.Some? ==>
      var c := s.receipts[id].claim.value;
      c.batch in s.rows && Accepts(h, true, s.receipts[id].hash, c.proof, s.rows[c.batch].root)
  }

  /** The pipeline's purpose: over every run in which the lease holds from fetch through claim,
      whatever fails or crashes, no receipt is published twice and nothing dangles. */
  lemma AnchorSafety(h: Hash, actions: seq<Action>, t: State)
    requires Runs(h, true, INITIAL, actions, t)
    ensures PublishedOnce(t) && PublicationsBacked(h, t) && ClaimsBacked(h, t)
  {
    RunKeepsInv(h, INITIAL, actions, t);
    hide Accepts, Root, HashesOf;
    forall i, j, id | 0 <= i < j < |t.chain| && id in t.chain[i].ids ensures id !in t.chain[j].ids {
      assert PublicationSound(h, t, t.chain[i]) && PublicationSound(h, t, t.chain[j]);
    }
    assert forall id :: id in t.receipts ==> ReceiptSound(h, t, id);
  }

  // ----- why the lease has to hold -----------------------------------------

  lemma {:induction false} Extend(h: Hash, fenced: bool, s: State, actions: seq<Action>, t: State, a: Action)
    requires Runs(h, fenced, s, actions, t) && Enabled(fenced, t, a)
    ensures Runs(h, fenced, s, actions + [a], Apply(h, t, a))
    decreases |actions|
  {
    hide Apply;
    if actions == [] {
      assert actions + [a] == [a];
    } else {
      Extend(h, fenced, Apply(h, s, actions[0]), actions[1..], t, a);
      assert (actions + [a])[1..] == actions[1..] + [a];
    }
  }

  /** Two workers that both fetched the only receipt, because the lease lapsed in between. */
  ghost function BothFetched(hash: string): State {
    State(map["r" := Receipt(hash, None)], map[], [], Some(1),
          map[0 := Fetched(Job("a", ["r"], [hash])), 1 := Fetched(Job("b", ["r"], [hash]))])
  }

  /** Both have persisted a row; the first has claimed the receipt, the second claims nothing. */
  ghost function BothClaimed(h: Hash, hash: string): State {
    var row := BatchRow(Root(h, true, [hash]), 1, false);
    State(map["r" := Receipt(hash, Some(Claim("a", Path(h, true, [hash], 0), 0)))],
          map["a" := row, "b" := row], [], Some(1),
          map[0 := Claimed(Job("a", ["r"], [hash])), 1 := Claimed(Job("b", ["r"], [hash]))])
  }

  lemma ReachBothFetched(h: Hash, hash: string) returns (actions: seq<Action>)
    requires hash != ""
    ensures Runs(h, false, INITIAL, actions, BothFetched(hash))
  {
    hide Runs, Root;
    var s1 := Apply(h, INITIAL, NewReceipt("r", hash));
    var s2 := Apply(h, s1, Acquire(0));
    var s3 := s2.Move(0, Fetched(Job("a", ["r"], [hash])));
    var s4 := Apply(h, s3, Lapse);
    var s5 := Apply(h, s4, Acquire(1));
    actions := [];
    EmptyRun(h, INITIAL);
    Extend(h, false, INITIAL, actions, INITIAL, NewReceipt("r", hash));
    actions := actions + [NewReceipt("r", hash)];
    Extend(h, false, INITIAL, actions, s1, Acquire(0));
    actions := actions + [Acquire(0)];
    FetchOnly(h, s2, 0, "a", hash);
    Extend(h, false, INITIAL, actions, s2, Fetch(0, "a", ["r"]));
    actions := actions + [Fetch(0, "a", ["r"])];
    Extend(h, false, INITIAL, actions, s3, Lapse);
    actions := actions + [Lapse];
    Extend(h, false, INITIAL, actions, s4, Acquire(1));
    actions := actions + [Acquire(1)];
    FetchOnly(h, s5, 1, "b", hash);
    Extend(h, false, INITIAL, actions, s5, Fetch(1, "b", ["r"]));
    actions := actions + [Fetch(1, "b", ["r"])];
    assert s5.Move(1, Fetched(Job("b", ["r"], [hash]))).workers == BothFetched(hash).workers;
  }

  lemma FetchOnly(h: Hash, s: State, w: nat, batch: BatchId, hash: string)
    requires s.receipts == map["r" := Receipt(hash, None)] && s.At(w).Leased?
    ensures Enabled(false, s, Fetch(w, batch, ["r"]))
    ensures Apply(h, s, Fetch(w, batch, ["r"])) == s.Move(w, Fetched(Job(batch, ["r"], [hash])))
  {
    assert HashesOf(s.receipts, ["r"]) == [hash];
  }

  lemma ClaimOnly(h: Hash, s: State, w: nat, batch: BatchId, receipt: Receipt)
    requires s.receipts == map["r" := receipt] && s.At(w) == Persisted(Job(batch, ["r"], [receipt.hash]))
    ensures Apply(h, s, ClaimAll(w))
         == (if receipt.claim.Some? then s
             else s.(receipts := map["r" := receipt.(claim := Some(Claim(batch, Path(h, true, [receipt.hash], 0), 0)))])
            ).Move(w, Claimed(Job(batch, ["r"], [receipt.hash])))
  {
    hide Path, Root;
    var job := Job(batch, ["r"], [receipt.hash]);
    var next := if receipt.claim.Some? then s.receipts
      else s.receipts["r" := receipt.(claim := Some(ClaimFor(h, job, 0)))];
    assert BulkUpdate(h, s.receipts, job, 0) == BulkUpdate(h, next, job, 1) == next;
    assert receipt.claim.None? ==>
        next == map["r" := receipt.(claim := Some(Claim(batch, Path(h, true, [receipt.hash], 0), 0)))];
  }

  lemma EmptyRun(h: Hash, s: State)
    ensures Runs(h, false, s, [], s)
  {
  }

  lemma ReachBothClaimed(h: Hash, hash: string) returns (actions: seq<Action>)
    requires hash != ""
    ensures Runs(h, false, INITIAL, actions, BothClaimed(h, hash))
  {
    hide Runs, Root, Path, BulkUpdate;
    var ja, jb := Job("a", ["r"], [hash]), Job("b", ["r"], [hash]);
    actions := ReachBothFetched(h, hash);
    var s6 := BothFetched(hash);
    Extend(h, false, INITIAL, actions, s6, Persist(0));
    actions := actions + [Persist(0)];
    var s7 := Apply(h, s6, Persist(0));
    Extend(h, false, INITIAL, actions, s7, Persist(1));
    actions := actions + [Persist(1)];
    var s8 := Apply(h, s7, Persist(1));
    ClaimOnly(h, s8, 0, "a", Receipt(hash, None));
    Extend(h, false, INITIAL, actions, s8, ClaimAll(0));
    actions := actions + [ClaimAll(0)];
    var s9 := Apply(h, s8, ClaimAll(0));
    ClaimOnly(h, s9, 1, "b", s9.receipts["r"]);
    Extend(h, false, INITIAL, actions, s9, ClaimAll(1));
    actions := actions + [ClaimAll(1)];
    assert Apply(h, s9, ClaimAll(1)).workers == BothClaimed(h, hash).workers;
    assert Apply(h, s9, ClaimAll(1)).rows == BothClaimed(h, hash).rows;
  }

  /** If the lease may lapse between fetch and claim, some run publishes a receipt twice: the
      claim's skip of already-anchored rows does not stop the second publication. */
  lemma LapseBeforeClaimPublishesTwice(h: Hash, hash: string) returns (actions: seq<Action>, t: State)
    requires hash != ""
    ensures Runs(h, false, INITIAL, actions, t) && !PublishedOnce(t)
  {
    hide Runs, Root, Path;
    var s := BothClaimed(h, hash);
    actions := ReachBothClaimed(h, hash);
    Extend(h, false, INITIAL, actions, s, Publish(0));
    actions := actions + [Publish(0)];
    var u := Apply(h, s, Publish(0));
    Extend(h, false, INITIAL, actions, u, Publish(1));
    actions := actions + [Publish(1)];
    t := Apply(h, u, Publish(1));
    assert "r" in t.chain[0].ids && "r" in t.chain[1].ids;
  }
}
