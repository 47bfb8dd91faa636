/** The anchor pipeline without any promise about the lease.  What then keeps a receipt from being
    published twice is that a worker publishes only batches whose claim took every receipt, which
    the number of rows the bulk update changed would tell it. */
module AnchorUnfenced {
  import opened Common
  import opened MerkleShape
  import opened ReceiptMerkle
  import opened AnchorPipeline

  /** A run in which the lease may lapse at any time, and every published batch holds all its receipts. */
  ghost predicate FullRuns(h: Hash, s: State, actions: seq<Action>, t: State)
    decreases |actions|
  {
    if actions == [] then s == t
    else
      Enabled(false, s, actions[0]) && PublishesInFull(s, actions[0])
      && FullRuns(h, Apply(h, s, actions[0]), actions[1..], t)
  }

  ghost predicate PublishesInFull(s: State, a: Action) {
    a.Publish? && s.At(a.w).Claimed? ==> ClaimedBy(s, s.At(a.w).job.ids, s.At(a.w).job.batch)
  }

  ghost predicate NoClaims(s: State, batch: BatchId) {
    forall id :: id in s.receipts && s.receipts[id].claim.Some? ==> s.receipts[id].claim.value.batch != batch
  }

  ghost predicate WorkerFit(s: State, w: nat) {
    match s.At(w)
    case Fetched(job) => JobSound(s, job)
    case Persisted(job) => JobSound(s, job) && job.batch in s.rows && NotPublished(s, job.batch)
      && NoClaims(s, job.batch)
    case Claimed(job) => JobSound(s, job) && job.batch in s.rows && NotPublished(s, job.batch)
    case _ => true
  }

  ghost predicate ClaimsHaveRows(s: State) {
    forall id :: id in s.receipts && s.receipts[id].claim.Some? ==> s.receipts[id].claim.value.batch in s.rows
  }

  ghost predicate ChainFit(s: State) {
    forall k :: 0 <= k < |s.chain| ==> s.chain[k].batch in s.rows && ClaimedBy(s, s.chain[k].ids, s.chain[k].batch)
  }

  ghost predicate Fit(s: State) {
    (forall w: nat :: WorkerFit(s, w)) && JobsApart(s) && ClaimsHaveRows(s) && ChainFit(s) && ChainDistinct(s)
  }

  lemma StepGrowsFrom(h: Hash, s: State, a: Action)
    requires Fit(s) && Enabled(false, s, a)
    ensures Grows(s, Apply(h, s, a))
  {
    hide Apply, Root, Path;
    if a.Persist? || a.ClaimAll? {
      assert WorkerFit(s, a.w);
    }
    EveryStepGrows(h, s, a);
  }

  lemma JobStays(s: State, t: State, job: Job)
    requires Grows(s, t) && JobSound(s, job)
    ensures JobSound(t, job)
  {
  }

  lemma WorkerStays(s: State, t: State, w: nat)
    requires WorkerFit(s, w) && Grows(s, t) && t.At(w) == s.At(w)
    requires Pending(s.At(w)) ==> NotPublished(t, s.At(w).job.batch)
    requires s.At(w).Persisted? ==> NoClaims(t, s.At(w).job.batch)
    ensures WorkerFit(t, w)
  {
    hide JobSound, NotPublished, NoClaims;
    if s.At(w).Fetched? || Pending(s.At(w)) {
      JobStays(s, t, s.At(w).job);
    }
  }

  lemma ChainStays(s: State, t: State)
    requires Grows(s, t) && ChainFit(s) && t.chain == s.chain
    ensures ChainFit(t)
  {
  }

  /** Steps that claim nothing new keep the receipts' claims as they were. */
  lemma SameClaims(h: Hash, s: State, a: Action)
    requires Enabled(false, s, a) && !a.ClaimAll?
    ensures forall id :: id in Apply(h, s, a).receipts && Apply(h, s, a).receipts[id].claim.Some? ==>
              id in s.receipts && s.receipts[id].claim == Apply(h, s, a).receipts[id].claim
  {
    hide BulkUpdate, Root;
  }

  lemma ClaimlessStays(h: Hash, s: State, a: Action)
    requires Enabled(false, s, a) && !a.ClaimAll? && ClaimsHaveRows(s) && Grows(s, Apply(h, s, a))
    ensures ClaimsHaveRows(Apply(h, s, a))
    ensures forall batch :: NoClaims(s, batch) ==> NoClaims(Apply(h, s, a), batch)
  {
    SameClaims(h, s, a);
    hide Apply;
  }

  lemma SimpleKeepsFit(h: Hash, s: State, a: Action)
    requires Fit(s) && Enabled(false, s, a) && !a.Persist? && !a.ClaimAll? && !a.Publish?
    ensures Fit(Apply(h, s, a))
  {
    StepGrowsFrom(h, s, a);
    ClaimlessStays(h, s, a);
    var t := Apply(h, s, a);
    hide Root, HashesOf, BulkUpdate, ClaimsHaveRows, NoClaims, Grows, ClaimedBy;
    assert t.chain == s.chain;
    ChainStays(s, t);
    forall w: nat | Pending(t.At(w)) ensures Pending(s.At(w)) && t.At(w).job.batch == s.At(w).job.batch {
      assert (!a.NewReceipt? && !a.Lapse? && w == a.w) || t.At(w) == s.At(w);
    }
    ApartKept(s, t);
    forall w: nat ensures WorkerFit(t, w) {
      assert WorkerFit(s, w);
      if t.At(w) == s.At(w) {
        WorkerStays(s, t, w);
      } else if a.Fetch? && w == a.w {
        FetchIsSound(h, s, a);
      }
    }
  }

  lemma FetchIsSound(h: Hash, s: State, a: Action)
    requires Enabled(false, s, a) && a.Fetch?
    ensures WorkerFit(Apply(h, s, a), a.w)
  {
    hide Root, BulkUpdate;
  }

  lemma PersistKeepsFit(h: Hash, s: State, a: Action)
    requires Fit(s) && Enabled(false, s, a) && a.Persist?
    ensures Fit(Apply(h, s, a))
  {
    StepGrowsFrom(h, s, a);
    ClaimlessStays(h, s, a);
    var t, job := Apply(h, s, a), s.At(a.w).job;
    assert WorkerFit(s, a.w) && NoClaims(s, job.batch) && NotPublished(s, job.batch);
    hide Root, HashesOf, BulkUpdate, ClaimsHaveRows, NoClaims, Grows, ClaimedBy;
    ChainStays(s, t);
    JobStays(s, t, job);
    forall w: nat ensures WorkerFit(t, w) {
      assert WorkerFit(s, w);
      if w != a.w {
        WorkerStays(s, t, w);
      }
    }
    forall w: nat, v: nat | w != v && Pending(t.At(w)) && Pending(t.At(v))
      ensures t.At(w).job.batch != t.At(v).job.batch
    {
      assert WorkerFit(s, w) && WorkerFit(s, v);
      assert (w != a.w ==> s.At(w) == t.At(w)) && (v != a.w ==> s.At(v) == t.At(v));
    }
  }

  /** What a claim did, receipt by receipt. */
  lemma ClaimEffect(h: Hash, s: State, w: nat, id: ReceiptId)
    requires Enabled(false, s, ClaimAll(w)) && JobSound(s, s.At(w).job) && id in Apply(h, s, ClaimAll(w)).receipts
    ensures var (t, job) := (Apply(h, s, ClaimAll(w)), s.At(w).job);
            && id in s.receipts
            && (if Unclaimed(s.receipts, id) && id in job.ids
                then t.receipts[id].claim.Some? && t.receipts[id].claim.value.batch == job.batch
                else t.receipts[id] == s.receipts[id])
  {
    var job := s.At(w).job;
    BulkUpdateEffect(h, s.receipts, job, 0);
    hide BulkUpdate, Root, Path, HashesMatch;
    assert job.ids[0..] == job.ids;
    if Unclaimed(s.receipts, id) && id in job.ids {
      var k :| 0 <= k < |job.ids| && job.ids[k] == id;
      assert Unclaimed(s.receipts, job.ids[k]);
    }
  }

  lemma ClaimKeepsFit(h: Hash, s: State, w: nat)
    requires Fit(s) && Enabled(false, s, ClaimAll(w))
    ensures Fit(Apply(h, s, ClaimAll(w)))
  {
    StepGrowsFrom(h, s, ClaimAll(w));
    var t, job := Apply(h, s, ClaimAll(w)), s.At(w).job;
    assert WorkerFit(s, w);
    ClaimRows(h, s, w);
    hide Root, BulkUpdate, ClaimsHaveRows, NoClaims, Grows, ClaimedBy;
    ChainStays(s, t);
    JobStays(s, t, job);
    forall v: nat | Pending(t.At(v)) ensures Pending(s.At(v)) && t.At(v).job.batch == s.At(v).job.batch {
      assert v == w || t.At(v) == s.At(v);
    }
    ApartKept(s, t);
    forall v: nat ensures WorkerFit(t, v) {
      assert WorkerFit(s, v);
      if v != w {
        assert s.At(v).Persisted? ==> s.At(v).job.batch != job.batch;
        WorkerStays(s, t, v);
      }
    }
  }

  lemma ClaimRows(h: Hash, s: State, w: nat)
    requires Enabled(false, s, ClaimAll(w)) && JobSound(s, s.At(w).job) && s.At(w).job.batch in s.rows
             && ClaimsHaveRows(s)
    ensures ClaimsHaveRows(Apply(h, s, ClaimAll(w)))
    ensures forall batch :: batch != s.At(w).job.batch && NoClaims(s, batch) ==>
              NoClaims(Apply(h, s, ClaimAll(w)), batch)
  {
    var t := Apply(h, s, ClaimAll(w));
    assert t.rows == s.rows;
    forall id | id in t.receipts
      ensures id in s.receipts && (t.receipts[id] == s.receipts[id]
                                   || (t.receipts[id].claim.Some?
                                     && t.receipts[id].claim.value.batch == s.At(w).job.batch))
    {
      ClaimEffect(h, s, w, id);
    }
    hide Apply, JobSound;
  }

  lemma PublishKeepsFit(h: Hash, s: State, a: Action)
    requires Fit(s) && Enabled(false, s, a) && a.Publish? && PublishesInFull(s, a)
    ensures Fit(Apply(h, s, a))
  {
    StepGrowsFrom(h, s, a);
    ClaimlessStays(h, s, a);
    var t, job := Apply(h, s, a), s.At(a.w).job;
    assert WorkerFit(s, a.w);
    hide Root, HashesOf, BulkUpdate, ClaimsHaveRows, NoClaims, Grows;
    forall k | 0 <= k < |t.chain| ensures t.chain[k].batch in t.rows && ClaimedBy(t, t.chain[k].ids, t.chain[k].batch) {
      assert k < |s.chain| ==> t.chain[k] == s.chain[k];
    }
    forall w: nat | Pending(t.At(w)) ensures Pending(s.At(w)) && t.At(w).job.batch == s.At(w).job.batch {
      assert w == a.w || t.At(w) == s.At(w);
    }
    ApartKept(s, t);
    forall w: nat ensures WorkerFit(t, w) {
      assert WorkerFit(s, w);
      if w != a.w {
        WorkerStays(s, t, w);
      }
    }
  }

  lemma StepKeepsFit(h: Hash, s: State, a: Action)
    requires Fit(s) && Enabled(false, s, a) && PublishesInFull(s, a)
    ensures Fit(Apply(h, s, a))
  {
    hide Fit, Enabled, Apply, PublishesInFull;
    if a.Persist? { PersistKeepsFit(h, s, a); }
    else if a.ClaimAll? { ClaimKeepsFit(h, s, a.w); }
    else if a.Publish? { PublishKeepsFit(h, s, a); }
    else { SimpleKeepsFit(h, s, a); }
  }

  lemma {:induction false} RunKeepsFit(h: Hash, s: State, actions: seq<Action>, t: State)
    requires Fit(s) && FullRuns(h, s, actions, t)
    ensures Fit(t)
    decreases |actions|
  {
    hide Fit, Apply, PublishesInFull;
    if actions != [] {
      StepKeepsFit(h, s, actions[0]);
      RunKeepsFit(h, Apply(h, s, actions[0]), actions[1..], t);
    }
  }

  /** However the lease behaves, if every published batch had claimed all its receipts, no receipt is
      published twice. */
  lemma FullClaimsPublishOnce(h: Hash, actions: seq<Action>, t: State)
    requires FullRuns(h, INITIAL, actions, t)
    ensures PublishedOnce(t)
  {
    RunKeepsFit(h, INITIAL, actions, t);
    hide FullRuns;
    forall i, j, id | 0 <= i < j < |t.chain| && id in t.chain[i].ids ensures id !in t.chain[j].ids {
      assert ClaimedBy(t, t.chain[i].ids, t.chain[i].batch) && ClaimedBy(t, t.chain[j].ids, t.chain[j].batch);
    }
  }

  /** How many of the listed receipts the update finds free: the row count it reports. */
  function RowsUpdated(receipts: map<ReceiptId, Receipt>, ids: seq<ReceiptId>): (n: nat)
    ensures n <= |ids| && (n == |ids| <==> forall i :: 0 <= i < |ids| ==> Unclaimed(receipts, ids[i]))
  {
    if ids == [] then 0
    else
      var last := ids[|ids| - 1];
      RowsUpdated(receipts, ids[..|ids| - 1]) + if Unclaimed(receipts, last) then 1 else 0
  }

  /** A worker can tell: its batch holds all its receipts exactly when the update changed one row
      for each of them. */
  lemma FullClaimByRowCount(h: Hash, s: State, w: nat)
    requires Fit(s) && Enabled(false, s, ClaimAll(w))
    ensures var job := s.At(w).job;
            ClaimedBy(Apply(h, s, ClaimAll(w)), job.ids, job.batch) <==> RowsUpdated(s.receipts, job.ids) == |job.ids|
  {
    var t, job := Apply(h, s, ClaimAll(w)), s.At(w).job;
    assert WorkerFit(s, w);
    StepGrowsFrom(h, s, ClaimAll(w));
    forall i | 0 <= i < |job.ids|
      ensures job.ids[i] in t.receipts
      ensures (t.receipts[job.ids[i]].claim.Some? && t.receipts[job.ids[i]].claim.value.batch == job.batch)
              <==> Unclaimed(s.receipts, job.ids[i])
    {
      ClaimEffect(h, s, w, job.ids[i]);
    }
    hide Apply, Fit, Grows, RowsUpdated;
  }
}
