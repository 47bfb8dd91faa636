/** One worker's pass through runAnchorBatch of lib/blockchain.ts, acting on the database and the
    chain.  Whatever fails on the way, the pass is a run of the pipeline's state machine. */
module AnchorWorker {
  import opened Common
  import opened MerkleShape
  import opened ReceiptMerkle
  import opened AnchorPipeline

  /** The operation that fails in this pass; a failed write may or may not have landed. */
  datatype Failure =
    | Nothing
    | LeaseUnavailable
    | FetchFails
    | InsertFails(landed: bool)
    | ClaimFails(landed: bool)
    | ChainFails(landed: bool)
    | ConfirmFails(landed: bool)

  datatype Outcome = AlreadyRunning | NoReceipts | Anchored(batch: BatchId, count: nat, root: string) | Failed

  /** Every proof of the batch, computed from the layered tree, is the RFC 6962 audit path. */
  method BuildProofs(h: Hash, hashes: seq<string>) returns (tree: Tree, proofs: seq<seq<Step<string>>>)
    requires hashes != []
    ensures tree.root == Some(Root(h, true, hashes)) && tree.leafCount == |hashes|
    ensures |proofs| == |hashes| && forall i :: 0 <= i < |hashes| ==> proofs[i] == Path(h, true, hashes, i)
  {
    hide Root, Path, ProofFrom, Pairing, TreeLeaves, Layers, CeilLog2;
    tree := BuildMerkleTree(h, hashes, true);
    proofs := [];
    var i := 0;
    FirstLayer(h, hashes);
    while i < |hashes|
      invariant 0 <= i <= |hashes| == |tree.layers[0]| && |proofs| == i
      invariant forall j :: 0 <= j < i ==> proofs[j] == Path(h, true, hashes, j)
    {
      var proof := GenerateMerkleProof(tree.layers, i);
      GeneratedIsPath(h, true, hashes, i);
      proofs := proofs + [proof.value];
      i := i + 1;
    }
  }

  lemma FirstLayer(h: Hash, hashes: seq<string>)
    requires hashes != []
    ensures var layers := Layers(Pairing(h, true), TreeLeaves(h, true, hashes)); layers != [] && |layers[0]| == |hashes|
  {
  }

  class System {
    var receipts: map<ReceiptId, Receipt>
    var rows: map<BatchId, BatchRow>
    var chain: seq<Publication>
    var lease: Option<nat>
    ghost var workers: map<nat, Phase>

    ghost function View(): State
      reads this
    {
      State(receipts, rows, chain, lease, workers)
    }

    /** bulk_update_receipt_anchors over one row per proof. */
    method ClaimReceipts(h: Hash, job: Job, proofs: seq<seq<Step<string>>>)
      requires |proofs| == |job.hashes| == |job.ids|
      requires forall i :: 0 <= i < |proofs| ==> proofs[i] == Path(h, true, job.hashes, i)
      modifies this`receipts
      ensures receipts == BulkUpdate(h, old(receipts), job, 0)
    {
      hide Path;
      var i := 0;
      while i < |job.ids|
        invariant 0 <= i <= |job.ids|
        invariant BulkUpdate(h, receipts, job, i) == BulkUpdate(h, old(receipts), job, 0)
      {
        var id := job.ids[i];
        if Unclaimed(receipts, id) {
          receipts := receipts[id := receipts[id].(claim := Some(Claim(job.batch, proofs[i], i)))];
        }
        i := i + 1;
      }
    }

    /** The insert of the batch row, pending until it is confirmed. */
    method InsertRow(h: Hash, w: nat, job: Job, tree: Tree)
      requires View().At(w) == Fetched(job) && job.batch !in rows && job.hashes != []
      requires tree.root == Some(Root(h, true, job.hashes)) && tree.leafCount == |job.hashes|
      modifies this
      ensures Enabled(true, old(View()), Persist(w)) && View() == Apply(h, old(View()), Persist(w))
      ensures View().At(w) == Persisted(job)
      ensures rows == old(rows)[job.batch := BatchRow(tree.root.value, |job.hashes|, false)]
      ensures lease == old(lease) && chain == old(chain) && receipts == old(receipts)
    {
      hide Root;
      rows := rows[job.batch := BatchRow(tree.root.value, tree.leafCount, false)];
      workers := workers[w := Persisted(job)];
    }

    method ClaimBatch(h: Hash, w: nat, job: Job, proofs: seq<seq<Step<string>>>)
      requires View().At(w) == Persisted(job) && |proofs| == |job.hashes| == |job.ids|
      requires forall i :: 0 <= i < |proofs| ==> proofs[i] == Path(h, true, job.hashes, i)
      modifies this
      ensures Enabled(true, old(View()), ClaimAll(w)) && View() == Apply(h, old(View()), ClaimAll(w))
      ensures View().At(w) == Claimed(job) && rows == old(rows) && lease == old(lease) && chain == old(chain)
      ensures receipts == BulkUpdate(h, old(receipts), job, 0)
    {
      hide Path, BulkUpdate;
      ClaimReceipts(h, job, proofs);
      workers := workers[w := Claimed(job)];
    }

    /** anchorToBase: the transaction, unless no chain is configured. */
    method AnchorToBase(h: Hash, w: nat, job: Job, root: string, skip: bool)
      requires View().At(w) == Claimed(job) && job.hashes != [] && root == Root(h, true, job.hashes)
      modifies this
      ensures var step := if skip then SkipChain(w) else Publish(w);
              Enabled(true, old(View()), step) && View() == Apply(h, old(View()), step)
      ensures View().At(w) == Published(job) && rows == old(rows) && lease == old(lease) && receipts == old(receipts)
      ensures chain == old(chain) + if skip then [] else [Publication(job.batch, root, job.ids)]
    {
      hide Root;
      if !skip {
        chain := chain + [Publication(job.batch, root, job.ids)];
      }
      workers := workers[w := Published(job)];
    }

    method ConfirmRow(h: Hash, w: nat, job: Job)
      requires View().At(w) == Published(job) && job.batch in rows
      modifies this
      ensures Enabled(true, old(View()), Confirm(w)) && View() == Apply(h, old(View()), Confirm(w))
      ensures rows == old(rows)[job.batch := old(rows)[job.batch].(confirmed := true)]
      ensures View().At(w) == Published(job) && lease == old(lease) && chain == old(chain) && receipts == old(receipts)
    {
      rows := rows[job.batch := rows[job.batch].(confirmed := true)];
    }

    /** runAnchorBatchUnderLease.  `ran` extends the run `before` by the steps taken here. */
    method UnderLease(h: Hash, w: nat, unanchored: seq<ReceiptId>, batch: BatchId, failure: Failure, skip: bool,
                      ghost start: State, ghost before: seq<Action>)
      returns (outcome: Outcome, ghost ran: seq<Action>)
      requires lease == Some(w) && View().At(w).Leased? && |unanchored| <= MAX_BATCH && Distinct(unanchored)
      requires forall i :: 0 <= i < |unanchored| ==> unanchored[i] in receipts && Unclaimed(receipts, unanchored[i])
      requires Runs(h, true, start, before, View()) && !failure.LeaseUnavailable?
      modifies this
      ensures Runs(h, true, start, ran, View()) && lease == Some(w) && !View().At(w).Idle?
      ensures outcome == if failure.FetchFails? then Failed
                         else if unanchored == [] then NoReceipts
                         else if batch in old(rows) || failure != Nothing then Failed
                         else Anchored(batch, |unanchored|, Root(h, true, HashesOf(old(receipts), unanchored)))
      ensures Written(h, old(View()), View(), unanchored, batch, skip,
                      if failure.FetchFails? || unanchored == [] || batch in old(rows) then 0 else Writes(failure))
    {
      hide Root, Path, BulkUpdate, Runs, Apply, Enabled, Written;
      ran := before;
      ghost var origin := View();
      NothingWritten(h, origin, origin, unanchored, batch, skip);
      if failure.FetchFails? {
        return Failed, ran;
      }
      if unanchored == [] {
        return NoReceipts, ran;
      }
      var job := Job(batch, unanchored, HashesOf(receipts, unanchored));
      ghost var was := View();
      workers := workers[w := Fetched(job)];
      FetchApplies(h, was, w, batch, unanchored);
      Extend(h, true, start, ran, was, Fetch(w, batch, unanchored));
      ran := ran + [Fetch(w, batch, unanchored)];
      NothingWritten(h, origin, View(), unanchored, batch, skip);

      var tree, proofs := BuildProofs(h, job.hashes);
      if batch in rows || failure == InsertFails(false) {
        return Failed, ran;
      }
      was := View();
      InsertRow(h, w, job, tree);
      Extend(h, true, start, ran, was, Persist(w));
      ran := ran + [Persist(w)];
      RowWritten(h, origin, View(), unanchored, batch, skip);
      if failure.InsertFails? {
        return Failed, ran;
      }
      outcome, ran := ClaimAndPublish(h, w, job, proofs, tree.root.value, failure, skip, start, ran, origin);
    }

    /** Claim first, then the irreversible transaction, then the confirmation. */
    method ClaimAndPublish(h: Hash, w: nat, job: Job, proofs: seq<seq<Step<string>>>, root: string, failure: Failure,
                           skip: bool, ghost start: State, ghost before: seq<Action>, ghost origin: State)
      returns (outcome: Outcome, ghost ran: seq<Action>)
      requires View().At(w) == Persisted(job) && Distinct(job.ids)
      requires forall i :: 0 <= i < |job.ids| ==> job.ids[i] in receipts && Unclaimed(receipts, job.ids[i])
      requires |proofs| == |job.hashes| && job.hashes == HashesOf(receipts, job.ids)
      requires job.hashes != [] && root == Root(h, true, job.hashes)
      requires forall i :: 0 <= i < |proofs| ==> proofs[i] == Path(h, true, job.hashes, i)
      requires Runs(h, true, start, before, View()) && Written(h, origin, View(), job.ids, job.batch, skip, 1)
      requires !failure.LeaseUnavailable? && !failure.FetchFails? && !failure.InsertFails?
      requires origin.receipts == receipts
      requires job.batch in rows
      modifies this
      ensures Runs(h, true, start, ran, View()) && lease == old(lease) && !View().At(w).Idle?
      ensures outcome == if failure != Nothing then Failed else Anchored(job.batch, |job.ids|, root)
      ensures Written(h, origin, View(), job.ids, job.batch, skip, Writes(failure))
    {
      hide Root, Path, BulkUpdate, Runs, Apply, Enabled, Written;
      ran := before;
      if failure == ClaimFails(false) {
        return Failed, ran;
      }
      ghost var was := View();
      ClaimBatch(h, w, job, proofs);
      Extend(h, true, start, ran, was, ClaimAll(w));
      ran := ran + [ClaimAll(w)];
      ClaimsAreWritten(h, origin, was, View(), job, skip);
      if failure.ClaimFails? || failure == ChainFails(false) {
        return Failed, ran;
      }
      was := View();
      AnchorToBase(h, w, job, root, skip);
      ghost var sent := if skip then SkipChain(w) else Publish(w);
      Extend(h, true, start, ran, was, sent);
      ran := ran + [sent];
      PublicationWritten(h, origin, was, View(), job, root, skip);
      if failure.ChainFails? || failure == ConfirmFails(false) {
        return Failed, ran;
      }
      was := View();
      ConfirmRow(h, w, job);
      Extend(h, true, start, ran, was, Confirm(w));
      ran := ran + [Confirm(w)];
      ConfirmationWritten(h, origin, was, View(), job, skip);
      if failure.ConfirmFails? {
        return Failed, ran;
      }
      return Anchored(job.batch, |job.ids|, root), ran;
    }

    /** runAnchorBatch.  `unanchored` is what the fetch returned and `batch` the generated id;
        `ran` is the run of the state machine that this pass amounts to. */
    method RunAnchorBatch(h: Hash, w: nat, unanchored: seq<ReceiptId>, batch: BatchId, failure: Failure, skip: bool,
                          released: bool) returns (outcome: Outcome, ghost ran: seq<Action>)
      requires View().At(w).Idle? && |unanchored| <= MAX_BATCH && Distinct(unanchored)
      requires forall i :: 0 <= i < |unanchored| ==> unanchored[i] in receipts && Unclaimed(receipts, unanchored[i])
      modifies this
      ensures Runs(h, true, old(View()), ran, View())
      ensures outcome == if failure.LeaseUnavailable? then Failed
                         else if old(lease).Some? then AlreadyRunning
                         else if failure.FetchFails? then Failed
                         else if unanchored == [] then NoReceipts
                         else if batch in old(rows) || failure != Nothing then Failed
                         else Anchored(batch, |unanchored|, Root(h, true, HashesOf(old(receipts), unanchored)))
      ensures Written(h, old(View()), View(), unanchored, batch, skip,
                      if old(lease).Some? || failure.LeaseUnavailable? || failure.FetchFails?
                         || unanchored == [] || batch in old(rows) then 0 else Writes(failure))
      ensures lease == if old(lease).Some? || failure.LeaseUnavailable? then old(lease)
                       else if released then None else Some(w)
    {
      hide Runs, Root, BulkUpdate, Written;
      ghost var start := View();
      EmptyFencedRun(h, start);
      NothingWritten(h, start, start, unanchored, batch, skip);
      if failure.LeaseUnavailable? {
        return Failed, [];
      }
      if lease.Some? {
        return AlreadyRunning, [];
      }
      lease, workers := Some(w), workers[w := Leased];
      Extend(h, true, start, [], start, Acquire(w));
      ghost var leased := View();
      outcome, ran := UnderLease(h, w, unanchored, batch, failure, skip, start, [] + [Acquire(w)]);
      ghost var done := View();
      if released {
        lease := None;
      }
      workers := workers[w := Idle];
      Extend(h, true, start, ran, done, Stop(w, released));
      ran := ran + [Stop(w, released)];
      WrittenBetween(h, start, leased, done, View(), unanchored, batch, skip,
                     if failure.FetchFails? || unanchored == [] || batch in start.rows then 0 else Writes(failure));
    }
  }

  // ----- what a pass has written -------------------------------------------

  /** How many of the four writes (row, claims, transaction, confirmation) landed before the failure. */
  function Writes(failure: Failure): nat {
    match failure
    case Nothing => 4
    case InsertFails(landed) => if landed then 1 else 0
    case ClaimFails(landed) => if landed then 2 else 1
    case ChainFails(landed) => if landed then 3 else 2
    case ConfirmFails(landed) => if landed then 4 else 3
    case _ => 0
  }

  /** Each listed receipt is claimed for the batch at its own position with its own proof, and no other
      receipt changed. */
  ghost predicate ClaimsWritten(h: Hash, s: map<ReceiptId, Receipt>, t: map<ReceiptId, Receipt>, ids: seq<ReceiptId>,
                                batch: BatchId)
    requires forall i :: 0 <= i < |ids| ==> ids[i] in s
  {
    && t.Keys == s.Keys
    && (forall i :: 0 <= i < |ids| ==>
          t[ids[i]] == Receipt(s[ids[i]].hash, Some(Claim(batch, Path(h, true, HashesOf(s, ids), i), i))))
    && (forall id :: id in s && id !in ids ==> t[id] == s[id])
  }

  /** Exactly the first `n` writes of a pass over `ids` separate s from t. */
  ghost predicate Written(h: Hash, s: State, t: State, ids: seq<ReceiptId>, batch: BatchId, skip: bool, n: nat) {
    && (forall i :: 0 <= i < |ids| ==> ids[i] in s.receipts)
    && (n >= 1 ==> ids != [])
    && t.rows == (if n == 0 then s.rows
                  else s.rows[batch := BatchRow(Root(h, true, HashesOf(s.receipts, ids)), |ids|, n >= 4)])
    && (if n >= 2 then ClaimsWritten(h, s.receipts, t.receipts, ids, batch) else t.receipts == s.receipts)
    && t.chain == s.chain + (if n >= 3 && !skip then [Publication(batch, Root(h, true, HashesOf(s.receipts, ids)), ids)]
                             else [])
  }

  lemma NothingWritten(h: Hash, s: State, t: State, ids: seq<ReceiptId>, batch: BatchId, skip: bool)
    requires forall i :: 0 <= i < |ids| ==> ids[i] in s.receipts
    requires t.rows == s.rows && t.receipts == s.receipts && t.chain == s.chain
    ensures Written(h, s, t, ids, batch, skip, 0)
  {
    assert s.chain + [] == s.chain;
  }

  lemma RowWritten(h: Hash, s: State, t: State, ids: seq<ReceiptId>, batch: BatchId, skip: bool)
    requires (forall i :: 0 <= i < |ids| ==> ids[i] in s.receipts) && ids != []
    requires t.rows == s.rows[batch := BatchRow(Root(h, true, HashesOf(s.receipts, ids)), |ids|, false)]
    requires t.receipts == s.receipts && t.chain == s.chain
    ensures Written(h, s, t, ids, batch, skip, 1)
  {
    hide Root;
    assert s.chain + [] == s.chain;
  }

  lemma ClaimsAreWritten(h: Hash, s: State, was: State, t: State, job: Job, skip: bool)
    requires Written(h, s, was, job.ids, job.batch, skip, 1) && Distinct(job.ids) && was.receipts == s.receipts
    requires forall i :: 0 <= i < |job.ids| ==> Unclaimed(was.receipts, job.ids[i])
    requires job.hashes == HashesOf(s.receipts, job.ids)
    requires t.receipts == BulkUpdate(h, was.receipts, job, 0) && t.rows == was.rows && t.chain == was.chain
    ensures Written(h, s, t, job.ids, job.batch, skip, 2)
  {
    hide Root, Path;
    BulkUpdateEffect(h, was.receipts, job, 0);
    hide BulkUpdate;
    assert job.ids[0..] == job.ids;
  }

  lemma PublicationWritten(h: Hash, s: State, was: State, t: State, job: Job, root: string, skip: bool)
    requires Written(h, s, was, job.ids, job.batch, skip, 2)
    requires job.hashes == HashesOf(s.receipts, job.ids) && root == Root(h, true, job.hashes)
    requires t.chain == was.chain + if skip then [] else [Publication(job.batch, root, job.ids)]
    requires t.receipts == was.receipts && t.rows == was.rows
    ensures Written(h, s, t, job.ids, job.batch, skip, 3)
  {
    hide Root, Path, ClaimsWritten;
    assert was.chain == s.chain;
  }

  lemma ConfirmationWritten(h: Hash, s: State, was: State, t: State, job: Job, skip: bool)
    requires Written(h, s, was, job.ids, job.batch, skip, 3) && job.batch in was.rows
    requires t.rows == was.rows[job.batch := was.rows[job.batch].(confirmed := true)]
    requires t.receipts == was.receipts && t.chain == was.chain
    ensures Written(h, s, t, job.ids, job.batch, skip, 4)
  {
    hide Root, Path, ClaimsWritten;
  }

  lemma WrittenBetween(h: Hash, start: State, s: State, t: State, done: State, ids: seq<ReceiptId>, batch: BatchId,
                       skip: bool, n: nat)
    requires Written(h, s, t, ids, batch, skip, n)
    requires start.receipts == s.receipts && start.rows == s.rows && start.chain == s.chain
    requires done.receipts == t.receipts && done.rows == t.rows && done.chain == t.chain
    ensures Written(h, start, done, ids, batch, skip, n)
  {
    hide Root, Path, ClaimsWritten;
  }

  lemma EmptyFencedRun(h: Hash, s: State)
    ensures Runs(h, true, s, [], s)
  {
  }

  lemma FetchApplies(h: Hash, s: State, w: nat, batch: BatchId, ids: seq<ReceiptId>)
    requires s.lease == Some(w) && s.At(w).Leased? && 0 < |ids| <= MAX_BATCH && Distinct(ids)
    requires forall i :: 0 <= i < |ids| ==> Unclaimed(s.receipts, ids[i])
    ensures Enabled(true, s, Fetch(w, batch, ids))
    ensures Apply(h, s, Fetch(w, batch, ids)) == s.Move(w, Fetched(Job(batch, ids, HashesOf(s.receipts, ids))))
  {
    hide Root;
  }
}
