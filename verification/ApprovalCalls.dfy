/** The replay store and the calls of examples/executor_approval_gate.py that use it: one verification of
    one piece of evidence, and the poll that leads to it. */
module ApprovalCalls {
  import opened Common
  import opened ApprovalGate
  import opened ApprovalEvidence

  /** What the store remembers of an evidence packet: the signed receipt id, if there is one. */
  ghost predicate NamesKey(host: Host, evidence: Value, key: string) {
    var id := Read(evidence, ["document", "payload", "receipt_id"]);
    id != Null && key == host.str(id)
  }

  lemma ReceiptKeyExactly(host: Host, evidence: Value, key: string)
    ensures ReceiptKey(host, evidence) == Some(key) <==> NamesKey(host, evidence, key)
  {
    ReadPayload(evidence, "receipt_id");
    hide Read, SignedPayload;
  }

  class InMemoryReplayStore {
    var ids: set<string>

    constructor ()
      ensures ids == {}
    {
      ids := {};
    }

    /** Atomic test-and-set: true exactly when the id was already recorded. */
    method Seen(receiptId: string) returns (replay: bool)
      modifies this
      ensures replay <==> receiptId in old(ids)
      ensures ids == old(ids) + {receiptId}
    {
      if receiptId in ids {
        return true;
      }
      ids := ids + {receiptId};
      return false;
    }
  }

  datatype VerifiedReceipt = VerifiedReceipt(verified: bool, status: string)

  /** _verify_evidence_offline. */
  method VerifyEvidenceOffline(host: Host, evidence: Value, expected: Option<Request>, policy: Policy,
                               now: Option<real>,
                               store: InMemoryReplayStore) returns (r: VerifiedReceipt)
    modifies store
    ensures r.verified <==> Proven(host, evidence, expected, policy, now)
                            && !exists key :: NamesKey(host, evidence, key) && key in old(store.ids)
    ensures r.verified ==> forall key :: key in store.ids <==> key in old(store.ids) || NamesKey(host, evidence, key)
    ensures !r.verified ==> store.ids == old(store.ids)
    ensures if Proven(host, evidence, expected, policy, now)
            then r.status == if r.verified then "verified" else "replay"
            else Gates(host, evidence, expected, policy, now) == Stopped(r.status)
    ensures r.verified <==> r.status == "verified"
  {
    hide Shown, Proven, Gates, Read;
    GatesPassExactly(host, evidence, expected, policy, now);
    ShownExactly(host, evidence, expected, policy, now);
    GatesNeverSayVerified(host, evidence, expected, policy, now);
    var gate := Gates(host, evidence, expected, policy, now);
    if gate.Stopped? {
      return VerifiedReceipt(false, gate.status);
    }
    var key := ReceiptKey(host, evidence);
    assert forall k :: NamesKey(host, evidence, k) <==> key == Some(k) by {
      ReceiptKeysExactly(host, evidence);
    }
    hide NamesKey, ReceiptKey;
    if key.Some? {
      var replay := store.Seen(key.value);
      if replay {
        return VerifiedReceipt(false, "replay");
      }
    }
    return VerifiedReceipt(true, "verified");
  }

  lemma ReceiptKeysExactly(host: Host, evidence: Value)
    ensures forall key :: NamesKey(host, evidence, key) <==> ReceiptKey(host, evidence) == Some(key)
  {
    forall key
      ensures NamesKey(host, evidence, key) <==> ReceiptKey(host, evidence) == Some(key)
    {
      ReceiptKeyExactly(host, evidence, key);
    }
  }

  lemma GatesNeverSayVerified(host: Host, evidence: Value, expected: Option<Request>, policy: Policy,
                              now: Option<real>)
    ensures Gates(host, evidence, expected, policy, now) != Stopped("verified")
  {
    hide IsPinned, BindClaim, SignedPayload, Get;
  }

  // ----- polling -----------------------------------------------------------

  datatype Answer = Answer(http: int, status: string)

  const APPROVED := {"approved_pending_consume"}
  const CONSUMED := {"consumed"}
  const REJECTED := {"rejected", "denied", "expired"}

  predicate Terminal(a: Answer) {
    a.http == 200 && a.status in APPROVED + CONSUMED + REJECTED
  }

  /** An answer that ends the poll. */
  ghost predicate Ends(a: Answer) {
    a.http == 200
    && (a.status == "approved_pending_consume" || a.status == "consumed" || a.status == "rejected"
        || a.status == "denied" || a.status == "expired")
  }

  /** Of the answers that end the poll, this one comes first. */
  ghost predicate FirstEnd(answers: seq<Answer>, i: int) {
    0 <= i < |answers| && Ends(answers[i]) && forall j :: 0 <= j < i ==> !Ends(answers[j])
  }

  ghost predicate EndsWith(answers: seq<Answer>, status: string) {
    exists i :: FirstEnd(answers, i) && answers[i].status == status
  }

  lemma OneFirstEnd(answers: seq<Answer>, i: int)
    requires FirstEnd(answers, i)
    ensures forall status :: EndsWith(answers, status) <==> answers[i].status == status
  {
    assert forall j :: FirstEnd(answers, j) ==> j == i;
  }

  /** wait_for_approval over the answers polled before the deadline: only an approved first
      terminal answer leads on to verification, and every other outcome leaves the store alone. */
  method WaitForApproval(host: Host, answers: seq<Answer>, evidence: Option<Value>, expected: Option<Request>,
                         policy: Policy, now: Option<real>, store: InMemoryReplayStore) returns (r: VerifiedReceipt)
    modifies store
    ensures r.verified <==> EndsWith(answers, "approved_pending_consume") && evidence.Some?
                            && Proven(host, evidence.value, expected, policy, now)
                            && !exists key :: NamesKey(host, evidence.value, key) && key in old(store.ids)
    ensures !r.verified ==> store.ids == old(store.ids)
    ensures r.verified ==>
              forall key :: key in store.ids <==> key in old(store.ids) || NamesKey(host, evidence.value, key)
    ensures (forall i :: 0 <= i < |answers| ==> !Ends(answers[i])) ==> r.status == "timeout"
    ensures EndsWith(answers, "consumed") ==> r.status == "already_consumed"
    ensures EndsWith(answers, "rejected") || EndsWith(answers, "denied") || EndsWith(answers, "expired") ==>
              r.status == "rejected"
    ensures EndsWith(answers, "approved_pending_consume") && evidence.None? ==> r.status == "no_evidence"
  {
    hide Proven, NamesKey, Ends;
    var n := 0;
    while n < |answers|
      invariant 0 <= n <= |answers| && store.ids == old(store.ids)
      invariant forall j :: 0 <= j < n ==> !Ends(answers[j])
    {
      TerminalExactly(answers[n]);
      if Terminal(answers[n]) {
        OneFirstEnd(answers, n);
        if answers[n].status in APPROVED {
          if evidence.None? {
            return VerifiedReceipt(false, "no_evidence");
          }
          r := VerifyEvidenceOffline(host, evidence.value, expected, policy, now, store);
          return;
        }
        return VerifiedReceipt(false, if answers[n].status in CONSUMED then "already_consumed" else "rejected");
      }
      n := n + 1;
    }
    return VerifiedReceipt(false, "timeout");
  }

  lemma TerminalExactly(a: Answer)
    ensures Terminal(a) <==> Ends(a)
    ensures a.status in APPROVED <==> a.status == "approved_pending_consume"
    ensures a.status in CONSUMED <==> a.status == "consumed"
  {
  }
}
