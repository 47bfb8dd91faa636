/** What a passing presentation at the gate of examples/executor_approval_gate.py has shown, said of the
    entries of the evidence packet and of the request, by their names. */
module ApprovalEvidence {
  import opened Common
  import opened ApprovalGate

  /** The entry under these names, one inside the other; null when there is none. */
  ghost function Read(v: Value, path: seq<string>): Value {
    if path == [] then v
    else if v.Object? && path[0] in v.fields then Read(v.fields[path[0]], path[1..])
    else Null
  }

  /** The first of these entries that is there and not null. */
  ghost function FirstOf(v: Value, paths: seq<seq<string>>): Value {
    if paths == [] then Null
    else if Read(v, paths[0]) != Null then Read(v, paths[0])
    else FirstOf(v, paths[1..])
  }

  /** The signed action: `context` when it is an object, else `canonical_action`. */
  ghost function ActionEntry(evidence: Value, name: string): Value {
    if Read(evidence, ["document", "payload", "claim", "context"]).Object?
    then Read(evidence, ["document", "payload", "claim", "context", name])
    else Read(evidence, ["document", "payload", "claim", "canonical_action", name])
  }

  /** The key itself or its fingerprint is in the pinned set. */
  ghost predicate Trusted(host: Host, key: string, pinned: set<string>) {
    host.normalize(key) in pinned || exists f :: host.fingerprint(key) == Some(f) && f != "" && f in pinned
  }

  /** The evidence holds a document, signed under a trusted key that comes with it. */
  ghost predicate SignedByTrusted(host: Host, evidence: Value, policy: Policy) {
    exists fields, key ::
      && Read(evidence, ["document"]) == Object(fields) && Read(evidence, ["public_key"]) == Text(key) && key != ""
      && SignatureShown(host, Object(fields), key, policy.requireAnchor)
      && Trusted(host, key, policy.pinned)
  }

  ghost predicate SignatureShown(host: Host, document: Value, key: string, requireAnchor: bool) {
    host.haveVerifier
    && exists anchor :: host.verify(document, key) == Answered(true, anchor) && (requireAnchor ==> anchor == Some(true))
  }

  ghost predicate Wants(expected: Request, name: string, w: Value) {
    name in expected && expected[name] == w && w != Null
  }

  ghost predicate SameAction(a: string, b: string) {
    a != "" && (a == b || (a == "large_payment_release" && b == "payment.release")
                || (a == "payment.release" && b == "large_payment_release"))
  }

  ghost predicate SameDecimal(host: Host, a: Value, b: Value) {
    !a.Bool? && !b.Bool? && exists d :: host.decimal(a) == Some(d) && host.decimal(b) == Some(d)
  }

  /** Python's ==, for which True is 1 and False is 0. */
  ghost predicate SameValue(a: Value, b: Value) {
    a == b || (a == Bool(true) && b == Num(1.0)) || (a == Num(1.0) && b == Bool(true))
    || (a == Bool(false) && b == Num(0.0)) || (a == Num(0.0) && b == Bool(false))
  }

  /** Whatever the request asks for is what was signed. */
  ghost predicate SignedAsAsked(host: Host, evidence: Value, expected: Request) {
    && (forall w | Wants(expected, "receipt_id", w) ::
          SameValue(Read(evidence, ["document", "payload", "receipt_id"]), w))
    && (forall w | Wants(expected, "action_type", w) ::
          var x := FirstOf(evidence, [["document", "payload", "claim", "action_type"],
                                      ["document", "payload", "claim", "action"]]);
          x.Text? && w.Text? && SameAction(x.s, w.s))
    && (forall w | Wants(expected, "amount", w) :: SameDecimal(host, ActionEntry(evidence, "amount"), w))
    && (forall w | Wants(expected, "currency", w) ::
          var x := ActionEntry(evidence, "currency");
          x != Null && host.upper(host.str(x)) == host.upper(host.str(w)))
    && (forall w | Wants(expected, "target_resource_id", w) :: SameValue(SignedDestination(evidence), w))
    && (forall w | Wants(expected, "approver_id", w) ::
          SameValue(FirstOf(evidence, [["document", "payload", "claim", "approver"],
                                       ["document", "payload", "authorization", "approver_id"]]), w))
  }

  ghost function SignedDestination(evidence: Value): Value {
    if ActionEntry(evidence, "destination") != Null then ActionEntry(evidence, "destination")
    else if ActionEntry(evidence, "target_resource_id") != Null then ActionEntry(evidence, "target_resource_id")
    else if ActionEntry(evidence, "destination_account") != Null then ActionEntry(evidence, "destination_account")
    else ActionEntry(evidence, "to")
  }

  /** Issued no later than now and no more than the allowed age ago. */
  ghost predicate Fresh(host: Host, evidence: Value, maxAge: int, now: Option<real>) {
    exists n, i ::
      && now == Some(n) && host.instant(Read(evidence, ["document", "payload", "issued_at"])) == Some(i)
      && i <= n <= i + maxAge as real
  }

  ghost predicate Proven(host: Host, evidence: Value, expected: Option<Request>, policy: Policy, now: Option<real>) {
    && SignedByTrusted(host, evidence, policy)
    && (expected.Some? ==> SignedAsAsked(host, evidence, expected.value))
    && (policy.maxAge.Some? ==> policy.maxAge.value > 0 && Fresh(host, evidence, policy.maxAge.value, now))
  }

  lemma ReadOne(v: Value, a: string)
    ensures Read(v, [a]) == Get(v, a)
  {
    assert [a][1..] == [];
  }

  lemma ReadMore(v: Value, a: string, rest: seq<string>)
    ensures rest != [] ==> Read(v, [a] + rest) == Read(Get(v, a), rest)
  {
    assert ([a] + rest)[1..] == rest;
  }

  lemma ReadPayload(evidence: Value, a: string)
    ensures Read(evidence, ["document", "payload", a]) == Get(SignedPayload(Get(evidence, "document")), a)
  {
    var document := Get(evidence, "document");
    ReadOne(Get(document, "payload"), a);
    ReadMore(document, "payload", [a]);
    ReadMore(evidence, "document", ["payload", a]);
    assert ["document"] + ["payload", a] == ["document", "payload", a] && ["payload"] + [a] == ["payload", a];
  }

  lemma ReadPayloadMember(evidence: Value, a: string, b: string)
    ensures Read(evidence, ["document", "payload", a, b]) == Get(Get(SignedPayload(Get(evidence, "document")), a), b)
  {
    var document := Get(evidence, "document");
    var payload := Get(document, "payload");
    ReadOne(Get(payload, a), b);
    ReadMore(payload, a, [b]);
    ReadMore(document, "payload", [a, b]);
    ReadMore(evidence, "document", ["payload", a, b]);
    assert ["document"] + ["payload", a, b] == ["document", "payload", a, b];
    assert ["payload"] + [a, b] == ["payload", a, b] && [a] + [b] == [a, b];
  }

  lemma ReadAction(evidence: Value, a: string, name: string)
    ensures Read(evidence, ["document", "payload", "claim", a, name])
            == Get(Get(Claim(SignedPayload(Get(evidence, "document"))), a), name)
  {
    var document := Get(evidence, "document");
    var payload := Get(document, "payload");
    var claim := Get(payload, "claim");
    ReadOne(Get(claim, a), name);
    ReadMore(claim, a, [name]);
    ReadMore(payload, "claim", [a, name]);
    ReadMore(document, "payload", ["claim", a, name]);
    ReadMore(evidence, "document", ["payload", "claim", a, name]);
    assert ["document"] + ["payload", "claim", a, name] == ["document", "payload", "claim", a, name];
    assert ["payload"] + ["claim", a, name] == ["payload", "claim", a, name];
    assert ["claim"] + [a, name] == ["claim", a, name] && [a] + [name] == [a, name];
  }

  lemma ActionEntryIs(evidence: Value, name: string)
    ensures ActionEntry(evidence, name) == Get(ActionContext(SignedPayload(Get(evidence, "document"))), name)
  {
    ReadPayloadMember(evidence, "claim", "context");
    ReadAction(evidence, "context", name);
    ReadAction(evidence, "canonical_action", name);
    hide Read;
  }

  lemma PyEqualExactly(a: Value, b: Value)
    ensures PyEqual(a, b) <==> SameValue(a, b)
  {
  }

  lemma ReceiptIdAsAsked(host: Host, evidence: Value, expected: Request)
    ensures !Mismatch(host, SignedPayload(Get(evidence, "document")), expected, ReceiptId) <==>
            forall w | Wants(expected, "receipt_id", w) ::
              SameValue(Read(evidence, ["document", "payload", "receipt_id"]), w)
  {
    ReadPayload(evidence, "receipt_id");
    var x := Get(SignedPayload(Get(evidence, "document")), "receipt_id");
    PyEqualExactly(x, Wanted(expected, ReceiptId));
    hide SameValue, PyEqual, Read;
    assert Wanted(expected, ReceiptId) != Null <==> Wants(expected, "receipt_id", Wanted(expected, ReceiptId));
  }

  lemma ActionAsAsked(host: Host, evidence: Value, expected: Request)
    ensures !Mismatch(host, SignedPayload(Get(evidence, "document")), expected, Action) <==>
            forall w | Wants(expected, "action_type", w) ::
              var x := FirstOf(evidence, [["document", "payload", "claim", "action_type"],
                                          ["document", "payload", "claim", "action"]]);
              x.Text? && w.Text? && SameAction(x.s, w.s)
  {
    var payload := SignedPayload(Get(evidence, "document"));
    ReadPayloadMember(evidence, "claim", "action_type");
    ReadPayloadMember(evidence, "claim", "action");
    FirstOfTwo(evidence, ["document", "payload", "claim", "action_type"], ["document", "payload", "claim", "action"]);
    hide Read, FirstOf;
    assert Wanted(expected, Action) != Null <==> Wants(expected, "action_type", Wanted(expected, Action));
    SameActionExactly(ActionType(payload), Wanted(expected, Action));
    hide ActionTypesEqual, SameAction;
  }

  lemma FirstOfTwo(v: Value, p: seq<string>, q: seq<string>)
    ensures FirstOf(v, [p, q]) == if Read(v, p) != Null then Read(v, p) else Read(v, q)
  {
    assert [p, q][1..] == [q] && [q][1..] == [] && FirstOf(v, []) == Null;
    hide Read;
    assert FirstOf(v, [q]) == Read(v, q);
  }

  lemma SameActionExactly(a: Value, b: Value)
    ensures ActionTypesEqual(a, b) <==> a.Text? && b.Text? && SameAction(a.s, b.s)
  {
  }

  lemma AmountAsAsked(host: Host, evidence: Value, expected: Request)
    ensures !Mismatch(host, SignedPayload(Get(evidence, "document")), expected, Amount) <==>
            forall w | Wants(expected, "amount", w) :: SameDecimal(host, ActionEntry(evidence, "amount"), w)
  {
    ActionEntryIs(evidence, "amount");
    hide ActionEntry;
    assert Wanted(expected, Amount) != Null <==> Wants(expected, "amount", Wanted(expected, Amount));
  }

  lemma CurrencyAsAsked(host: Host, evidence: Value, expected: Request)
    ensures !Mismatch(host, SignedPayload(Get(evidence, "document")), expected, Currency) <==>
            forall w | Wants(expected, "currency", w) ::
              var x := ActionEntry(evidence, "currency");
              x != Null && host.upper(host.str(x)) == host.upper(host.str(w))
  {
    ActionEntryIs(evidence, "currency");
    hide ActionEntry;
    assert Wanted(expected, Currency) != Null <==> Wants(expected, "currency", Wanted(expected, Currency));
  }

  lemma TargetAsAsked(host: Host, evidence: Value, expected: Request)
    ensures !Mismatch(host, SignedPayload(Get(evidence, "document")), expected, Target) <==>
            forall w | Wants(expected, "target_resource_id", w) :: SameValue(SignedDestination(evidence), w)
  {
    ActionEntryIs(evidence, "destination");
    ActionEntryIs(evidence, "target_resource_id");
    ActionEntryIs(evidence, "destination_account");
    ActionEntryIs(evidence, "to");
    hide ActionEntry, ActionContext;
    var payload := SignedPayload(Get(evidence, "document"));
    assert Destination(payload) == SignedDestination(evidence);
    PyEqualExactly(Destination(payload), Wanted(expected, Target));
    hide SignedDestination, Destination;
    assert Wanted(expected, Target) != Null <==> Wants(expected, "target_resource_id", Wanted(expected, Target));
  }

  lemma ApproverAsAsked(host: Host, evidence: Value, expected: Request)
    ensures !Mismatch(host, SignedPayload(Get(evidence, "document")), expected, ApproverField) <==>
            forall w | Wants(expected, "approver_id", w) ::
              SameValue(FirstOf(evidence, [["document", "payload", "claim", "approver"],
                                           ["document", "payload", "authorization", "approver_id"]]), w)
  {
    var payload := SignedPayload(Get(evidence, "document"));
    ReadPayloadMember(evidence, "claim", "approver");
    ReadPayloadMember(evidence, "authorization", "approver_id");
    FirstOfTwo(evidence, ["document", "payload", "claim", "approver"],
               ["document", "payload", "authorization", "approver_id"]);
    hide Read, FirstOf;
    PyEqualExactly(Approver(payload), Wanted(expected, ApproverField));
    assert Wanted(expected, ApproverField) != Null
           <==> Wants(expected, "approver_id", Wanted(expected, ApproverField));
  }

  /** Binding a claim to a request is exactly finding in the evidence what the request asks for. */
  lemma BindsExactly(host: Host, evidence: Value, expected: Request)
    ensures Binds(host, SignedPayload(Get(evidence, "document")), expected) <==> SignedAsAsked(host, evidence, expected)
  {
    var payload := SignedPayload(Get(evidence, "document"));
    ReceiptIdAsAsked(host, evidence, expected);
    ActionAsAsked(host, evidence, expected);
    AmountAsAsked(host, evidence, expected);
    CurrencyAsAsked(host, evidence, expected);
    TargetAsAsked(host, evidence, expected);
    ApproverAsAsked(host, evidence, expected);
    BindsByField(host, payload, expected);
    hide Mismatch, Binds, Read, FirstOf, ActionEntry, SameValue, SameAction, SameDecimal, SignedDestination, Wants;
  }

  lemma BindsByField(host: Host, payload: Value, expected: Request)
    ensures Binds(host, payload, expected) <==>
            !Mismatch(host, payload, expected, ReceiptId) && !Mismatch(host, payload, expected, Action)
            && !Mismatch(host, payload, expected, Amount) && !Mismatch(host, payload, expected, Currency)
            && !Mismatch(host, payload, expected, Target) && !Mismatch(host, payload, expected, ApproverField)
  {
    hide Carries, Wanted;
    if BindClaim(host, payload, expected).None? {
      assert Binds(host, payload, expected);
    }
  }

  // ----- the whole gate ----------------------------------------------------

  lemma PinnedExactly(host: Host, key: string, pinned: set<string>)
    ensures IsPinned(host, key, pinned) <==> key != "" && Trusted(host, key, pinned)
  {
  }

  /** A presentation passes every check before the replay store exactly when it proves the signer, the request and the
      date, in the terms of the packet itself. */
  lemma ShownExactly(host: Host, evidence: Value, expected: Option<Request>, policy: Policy, now: Option<real>)
    ensures Shown(host, evidence, expected, policy, now) <==> Proven(host, evidence, expected, policy, now)
  {
    ReadOne(evidence, "document");
    ReadOne(evidence, "public_key");
    ReadPayload(evidence, "issued_at");
    if expected.Some? {
      BindsExactly(host, evidence, expected.value);
    }
    var key := Get(evidence, "public_key");
    if key.Text? {
      PinnedExactly(host, key.s, policy.pinned);
    }
    SignerExactly(host, evidence, policy);
    hide Read, Binds, SignedAsAsked, IsPinned, Trusted, SignedPayload, SignedByTrusted;
  }

  lemma SignerExactly(host: Host, evidence: Value, policy: Policy)
    ensures var (document, key) := (Get(evidence, "document"), Get(evidence, "public_key"));
            SignedByTrusted(host, evidence, policy) <==>
              && document.Object? && key.Text? && host.haveVerifier
              && host.verify(document, key.s).Answered? && host.verify(document, key.s).valid
              && (policy.requireAnchor ==> host.verify(document, key.s).anchor == Some(true))
              && IsPinned(host, key.s, policy.pinned)
  {
    var (document, key) := (Get(evidence, "document"), Get(evidence, "public_key"));
    ReadOne(evidence, "document");
    ReadOne(evidence, "public_key");
    hide Read, Trusted, IsPinned;
    if document.Object? && key.Text? {
      PinnedExactly(host, key.s, policy.pinned);
      SignatureExactly(host, document, key.s, policy.requireAnchor);
      assert document == Object(document.fields) && key == Text(key.s);
    }
  }

  lemma SignatureExactly(host: Host, document: Value, key: string, requireAnchor: bool)
    ensures SignatureShown(host, document, key, requireAnchor) <==>
            host.haveVerifier && host.verify(document, key).Answered? && host.verify(document, key).valid
            && (requireAnchor ==> host.verify(document, key).anchor == Some(true))
  {
    var v := host.verify(document, key);
    if v.Answered? {
      assert v == Answered(v.valid, v.anchor);
    }
  }

  /** Evidence that verifies under a key outside the pinned set is stopped for its signer, and nothing else is. */
  lemma UntrustedIsStopped(host: Host, evidence: Value, expected: Option<Request>, policy: Policy, now: Option<real>)
    ensures Gates(host, evidence, expected, policy, now) == Stopped("untrusted_signer") <==>
            exists fields, key ::
              && Read(evidence, ["document"]) == Object(fields)
              && Read(evidence, ["public_key"]) == Text(key) && key != ""
              && SignatureShown(host, Object(fields), key, policy.requireAnchor)
              && !Trusted(host, key, policy.pinned)
  {
    var (document, key) := (Get(evidence, "document"), Get(evidence, "public_key"));
    ReadOne(evidence, "document");
    ReadOne(evidence, "public_key");
    hide Read, Trusted, IsPinned, BindClaim, SignatureShown;
    if document.Object? && key.Text? {
      PinnedExactly(host, key.s, policy.pinned);
      NobodyTrusted(host, key.s);
      SignatureExactly(host, document, key.s, policy.requireAnchor);
      assert document == Object(document.fields) && key == Text(key.s);
    }
  }

  ghost predicate HasSignature(evidence: Value) {
    exists fields, key: string ::
      Read(evidence, ["document"]) == Object(fields) && Read(evidence, ["public_key"]) == Text(key) && key != ""
  }

  /** What each refusal that comes before the claim is looked at says about the evidence. */
  lemma RefusedUnread(host: Host, evidence: Value, expected: Option<Request>, policy: Policy, now: Option<real>)
    ensures var gate := Gates(host, evidence, expected, policy, now);
            var (document, key) := (Read(evidence, ["document"]), Read(evidence, ["public_key"]));
            && (gate == Stopped("unsigned_evidence") <==> !HasSignature(evidence))
            && (gate == Stopped("verifier_unavailable") <==> HasSignature(evidence) && !host.haveVerifier)
            && (gate == Stopped("verifier_error") <==>
                HasSignature(evidence) && host.haveVerifier && host.verify(document, key.s) == Raised)
  {
    ReadOne(evidence, "document");
    ReadOne(evidence, "public_key");
    HasSignatureExactly(evidence);
    hide Read, IsPinned, BindClaim, SignedPayload, HasSignature;
  }

  lemma RefusedByVerifier(host: Host, evidence: Value, expected: Option<Request>, policy: Policy, now: Option<real>)
    ensures var gate := Gates(host, evidence, expected, policy, now);
            var (document, key) := (Read(evidence, ["document"]), Read(evidence, ["public_key"]));
            && (gate == Stopped("signature_invalid") <==>
                HasSignature(evidence) && host.haveVerifier
                && exists anchor :: host.verify(document, key.s) == Answered(false, anchor))
            && (gate == Stopped("anchor_required") <==>
                HasSignature(evidence) && host.haveVerifier && policy.requireAnchor
                && exists anchor :: host.verify(document, key.s) == Answered(true, anchor) && anchor != Some(true))
  {
    var (document, key) := (Get(evidence, "document"), Get(evidence, "public_key"));
    ReadOne(evidence, "document");
    ReadOne(evidence, "public_key");
    HasSignatureExactly(evidence);
    hide Read, IsPinned, BindClaim, SignedPayload, HasSignature;
    if key.Text? && host.verify(document, key.s).Answered? {
      var v := host.verify(document, key.s);
      assert v == Answered(v.valid, v.anchor);
    }
  }

  lemma HasSignatureExactly(evidence: Value)
    ensures HasSignature(evidence) <==>
            Get(evidence, "document").Object?
            && Get(evidence, "public_key").Text? && Get(evidence, "public_key").s != ""
  {
    var (document, key) := (Get(evidence, "document"), Get(evidence, "public_key"));
    ReadOne(evidence, "document");
    ReadOne(evidence, "public_key");
    hide Read;
    if document.Object? && key.Text? {
      assert document == Object(document.fields) && key == Text(key.s);
    }
  }

  /** What each refusal of evidence from a trusted signer says about the claim and the date. */
  lemma RefusedForContent(host: Host, evidence: Value, expected: Option<Request>, policy: Policy, now: Option<real>)
    requires SignedByTrusted(host, evidence, policy)
    ensures var (gate, issued) := (Gates(host, evidence, expected, policy, now),
                                   host.instant(Read(evidence, ["document", "payload", "issued_at"])));
            var asked := expected.Some? ==> SignedAsAsked(host, evidence, expected.value);
            && (gate == Stopped("claim_mismatch") <==> !asked)
            && (gate == Stopped("invalid_freshness_policy") <==>
                asked && policy.maxAge.Some? && policy.maxAge.value <= 0)
            && (gate == Stopped("invalid_freshness") <==>
                asked && policy.maxAge.Some? && policy.maxAge.value > 0 && (now.None? || issued.None?))
            && (gate == Stopped("not_yet_valid") <==>
                asked && policy.maxAge.Some? && policy.maxAge.value > 0 && now.Some? && issued.Some?
                && now.value < issued.value)
            && (gate == Stopped("expired") <==>
                asked && policy.maxAge.Some? && policy.maxAge.value > 0 && now.Some? && issued.Some?
                && issued.value + policy.maxAge.value as real < now.value)
            && (gate.Stopped? ==> gate.status in {"claim_mismatch", "invalid_freshness_policy", "invalid_freshness",
                                                  "not_yet_valid", "expired"})
  {
    SignerExactly(host, evidence, policy);
    ReadPayload(evidence, "issued_at");
    AskedExactly(host, evidence, expected);
    hide Read, Binds, BindClaim, SignedAsAsked, Trusted, SignedPayload, SignedByTrusted;
  }

  lemma AskedExactly(host: Host, evidence: Value, expected: Option<Request>)
    ensures (expected.Some? ==> SignedAsAsked(host, evidence, expected.value)) <==>
            !(expected.Some? && expected.value != map[]
              && BindClaim(host, SignedPayload(Get(evidence, "document")), expected.value).Some?)
  {
    if expected.Some? {
      BindsExactly(host, evidence, expected.value);
      assert Binds(host, SignedPayload(Get(evidence, "document")), map[]);
    }
    hide Binds, SignedAsAsked;
  }

  lemma NobodyTrusted(host: Host, key: string)
    ensures !Trusted(host, key, {})
  {
  }
}
