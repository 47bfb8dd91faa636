/** The executor approval gate of examples/executor_approval_gate.py: a chain of checks over signed
    evidence that ends in one atomic test-and-set, and what that buys over whole runs. */
module ApprovalGate {
  import opened Common

  /** JSON values as Python holds them; `Other` is any list. */
  datatype Value =
    | Null
    | Bool(b: bool)
    | Num(n: real)
    | Text(s: string)
    | Object(fields: map<string, Value>)
    | Other(id: nat)

  datatype Verification = Raised | Answered(valid: bool, anchor: Option<bool>)

  /** What the gate calls but this model does not open. */
  datatype Host = Host(
    haveVerifier: bool,
    verify: (Value, string) -> Verification,
    normalize: string -> string,
    fingerprint: string -> Option<string>,
    str: Value -> string,
    upper: string -> string,
    decimal: Value -> Option<real>,
    instant: Value -> Option<real>)

  /** `str` of a string is that string. */
  ghost predicate Plain(host: Host) {
    forall s :: host.str(Text(s)) == s
  }

  datatype Policy = Policy(pinned: set<string>, requireAnchor: bool, maxAge: Option<int>)
  type Request = map<string, Value>

  // ----- reading the signed payload ----------------------------------------

  /** `d.get(key)` on a dict, null on anything else. */
  function Get(v: Value, key: string): Value {
    if v.Object? && key in v.fields then v.fields[key] else Null
  }

  function DictOr(v: Value): Value {
    if v.Object? then v else Object(map[])
  }

  function SignedPayload(document: Value): Value {
    DictOr(Get(document, "payload"))
  }

  function Claim(payload: Value): Value {
    DictOr(Get(payload, "claim"))
  }

  function ActionContext(payload: Value): Value {
    var claim := Claim(payload);
    if Get(claim, "context").Object? then Get(claim, "context") else DictOr(Get(claim, "canonical_action"))
  }

  function Destination(payload: Value): Value {
    var ctx := ActionContext(payload);
    if Get(ctx, "destination") != Null then Get(ctx, "destination")
    else if Get(ctx, "target_resource_id") != Null then Get(ctx, "target_resource_id")
    else if Get(ctx, "destination_account") != Null then Get(ctx, "destination_account")
    else Get(ctx, "to")
  }

  function Approver(payload: Value): Value {
    if Get(Claim(payload), "approver") != Null then Get(Claim(payload), "approver")
    else Get(Get(payload, "authorization"), "approver_id")
  }

  function ActionType(payload: Value): Value {
    if Get(Claim(payload), "action_type") != Null then Get(Claim(payload), "action_type")
      else Get(Claim(payload), "action")
  }

  // ----- request binding ---------------------------------------------------

  const PAYMENT_NAMES := {"large_payment_release", "payment.release"}

  function Equivalents(requested: string): set<string> {
    if requested in PAYMENT_NAMES then PAYMENT_NAMES else {requested}
  }

  predicate ActionTypesEqual(signed: Value, requested: Value) {
    signed.Text? && signed.s != "" && requested.Text? && requested.s != "" && signed.s in Equivalents(requested.s)
  }

  predicate AmountsEqual(host: Host, signed: Value, requested: Value) {
    !signed.Bool? && !requested.Bool?
    && host.decimal(signed).Some? && host.decimal(requested).Some?
    && host.decimal(signed).value == host.decimal(requested).value
  }

  /** Python's ==, where True is 1. */
  predicate PyEqual(a: Value, b: Value) {
    if a.Bool? && b.Num? then (if a.b then 1.0 else 0.0) == b.n
    else if a.Num? && b.Bool? then (if b.b then 1.0 else 0.0) == a.n
    else a == b
  }

  datatype Field = ReceiptId | Action | Amount | Currency | Target | ApproverField

  function Wanted(expected: Request, f: Field): Value {
    var key := match f
      case ReceiptId => "receipt_id"
      case Action => "action_type"
      case Amount => "amount"
      case Currency => "currency"
      case Target => "target_resource_id"
      case ApproverField => "approver_id";
    if key in expected then expected[key] else Null
  }

  /** The signed claim carries the requested value of this field. */
  predicate Carries(host: Host, payload: Value, f: Field, wanted: Value) {
    match f
    case ReceiptId => PyEqual(Get(payload, "receipt_id"), wanted)
    case Action => ActionTypesEqual(ActionType(payload), wanted)
    case Amount => AmountsEqual(host, Get(ActionContext(payload), "amount"), wanted)
    case Currency =>
      var c := Get(ActionContext(payload), "currency");
      c != Null && host.upper(host.str(c)) == host.upper(host.str(wanted))
    case Target => Destination(payload) != Null && PyEqual(Destination(payload), wanted)
    case ApproverField => Approver(payload) != Null && PyEqual(Approver(payload), wanted)
  }

  /** Every provided field is carried; a missing signed field is never a wildcard. */
  ghost predicate Binds(host: Host, payload: Value, expected: Request) {
    forall f: Field :: Wanted(expected, f) != Null ==> Carries(host, payload, f, Wanted(expected, f))
  }

  predicate Mismatch(host: Host, payload: Value, expected: Request, f: Field) {
    Wanted(expected, f) != Null && !Carries(host, payload, f, Wanted(expected, f))
  }

  /** _bind_claim: the first field that does not match. */
  function BindClaim(host: Host, payload: Value, expected: Request): (r: Option<Field>)
    ensures r.None? <==> Binds(host, payload, expected)
    ensures r.Some? ==> Mismatch(host, payload, expected, r.value)
  {
    if Mismatch(host, payload, expected, ReceiptId) then Some(ReceiptId)
    else if Mismatch(host, payload, expected, Action) then Some(Action)
    else if Mismatch(host, payload, expected, Amount) then Some(Amount)
    else if Mismatch(host, payload, expected, Currency) then Some(Currency)
    else if Mismatch(host, payload, expected, Target) then Some(Target)
    else if Mismatch(host, payload, expected, ApproverField) then Some(ApproverField)
    else None
  }

  /** Action names fall into classes: the table makes no one-way substitution possible. */
  lemma ActionTypesAreClasses(a: Value, b: Value, c: Value)
    ensures a.Text? && a.s != "" ==> ActionTypesEqual(a, a)
    ensures ActionTypesEqual(a, b) ==> ActionTypesEqual(b, a)
    ensures ActionTypesEqual(a, b) && ActionTypesEqual(b, c) ==> ActionTypesEqual(a, c)
  {
  }

  // ----- the gates before the replay store ---------------------------------

  datatype Gate = Passed | Stopped(status: string)

  predicate IsPinned(host: Host, key: string, pinned: set<string>) {
    key != "" && pinned != {}
    && (host.normalize(key) in pinned
        || (host.fingerprint(key).Some? && host.fingerprint(key).value != "" && host.fingerprint(key).value in pinned))
  }

  function Freshness(host: Host, maxAge: int, now: Option<real>, issued: Option<real>): Gate {
    if maxAge <= 0 then Stopped("invalid_freshness_policy")
    else if now.None? || issued.None? then Stopped("invalid_freshness")
    else if now.value - issued.value < 0.0 then Stopped("not_yet_valid")
    else if now.value - issued.value > maxAge as real then Stopped("expired")
    else Passed
  }

  /** _verify_evidence_offline up to the replay store.  `now` is the parsed evaluation time. */
  function Gates(host: Host, evidence: Value, expected: Option<Request>, policy: Policy, now: Option<real>): Gate {
    var document, key := Get(evidence, "document"), Get(evidence, "public_key");
    if !document.Object? || !key.Text? || key.s == "" then Stopped("unsigned_evidence")
    else if !host.haveVerifier then Stopped("verifier_unavailable")
    else
      var result := host.verify(document, key.s);
      if result.Raised? then Stopped("verifier_error")
      else if !result.valid then Stopped("signature_invalid")
      else if policy.requireAnchor && result.anchor != Some(true) then Stopped("anchor_required")
      else if policy.pinned == {} || !IsPinned(host, key.s, policy.pinned) then Stopped("untrusted_signer")
      else
        var payload := SignedPayload(document);
        if expected.Some? && expected.value != map[] && BindClaim(host, payload, expected.value).Some?
        then Stopped("claim_mismatch")
        else if policy.maxAge.None? then Passed
        else Freshness(host, policy.maxAge.value, now, host.instant(Get(payload, "issued_at")))
  }

  /** The store key of the signed receipt id, if there is one. */
  function ReceiptKey(host: Host, evidence: Value): Option<string> {
    var id := Get(SignedPayload(Get(evidence, "document")), "receipt_id");
    if id == Null then None else Some(host.str(id))
  }

  /** What a passing presentation has shown, independent of the order of the checks. */
  ghost predicate Shown(host: Host, evidence: Value, expected: Option<Request>, policy: Policy, now: Option<real>) {
    var document, key := Get(evidence, "document"), Get(evidence, "public_key");
    && document.Object? && key.Text? && host.haveVerifier
    && host.verify(document, key.s).Answered? && host.verify(document, key.s).valid
    && (policy.requireAnchor ==> host.verify(document, key.s).anchor == Some(true))
    && IsPinned(host, key.s, policy.pinned)
    && (expected.Some? ==> Binds(host, SignedPayload(document), expected.value))
    && (policy.maxAge.Some? ==>
          var issued := host.instant(Get(SignedPayload(document), "issued_at"));
          now.Some? && issued.Some? && 0.0 <= now.value - issued.value <= policy.maxAge.value as real
          && policy.maxAge.value > 0)
  }

  lemma GatesPassExactly(host: Host, evidence: Value, expected: Option<Request>, policy: Policy, now: Option<real>)
    ensures Gates(host, evidence, expected, policy, now) == Passed <==> Shown(host, evidence, expected, policy, now)
  {
    var payload := SignedPayload(Get(evidence, "document"));
    assert Binds(host, payload, map[]);
    hide Binds, Carries;
  }
}
