/** The signature parser and the check order of verifyTpm2Quote in attestation/tpm-quote-verifier.ts. */
module TpmVerify {
  import opened Common
  import opened TpmBytes
  import opened TpmPolicy
  import opened TpmTrust
  import Q = TpmQuote
  import S = TpmSignature
  import C = TpmCursor
  import JsonText

  // ----- TPMT_SIGNATURE ----------------------------------------------------

  method ParseTpm2Signature(signature: Bytes) returns (result: Option<Signature>)
    ensures result == ParseSignature(signature)
  {
    hide Q.Number, Q.Sized, ParseRsa, ParseEcdsa;
    var cursor := new C.Cursor(signature);
    var algorithm := cursor.Number(2);
    if algorithm.None? { return None; }
    var hash := cursor.Number(2);
    if hash.None? || hash.value != Q.TPM_ALG_SHA256 { return None; }
    if algorithm.value == TPM_ALG_RSASSA {
      result := ReadRsa(cursor);
      return;
    }
    if algorithm.value == TPM_ALG_ECDSA {
      result := ReadEcdsa(cursor);
      return;
    }
    return None;
  }

  method ReadRsa(cursor: C.Cursor) returns (result: Option<Signature>)
    requires cursor.Valid()
    modifies cursor`offset
    ensures result == ParseRsa(old(cursor.Rest()))
  {
    hide Q.Number, Q.Sized;
    var value := cursor.Tpm2b(MAX_SIGNATURE_BYTES);
    if value.None? || |value.value| < MIN_RSA_BYTES { return None; }
    var done := cursor.Done();
    if !done { return None; }
    return Some(Signature(Rsa, value.value));
  }

  method ReadEcdsa(cursor: C.Cursor) returns (result: Option<Signature>)
    requires cursor.Valid()
    modifies cursor`offset
    ensures result == ParseEcdsa(old(cursor.Rest()))
  {
    hide Q.Number, Q.Sized, S.EcdsaDerSpec;
    var r := cursor.Tpm2b(S.MAX_ECDSA_PARAMETER);
    if r.None? { return None; }
    var s := cursor.Tpm2b(S.MAX_ECDSA_PARAMETER);
    if s.None? || r.value == [] || s.value == [] { return None; }
    var der := S.EcdsaDer(r.value, s.value);
    if der.None? { return None; }
    var done := cursor.Done();
    if !done { return None; }
    return Some(Signature(Ec, der.value));
  }

  // ----- the check order ---------------------------------------------------

  /** Position by position, as the verifier compares. */
  method SameValues(a: seq<Pcr>, b: seq<Pcr>) returns (same: bool)
    requires |a| == |b|
    ensures same <==> a == b
  {
    for index := 0 to |a|
      invariant a[..index] == b[..index]
    {
      if a[index] != b[index] {
        return false;
      }
    }
    assert a == a[..|a|] && b == b[..|b|];
    return true;
  }

  method CheckSignature(host: Host, policy: Policy, akPublic: string, quoted: Bytes, signature: Bytes)
    returns (failure: Option<string>, fingerprint: Bytes)
    requires policy.fingerprints.Some?
    ensures failure.None? <==> SignedBy(host, policy, akPublic, quoted, signature)
    ensures failure.None? ==> KeyPrint(host, policy, akPublic, fingerprint)
    ensures failure.Some? ==> SignatureFault(host, policy, akPublic, quoted, signature, failure.value)
  {
    hide ParseSignature, Holds;
    fingerprint := [];
    var sig := ParseTpm2Signature(signature);
    HeldSignature(signature);
    var ak := host.createPublicKey(akPublic);
    if sig.None? || ak.None? { return Some("tpm_quote_malformed"), fingerprint; }
    if ak.value.keyType != Some(sig.value.keyType) { return Some("tpm_ak_type_mismatch"), fingerprint; }
    fingerprint := host.sha(ak.value.der);
    if fingerprint !in policy.fingerprints.value { return Some("tpm_ak_not_trusted"), fingerprint; }
    if !host.verify(quoted, ak.value, sig.value.value) { return Some("tpm_quote_signature_invalid"), fingerprint; }
    return None, fingerprint;
  }

  method CheckQuoted(host: Host, q: QuoteObject, policy: Policy, quoted: Bytes, expected: seq<nat>)
    returns (failure: Option<string>, parsed: Option<Q.Quote>)
    requires policy.nonce.Some? && 0 < |policy.nonce.value| <= Q.MAX_NONCE_BYTES && Selection(policy) == Some(expected)
    ensures parsed == Q.Parse(quoted)
    ensures failure.None? <==> QuoteFits(host, policy, quoted)
                               && ValuesFor(q.pcrValues, expected) == ValuesFor(policy.pcrValues, expected)
    ensures failure.Some? ==> QuotedFault(host, q, policy, parsed, expected, failure.value)
  {
    hide Q.Parse, NormalizeValues, Concat, Selection, HoldsValues, ValuesFor, InBlocks;
    SelectionExactly(policy, expected);
    ValuesHeld(q.pcrValues, expected);
    ValuesHeld(policy.pcrValues, expected);
    parsed := C.ParseTpm2Quote(quoted);
    if parsed.None? { return Some("tpm_quote_malformed"), parsed; }
    if parsed.value.header.extraData != policy.nonce.value { return Some("tpm_nonce_mismatch"), parsed; }
    if policy.requireSafeClock && !parsed.value.clock.safe { return Some("tpm_clock_not_safe"), parsed; }
    if parsed.value.pcrSelection != [Q.Bank(Q.TPM_ALG_SHA256, expected)] {
      return Some("tpm_pcr_selection_mismatch"), parsed;
    }
    var supplied := ValuesFor(q.pcrValues, expected);
    if supplied.None? { return Some("tpm_quote_malformed"), parsed; }
    var allowed := ValuesFor(policy.pcrValues, expected);
    if allowed.None? { return Some("tpm_quote_malformed"), parsed; }
    ValuesCount(q.pcrValues, expected);
    ValuesCount(policy.pcrValues, expected);
    var same := SameValues(supplied.value, allowed.value);
    ConcatIsTheBlocks(supplied.value);
    if !same { return Some("tpm_pcr_value_not_allowed"), parsed; }
    if parsed.value.pcrDigest != host.sha(Concat(supplied.value)) { return Some("tpm_pcr_digest_mismatch"), parsed; }
    return None, parsed;
  }

  /** The fingerprint of the attestation key, which is pinned. */
  ghost predicate KeyPrint(host: Host, policy: Policy, akPublic: string, fingerprint: Bytes) {
    && host.createPublicKey(akPublic).Some? && policy.fingerprints.Some?
    && fingerprint == host.sha(host.createPublicKey(akPublic).value.der)
    && fingerprint in policy.fingerprints.value
  }

  ghost predicate NoSignature(signature: Bytes) {
    forall keyType, value :: !Holds(signature, Some(keyType), value)
  }

  ghost predicate NoValues(given: Option<PcrValues>, selected: seq<nat>) {
    forall values :: !HoldsValues(given, selected, values)
  }

  /** What is wrong with the signature part when it is refused for this reason. */
  ghost predicate SignatureFault(host: Host, policy: Policy, akPublic: string, quoted: Bytes, signature: Bytes,
                                 reason: string)
  {
    var ak := host.createPublicKey(akPublic);
    if reason == "tpm_quote_malformed" then ak.None? || NoSignature(signature)
    else if reason == "tpm_ak_type_mismatch" then
      ak.Some? && exists keyType, value :: Holds(signature, Some(keyType), value) && ak.value.keyType != Some(keyType)
    else if reason == "tpm_ak_not_trusted" then
      ak.Some? && policy.fingerprints.Some? && host.sha(ak.value.der) !in policy.fingerprints.value
    else
      && reason == "tpm_quote_signature_invalid" && ak.Some?
      && exists value :: Holds(signature, ak.value.keyType, value) && !host.verify(quoted, ak.value, value)
  }

  /** What is wrong with the quoted bytes and the PCR values when they are refused for this reason. */
  ghost predicate QuotedFault(host: Host, q: QuoteObject, policy: Policy, parsed: Option<Q.Quote>, selected: seq<nat>,
                              reason: string)
  {
    if reason == "tpm_quote_malformed" then
      parsed.None? || NoValues(q.pcrValues, selected) || NoValues(policy.pcrValues, selected)
    else if reason == "tpm_nonce_mismatch" then parsed.Some? && Some(parsed.value.header.extraData) != policy.nonce
    else if reason == "tpm_clock_not_safe" then parsed.Some? && policy.requireSafeClock && !parsed.value.clock.safe
    else if reason == "tpm_pcr_selection_mismatch" then
      parsed.Some? && parsed.value.pcrSelection != [Q.Bank(0x000b, selected)]
    else if reason == "tpm_pcr_value_not_allowed" then
      exists a, b :: HoldsValues(q.pcrValues, selected, a) && HoldsValues(policy.pcrValues, selected, b) && a != b
    else
      && reason == "tpm_pcr_digest_mismatch" && parsed.Some?
      && exists values, hashed ::
           HoldsValues(q.pcrValues, selected, values) && InBlocks(hashed, values)
           && parsed.value.pcrDigest != host.sha(hashed)
  }

  /** Every refusal names something that is wrong with the quote or the policy. */
  ghost predicate Fault(host: Host, q: QuoteObject, policy: Policy, reason: string) {
    if reason == "tpm_quote_format_unsupported" then !q.formatOk
    else if reason == "tpm_ak_public_malformed" then q.akPublic.None?
    else if reason == "tpm_nonce_invalid" then policy.nonce.Some? && !(1 <= |policy.nonce.value| <= 64)
    else if reason == "tpm_nonce_metadata_mismatch" then q.nonce != policy.nonce
    else if reason == "tpm_quote_malformed" && Undecoded(q, policy) then true
    else
      && q.akPublic.Some? && q.quoted.Some?
      && exists selected ::
           Selects(policy, selected)
           && (QuotedFault(host, q, policy, Q.Parse(q.quoted.value), selected, reason)
               || (q.signature.Some?
                   && SignatureFault(host, policy, q.akPublic.value, q.quoted.value, q.signature.value, reason)))
  }

  ghost predicate Undecoded(q: QuoteObject, policy: Policy) {
    || !q.knownFields || q.nonce.None? || q.quoted.None? || q.signature.None? || policy.nonce.None?
    || policy.fingerprints.None? || policy.fingerprints.value == [] || forall selected :: !Selects(policy, selected)
  }

  lemma HeldSignature(signature: Bytes)
    ensures ParseSignature(signature).None? ==> NoSignature(signature)
    ensures var sig := ParseSignature(signature);
            sig.Some? ==> Holds(signature, Some(sig.value.keyType), sig.value.value)
  {
    hide ParseSignature, Holds;
    forall keyType: KeyType, value
      ensures Holds(signature, Some(keyType), value) <==>
              ParseSignature(signature) == Some(Signature(keyType, value))
    {
      HoldsExactly(signature, keyType, value);
    }
    if ParseSignature(signature).Some? {
      var sig := ParseSignature(signature).value;
      assert sig == Signature(sig.keyType, sig.value);
    }
  }

  lemma ValuesHeld(given: Option<PcrValues>, selected: seq<nat>)
    requires StrictlyIncreasing(selected)
    ensures ValuesFor(given, selected).None? ==> NoValues(given, selected)
    ensures ValuesFor(given, selected).Some? ==> HoldsValues(given, selected, ValuesFor(given, selected).value)
  {
    hide HoldsValues, ValuesFor;
    forall values
      ensures HoldsValues(given, selected, values) <==> ValuesFor(given, selected) == Some(values)
    {
      ValuesExactly(given, selected, values);
    }
    if ValuesFor(given, selected).Some? {
      assert ValuesFor(given, selected) == Some(ValuesFor(given, selected).value);
    }
  }

  lemma ConcatIsTheBlocks(values: seq<Pcr>)
    ensures InBlocks(Concat(values), values)
  {
    ConcatInBlocks(values);
  }

  lemma NoSelection(policy: Policy)
    ensures Selection(policy).None? ==> forall selected :: !Selects(policy, selected)
    ensures Selection(policy).Some? ==> Selects(policy, Selection(policy).value)
  {
    hide Selects, Selection;
    forall selected
      ensures Selects(policy, selected) <==> Selection(policy) == Some(selected)
    {
      SelectionExactly(policy, selected);
    }
    if Selection(policy).Some? {
      assert Selection(policy) == Some(Selection(policy).value);
    }
  }

  method VerifyTpm2Quote(host: Host, q: QuoteObject, policy: Policy) returns (v: Verdict)
    ensures v.Verified? <==> exists selected, values :: Genuine(host, q, policy, selected, values)
    ensures v.Verified? ==>
      && (exists values, hashed ::
            Genuine(host, q, policy, v.selection, values) && InBlocks(hashed, values)
            && v.pcrDigest == host.sha(hashed))
      && KeyPrint(host, policy, q.akPublic.value, v.akFingerprint)
      && Q.Parse(q.quoted.value).Some? && v.clockSafe == Q.Parse(q.quoted.value).value.clock.safe
    ensures v.Failed? ==> Fault(host, q, policy, v.reason)
  {
    hide NormalizeValues, ParseSignature, Q.Parse, Concat, SignedBy, Genuine, Selects, Selection, HoldsValues, Holds,
         NoValues, NoSignature, ValuesFor, QuoteFits, SignatureFault, QuotedFault, KeyPrint;
    SignedNeedsPins(host, q, policy);
    FitsNonce(host, q, policy);
    TrustedExactly(host, q, policy);
    NoSelection(policy);
    if !q.knownFields { return MALFORMED; }
    if !q.formatOk { return Failed("tpm_quote_format_unsupported"); }
    if q.akPublic.None? { return Failed("tpm_ak_public_malformed"); }
    if policy.nonce.None? { return MALFORMED; }
    if |policy.nonce.value| == 0 || |policy.nonce.value| > Q.MAX_NONCE_BYTES { return Failed("tpm_nonce_invalid"); }
    if q.nonce.None? { return MALFORMED; }
    if q.nonce.value != policy.nonce.value { return Failed("tpm_nonce_metadata_mismatch"); }
    if policy.fingerprints.None? || policy.fingerprints.value == [] { return MALFORMED; }
    var expected := Selection(policy);
    if expected.None? || q.quoted.None? { return MALFORMED; }
    var failure, parsed := CheckQuoted(host, q, policy, q.quoted.value, expected.value);
    if failure.Some? {
      QuotedIsFault(host, q, policy, expected.value, failure.value);
      return Failed(failure.value);
    }
    if q.signature.None? { return MALFORMED; }
    var refused, fingerprint := CheckSignature(host, policy, q.akPublic.value, q.quoted.value, q.signature.value);
    if refused.Some? {
      SignatureIsFault(host, q, policy, expected.value, refused.value);
      return Failed(refused.value);
    }
    TrustedDigest(host, q, policy, expected.value);
    return Verified(parsed.value.pcrDigest, fingerprint, expected.value, parsed.value.clock.safe);
  }

  lemma QuotedIsFault(host: Host, q: QuoteObject, policy: Policy, selected: seq<nat>, reason: string)
    requires q.akPublic.Some? && q.quoted.Some? && Selects(policy, selected)
    requires QuotedFault(host, q, policy, Q.Parse(q.quoted.value), selected, reason)
    ensures Fault(host, q, policy, reason)
  {
    hide Selects, Q.Parse, HoldsValues, NoValues, SignatureFault, InBlocks;
  }

  lemma SignatureIsFault(host: Host, q: QuoteObject, policy: Policy, selected: seq<nat>, reason: string)
    requires q.akPublic.Some? && q.quoted.Some? && q.signature.Some? && Selects(policy, selected)
    requires SignatureFault(host, policy, q.akPublic.value, q.quoted.value, q.signature.value, reason)
    ensures Fault(host, q, policy, reason)
  {
    hide Selects, Q.Parse, QuotedFault, Holds, NoSignature;
  }

  lemma FitsNonce(host: Host, q: QuoteObject, policy: Policy)
    ensures Trusted(host, q, policy) ==>
              policy.nonce.Some? && 0 < |policy.nonce.value| <= Q.MAX_NONCE_BYTES && Selection(policy).Some?
  {
    hide SignedBy, Q.Parse, NormalizeValues, Concat;
  }

  lemma TrustedDigest(host: Host, q: QuoteObject, policy: Policy, selected: seq<nat>)
    requires Trusted(host, q, policy) && Selection(policy) == Some(selected)
    ensures Q.Parse(q.quoted.value).Some?
    ensures exists values, hashed ::
              Genuine(host, q, policy, selected, values) && InBlocks(hashed, values)
              && Q.Parse(q.quoted.value).value.pcrDigest == host.sha(hashed)
  {
    hide SignedBy, Q.Parse, NormalizeValues, Concat, Genuine, Selection, InBlocks;
    var values := ValuesFor(policy.pcrValues, selected).value;
    TrustedIsGenuine(host, q, policy, selected, values);
    ConcatInBlocks(values);
  }

  lemma SignedNeedsPins(host: Host, q: QuoteObject, policy: Policy)
    ensures Trusted(host, q, policy) ==> policy.fingerprints.Some? && policy.fingerprints.value != []
  {
    hide QuoteFits;
  }

  // ----- what an accepted quote says ---------------------------------------

  /** The policy fixes every signed byte but the signer name, the clock and the bitmap width: what is hashed for the
      digest is the policy's value for each selected PCR, 32 bytes each, in ascending order of their numbers. */
  lemma PolicyFixesQuote(host: Host, q: QuoteObject, policy: Policy)
    returns (selected: seq<nat>, hashed: Bytes, width: nat, signer: Bytes, clock: Q.Clock)
    requires Trusted(host, q, policy)
    ensures Selects(policy, selected) && |hashed| == 32 * |selected|
    ensures forall i :: 0 <= i < |selected| ==>
              var name := JsonText.Digits(selected[i]);
              && policy.pcrValues.Some? && name in policy.pcrValues.value
              && policy.pcrValues.value[name] == Some(hashed[32 * i..32 * i + 32])
    ensures 1 <= width <= Q.MAX_PCR_SELECT_BYTES && (policy.requireSafeClock ==> clock.safe)
    ensures q.quoted.value == Q.Serialize(
              Q.Quote(Q.Header(signer, policy.nonce.value), clock, [Q.Bank(0x000b, selected)], host.sha(hashed)), width)
  {
    TrustedExactly(host, q, policy);
    hide SignedBy, Q.Serialize, Concat, Selects, AttestedBy, Trusted, JsonText.Digits;
    var values;
    selected, values :| Genuine(host, q, policy, selected, values);
    signer, clock, width, hashed :|
      IsQuote(host, q.quoted.value, policy.nonce.value, policy.requireSafeClock, selected, values, signer, clock, width,
              hashed);
  }

  /** Two trusted quotes that attest one digest for one selection attest the same PCR values, or two different texts
      made of those values, block by block, hash alike. */
  lemma DigestFixesValues(host: Host, q: QuoteObject, policy: Policy, q': QuoteObject, policy': Policy)
    returns (selected: seq<nat>, a: seq<Pcr>, b: seq<Pcr>, x: Bytes, y: Bytes)
    requires Trusted(host, q, policy) && Trusted(host, q', policy')
    requires Selection(policy) == Selection(policy')
    requires Q.Parse(q.quoted.value).value.pcrDigest == Q.Parse(q'.quoted.value).value.pcrDigest
    ensures HoldsValues(q.pcrValues, selected, a) && HoldsValues(q'.pcrValues, selected, b)
    ensures InBlocks(x, a) && InBlocks(y, b)
    ensures a == b || (x != y && host.sha(x) == host.sha(y))
  {
    hide SignedBy, Q.Parse, NormalizeValues, HoldsValues, Concat, InBlocks, Selection;
    selected := Selection(policy).value;
    SelectionExactly(policy, selected);
    ValuesHeld(q.pcrValues, selected);
    ValuesHeld(q'.pcrValues, selected);
    a, b := ValuesFor(q.pcrValues, selected).value, ValuesFor(q'.pcrValues, selected).value;
    ValuesCount(q.pcrValues, selected);
    ValuesCount(q'.pcrValues, selected);
    x, y := Concat(a), Concat(b);
    ConcatInBlocks(a);
    ConcatInBlocks(b);
    if x == y {
      ConcatInjective(a, b);
    }
  }
}
