/** The signature grammar, the policy normalizers and the condition that verifyTpm2Quote of
    attestation/tpm-quote-verifier.ts decides. */
module TpmPolicy {
  import opened Common
  import opened TpmBytes
  import Q = TpmQuote
  import S = TpmSignature
  import JsonText

  const TPM_ALG_RSASSA := 0x0014
  const TPM_ALG_ECDSA := 0x0018
  const MAX_SIGNATURE_BYTES := 1024
  const MIN_RSA_BYTES := 128
  const MAX_PCR_INDEX := 31

  datatype KeyType = Rsa | Ec
  datatype Signature = Signature(keyType: KeyType, value: Bytes)

  // ----- TPMT_SIGNATURE ----------------------------------------------------

  function ParseRsa(b: Bytes): Option<Signature> {
    var (sig, rest) :- Q.Sized(b, MAX_SIGNATURE_BYTES);
    if |sig| < MIN_RSA_BYTES || rest != [] then None else Some(Signature(Rsa, sig))
  }

  function ParseEcdsa(b: Bytes): Option<Signature> {
    var (r, b1) :- Q.Sized(b, S.MAX_ECDSA_PARAMETER);
    var (s, b2) :- Q.Sized(b1, S.MAX_ECDSA_PARAMETER);
    if r == [] || s == [] || b2 != [] then None else
    var der :- S.EcdsaDerSpec(r, s);
    Some(Signature(Ec, der))
  }

  function ParseSignature(b: Bytes): Option<Signature> {
    var (algorithm, b1) :- Q.Number(b, 2);
    var (hash, b2) :- Q.Number(b1, 2);
    if hash != Q.TPM_ALG_SHA256 then None
    else if algorithm == TPM_ALG_RSASSA then ParseRsa(b2)
    else if algorithm == TPM_ALG_ECDSA then ParseEcdsa(b2)
    else None
  }

  function EcdsaSignatureBytes(r: Bytes, s: Bytes): Bytes {
    ToBE(TPM_ALG_ECDSA, 2) + (ToBE(Q.TPM_ALG_SHA256, 2) + (Q.SizedBytes(r) + Q.SizedBytes(s)))
  }

  /** A TPM ECDSA signature comes out as DER of the same two numbers; the parser refuses exactly
      the pairs whose DER body would need a long-form length. */
  lemma EcdsaSignatureConverts(r: Bytes, s: Bytes)
    requires 0 < |r| <= S.MAX_ECDSA_PARAMETER && 0 < |s| <= S.MAX_ECDSA_PARAMETER
    ensures var p := ParseSignature(EcdsaSignatureBytes(r, s));
            (p.None? <==> |S.Contents(r)| + |S.Contents(s)| > 123)
            && (p.Some? ==> p.value.keyType == Ec && S.ReadEcdsa(p.value.value) == Some((FromBE(r), FromBE(s))))
  {
    hide S.ReadEcdsa, Q.SizedBytes, Q.Sized, Q.Number, ToBE, S.Contents;
    var tail := Q.SizedBytes(r) + Q.SizedBytes(s);
    Q.Pow256Values();
    Q.NumberConcat(TPM_ALG_ECDSA, 2, ToBE(Q.TPM_ALG_SHA256, 2) + tail);
    Q.NumberConcat(Q.TPM_ALG_SHA256, 2, tail);
    Q.SizedConcat(r, S.MAX_ECDSA_PARAMETER, Q.SizedBytes(s));
    Q.SizedConcat(s, S.MAX_ECDSA_PARAMETER, []);
    assert Q.SizedBytes(s) + [] == Q.SizedBytes(s);
    if S.EcdsaDerSpec(r, s).Some? {
      S.EcdsaDerDecodes(r, s);
    }
  }

  // ----- the caller's policy -----------------------------------------------

  function Insert(i: nat, s: seq<nat>): seq<nat> {
    if s == [] || i <= s[0] then [i] + s else [s[0]] + Insert(i, s[1..])
  }

  /** The ascending sort. */
  function Sort(s: seq<nat>): seq<nat> {
    if s == [] then [] else Insert(s[0], Sort(s[1..]))
  }

  lemma {:induction false} InsertSorts(i: nat, s: seq<nat>)
    requires StrictlyIncreasing(s) && i !in s
    ensures StrictlyIncreasing(Insert(i, s)) && |Insert(i, s)| == |s| + 1
    ensures forall x :: x in Insert(i, s) <==> x == i || x in s
  {
    if s != [] && i > s[0] {
      InsertSorts(i, s[1..]);
      var rest := Insert(i, s[1..]);
      assert s == [s[0]] + s[1..];
      forall x | x in rest ensures s[0] < x {}
      PrependIncreasing(s[0], rest);
    } else {
      forall x | x in s ensures i < x {}
      PrependIncreasing(i, s);
    }
  }

  lemma PrependIncreasing(i: nat, s: seq<nat>)
    requires StrictlyIncreasing(s) && forall x :: x in s ==> i < x
    ensures StrictlyIncreasing([i] + s)
  {
    assert forall k :: 0 <= k < |s| ==> s[k] in s;
  }

  lemma {:induction false} SortSorts(s: seq<nat>)
    requires Distinct(s)
    ensures StrictlyIncreasing(Sort(s)) && |Sort(s)| == |s| && forall x :: x in Sort(s) <==> x in s
  {
    if s != [] {
      SortSorts(s[1..]);
      assert s == [s[0]] + s[1..] && s[0] !in s[1..];
      InsertSorts(s[0], Sort(s[1..]));
    }
  }

  predicate IsSelection(selection: seq<int>) {
    selection != [] && (forall i :: 0 <= i < |selection| ==> 0 <= selection[i] <= MAX_PCR_INDEX)
    && forall i, j :: 0 <= i < j < |selection| ==> selection[i] != selection[j]
  }

  function Indices(selection: seq<int>): (r: seq<nat>)
    requires IsSelection(selection)
    ensures |r| == |selection| && forall i :: 0 <= i < |r| ==> r[i] == selection[i]
  {
    seq(|selection|, i requires 0 <= i < |selection| => selection[i])
  }

  /** normalizeExpectedSelection: the one ascending list of the selected indices. */
  function NormalizeSelection(selection: seq<int>): (r: Option<seq<nat>>)
    ensures r.Some? <==> IsSelection(selection)
    ensures r.Some? ==> StrictlyIncreasing(r.value) && |r.value| == |selection|
    ensures r.Some? ==> forall x: nat :: x in r.value <==> x in selection
  {
    if !IsSelection(selection) then None
    else
      SortSorts(Indices(selection));
      Some(Sort(Indices(selection)))
  }

  type Pcr = b: Bytes | |b| == Q.SHA256_BYTES witness seq(32, _ => 0)

  /** A PCR-value object: an entry that is not 64 lower-case hex digits is `None`. */
  type PcrValues = map<string, Option<Pcr>>

  predicate CoversExactly(values: PcrValues, selected: seq<nat>) {
    |values.Keys| == |selected| && forall i :: 0 <= i < |selected| ==> JsonText.Digits(selected[i]) in values
  }

  /** normalizePcrValues. */
  function NormalizeValues(values: PcrValues, selected: seq<nat>): Option<seq<Pcr>> {
    if !CoversExactly(values, selected) then None
    else if exists i :: 0 <= i < |selected| && values[JsonText.Digits(selected[i])].None? then None
    else Some(seq(|selected|, i requires 0 <= i < |selected| => values[JsonText.Digits(selected[i])].value))
  }

  /** Counting keys and finding each selected one pins the key set: nothing extra can ride along. */
  lemma KeysAreTheSelection(values: PcrValues, selected: seq<nat>, key: string)
    requires Distinct(selected) && CoversExactly(values, selected)
    ensures key in values <==> exists i :: 0 <= i < |selected| && JsonText.Digits(selected[i]) == key
  {
    hide JsonText.Digits;
    NamesCount(selected);
    SubsetOfSameSize(Names(selected), values.Keys);
  }

  function Names(selected: seq<nat>): set<string> {
    set i | 0 <= i < |selected| :: JsonText.Digits(selected[i])
  }

  lemma SubsetOfSameSize(a: set<string>, b: set<string>)
    requires a <= b && |a| == |b|
    ensures a == b
  {
    assert |b - a| == 0;
  }

  lemma {:induction false} NamesCount(selected: seq<nat>)
    requires Distinct(selected)
    ensures |Names(selected)| == |selected|
  {
    hide JsonText.Digits;
    if selected != [] {
      var n := |selected| - 1;
      var init := selected[..n];
      NamesCount(init);
      assert Names(selected) == Names(init) + {JsonText.Digits(selected[n])} by {
        assert forall i :: 0 <= i < n ==> selected[i] == init[i];
      }
      forall i | 0 <= i < n ensures JsonText.Digits(selected[i]) != JsonText.Digits(selected[n]) {
        JsonText.NatOfDigits(selected[i]);
        JsonText.NatOfDigits(selected[n]);
      }
    }
  }

  function Concat(values: seq<Pcr>): Bytes {
    if values == [] then [] else values[0] + Concat(values[1..])
  }

  lemma {:induction false} ConcatInjective(a: seq<Pcr>, b: seq<Pcr>)
    requires |a| == |b| && Concat(a) == Concat(b)
    ensures a == b
  {
    if a != [] {
      assert a[0] == Concat(a)[..32] && b[0] == Concat(b)[..32];
      assert Concat(a[1..]) == Concat(a)[32..] && Concat(b[1..]) == Concat(b)[32..];
      ConcatInjective(a[1..], b[1..]);
      assert a == [a[0]] + a[1..] && b == [b[0]] + b[1..];
    }
  }

  // ----- the check order ---------------------------------------------------

  datatype PublicKey = PublicKey(keyType: Option<KeyType>, der: Bytes)

  /** Hashing, key parsing and signature verification, not opened here. */
  datatype Host = Host(sha: Bytes -> Bytes, createPublicKey: string -> Option<PublicKey>,
                       verify: (Bytes, PublicKey, Bytes) -> bool)

  /** The quote object after its text fields were decoded; `None` where decoding throws. */
  datatype QuoteObject = QuoteObject(knownFields: bool, formatOk: bool, akPublic: Option<string>, nonce: Option<Bytes>,
                                     quoted: Option<Bytes>, pcrValues: Option<PcrValues>, signature: Option<Bytes>)

  datatype Policy = Policy(nonce: Option<Bytes>, fingerprints: Option<seq<Bytes>>, selection: Option<seq<int>>,
                           pcrValues: Option<PcrValues>, requireSafeClock: bool)

  datatype Verdict = Verified(pcrDigest: Bytes, akFingerprint: Bytes, selection: seq<nat>,
      clockSafe: bool) | Failed(reason: string)

  const MALFORMED := Failed("tpm_quote_malformed")

  function ValuesFor(values: Option<PcrValues>, selected: seq<nat>): Option<seq<Pcr>> {
    var given :- values;
    NormalizeValues(given, selected)
  }

  function Selection(policy: Policy): Option<seq<nat>> {
    var given :- policy.selection;
    NormalizeSelection(given)
  }

  /** What the quoted bytes must say, from the policy alone. */
  ghost predicate QuoteFits(host: Host, policy: Policy, quoted: Bytes) {
    var parsed := Q.Parse(quoted);
    && policy.nonce.Some? && 0 < |policy.nonce.value| <= Q.MAX_NONCE_BYTES
    && Selection(policy).Some? && ValuesFor(policy.pcrValues, Selection(policy).value).Some?
    && parsed.Some? && parsed.value.header.extraData == policy.nonce.value
    && (policy.requireSafeClock ==> parsed.value.clock.safe)
    && parsed.value.pcrSelection == [Q.Bank(Q.TPM_ALG_SHA256, Selection(policy).value)]
    && parsed.value.pcrDigest == host.sha(Concat(ValuesFor(policy.pcrValues, Selection(policy).value).value))
  }

  /** The signature over exactly the quoted bytes verifies under a pinned key. */
  ghost predicate SignedBy(host: Host, policy: Policy, akPublic: string, quoted: Bytes, signature: Bytes) {
    var (ak, sig) := (host.createPublicKey(akPublic), ParseSignature(signature));
    ak.Some? && sig.Some? && ak.value.keyType == Some(sig.value.keyType)
    && policy.fingerprints.Some? && host.sha(ak.value.der) in policy.fingerprints.value
    && host.verify(quoted, ak.value, sig.value.value)
  }

  ghost predicate Trusted(host: Host, q: QuoteObject, policy: Policy) {
    q.knownFields && q.formatOk && q.akPublic.Some? && q.quoted.Some? && q.signature.Some?
    && QuoteFits(host, policy, q.quoted.value)
    && q.nonce == policy.nonce
    && ValuesFor(q.pcrValues, Selection(policy).value) == ValuesFor(policy.pcrValues, Selection(policy).value)
    && SignedBy(host, policy, q.akPublic.value, q.quoted.value, q.signature.value)
  }

  lemma ValuesCount(values: Option<PcrValues>, selected: seq<nat>)
    ensures ValuesFor(values, selected).Some? ==> |ValuesFor(values, selected).value| == |selected|
  {
  }
}
