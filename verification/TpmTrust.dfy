/** What a quote that verifyTpm2Quote of attestation/tpm-quote-verifier.ts trusts consists of, byte by byte
    and entry by entry. */
module TpmTrust {
  import opened Common
  import opened TpmBytes
  import opened TpmPolicy
  import Q = TpmQuote
  import S = TpmSignature
  import JsonText

  // ----- the hashed PCR values ---------------------------------------------

  /** The values one after another, 32 bytes each. */
  ghost predicate InBlocks(hashed: Bytes, values: seq<Pcr>) {
    |hashed| == 32 * |values| && forall i :: 0 <= i < |values| ==> hashed[32 * i..32 * i + 32] == values[i]
  }

  lemma {:induction false} ConcatInBlocks(values: seq<Pcr>)
    ensures InBlocks(Concat(values), values)
  {
    if values != [] {
      var (rest, tail) := (Concat(values[1..]), values[1..]);
      ConcatInBlocks(tail);
      forall i | 0 <= i < |values|
        ensures Concat(values)[32 * i..32 * i + 32] == values[i]
      {
        if i > 0 {
          ShiftedBlock(values[0], rest, 32 * (i - 1));
          assert values[i] == tail[i - 1];
        }
      }
    }
  }

  lemma ShiftedBlock(first: Pcr, rest: Bytes, k: nat)
    requires k + 32 <= |rest|
    ensures (first + rest)[k + 32..k + 64] == rest[k..k + 32]
  {
  }

  /** The blocks determine the bytes. */
  lemma BlocksDetermine(a: Bytes, b: Bytes, values: seq<Pcr>)
    requires InBlocks(a, values) && InBlocks(b, values)
    ensures a == b
  {
    forall k | 0 <= k < |a|
      ensures a[k] == b[k]
    {
      var (i, j) := (k / 32, k % 32);
      var (x, y) := (a[32 * i..32 * i + 32], b[32 * i..32 * i + 32]);
      assert x == values[i] && y == values[i];
      assert x[j] == a[k] && y[j] == b[k];
    }
  }

  // ----- numbers and bits --------------------------------------------------

  /** Bytes are read most significant first. */
  lemma ReadsBigEndian(x: byte, b: Bytes)
    ensures FromBE([x]) == x as int
    ensures FromBE([x] + b) == FromBE([x]) * Pow256(|b|) + FromBE(b)
  {
    assert [x][..0] == [] && FromBE([]) == 0;
    FromBEConcat([x], b);
  }

  /** Bit k of a byte is worth 2^k: PCR i is bit i % 8 of byte i / 8. */
  lemma BitIsBinaryDigit(bitmap: Bytes, i: nat)
    requires i < 8 * |bitmap|
    ensures HasBit(bitmap[i / 8], i % 8, BitSet(bitmap, i))
  {
    BitOfNumber(bitmap[i / 8], 8, i % 8);
  }

  /** In the binary form of b, the digit worth 2^k is this one. */
  ghost predicate HasBit(b: nat, k: nat, bit: bool) {
    exists high: nat, low: nat :: IsSplit(b, k, bit, high, low)
  }

  ghost predicate IsSplit(b: nat, k: nat, bit: bool, high: nat, low: nat) {
    low < TwoTo(k) && b == 2 * high * TwoTo(k) + (if bit then TwoTo(k) else 0) + low
  }

  lemma {:induction false} BitOfNumber(b: nat, n: nat, k: nat)
    requires k < n
    ensures HasBit(b, k, BitsOf(b, n)[k])
  {
    var bit := BitsOf(b, n)[k];
    if k == 0 {
      assert IsSplit(b, 0, bit, b / 2, 0);
    } else {
      BitOfNumber(b / 2, n - 1, k - 1);
      assert bit == BitsOf(b / 2, n - 1)[k - 1];
      var high: nat, low: nat :| IsSplit(b / 2, k - 1, bit, high, low);
      DoubleSplit(b, k, bit, high, low);
    }
  }

  lemma DoubleSplit(b: nat, k: nat, bit: bool, high: nat, low: nat)
    requires k > 0 && IsSplit(b / 2, k - 1, bit, high, low)
    ensures HasBit(b, k, bit)
  {
    var t := TwoTo(k - 1);
    assert 2 * high * (2 * t) == 2 * (2 * high * t);
    assert IsSplit(b, k, bit, high, 2 * low + b % 2);
  }

  lemma PowersOfTwo()
    ensures TwoTo(0) == 1 && TwoTo(1) == 2 && TwoTo(2) == 4 && TwoTo(3) == 8
    ensures TwoTo(4) == 16 && TwoTo(5) == 32 && TwoTo(6) == 64 && TwoTo(7) == 128
  {
    assert TwoTo(4) == 2 * TwoTo(3) && TwoTo(5) == 2 * TwoTo(4) && TwoTo(6) == 2 * TwoTo(5) && TwoTo(7) == 2 * TwoTo(6);
  }

  // ----- signatures --------------------------------------------------------

  /** The serialized form of an RSASSA signature over SHA-256. */
  ghost function RsaBytes(v: Bytes): Bytes {
    [0x00, 0x14, 0x00, 0x0b] + Q.SizedBytes(v)
  }

  ghost function EcdsaBytes(r: Bytes, s: Bytes): Bytes {
    [0x00, 0x18, 0x00, 0x0b] + (Q.SizedBytes(r) + Q.SizedBytes(s))
  }

  lemma Heads()
    ensures ToBE(0x0014, 2) == [0x00, 0x14] && ToBE(0x0018, 2) == [0x00, 0x18] && ToBE(0x000b, 2) == [0x00, 0x0b]
  {
    TwoBytes(0x14);
    TwoBytes(0x18);
    TwoBytes(0x0b);
  }

  lemma TwoBytes(n: byte)
    ensures ToBE(n, 2) == [0, n]
  {
    assert ToBE(0, 0) == [] && ToBE(0, 1) == [0];
  }

  lemma HeadParses(algorithm: byte, tail: Bytes)
    ensures ParseSignature([0x00, algorithm, 0x00, 0x0b] + tail) ==
            if algorithm == 0x14 then ParseRsa(tail) else if algorithm == 0x18 then ParseEcdsa(tail) else None
  {
    hide Q.Number, ParseRsa, ParseEcdsa, ToBE;
    Heads();
    TwoBytes(algorithm);
    Q.Pow256Values();
    var hash: Bytes := [0x00, 0x0b];
    Q.NumberConcat(algorithm, 2, hash + tail);
    Q.NumberConcat(0x0b, 2, tail);
    assert [0x00, algorithm, 0x00, 0x0b] + tail == [0x00, algorithm] + (hash + tail);
  }

  lemma RsaParses(v: Bytes)
    requires 128 <= |v| <= 1024
    ensures ParseSignature(RsaBytes(v)) == Some(Signature(Rsa, v))
  {
    hide Q.Sized, Q.SizedBytes, ParseSignature;
    HeadParses(0x14, Q.SizedBytes(v));
    Q.SizedConcat(v, MAX_SIGNATURE_BYTES, []);
    assert Q.SizedBytes(v) + [] == Q.SizedBytes(v);
  }

  lemma EcdsaParses(r: Bytes, s: Bytes)
    requires 1 <= |r| <= 66 && 1 <= |s| <= 66
    ensures ParseSignature(EcdsaBytes(r, s)) ==
            if S.EcdsaDerSpec(r, s).Some? then Some(Signature(Ec, S.EcdsaDerSpec(r, s).value)) else None
  {
    hide Q.Sized, Q.SizedBytes, ParseSignature, S.EcdsaDerSpec;
    HeadParses(0x18, Q.SizedBytes(r) + Q.SizedBytes(s));
    Q.SizedConcat(r, S.MAX_ECDSA_PARAMETER, Q.SizedBytes(s));
    Q.SizedConcat(s, S.MAX_ECDSA_PARAMETER, []);
    assert Q.SizedBytes(s) + [] == Q.SizedBytes(s);
  }

  lemma SignatureSplits(b: Bytes)
    requires ParseSignature(b).Some?
    ensures var sig := ParseSignature(b).value;
            if sig.keyType == Rsa then 128 <= |sig.value| <= 1024 && b == RsaBytes(sig.value)
            else exists r, s :: IsEcdsa(b, r, s) && S.EcdsaDerSpec(r, s) == Some(sig.value)
  {
    hide Q.Number, Q.Sized, Q.SizedBytes, S.EcdsaDerSpec, ToBE;
    Heads();
    Q.NumberSplits(b, 2);
    var (algorithm, b1) := Q.Number(b, 2).value;
    Q.NumberSplits(b1, 2);
    var (hash, b2) := Q.Number(b1, 2).value;
    assert b == ToBE(algorithm, 2) + (ToBE(hash, 2) + b2) && hash == 0x0b;
    var tag: Bytes := [0x00, 0x0b];
    if algorithm == 0x14 {
      assert ToBE(algorithm, 2) + (tag + b2) == [0x00, 0x14, 0x00, 0x0b] + b2;
      RsaSplits(b2);
    } else {
      assert ToBE(algorithm, 2) + (tag + b2) == [0x00, 0x18, 0x00, 0x0b] + b2;
      var r, s := EcdsaSplits(b2);
      assert IsEcdsa(b, r, s);
    }
  }

  lemma RsaSplits(b: Bytes)
    requires ParseRsa(b).Some?
    ensures var sig := ParseRsa(b).value;
            sig.keyType == Rsa && 128 <= |sig.value| <= 1024 && b == Q.SizedBytes(sig.value)
  {
    hide Q.Sized, Q.SizedBytes;
    Q.SizedSplits(b, MAX_SIGNATURE_BYTES);
    var v := Q.Sized(b, MAX_SIGNATURE_BYTES).value.0;
    assert Q.SizedBytes(v) + [] == Q.SizedBytes(v);
  }

  lemma EcdsaSplits(b: Bytes) returns (r: Bytes, s: Bytes)
    requires ParseEcdsa(b).Some?
    ensures ParseEcdsa(b).value.keyType == Ec && S.EcdsaDerSpec(r, s) == Some(ParseEcdsa(b).value.value)
    ensures 1 <= |r| <= 66 && 1 <= |s| <= 66 && b == Q.SizedBytes(r) + Q.SizedBytes(s)
  {
    hide Q.Sized, Q.SizedBytes, S.EcdsaDerSpec;
    Q.SizedSplits(b, S.MAX_ECDSA_PARAMETER);
    var b1 := Q.Sized(b, S.MAX_ECDSA_PARAMETER).value.1;
    r := Q.Sized(b, S.MAX_ECDSA_PARAMETER).value.0;
    Q.SizedSplits(b1, S.MAX_ECDSA_PARAMETER);
    s := Q.Sized(b1, S.MAX_ECDSA_PARAMETER).value.0;
    assert Q.SizedBytes(s) + [] == Q.SizedBytes(s);
  }

  /** What a signature buffer holds: an RSASSA value of 128 to 1024 bytes, or two ECDSA parameters of 1 to 66 bytes
      whose DER form is short, and not a byte more. */
  lemma ParsedSignature(b: Bytes, sig: Signature)
    ensures ParseSignature(b) == Some(sig) <==>
            if sig.keyType == Rsa then 128 <= |sig.value| <= 1024 && b == RsaBytes(sig.value)
            else exists r, s :: IsEcdsa(b, r, s) && S.EcdsaDerSpec(r, s) == Some(sig.value)
  {
    if ParseSignature(b) == Some(sig) {
      SignatureSplits(b);
    }
    if sig.keyType == Rsa && 128 <= |sig.value| <= 1024 && b == RsaBytes(sig.value) {
      RsaParses(sig.value);
    }
    if r, s :| IsEcdsa(b, r, s) && S.EcdsaDerSpec(r, s) == Some(sig.value) {
      if sig.keyType == Ec {
        EcdsaParses(r, s);
      }
    }
  }

  ghost predicate IsEcdsa(b: Bytes, r: Bytes, s: Bytes) {
    1 <= |r| <= 66 && 1 <= |s| <= 66 && b == EcdsaBytes(r, s)
  }

  // ----- the DER form is the only one --------------------------------------

  lemma ReadIntegerSplits(b: Bytes, v: Bytes)
    requires v != [] && S.ReadInteger(b).Some? && S.ReadInteger(b).value.0 == FromBE(v)
    ensures |S.Contents(v)| <= 127 && b == [0x02, |S.Contents(v)|] + S.Contents(v) + S.ReadInteger(b).value.1
  {
    hide FromBE, S.Contents, S.Minimal;
    var c := b[2..2 + b[1]];
    S.ContentsCanonical(v);
    S.MinimalDetermined(c, S.Contents(v));
    assert b == [b[0], b[1]] + c + b[2 + b[1]..];
  }

  /** Whatever the reader takes for these two numbers is the one encoding of them. */
  lemma DerDetermined(value: Bytes, r: Bytes, s: Bytes)
    requires r != [] && s != []
    ensures S.ReadEcdsa(value) == Some((FromBE(r), FromBE(s))) <==> S.EcdsaDerSpec(r, s) == Some(value)
  {
    hide FromBE, S.Contents, S.ReadEcdsa, S.EcdsaDerSpec;
    if S.EcdsaDerSpec(r, s) == Some(value) {
      S.EcdsaDerDecodes(r, s);
    }
    if S.ReadEcdsa(value) == Some((FromBE(r), FromBE(s))) {
      DerForced(value, r, s);
    }
  }

  lemma DerForced(value: Bytes, r: Bytes, s: Bytes)
    requires r != [] && s != [] && S.ReadEcdsa(value) == Some((FromBE(r), FromBE(s)))
    ensures S.EcdsaDerSpec(r, s) == Some(value)
  {
    hide FromBE, S.Contents, S.ReadInteger;
    var b := value[2..];
    var rest := S.ReadInteger(b).value.1;
    ReadIntegerSplits(b, r);
    ReadIntegerSplits(rest, s);
    SequenceForced(value, S.Contents(r), S.Contents(s), rest);
  }

  lemma SequenceForced(value: Bytes, cr: Bytes, cs: Bytes, rest: Bytes)
    requires |cr| <= 127 && |cs| <= 127 && |value| >= 2 && value[0] == 0x30 && |value| - 2 == value[1]
    requires value[2..] == [0x02, |cr|] + cr + rest && rest == [0x02, |cs|] + cs + []
    requires value[1] <= 127
    ensures |cr| + |cs| + 4 <= 127
            && value == [0x30, |cr| + |cs| + 4] + ([0x02, |cr|] + cr) + ([0x02, |cs|] + cs)
  {
    assert rest == [0x02, |cs|] + cs;
    assert value == [value[0], value[1]] + value[2..];
  }

  // ----- the whole condition -----------------------------------------------

  /** The signature bytes hold a signature over the quoted bytes that verifies under the pinned attestation key. */
  ghost predicate AttestedBy(host: Host, policy: Policy, akPublic: string, quoted: Bytes, signature: Bytes) {
    exists ak, value ::
      && host.createPublicKey(akPublic) == Some(ak)
      && policy.fingerprints.Some? && host.sha(ak.der) in policy.fingerprints.value
      && Holds(signature, ak.keyType, value) && host.verify(quoted, ak, value)
  }

  ghost predicate Holds(signature: Bytes, keyType: Option<KeyType>, value: Bytes) {
    (keyType == Some(Rsa) && 128 <= |value| <= 1024 && signature == RsaBytes(value))
    || (keyType == Some(Ec)
        && exists r, s :: IsEcdsa(signature, r, s) && S.ReadEcdsa(value) == Some((FromBE(r), FromBE(s))))
  }

  lemma HoldsExactly(signature: Bytes, keyType: KeyType, value: Bytes)
    ensures Holds(signature, Some(keyType), value) <==> ParseSignature(signature) == Some(Signature(keyType, value))
  {
    ParsedSignature(signature, Signature(keyType, value));
    hide S.ReadEcdsa, S.EcdsaDerSpec, FromBE, RsaBytes, EcdsaBytes;
    if keyType == Ec {
      forall r, s | IsEcdsa(signature, r, s)
        ensures S.ReadEcdsa(value) == Some((FromBE(r), FromBE(s))) <==> S.EcdsaDerSpec(r, s) == Some(value)
      {
        DerDetermined(value, r, s);
      }
    }
  }

  lemma SignedExactly(host: Host, policy: Policy, akPublic: string, quoted: Bytes, signature: Bytes)
    ensures SignedBy(host, policy, akPublic, quoted, signature) <==>
            AttestedBy(host, policy, akPublic, quoted, signature)
  {
    NothingWithoutType(signature);
    hide Holds, ParseSignature;
    if AttestedBy(host, policy, akPublic, quoted, signature) {
      var ak, value :|
        && host.createPublicKey(akPublic) == Some(ak)
        && policy.fingerprints.Some? && host.sha(ak.der) in policy.fingerprints.value
        && Holds(signature, ak.keyType, value) && host.verify(quoted, ak, value);
      assert ak.keyType == Some(ak.keyType.value);
      HoldsExactly(signature, ak.keyType.value, value);
    }
    if SignedBy(host, policy, akPublic, quoted, signature) {
      var (ak, sig) := (host.createPublicKey(akPublic).value, ParseSignature(signature).value);
      assert sig == Signature(sig.keyType, sig.value) && host.createPublicKey(akPublic) == Some(ak);
      HoldsExactly(signature, sig.keyType, sig.value);
      assert Holds(signature, ak.keyType, sig.value);
    }
  }

  lemma NothingWithoutType(signature: Bytes)
    ensures forall value :: !Holds(signature, None, value)
  {
  }

  /** The selection of the policy as one ascending list. */
  ghost predicate Selects(policy: Policy, selected: seq<nat>) {
    && policy.selection.Some? && policy.selection.value != []
    && (forall i :: 0 <= i < |policy.selection.value| ==> 0 <= policy.selection.value[i] <= 31)
    && Distinct(policy.selection.value)
    && StrictlyIncreasing(selected) && forall x: nat :: x in selected <==> x in policy.selection.value
  }

  lemma SelectionExactly(policy: Policy, selected: seq<nat>)
    ensures Selection(policy) == Some(selected) <==> Selects(policy, selected)
  {
    if Selects(policy, selected) {
      var given := policy.selection.value;
      assert IsSelection(given);
      IncreasingDetermined(selected, NormalizeSelection(given).value);
    }
  }

  /** The entries are the selected PCRs under their decimal names and no others, with these values in the order of the
      selection. */
  ghost predicate HoldsValues(given: Option<PcrValues>, selected: seq<nat>, values: seq<Pcr>) {
    && given.Some? && |values| == |selected|
    && (forall key :: key in given.value <==> exists i :: 0 <= i < |selected| && JsonText.Digits(selected[i]) == key)
    && forall i :: 0 <= i < |selected| ==> given.value[JsonText.Digits(selected[i])] == Some(values[i])
  }

  lemma ValuesExactly(given: Option<PcrValues>, selected: seq<nat>, values: seq<Pcr>)
    requires StrictlyIncreasing(selected)
    ensures ValuesFor(given, selected) == Some(values) <==> HoldsValues(given, selected, values)
  {
    hide JsonText.Digits;
    if given.Some? {
      if ValuesFor(given, selected) == Some(values) {
        forall key
          ensures key in given.value <==> exists i :: 0 <= i < |selected| && JsonText.Digits(selected[i]) == key
        {
          KeysAreTheSelection(given.value, selected, key);
        }
      }
      if HoldsValues(given, selected, values) {
        NamesCount(selected);
        assert given.value.Keys == Names(selected);
        assert ValuesFor(given, selected).value == values;
      }
    }
  }

  /** The quoted bytes: the nonce, one SHA-256 bank with this selection, and the digest of these values in order; only
      the signer name, the clock and the width of the bitmap are free. */
  ghost predicate Says(host: Host, quoted: Bytes, nonce: Bytes, safeOnly: bool, selected: seq<nat>, values: seq<Pcr>) {
    exists signer, clock, width, hashed ::
      IsQuote(host, quoted, nonce, safeOnly, selected, values, signer, clock, width, hashed)
  }

  ghost predicate IsQuote(host: Host, quoted: Bytes, nonce: Bytes, safeOnly: bool, selected: seq<nat>, values: seq<Pcr>,
                          signer: Bytes, clock: Q.Clock, width: nat, hashed: Bytes)
  {
    && |signer| <= 128 && 0 < |nonce| <= 64 && Q.WellFormedClock(clock) && (safeOnly ==> clock.safe)
    && 1 <= width <= 4 && (forall i :: 0 <= i < |selected| ==> selected[i] < 8 * width)
    && InBlocks(hashed, values) && |host.sha(hashed)| == 32
    && quoted == Q.Serialize(Q.Quote(Q.Header(signer, nonce), clock, [Q.Bank(0x000b, selected)], host.sha(hashed)),
                             width)
  }

  ghost predicate Genuine(host: Host, q: QuoteObject, policy: Policy, selected: seq<nat>, values: seq<Pcr>) {
    && q.knownFields && q.formatOk && q.akPublic.Some? && q.quoted.Some? && q.signature.Some?
    && policy.nonce.Some? && q.nonce == policy.nonce
    && Selects(policy, selected)
    && HoldsValues(policy.pcrValues, selected, values) && HoldsValues(q.pcrValues, selected, values)
    && Says(host, q.quoted.value, policy.nonce.value, policy.requireSafeClock, selected, values)
    && AttestedBy(host, policy, q.akPublic.value, q.quoted.value, q.signature.value)
  }

  lemma SaysExactly(host: Host, policy: Policy, quoted: Bytes, selected: seq<nat>, values: seq<Pcr>)
    requires policy.nonce.Some? && Selection(policy) == Some(selected)
    requires ValuesFor(policy.pcrValues, selected) == Some(values)
    ensures QuoteFits(host, policy, quoted)
            <==> Says(host, quoted, policy.nonce.value, policy.requireSafeClock, selected, values)
  {
    SelectionExactly(policy, selected);
    ConcatInBlocks(values);
    hide Q.Parse, Q.Serialize, Concat, InBlocks, NormalizeValues, Selection, Q.WellFormedClock;
    var nonce := policy.nonce.value;
    if QuoteFits(host, policy, quoted) {
      var width := Q.SerializeParse(quoted);
      FitsIsQuote(host, policy, quoted, selected, values, width);
    }
    if signer, clock, width, hashed :|
         IsQuote(host, quoted, nonce, policy.requireSafeClock, selected, values, signer, clock, width, hashed)
    {
      BlocksDetermine(hashed, Concat(values), values);
      var quote := Q.Quote(Q.Header(signer, nonce), clock, [Q.Bank(0x000b, selected)], host.sha(hashed));
      SelectedNotEmpty(policy, selected);
      Q.ParseSerialize(quote, width);
    }
  }

  lemma SelectedNotEmpty(policy: Policy, selected: seq<nat>)
    requires Selects(policy, selected)
    ensures selected != []
  {
    assert policy.selection.value[0] in policy.selection.value;
  }

  lemma FitsIsQuote(host: Host, policy: Policy, quoted: Bytes, selected: seq<nat>, values: seq<Pcr>, width: nat)
    requires QuoteFits(host, policy, quoted) && Selection(policy) == Some(selected)
    requires ValuesFor(policy.pcrValues, selected) == Some(values)
    requires Q.WellFormed(Q.Parse(quoted).value, width) && Q.Serialize(Q.Parse(quoted).value, width) == quoted
    ensures var parsed := Q.Parse(quoted).value;
            IsQuote(host, quoted, policy.nonce.value, policy.requireSafeClock, selected, values,
                    parsed.header.qualifiedSigner, parsed.clock, width, Concat(values))
  {
    ConcatInBlocks(values);
    hide Q.Parse, Q.Serialize, Concat, InBlocks, NormalizeValues, Selection, Q.WellFormedClock;
    var parsed := Q.Parse(quoted).value;
    assert parsed.header == Q.Header(parsed.header.qualifiedSigner, policy.nonce.value);
    assert parsed == Q.Quote(parsed.header, parsed.clock, [Q.Bank(0x000b, selected)], host.sha(Concat(values)));
  }

  /** The verifier trusts exactly the quotes that are genuine for the selection and the values of the policy. */
  lemma TrustedExactly(host: Host, q: QuoteObject, policy: Policy)
    ensures Trusted(host, q, policy) <==> exists selected, values :: Genuine(host, q, policy, selected, values)
  {
    hide Selects, HoldsValues, Says, AttestedBy, SignedBy, QuoteFits, NormalizeValues, Selection;
    if Trusted(host, q, policy) {
      FitsNames(host, policy, q.quoted.value);
      var selected := Selection(policy).value;
      var values := ValuesFor(policy.pcrValues, selected).value;
      TrustedIsGenuine(host, q, policy, selected, values);
    }
    if selected, values :| Genuine(host, q, policy, selected, values) {
      SelectionExactly(policy, selected);
      SelectsIncreases(policy, selected);
      ValuesExactly(policy.pcrValues, selected, values);
      ValuesExactly(q.pcrValues, selected, values);
      SaysExactly(host, policy, q.quoted.value, selected, values);
      SignedExactly(host, policy, q.akPublic.value, q.quoted.value, q.signature.value);
    }
  }

  lemma FitsNames(host: Host, policy: Policy, quoted: Bytes)
    requires QuoteFits(host, policy, quoted)
    ensures policy.nonce.Some? && Selection(policy).Some? && ValuesFor(policy.pcrValues, Selection(policy).value).Some?
  {
    hide Q.Parse, Concat;
  }

  lemma SelectsIncreases(policy: Policy, selected: seq<nat>)
    requires Selects(policy, selected)
    ensures StrictlyIncreasing(selected)
  {
  }

  lemma TrustedIsGenuine(host: Host, q: QuoteObject, policy: Policy, selected: seq<nat>, values: seq<Pcr>)
    requires Trusted(host, q, policy) && policy.nonce.Some? && Selection(policy) == Some(selected)
    requires ValuesFor(policy.pcrValues, selected) == Some(values)
    ensures Genuine(host, q, policy, selected, values)
  {
    hide Selects, HoldsValues, Says, AttestedBy, SignedBy, QuoteFits, NormalizeValues, Selection;
    SelectionExactly(policy, selected);
    SelectsIncreases(policy, selected);
    ValuesExactly(policy.pcrValues, selected, values);
    ValuesExactly(q.pcrValues, selected, values);
    SaysExactly(host, policy, q.quoted.value, selected, values);
    SignedExactly(host, policy, q.akPublic.value, q.quoted.value, q.signature.value);
  }
}
