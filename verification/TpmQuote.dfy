/** The TPMS_ATTEST quote parser of attestation/tpm-quote-verifier.ts and its serializer. */
module TpmQuote {
  import opened Common
  import opened TpmBytes

  const TPM_GENERATED_VALUE := 0xff544347
  const TPM_ST_ATTEST_QUOTE := 0x8018
  const TPM_ALG_SHA256 := 0x000b
  const SHA256_BYTES := 32
  const MAX_PCR_BANKS := 16
  const MAX_PCR_SELECT_BYTES := 4
  const MAX_SIGNER_BYTES := 128
  const MAX_NONCE_BYTES := 64

  datatype Bank = Bank(algorithm: nat, indices: seq<nat>)
  datatype Header = Header(qualifiedSigner: Bytes, extraData: Bytes)
  datatype Clock = Clock(clock: nat, resetCount: nat, restartCount: nat, safe: bool, firmwareVersion: nat)
  datatype Quote = Quote(header: Header, clock: Clock, pcrSelection: seq<Bank>, pcrDigest: Bytes)

  // ----- the grammar as functions on the bytes that are left ---------------

  /** `length` bytes and the rest; `None` is the truncation error. */
  function Take(b: Bytes, length: nat): Option<(Bytes, Bytes)> {
    if length <= |b| then Some((b[..length], b[length..])) else None
  }

  function Number(b: Bytes, length: nat): Option<(nat, Bytes)> {
    var (v, rest) :- Take(b, length);
    Some((FromBE(v), rest))
  }

  /** A TPM2B: a 16-bit size and that many bytes. */
  function Sized(b: Bytes, maxBytes: nat): Option<(Bytes, Bytes)> {
    var (length, rest) :- Number(b, 2);
    if length > maxBytes then None else Take(rest, length)
  }

  function ParseHeader(b: Bytes): Option<(Header, Bytes)> {
    var (magic, b1) :- Number(b, 4);
    if magic != TPM_GENERATED_VALUE then None else
    var (kind, b2) :- Number(b1, 2);
    if kind != TPM_ST_ATTEST_QUOTE then None else
    var (signer, b3) :- Sized(b2, MAX_SIGNER_BYTES);
    var (extra, b4) :- Sized(b3, MAX_NONCE_BYTES);
    if extra == [] then None else Some((Header(signer, extra), b4))
  }

  function ParseClock(b: Bytes): Option<(Clock, Bytes)> {
    var (clock, b1) :- Number(b, 8);
    var (reset, b2) :- Number(b1, 4);
    var (restart, b3) :- Number(b2, 4);
    var (safe, b4) :- Number(b3, 1);
    if safe != 0 && safe != 1 then None else
    var (firmware, b5) :- Number(b4, 8);
    Some((Clock(clock, reset, restart, safe == 1, firmware), b5))
  }

  /** One bank: algorithm, bitmap size, bitmap. */
  function ParseBank(b: Bytes, seen: set<nat>): Option<(Bank, Bytes)> {
    var (algorithm, b1) :- Number(b, 2);
    if algorithm != TPM_ALG_SHA256 || algorithm in seen then None else
    var (size, b2) :- Number(b1, 1);
    if size < 1 || size > MAX_PCR_SELECT_BYTES then None else
    var (bitmap, b3) :- Take(b2, size);
    var indices := SetBits(bitmap, 8 * size);
    if indices == [] then None else Some((Bank(algorithm, indices), b3))
  }

  function ParseBanks(b: Bytes, count: nat, seen: set<nat>): Option<(seq<Bank>, Bytes)> {
    if count == 0 then Some(([], b)) else
    var (bank, rest) :- ParseBank(b, seen);
    var (banks, end) :- ParseBanks(rest, count - 1, seen + {bank.algorithm});
    Some(([bank] + banks, end))
  }

  function ParseSelection(b: Bytes): Option<(seq<Bank>, Bytes)> {
    var (count, rest) :- Number(b, 4);
    if count < 1 || count > MAX_PCR_BANKS then None else ParseBanks(rest, count, {})
  }

  function ParseDigest(b: Bytes): Option<(Bytes, Bytes)> {
    var (digest, rest) :- Sized(b, SHA256_BYTES);
    if |digest| != SHA256_BYTES then None else Some((digest, rest))
  }

  function Parse(b: Bytes): Option<Quote> {
    var (header, b1) :- ParseHeader(b);
    var (clock, b2) :- ParseClock(b1);
    var (banks, b3) :- ParseSelection(b2);
    var (digest, b4) :- ParseDigest(b3);
    if b4 != [] then None else Some(Quote(header, clock, banks, digest))
  }

  // ----- the serializer ----------------------------------------------------

  function SizedBytes(v: Bytes): Bytes {
    ToBE(|v|, 2) + v
  }

  function HeaderBytes(h: Header): Bytes {
    ToBE(TPM_GENERATED_VALUE, 4) + (ToBE(TPM_ST_ATTEST_QUOTE, 2)
    + (SizedBytes(h.qualifiedSigner) + SizedBytes(h.extraData)))
  }

  function ClockBytes(c: Clock): Bytes {
    ToBE(c.clock, 8) + (ToBE(c.resetCount, 4) + (ToBE(c.restartCount, 4)
    + (ToBE(if c.safe then 1 else 0, 1) + ToBE(c.firmwareVersion, 8))))
  }

  function BankBytes(bank: Bank, width: nat): Bytes {
    ToBE(bank.algorithm, 2) + (ToBE(width, 1) + BitmapOf(Members(bank.indices), width))
  }

  /** A quote carries one bank; its bitmap may be 1 to 4 bytes wide. */
  function Serialize(q: Quote, width: nat): Bytes
    requires |q.pcrSelection| == 1
  {
    HeaderBytes(q.header) + (ClockBytes(q.clock)
    + (ToBE(1, 4) + (BankBytes(q.pcrSelection[0], width) + SizedBytes(q.pcrDigest))))
  }

  ghost predicate WellFormedHeader(h: Header) {
    |h.qualifiedSigner| <= MAX_SIGNER_BYTES && 0 < |h.extraData| <= MAX_NONCE_BYTES
  }

  ghost predicate WellFormedClock(c: Clock) {
    c.clock < Pow256(8) && c.resetCount < Pow256(4) && c.restartCount < Pow256(4) && c.firmwareVersion < Pow256(8)
  }

  ghost predicate WellFormedBank(bank: Bank, width: nat) {
    bank.algorithm == TPM_ALG_SHA256 && 1 <= width <= MAX_PCR_SELECT_BYTES
    && bank.indices != [] && StrictlyIncreasing(bank.indices)
    && forall i :: 0 <= i < |bank.indices| ==> bank.indices[i] < 8 * width
  }

  ghost predicate WellFormed(q: Quote, width: nat) {
    WellFormedHeader(q.header) && WellFormedClock(q.clock)
    && |q.pcrSelection| == 1 && WellFormedBank(q.pcrSelection[0], width)
    && |q.pcrDigest| == SHA256_BYTES
  }

  // ----- pieces ------------------------------------------------------------

  lemma TakeConcat(v: Bytes, rest: Bytes)
    ensures Take(v + rest, |v|) == Some((v, rest))
  {
    assert (v + rest)[..|v|] == v && (v + rest)[|v|..] == rest;
  }

  lemma TakeSplits(b: Bytes, n: nat)
    ensures Take(b, n).Some? ==> b == Take(b, n).value.0 + Take(b, n).value.1 && |Take(b, n).value.0| == n
  {
  }

  lemma NumberConcat(v: nat, n: nat, rest: Bytes)
    requires v < Pow256(n)
    ensures Number(ToBE(v, n) + rest, n) == Some((v, rest))
  {
    TakeConcat(ToBE(v, n), rest);
    FromToBE(v, n);
  }

  lemma NumberSplits(b: Bytes, n: nat)
    ensures Number(b, n).Some? ==>
      Number(b, n).value.0 < Pow256(n) && b == ToBE(Number(b, n).value.0, n) + Number(b, n).value.1
  {
    TakeSplits(b, n);
    if Take(b, n).Some? {
      var v := Take(b, n).value.0;
      FromBEBound(v);
      ToFromBE(v);
    }
  }

  lemma Pow256Values()
    ensures Pow256(1) == 256 && Pow256(2) == 65536 && Pow256(4) == 4294967296
  {
    assert Pow256(2) == 256 * Pow256(1);
    assert Pow256(4) == 256 * (256 * Pow256(2));
  }

  lemma SizedConcat(v: Bytes, maxBytes: nat, rest: Bytes)
    requires |v| <= maxBytes < 65536
    ensures Sized(SizedBytes(v) + rest, maxBytes) == Some((v, rest))
  {
    Pow256Values();
    assert SizedBytes(v) + rest == ToBE(|v|, 2) + (v + rest);
    NumberConcat(|v|, 2, v + rest);
    TakeConcat(v, rest);
  }

  lemma SizedSplits(b: Bytes, maxBytes: nat)
    ensures Sized(b, maxBytes).Some? ==>
      |Sized(b, maxBytes).value.0| <= maxBytes
        && b == SizedBytes(Sized(b, maxBytes).value.0) + Sized(b, maxBytes).value.1
  {
    NumberSplits(b, 2);
    if Sized(b, maxBytes).Some? {
      var (length, rest) := Number(b, 2).value;
      TakeSplits(rest, length);
      var (v, end) := Sized(b, maxBytes).value;
      assert ToBE(length, 2) + (v + end) == SizedBytes(v) + end;
    }
  }

  // ----- sections: each parser inverts its serializer ----------------------

  lemma HeaderConcat(h: Header, rest: Bytes)
    requires WellFormedHeader(h)
    ensures ParseHeader(HeaderBytes(h) + rest) == Some((h, rest))
  {
    hide Number, Sized, SizedBytes, ToBE;
    Pow256Values();
    var b3 := SizedBytes(h.extraData) + rest;
    var b2 := SizedBytes(h.qualifiedSigner) + b3;
    var b1 := ToBE(TPM_ST_ATTEST_QUOTE, 2) + b2;
    Reassociate4(ToBE(TPM_GENERATED_VALUE, 4), ToBE(TPM_ST_ATTEST_QUOTE, 2),
                 SizedBytes(h.qualifiedSigner), SizedBytes(h.extraData), rest);
    NumberConcat(TPM_GENERATED_VALUE, 4, b1);
    NumberConcat(TPM_ST_ATTEST_QUOTE, 2, b2);
    SizedConcat(h.qualifiedSigner, MAX_SIGNER_BYTES, b3);
    SizedConcat(h.extraData, MAX_NONCE_BYTES, rest);
  }

  lemma Reassociate4<T>(a: seq<T>, b: seq<T>, c: seq<T>, d: seq<T>, rest: seq<T>)
    ensures (a + (b + (c + d))) + rest == a + (b + (c + (d + rest)))
  {
  }

  lemma Reassociate3<T>(a: seq<T>, b: seq<T>, c: seq<T>, rest: seq<T>)
    ensures (a + (b + c)) + rest == a + (b + (c + rest))
  {
  }

  lemma HeaderSplits(b: Bytes)
    ensures ParseHeader(b).Some? ==>
      WellFormedHeader(ParseHeader(b).value.0) && b == HeaderBytes(ParseHeader(b).value.0) + ParseHeader(b).value.1
  {
    if ParseHeader(b).Some? {
      hide Number, Sized, SizedBytes, ToBE;
      NumberSplits(b, 4);
      var b1 := Number(b, 4).value.1;
      NumberSplits(b1, 2);
      var b2 := Number(b1, 2).value.1;
      SizedSplits(b2, MAX_SIGNER_BYTES);
      var b3 := Sized(b2, MAX_SIGNER_BYTES).value.1;
      SizedSplits(b3, MAX_NONCE_BYTES);
      var (h, rest) := ParseHeader(b).value;
      Reassociate4(ToBE(TPM_GENERATED_VALUE, 4), ToBE(TPM_ST_ATTEST_QUOTE, 2),
                   SizedBytes(h.qualifiedSigner), SizedBytes(h.extraData), rest);
    }
  }

  lemma Reassociate5<T>(a: seq<T>, b: seq<T>, c: seq<T>, d: seq<T>, e: seq<T>, rest: seq<T>)
    ensures (a + (b + (c + (d + e)))) + rest == a + (b + (c + (d + (e + rest))))
  {
  }

  lemma ClockConcat(c: Clock, rest: Bytes)
    requires WellFormedClock(c)
    ensures ParseClock(ClockBytes(c) + rest) == Some((c, rest))
  {
    hide Number, ToBE;
    Pow256Values();
    var safe := if c.safe then 1 else 0;
    var b4 := ToBE(c.firmwareVersion, 8) + rest;
    var b3 := ToBE(safe, 1) + b4;
    var b2 := ToBE(c.restartCount, 4) + b3;
    var b1 := ToBE(c.resetCount, 4) + b2;
    Reassociate5(ToBE(c.clock, 8), ToBE(c.resetCount, 4), ToBE(c.restartCount, 4), ToBE(safe, 1),
                 ToBE(c.firmwareVersion, 8), rest);
    NumberConcat(c.clock, 8, b1);
    NumberConcat(c.resetCount, 4, b2);
    NumberConcat(c.restartCount, 4, b3);
    NumberConcat(safe, 1, b4);
    NumberConcat(c.firmwareVersion, 8, rest);
  }

  lemma ClockSplits(b: Bytes)
    ensures ParseClock(b).Some? ==>
      WellFormedClock(ParseClock(b).value.0) && b == ClockBytes(ParseClock(b).value.0) + ParseClock(b).value.1
  {
    if ParseClock(b).Some? {
      hide Number, ToBE;
      NumberSplits(b, 8);
      var b1 := Number(b, 8).value.1;
      NumberSplits(b1, 4);
      var b2 := Number(b1, 4).value.1;
      NumberSplits(b2, 4);
      var b3 := Number(b2, 4).value.1;
      NumberSplits(b3, 1);
      var b4 := Number(b3, 1).value.1;
      NumberSplits(b4, 8);
      var (c, rest) := ParseClock(b).value;
      Reassociate5(ToBE(c.clock, 8), ToBE(c.resetCount, 4), ToBE(c.restartCount, 4), ToBE(if c.safe then 1 else 0, 1),
                   ToBE(c.firmwareVersion, 8), rest);
    }
  }

  lemma BankConcat(bank: Bank, width: nat, rest: Bytes)
    requires WellFormedBank(bank, width)
    ensures ParseBank(BankBytes(bank, width) + rest, {}) == Some((bank, rest))
  {
    IndicesRoundTrip(bank, width);
    BankBitmap(width, BitmapOf(Members(bank.indices), width), rest);
  }

  lemma BankBitmap(width: nat, bitmap: Bytes, rest: Bytes)
    requires 1 <= width <= MAX_PCR_SELECT_BYTES && |bitmap| == width && SetBits(bitmap, 8 * width) != []
    ensures ParseBank(ToBE(TPM_ALG_SHA256, 2) + (ToBE(width, 1) + bitmap) + rest, {})
         == Some((Bank(TPM_ALG_SHA256, SetBits(bitmap, 8 * width)), rest))
  {
    hide Number, ToBE, SetBits, BitmapOf, Take;
    Pow256Values();
    Reassociate3(ToBE(TPM_ALG_SHA256, 2), ToBE(width, 1), bitmap, rest);
    NumberConcat(TPM_ALG_SHA256, 2, ToBE(width, 1) + (bitmap + rest));
    NumberConcat(width, 1, bitmap + rest);
    TakeConcat(bitmap, rest);
  }

  lemma IndicesRoundTrip(bank: Bank, width: nat)
    requires WellFormedBank(bank, width)
    ensures SetBits(BitmapOf(Members(bank.indices), width), 8 * width) == bank.indices
  {
    var bitmap := BitmapOf(Members(bank.indices), width);
    var back := SetBits(bitmap, 8 * width);
    forall i: nat ensures i in back <==> i in bank.indices {
      if i < 8 * width {
        BitmapBits(Members(bank.indices), width, i);
      }
    }
    IncreasingDetermined(back, bank.indices);
  }

  lemma BitmapRoundTrip(bitmap: Bytes)
    ensures BitmapOf(Members(SetBits(bitmap, 8 * |bitmap|)), |bitmap|) == bitmap
  {
    var selected := Members(SetBits(bitmap, 8 * |bitmap|));
    forall i | 0 <= i < 8 * |bitmap| ensures BitSet(BitmapOf(selected, |bitmap|), i) == BitSet(bitmap, i) {
      BitmapBits(selected, |bitmap|, i);
    }
    BitmapDetermined(BitmapOf(selected, |bitmap|), bitmap);
  }

  /** The bitmap width the bytes of a bank declare. */
  function BankWidth(b: Bytes): nat {
    if |b| < 3 then 0 else b[2]
  }

  lemma BankSplits(b: Bytes, seen: set<nat>)
    ensures ParseBank(b, seen).Some? ==>
      WellFormedBank(ParseBank(b, seen).value.0, BankWidth(b))
      && b == BankBytes(ParseBank(b, seen).value.0, BankWidth(b)) + ParseBank(b, seen).value.1
      && TPM_ALG_SHA256 !in seen
  {
    if ParseBank(b, seen).Some? {
      NumberSplits(b, 2);
      var b1 := Number(b, 2).value.1;
      NumberSplits(b1, 1);
      var (size, b2) := Number(b1, 1).value;
      TakeSplits(b2, size);
      var (bitmap, rest) := Take(b2, size).value;
      assert size == FromBE([b[2]]) == b[2] by { assert b1[..1] == [b[2]]; assert [b[2]][..0] == []; }
      BitmapRoundTrip(bitmap);
      BankPieces(b, size, bitmap, rest);
      var indices := SetBits(bitmap, 8 * size);
      assert forall k :: 0 <= k < |indices| ==> indices[k] in indices;
    }
  }

  lemma BankPieces(b: Bytes, size: nat, bitmap: Bytes, rest: Bytes)
    requires |bitmap| == size && b == ToBE(TPM_ALG_SHA256, 2) + (ToBE(size, 1) + (bitmap + rest))
    requires BitmapOf(Members(SetBits(bitmap, 8 * size)), size) == bitmap
    ensures b == BankBytes(Bank(TPM_ALG_SHA256, SetBits(bitmap, 8 * size)), size) + rest
  {
    hide ToBE, SetBits, BitmapOf;
    Reassociate3(ToBE(TPM_ALG_SHA256, 2), ToBE(size, 1), bitmap, rest);
  }

  // ----- whole quotes ------------------------------------------------------

  /** A second bank would have to repeat the only supported algorithm, so it never parses. */
  lemma {:induction false} OneBankOnly(b: Bytes, count: nat, seen: set<nat>)
    requires ParseBanks(b, count, seen).Some?
    ensures count <= 1 && (count == 1 ==> TPM_ALG_SHA256 !in seen)
    ensures |ParseBanks(b, count, seen).value.0| == count
  {
    if count > 0 {
      BankSplits(b, seen);
      var (bank, rest) := ParseBank(b, seen).value;
      OneBankOnly(rest, count - 1, seen + {bank.algorithm});
    }
  }

  lemma SelectionConcat(bank: Bank, width: nat, rest: Bytes)
    requires WellFormedBank(bank, width)
    ensures ParseSelection(ToBE(1, 4) + (BankBytes(bank, width) + rest)) == Some(([bank], rest))
  {
    hide Number, ToBE, BankBytes, ParseBank;
    Pow256Values();
    NumberConcat(1, 4, BankBytes(bank, width) + rest);
    BankConcat(bank, width, rest);
    assert ParseBanks(rest, 0, {} + {bank.algorithm}) == Some(([], rest));
    assert [bank] + [] == [bank];
  }

  lemma SelectionSplits(b: Bytes) returns (width: nat)
    requires ParseSelection(b).Some?
    ensures var (banks, rest) := ParseSelection(b).value;
            |banks| == 1 && WellFormedBank(banks[0], width)
            && b == ToBE(1, 4) + (BankBytes(banks[0], width) + rest)
  {
    hide ToBE, BankBytes, WellFormedBank, ParseBank;
    NumberSplits(b, 4);
    var (count, b1) := Number(b, 4).value;
    OneBankOnly(b1, count, {});
    BankSplits(b1, {});
    width := BankWidth(b1);
    var (bank, rest) := ParseBank(b1, {}).value;
    assert ParseBanks(rest, 0, {} + {bank.algorithm}) == Some(([], rest));
    assert [bank] + [] == [bank];
  }

  /** Every well-formed quote, at every bitmap width that holds its indices, parses back. */
  lemma ParseSerialize(q: Quote, width: nat)
    requires WellFormed(q, width)
    ensures Parse(Serialize(q, width)) == Some(q)
  {
    hide ParseHeader, ParseClock, ParseSelection, HeaderBytes, ClockBytes, BankBytes, ToBE, SizedBytes;
    var bank := q.pcrSelection[0];
    var b3 := SizedBytes(q.pcrDigest);
    var b2 := ToBE(1, 4) + (BankBytes(bank, width) + b3);
    var b1 := ClockBytes(q.clock) + b2;
    HeaderConcat(q.header, b1);
    ClockConcat(q.clock, b2);
    SelectionConcat(bank, width, b3);
    DigestConcat(q.pcrDigest);
    assert q.pcrSelection == [bank];
  }

  lemma DigestConcat(digest: Bytes)
    requires |digest| == SHA256_BYTES
    ensures ParseDigest(SizedBytes(digest)) == Some((digest, []))
  {
    SizedConcat(digest, SHA256_BYTES, []);
    assert SizedBytes(digest) + [] == SizedBytes(digest);
  }

  /** Every accepted buffer is, to the last byte, the serialization of what was parsed. */
  lemma SerializeParse(b: Bytes) returns (width: nat)
    requires Parse(b).Some?
    ensures WellFormed(Parse(b).value, width) && Serialize(Parse(b).value, width) == b
  {
    hide ParseHeader, ParseClock, ParseSelection, HeaderBytes, ClockBytes, BankBytes, ToBE, SizedBytes, Sized,
         WellFormedHeader, WellFormedClock, WellFormedBank;
    HeaderSplits(b);
    var b1 := ParseHeader(b).value.1;
    ClockSplits(b1);
    var b2 := ParseClock(b1).value.1;
    width := SelectionSplits(b2);
    var b3 := ParseSelection(b2).value.1;
    SizedSplits(b3, SHA256_BYTES);
    var digest := ParseDigest(b3).value.0;
    assert SizedBytes(digest) + [] == SizedBytes(digest);
  }

  /** The parser accepts exactly the serializations of well-formed quotes. */
  lemma AcceptsExactlyWellFormed(b: Bytes)
    ensures Parse(b).Some? <==> exists q, width: nat :: WellFormed(q, width) && Serialize(q, width) == b
  {
    hide Parse, Serialize;
    if Parse(b).Some? {
      var width := SerializeParse(b);
    }
    if q, width: nat :| WellFormed(q, width) && Serialize(q, width) == b {
      ParseSerialize(q, width);
    }
  }
}
