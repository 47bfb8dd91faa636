/** The cursor that walks a TPM structure, and the two parsers written over it. */
module TpmCursor {
  import opened Common
  import opened TpmBytes
  import Q = TpmQuote

  class Cursor {
    const buffer: Bytes
    var offset: nat

    ghost predicate Valid()
      reads this
    {
      offset <= |buffer|
    }

    ghost function Rest(): Bytes
      requires Valid()
      reads this
    {
      buffer[offset..]
    }

    constructor (buffer: Bytes)
      ensures Valid() && this.buffer == buffer && Rest() == buffer
    {
      this.buffer, offset := buffer, 0;
    }

    /** The next `length` bytes; fails, without moving, when fewer are left. */
    method Take(length: nat) returns (r: Option<Bytes>)
      requires Valid()
      modifies this`offset
      ensures Valid()
      ensures Reads(Q.Take(old(Rest()), length), r, Rest())
      ensures r.None? ==> offset == old(offset)
    {
      if offset + length > |buffer| {
        return None;
      }
      assert buffer[offset..][..length] == buffer[offset..offset + length];
      assert buffer[offset..][length..] == buffer[offset + length..];
      r := Some(buffer[offset..offset + length]);
      offset := offset + length;
    }

    method Number(length: nat) returns (r: Option<nat>)
      requires Valid()
      modifies this`offset
      ensures Valid()
      ensures Reads(Q.Number(old(Rest()), length), r, Rest())
    {
      var v := Take(length);
      if v.None? { return None; }
      r := Some(FromBE(v.value));
    }

    method Tpm2b(maxBytes: nat) returns (r: Option<Bytes>)
      requires Valid()
      modifies this`offset
      ensures Valid()
      ensures Reads(Q.Sized(old(Rest()), maxBytes), r, Rest())
    {
      var length := Number(2);
      if length.None? || length.value > maxBytes { return None; }
      r := Take(length.value);
    }

    method Done() returns (ok: bool)
      requires Valid()
      ensures ok <==> Rest() == []
    {
      ok := offset == |buffer|;
    }
  }

  /** `r` is what the grammar reads, and `rest` what it leaves. */
  ghost predicate Reads<T(!new)>(spec: Option<(T, Bytes)>, r: Option<T>, rest: Bytes) {
    match spec
    case None => r.None?
    case Some((v, after)) => r == Some(v) && rest == after
  }

  /** The bits of one bitmap, lowest index first. */
  method CollectIndices(bitmap: Bytes) returns (indices: seq<nat>)
    ensures indices == SetBits(bitmap, 8 * |bitmap|)
  {
    hide BitSet, StrictlyIncreasing;
    indices := [];
    for index := 0 to 8 * |bitmap|
      invariant indices == SetBits(bitmap, index)
    {
      if BitSet(bitmap, index) {
        indices := indices + [index];
      }
    }
  }

  method ReadBank(cursor: Cursor, seen: set<nat>) returns (r: Option<Q.Bank>)
    requires cursor.Valid()
    modifies cursor`offset
    ensures cursor.Valid() && Reads(Q.ParseBank(old(cursor.Rest()), seen), r, cursor.Rest())
  {
    hide SetBits, Q.Number, Q.Take;
    var algorithm := cursor.Number(2);
    if algorithm.None? || algorithm.value != Q.TPM_ALG_SHA256 || algorithm.value in seen { return None; }
    var size := cursor.Number(1);
    if size.None? || size.value < 1 || size.value > Q.MAX_PCR_SELECT_BYTES { return None; }
    ghost var here := cursor.Rest();
    var bitmap := cursor.Take(size.value);
    if bitmap.None? { return None; }
    Q.TakeSplits(here, size.value);
    var indices := CollectIndices(bitmap.value);
    if indices == [] { return None; }
    return Some(Q.Bank(algorithm.value, indices));
  }

  method ParsePcrSelection(cursor: Cursor) returns (r: Option<seq<Q.Bank>>)
    requires cursor.Valid()
    modifies cursor`offset
    ensures cursor.Valid()
    ensures Reads(Q.ParseSelection(old(cursor.Rest())), r, cursor.Rest())
  {
    hide Q.ParseBank, Q.Number;
    var count := cursor.Number(4);
    if count.None? || count.value < 1 || count.value > Q.MAX_PCR_BANKS { return None; }
    var seen: set<nat> := {};
    var selections: seq<Q.Bank> := [];
    ghost var outcome := Q.ParseBanks(cursor.Rest(), count.value, {});
    ContinuesStart(outcome);
    for bank := 0 to count.value
      invariant cursor.Valid()
      invariant Continues(outcome, selections, Q.ParseBanks(cursor.Rest(), count.value - bank, seen))
    {
      ghost var here := cursor.Rest();
      var found := ReadBank(cursor, seen);
      if found.None? { return None; }
      ContinuesStep(outcome, selections, here, count.value - bank, seen, found.value, cursor.Rest());
      seen := seen + {found.value.algorithm};
      selections := selections + [found.value];
    }
    assert selections + [] == selections;
    return Some(selections);
  }

  lemma ContinuesStart(outcome: Option<(seq<Q.Bank>, Bytes)>)
    ensures Continues(outcome, [], outcome)
  {
    assert outcome.Some? ==> [] + outcome.value.0 == outcome.value.0;
  }

  /** The final outcome is what was collected so far followed by the outcome of the rest. */
  ghost predicate Continues(outcome: Option<(seq<Q.Bank>, Bytes)>, done: seq<Q.Bank>, rest: Option<(seq<Q.Bank>,
                            Bytes)>) {
    match rest
    case None => outcome.None?
    case Some((banks, end)) => outcome == Some((done + banks, end))
  }

  lemma ContinuesStep(outcome: Option<(seq<Q.Bank>, Bytes)>, done: seq<Q.Bank>, here: Bytes, count: nat,
                      seen: set<nat>, bank: Q.Bank, after: Bytes)
    requires count > 0 && Q.ParseBank(here, seen) == Some((bank, after))
    requires Continues(outcome, done, Q.ParseBanks(here, count, seen))
    ensures Continues(outcome, done + [bank], Q.ParseBanks(after, count - 1, seen + {bank.algorithm}))
  {
    var rest := Q.ParseBanks(after, count - 1, seen + {bank.algorithm});
    if rest.Some? {
      assert done + ([bank] + rest.value.0) == done + [bank] + rest.value.0;
    }
  }

  method ParseHeader(cursor: Cursor) returns (r: Option<Q.Header>)
    requires cursor.Valid()
    modifies cursor`offset
    ensures cursor.Valid() && Reads(Q.ParseHeader(old(cursor.Rest())), r, cursor.Rest())
  {
    var magic := cursor.Number(4);
    if magic.None? || magic.value != Q.TPM_GENERATED_VALUE { return None; }
    var kind := cursor.Number(2);
    if kind.None? || kind.value != Q.TPM_ST_ATTEST_QUOTE { return None; }
    var signer := cursor.Tpm2b(Q.MAX_SIGNER_BYTES);
    if signer.None? { return None; }
    var extra := cursor.Tpm2b(Q.MAX_NONCE_BYTES);
    if extra.None? || extra.value == [] { return None; }
    return Some(Q.Header(signer.value, extra.value));
  }

  method ParseClock(cursor: Cursor) returns (r: Option<Q.Clock>)
    requires cursor.Valid()
    modifies cursor`offset
    ensures cursor.Valid() && Reads(Q.ParseClock(old(cursor.Rest())), r, cursor.Rest())
  {
    hide Q.Number;
    var clock := cursor.Number(8);
    if clock.None? { return None; }
    var reset := cursor.Number(4);
    if reset.None? { return None; }
    var restart := cursor.Number(4);
    if restart.None? { return None; }
    var safe := cursor.Number(1);
    if safe.None? || (safe.value != 0 && safe.value != 1) { return None; }
    var firmware := cursor.Number(8);
    if firmware.None? { return None; }
    return Some(Q.Clock(clock.value, reset.value, restart.value, safe.value == 1, firmware.value));
  }

  /** The imperative parser computes the grammar's answer. */
  method ParseTpm2Quote(quoted: Bytes) returns (r: Option<Q.Quote>)
    ensures r == Q.Parse(quoted)
  {
    hide Q.ParseHeader, Q.ParseClock, Q.ParseSelection, Q.Sized;
    var cursor := new Cursor(quoted);
    var header := ParseHeader(cursor);
    if header.None? { return None; }
    var clock := ParseClock(cursor);
    if clock.None? { return None; }
    var banks := ParsePcrSelection(cursor);
    if banks.None? { return None; }
    var digest := cursor.Tpm2b(Q.SHA256_BYTES);
    if digest.None? || |digest.value| != Q.SHA256_BYTES { return None; }
    var done := cursor.Done();
    if !done { return None; }
    return Some(Q.Quote(header.value, clock.value, banks.value, digest.value));
  }
}
