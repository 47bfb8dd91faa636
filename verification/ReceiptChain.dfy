/** The receipt hash chain of conformance/verify_hashes.py. */
module ReceiptChain {
  import opened Common
  import opened Unicode
  import opened JsonText
  import opened CanonicalJson
  import opened JsonEquality

  /** A receipt: the members of a Python dict. */
  type Receipt = seq<(Str, Json)>

  /** The receipt fields the hash covers. */
  const HASHED_FIELDS: seq<string> := [
    "entity_id", "submitted_by", "transaction_ref", "transaction_type", "context",
    "delivery_accuracy", "product_accuracy", "price_integrity", "return_processing",
    "agent_satisfaction", "agent_behavior", "claims", "evidence",
    "submitter_score", "submitter_established"]

  const PREVIOUS_HASH := "previous_hash"
  const RECEIPT_VERSION := "receipt_version"

  /** `receipt.get(field)`: a missing field is null. */
  function Get(receipt: Receipt, field: string): Json {
    var v := Lookup(receipt, Codes(field));
    if v.Some? then v.value else Null
  }

  /** SHA-256 over text; the chain stores the lower-case digest. */
  function PreviousJson(previous: Option<Digest>): Json {
    if previous.Some? then String(Codes(previous.value)) else Null
  }

  function Payload(receipt: Receipt, previous: Option<Digest>): (es: seq<(Str, Json)>)
    ensures |es| == |HASHED_FIELDS| + 2
  {
    seq(|HASHED_FIELDS|, i requires 0 <= i < |HASHED_FIELDS| => (Codes(HASHED_FIELDS[i]),
        Get(receipt, HASHED_FIELDS[i])))
    + [(Codes(PREVIOUS_HASH), PreviousJson(previous)), (Codes(RECEIPT_VERSION), Int(1))]
  }

  function PayloadText(receipt: Receipt, previous: Option<Digest>): string {
    Canonical(Dict(Payload(receipt, previous)))
  }

  /** compute_receipt_hash. */
  function ReceiptHash(h: Hash, receipt: Receipt, previous: Option<Digest>): Digest {
    h(PayloadText(receipt, previous))
  }

  /** The hash of the newest receipt of a chain; the genesis receipt has no previous hash. */
  function Head(h: Hash, chain: seq<Receipt>): Option<Digest> {
    if chain == [] then None
    else Some(ReceiptHash(h, chain[|chain| - 1], Head(h, chain[..|chain| - 1])))
  }

  // ----- the payload is a well-formed dictionary ---------------------------

  function Name(i: nat): string
    requires i < |HASHED_FIELDS| + 2
  {
    if i < |HASHED_FIELDS| then HASHED_FIELDS[i]
    else if i == |HASHED_FIELDS| then PREVIOUS_HASH else RECEIPT_VERSION
  }

  /** Length and first letter tell the seventeen names apart. */
  function Signature(i: nat): (int, char)
    requires i < 17
  {
    [(9, 'e'), (12, 's'), (15, 't'), (16, 't'), (7, 'c'), (17, 'd'), (16, 'p'), (15, 'p'), (17, 'r'),
     (18, 'a'), (14, 'a'), (6, 'c'), (8, 'e'), (15, 's'), (21, 's'), (13, 'p'), (15, 'r')][i]
  }

  lemma NameSignature(i: nat)
    requires i < 17
    ensures |HASHED_FIELDS| == 15
    ensures |Name(i)| == Signature(i).0 && Name(i)[0] == Signature(i).1
  {
  }

  lemma NamesDistinct(i: nat, j: nat)
    requires i < j < 17
    ensures |HASHED_FIELDS| == 15 && Name(i) != Name(j)
  {
    NameSignature(i);
    NameSignature(j);
    SignaturesDistinct(i, j);
  }

  lemma SignaturesDistinct(i: nat, j: nat)
    requires i < j < 17
    ensures Signature(i) != Signature(j)
  {
  }

  lemma {:induction false} LookupWellFormed(es: seq<(Str, Json)>, k: Str)
    requires WellFormed(Dict(es))
    ensures Lookup(es, k).Some? ==> WellFormed(Lookup(es, k).value)
  {
    if Lookup(es, k).Some? {
      var j := LookupFound(es, k);
    }
  }

  lemma PayloadAt(receipt: Receipt, previous: Option<Digest>, i: nat)
    requires i < 17
    ensures |HASHED_FIELDS| == 15
    ensures Payload(receipt, previous)[i].0 == Codes(Name(i))
    ensures Payload(receipt, previous)[i].1
         == if i < 15 then Get(receipt, HASHED_FIELDS[i]) else if i == 15 then PreviousJson(previous) else Int(1)
  {
  }

  lemma PayloadWellFormed(receipt: Receipt, previous: Option<Digest>)
    requires WellFormed(Dict(receipt))
    ensures WellFormed(Dict(Payload(receipt, previous)))
  {
    hide Lookup, Name, Codes;
    var es := Payload(receipt, previous);
    forall i, j | 0 <= i < j < |es| ensures es[i].0 != es[j].0 {
      PayloadAt(receipt, previous, i);
      PayloadAt(receipt, previous, j);
      NamesDistinct(i, j);
      if Codes(Name(i)) == Codes(Name(j)) {
        CodesInjective(Name(i), Name(j));
      }
    }
    forall i | 0 <= i < |es| ensures Plain(es[i].0) && WellFormed(es[i].1) {
      PayloadAt(receipt, previous, i);
      CodesPlain(Name(i));
      if i < 15 {
        LookupWellFormed(receipt, Codes(HASHED_FIELDS[i]));
      } else if previous.Some? {
        CodesPlain(previous.value);
      }
    }
  }

  // ----- the head fixes the history ----------------------------------------

  ghost predicate Lacks(receipt: Receipt, field: string) {
    forall i :: 0 <= i < |receipt| ==> receipt[i].0 != Codes(field)
  }

  /** `receipt.get(field)` is the receipt's own entry, or null where it has none. */
  lemma GetIsTheEntry(receipt: Receipt, field: string, v: Json)
    requires WellFormed(Dict(receipt))
    ensures Get(receipt, field) == v <==> (Codes(field), v) in receipt || (Lacks(receipt, field) && v == Null)
  {
    var found := Lookup(receipt, Codes(field));
    if found.Some? {
      var j := LookupFound(receipt, Codes(field));
    }
    if (Codes(field), v) in receipt {
      var j :| 0 <= j < |receipt| && receipt[j] == (Codes(field), v);
      LookupAt(receipt, j);
    }
    if !Lacks(receipt, field) {
      var j :| 0 <= j < |receipt| && receipt[j].0 == Codes(field);
      LookupAt(receipt, j);
      assert receipt[j] == (Codes(field), receipt[j].1);
    }
  }

  /** Both receipts have this entry with the same value, or one lacks it and the other lacks it or has null. */
  ghost predicate SameEntry(r: Receipt, t: Receipt, field: string) {
    || (exists v, w :: (Codes(field), v) in r && (Codes(field), w) in t && Same(v, w))
    || (Lacks(r, field) && (Lacks(t, field) || (Codes(field), Null) in t))
    || (Lacks(t, field) && (Codes(field), Null) in r)
  }

  lemma SameEntryExactly(r: Receipt, t: Receipt, field: string)
    requires WellFormed(Dict(r)) && WellFormed(Dict(t))
    ensures Same(Get(r, field), Get(t, field)) <==> SameEntry(r, t, field)
  {
    GetIsTheEntry(r, field, Get(r, field));
    GetIsTheEntry(t, field, Get(t, field));
    hide Get, Lookup, WellFormed, Codes, Lacks;
    SameNull(Get(r, field), Get(t, field));
    if exists v, w :: (Codes(field), v) in r && (Codes(field), w) in t && Same(v, w) {
      var v, w :| (Codes(field), v) in r && (Codes(field), w) in t && Same(v, w);
      GetIsTheEntry(r, field, v);
      GetIsTheEntry(t, field, w);
    }
    GetIsTheEntry(r, field, Null);
    GetIsTheEntry(t, field, Null);
  }

  lemma SameNull(v: Json, w: Json)
    ensures v == Null || w == Null ==> (Same(v, w) <==> v == w)
  {
  }

  /** The receipts agree in each of the fifteen entries that are hashed. */
  ghost predicate SameHashedFields(r: Receipt, t: Receipt) {
    && SameEntry(r, t, "entity_id") && SameEntry(r, t, "submitted_by") && SameEntry(r, t, "transaction_ref")
    && SameEntry(r, t, "transaction_type") && SameEntry(r, t, "context") && SameEntry(r, t, "delivery_accuracy")
    && SameEntry(r, t, "product_accuracy") && SameEntry(r, t, "price_integrity")
    && SameEntry(r, t, "return_processing") && SameEntry(r, t, "agent_satisfaction")
    && SameEntry(r, t, "agent_behavior") && SameEntry(r, t, "claims") && SameEntry(r, t, "evidence")
    && SameEntry(r, t, "submitter_score") && SameEntry(r, t, "submitter_established")
  }

  lemma SameHashedFieldsExactly(r: Receipt, t: Receipt)
    requires WellFormed(Dict(r)) && WellFormed(Dict(t))
    ensures SameHashedFields(r, t) <==>
            forall i :: 0 <= i < |HASHED_FIELDS| ==> Same(Get(r, HASHED_FIELDS[i]), Get(t, HASHED_FIELDS[i]))
  {
    forall i | 0 <= i < |HASHED_FIELDS|
      ensures Same(Get(r, HASHED_FIELDS[i]), Get(t, HASHED_FIELDS[i])) <==> SameEntry(r, t, HASHED_FIELDS[i])
    {
      SameEntryExactly(r, t, HASHED_FIELDS[i]);
    }
    hide SameEntry, Same, Get;
    FieldByField(r, t);
  }

  lemma FieldByField(r: Receipt, t: Receipt)
    ensures SameHashedFields(r, t) <==> forall i :: 0 <= i < |HASHED_FIELDS| ==> SameEntry(r, t, HASHED_FIELDS[i])
  {
    hide SameEntry;
    var f := HASHED_FIELDS;
    assert f[0] == "entity_id" && f[1] == "submitted_by" && f[2] == "transaction_ref" && f[3] == "transaction_type";
    assert f[4] == "context" && f[5] == "delivery_accuracy" && f[6] == "product_accuracy" && f[7] == "price_integrity";
    assert f[8] == "return_processing" && f[9] == "agent_satisfaction" && f[10] == "agent_behavior";
    assert f[11] == "claims" && f[12] == "evidence" && f[13] == "submitter_score" && f[14] == "submitter_established";
  }

  /** The value of a receipt's entry, null where there is none. */
  ghost predicate Carries(es: seq<(Str, Json)>, receipt: Receipt, field: string) {
    exists v :: (Codes(field), v) in es && ((Codes(field), v) in receipt || (Lacks(receipt, field) && v == Null))
  }

  /** What is hashed: seventeen members, each hashed field under its own name with the receipt's own value. */
  lemma PayloadCarries(receipt: Receipt, previous: Option<Digest>)
    requires WellFormed(Dict(receipt))
    ensures var es := Payload(receipt, previous);
            && |es| == 17
            && (forall i :: 0 <= i < |HASHED_FIELDS| ==> Carries(es, receipt, HASHED_FIELDS[i]))
            && (Codes("previous_hash"), if previous.Some? then String(Codes(previous.value)) else Null) in es
            && (Codes("receipt_version"), Int(1)) in es
  {
    hide Get, Codes, Lookup;
    var es := Payload(receipt, previous);
    forall i | 0 <= i < |HASHED_FIELDS|
      ensures Carries(es, receipt, HASHED_FIELDS[i])
    {
      GetIsTheEntry(receipt, HASHED_FIELDS[i], Get(receipt, HASHED_FIELDS[i]));
      assert es[i] == (Codes(HASHED_FIELDS[i]), Get(receipt, HASHED_FIELDS[i]));
    }
    assert es[15] == (Codes(PREVIOUS_HASH), PreviousJson(previous)) && es[16] == (Codes(RECEIPT_VERSION), Int(1));
  }

  /** Equal payload texts mean equal hashed fields and equal previous hashes. */
  lemma PayloadDetermines(r: Receipt, p: Option<Digest>, t: Receipt, q: Option<Digest>)
    requires WellFormed(Dict(r)) && WellFormed(Dict(t)) && PayloadText(r, p) == PayloadText(t, q)
    ensures SameHashedFields(r, t) && p == q
  {
    hide Canonical, Payload, Name, Get, WellFormed, SameHashedFields;
    SameHashedFieldsExactly(r, t);
    PayloadWellFormed(r, p);
    PayloadWellFormed(t, q);
    CanonicalIffSame(Dict(Payload(r, p)), Dict(Payload(t, q)));
    forall i | 0 <= i < 17 ensures Same(Payload(r, p)[i].1, Payload(t, q)[i].1) {
      SameAtIndex(r, p, t, q, i);
    }
    forall i | 0 <= i < |HASHED_FIELDS| ensures Same(Get(r, HASHED_FIELDS[i]), Get(t, HASHED_FIELDS[i])) {
      PayloadAt(r, p, i);
      PayloadAt(t, q, i);
    }
    PayloadAt(r, p, 15);
    PayloadAt(t, q, 15);
    if p.Some? && q.Some? {
      CodesInjective(p.value, q.value);
    }
  }

  lemma SameAtIndex(r: Receipt, p: Option<Digest>, t: Receipt, q: Option<Digest>, i: nat)
    requires i < 17 && WellFormed(Dict(Payload(t, q)))
    requires Same(Dict(Payload(r, p)), Dict(Payload(t, q)))
    ensures Same(Payload(r, p)[i].1, Payload(t, q)[i].1)
  {
    hide Payload, Name, Get;
    PayloadAt(r, p, i);
    PayloadAt(t, q, i);
    LookupAt(Payload(t, q), i);
  }

  ghost predicate WellFormedChain(chain: seq<Receipt>) {
    forall i :: 0 <= i < |chain| ==> WellFormed(Dict(chain[i]))
  }

  /** The text hashed for receipt `i` of a chain. */
  function HashedText(h: Hash, chain: seq<Receipt>, i: nat): string
    requires i < |chain|
  {
    PayloadText(chain[i], Head(h, chain[..i]))
  }

  ghost predicate ChainsCollide(h: Hash, a: seq<Receipt>, b: seq<Receipt>) {
    exists i, j :: 0 <= i < |a| && 0 <= j < |b| && Collides(h, HashedText(h, a, i), HashedText(h, b, j))
  }

  ghost predicate SameHistory(a: seq<Receipt>, b: seq<Receipt>) {
    |a| == |b| && forall i :: 0 <= i < |a| ==> SameHashedFields(a[i], b[i])
  }

  /** Chains with one head hash agree on every hashed field of every receipt back to genesis,
      and have the same length, or two of their hashed texts collide. */
  lemma {:induction false} HeadFixesHistory(h: Hash, a: seq<Receipt>, b: seq<Receipt>)
    requires WellFormedChain(a) && WellFormedChain(b) && Head(h, a) == Head(h, b)
    ensures SameHistory(a, b) || ChainsCollide(h, a, b)
    decreases |a|
  {
    hide PayloadText, SameHashedFields, WellFormed, SameHistory, ChainsCollide;
    if a == [] || b == [] {
      assert a == b == [];
      NothingDiffers(a);
    } else {
      var m, n := |a| - 1, |b| - 1;
      var x, y := HashedText(h, a, m), HashedText(h, b, n);
      if x != y {
        CollisionFound(h, a, m, b, n);
      } else {
        PayloadDetermines(a[m], Head(h, a[..m]), b[n], Head(h, b[..n]));
        HeadFixesHistory(h, a[..m], b[..n]);
        if ChainsCollide(h, a[..m], b[..n]) {
          PrefixCollision(h, a, m, b, n);
        } else {
          SameHistoryGrows(a, b);
        }
      }
    }
  }

  lemma NothingDiffers(a: seq<Receipt>)
    requires a == []
    ensures SameHistory(a, a)
  {
  }

  lemma CollisionFound(h: Hash, a: seq<Receipt>, i: nat, b: seq<Receipt>, j: nat)
    requires i < |a| && j < |b| && Collides(h, HashedText(h, a, i), HashedText(h, b, j))
    ensures ChainsCollide(h, a, b)
  {
  }

  lemma SameHistoryGrows(a: seq<Receipt>, b: seq<Receipt>)
    requires a != [] && b != [] && SameHistory(a[..|a| - 1], b[..|b| - 1])
    requires SameHashedFields(a[|a| - 1], b[|b| - 1])
    ensures SameHistory(a, b)
  {
    hide SameHashedFields;
    assert forall i :: 0 <= i < |a| - 1 ==> a[i] == a[..|a| - 1][i];
    assert forall i :: 0 <= i < |b| - 1 ==> b[i] == b[..|b| - 1][i];
  }

  lemma PrefixCollision(h: Hash, a: seq<Receipt>, m: nat, b: seq<Receipt>, n: nat)
    requires m <= |a| && n <= |b| && ChainsCollide(h, a[..m], b[..n])
    ensures ChainsCollide(h, a, b)
  {
    var i, j :| 0 <= i < m && 0 <= j < n && Collides(h, HashedText(h, a[..m], i), HashedText(h, b[..n], j));
    assert a[..m][..i] == a[..i] && b[..n][..j] == b[..j];
    assert HashedText(h, a, i) == HashedText(h, a[..m], i) && HashedText(h, b, j) == HashedText(h, b[..n], j);
  }

  // ----- and only the history ----------------------------------------------

  lemma SameReflexive(v: Json)
    requires v.Null? || v.Int? || v.String?
    ensures Same(v, v)
  {
  }

  /** Equal hashed fields and previous hashes give the same payload text. */
  lemma PayloadFollows(r: Receipt, t: Receipt, p: Option<Digest>)
    requires WellFormed(Dict(r)) && WellFormed(Dict(t)) && SameHashedFields(r, t)
    ensures PayloadText(r, p) == PayloadText(t, p)
  {
    hide Canonical, Payload, Name, Get, Lookup, SameHashedFields;
    SameHashedFieldsExactly(r, t);
    var es, fs := Payload(r, p), Payload(t, p);
    PayloadWellFormed(r, p);
    PayloadWellFormed(t, p);
    forall i | 0 <= i < |es|
      ensures Lookup(fs, es[i].0) == Some(fs[i].1) && Lookup(es, fs[i].0).Some? && Same(es[i].1, fs[i].1)
    {
      PayloadAt(r, p, i);
      PayloadAt(t, p, i);
      LookupAt(fs, i);
      LookupAt(es, i);
      if i >= 15 {
        SameReflexive(es[i].1);
      }
    }
    CanonicalIffSame(Dict(es), Dict(fs));
  }

  /** The head depends on nothing but the hashed fields: other fields and key order are free. */
  lemma {:induction false} HistoryFixesHead(h: Hash, a: seq<Receipt>, b: seq<Receipt>)
    requires WellFormedChain(a) && WellFormedChain(b) && SameHistory(a, b)
    ensures Head(h, a) == Head(h, b)
    decreases |a|
  {
    hide PayloadText, SameHashedFields, WellFormed;
    if a != [] {
      var m := |a| - 1;
      HistoryFixesHead(h, a[..m], b[..m]);
      PayloadFollows(a[m], b[m], Head(h, a[..m]));
    }
  }
}
