/** canonical_json of conformance/verify_hashes.py, with a parser that recovers the value. */
module CanonicalJson {
  import opened Common
  import opened Unicode
  import opened JsonText

  /** A Python value as json.load builds it; a dict keeps its insertion order. */
  datatype Json =
    | Null
    | Bool(b: bool)
    | Int(i: int)
    | String(s: Str)
    | List(items: seq<Json>)
    | Dict(entries: seq<(Str, Json)>)

  // ----- sorting by key ----------------------------------------------------

  function InsertByKey<V>(e: (Str, V), s: seq<(Str, V)>): seq<(Str, V)> {
    if s == [] || LexLe(e.0, s[0].0) then [e] + s else [s[0]] + InsertByKey(e, s[1..])
  }

  /** `sorted(obj.keys())`, carrying the values along. */
  function SortByKey<V>(s: seq<(Str, V)>): seq<(Str, V)> {
    if s == [] then [] else InsertByKey(s[0], SortByKey(s[1..]))
  }

  // ----- the printer -------------------------------------------------------

  /** The members of an object with their values already printed, in insertion order. */
  function PrintedEntries(es: seq<(Str, Json)>): seq<(Str, string)>
    decreases es, 0
  {
    if es == [] then [] else
      assert (es decreases to es[0]) && (es[0] decreases to es[0].1);
      [(es[0].0, Canonical(es[0].1))] + PrintedEntries(es[1..])
  }

  function JoinMembers(ps: seq<(Str, string)>): string {
    if ps == [] then ""
    else Dumps(ps[0].0) + ":" + ps[0].1 + if |ps| == 1 then "" else "," + JoinMembers(ps[1..])
  }

  function JoinItems(items: seq<Json>): string
    decreases items, 0
  {
    if items == [] then ""
    else Canonical(items[0]) + if |items| == 1 then "" else "," + JoinItems(items[1..])
  }

  function Canonical(j: Json): string
    decreases j, 1
  {
    match j
    case Null => "null"
    case Bool(b) => if b then "true" else "false"
    case Int(i) => IntText(i)
    case String(s) => Dumps(s)
    case List(items) => "[" + JoinItems(items) + "]"
    case Dict(entries) => "{" + JoinMembers(SortByKey(PrintedEntries(entries))) + "}"
  }

  // ----- the value a text stands for ---------------------------------------

  /** Strings with split surrogate pairs joined. */
  function Joined(s: Str): Str {
    FromUtf16(Utf16(s))
  }

  function NormItems(items: seq<Json>): (r: seq<Json>)
    ensures |r| == |items|
    decreases items, 0
  {
    if items == [] then [] else [Norm(items[0])] + NormItems(items[1..])
  }

  function NormEntries(es: seq<(Str, Json)>): seq<(Str, Json)>
    decreases es, 0
  {
    if es == [] then [] else
      assert (es decreases to es[0]) && (es[0] decreases to es[0].1);
      [(es[0].0, Norm(es[0].1))] + NormEntries(es[1..])
  }

  function JoinKeys(es: seq<(Str, Json)>): seq<(Str, Json)> {
    if es == [] then [] else [(Joined(es[0].0), es[0].1)] + JoinKeys(es[1..])
  }

  /** Every object sorted by key and every surrogate pair joined. */
  function Norm(j: Json): Json
    decreases j, 1
  {
    match j
    case String(s) => String(Joined(s))
    case List(items) => List(NormItems(items))
    case Dict(entries) => Dict(JoinKeys(SortByKey(NormEntries(entries))))
    case _ => j
  }

  // ----- the parser --------------------------------------------------------

  predicate StartsWith(t: string, p: string) {
    |p| <= |t| && t[..|p|] == p
  }

  function ParseValue(t: string): (r: Option<(Json, string)>)
    ensures r.Some? ==> |r.value.1| < |t|
    decreases |t|, 1
  {
    if t == [] then None
    else if StartsWith(t, "null") then Some((Null, t[4..]))
    else if StartsWith(t, "true") then Some((Bool(true), t[4..]))
    else if StartsWith(t, "false") then Some((Bool(false), t[5..]))
    else if t[0] == '\"' then
      var (u, rest) :- ReadUnits(t[1..]);
      Some((String(FromUtf16(u)), rest))
    else if t[0] == '-' then
      var (n, rest) :- ReadNat(t[1..]);
      var m: int := n;
      Some((Int(-m), rest))
    else if t[0] == '[' then
      if |t| > 1 && t[1] == ']' then Some((List([]), t[2..])) else
      var (items, rest) :- ParseItems(t[1..]);
      Some((List(items), rest))
    else if t[0] == '{' then
      if |t| > 1 && t[1] == '}' then Some((Dict([]), t[2..])) else
      var (entries, rest) :- ParseMembers(t[1..]);
      Some((Dict(entries), rest))
    else
      var (n, rest) :- ReadNat(t);
      Some((Int(n), rest))
  }

  function ParseItems(t: string): (r: Option<(seq<Json>, string)>)
    ensures r.Some? ==> |r.value.1| < |t|
    decreases |t|, 2
  {
    var (v, rest) :- ParseValue(t);
    if rest == [] then None
    else if rest[0] == ']' then Some(([v], rest[1..]))
    else if rest[0] == ',' then
      var (vs, end) :- ParseItems(rest[1..]);
      Some(([v] + vs, end))
    else None
  }

  function ParseMembers(t: string): (r: Option<(seq<(Str, Json)>, string)>)
    ensures r.Some? ==> |r.value.1| < |t|
    decreases |t|, 2
  {
    if t == [] || t[0] != '\"' then None else
    var (k, afterKey) :- ReadUnits(t[1..]);
    if afterKey == [] || afterKey[0] != ':' then None else
    var (v, rest) :- ParseValue(afterKey[1..]);
    var entry := (FromUtf16(k), v);
    if rest == [] then None
    else if rest[0] == '}' then Some(([entry], rest[1..]))
    else if rest[0] == ',' then
      var (es, end) :- ParseMembers(rest[1..]);
      Some(([entry] + es, end))
    else None
  }

  // ----- printing is printing the sorted value -----------------------------

  /** Print without sorting: members in the order given. */
  function Raw(j: Json): string
    decreases j, 1
  {
    match j
    case Null => "null"
    case Bool(b) => if b then "true" else "false"
    case Int(i) => IntText(i)
    case String(s) => Dumps(s)
    case List(items) => "[" + RawItems(items) + "]"
    case Dict(entries) => "{" + JoinMembers(RawEntries(entries)) + "}"
  }

  function RawItems(items: seq<Json>): string
    decreases items, 0
  {
    if items == [] then ""
    else Raw(items[0]) + if |items| == 1 then "" else "," + RawItems(items[1..])
  }

  function RawEntries(es: seq<(Str, Json)>): (r: seq<(Str, string)>)
    ensures |r| == |es|
    decreases es, 0
  {
    if es == [] then [] else
      assert (es decreases to es[0]) && (es[0] decreases to es[0].1);
      [(es[0].0, Raw(es[0].1))] + RawEntries(es[1..])
  }

  lemma JoinedUtf16(s: Str)
    ensures Utf16(Joined(s)) == Utf16(s) && Dumps(Joined(s)) == Dumps(s)
  {
    Utf16OfDecoded(Utf16(s));
  }

  /** Sorting only looks at keys, so it commutes with printing the values. */
  lemma {:induction false} InsertRaw(e: (Str, Json), es: seq<(Str, Json)>)
    ensures RawEntries(InsertByKey(e, es)) == InsertByKey((e.0, Raw(e.1)), RawEntries(es))
    decreases |es|
  {
    if es == [] || LexLe(e.0, es[0].0) {
      assert ([e] + es)[1..] == es;
    } else {
      InsertRaw(e, es[1..]);
      assert ([es[0]] + InsertByKey(e, es[1..]))[1..] == InsertByKey(e, es[1..]);
      assert RawEntries(es)[1..] == RawEntries(es[1..]);
    }
  }

  lemma {:induction false} SortRaw(es: seq<(Str, Json)>)
    ensures RawEntries(SortByKey(es)) == SortByKey(RawEntries(es))
    decreases |es|
  {
    if es != [] {
      SortRaw(es[1..]);
      InsertRaw(es[0], SortByKey(es[1..]));
      assert RawEntries(es)[1..] == RawEntries(es[1..]);
    }
  }

  /** Members are written alike before and after joining their keys. */
  lemma {:induction false} JoinKeysRaw(es: seq<(Str, Json)>)
    ensures JoinMembers(RawEntries(JoinKeys(es))) == JoinMembers(RawEntries(es))
    ensures |JoinKeys(es)| == |es|
    decreases |es|
  {
    if es != [] {
      JoinKeysRaw(es[1..]);
      JoinedUtf16(es[0].0);
      var a, b := RawEntries(JoinKeys(es)), RawEntries(es);
      assert JoinKeys(es)[1..] == JoinKeys(es[1..]);
      assert a[1..] == RawEntries(JoinKeys(es[1..])) && b[1..] == RawEntries(es[1..]);
    }
  }

  lemma {:induction false} CanonicalIsRawNorm(j: Json)
    ensures Canonical(j) == Raw(Norm(j))
    decreases j, 1
  {
    match j
    case String(s) => JoinedUtf16(s);
    case List(items) => ItemsAreRawNorm(items);
    case Dict(entries) =>
      EntriesAreRawNorm(entries);
      SortRaw(NormEntries(entries));
      JoinKeysRaw(SortByKey(NormEntries(entries)));
    case _ =>
  }

  lemma {:induction false} ItemsAreRawNorm(items: seq<Json>)
    ensures JoinItems(items) == RawItems(NormItems(items))
    decreases items, 0
  {
    if items != [] {
      CanonicalIsRawNorm(items[0]);
      ItemsAreRawNorm(items[1..]);
      assert NormItems(items)[1..] == NormItems(items[1..]);
    }
  }

  lemma {:induction false} EntriesAreRawNorm(es: seq<(Str, Json)>)
    ensures PrintedEntries(es) == RawEntries(NormEntries(es))
    decreases es, 0
  {
    if es != [] {
      assert (es decreases to es[0]) && (es[0] decreases to es[0].1);
      CanonicalIsRawNorm(es[0].1);
      EntriesAreRawNorm(es[1..]);
      assert NormEntries(es)[1..] == NormEntries(es[1..]);
    }
  }

  // ----- the parser inverts the unsorted printer ---------------------------

  /** What may follow a value inside a text. */
  ghost predicate Stops(rest: string) {
    rest == [] || rest[0] == ',' || rest[0] == ']' || rest[0] == '}'
  }

  /** All strings and keys have their surrogate pairs joined. */
  ghost predicate AllJoined(j: Json)
    decreases j, 1
  {
    match j
    case String(s) => Joined(s) == s
    case List(items) => forall i :: 0 <= i < |items| ==> AllJoined(items[i])
    case Dict(entries) => EntriesJoined(entries)
    case _ => true
  }

  ghost predicate EntriesJoined(es: seq<(Str, Json)>)
    decreases es, 0
  {
    es == [] ||
      (assert (es decreases to es[0]) && (es[0] decreases to es[0].1);
       Joined(es[0].0) == es[0].0 && AllJoined(es[0].1) && EntriesJoined(es[1..]))
  }

  lemma RawFirst(j: Json)
    ensures Raw(j) != [] && Raw(j)[0] != ']' && Raw(j)[0] != '}' && Raw(j)[0] != ','
  {
    if j.Int? && j.i >= 0 {
      assert IsDigit(Digits(j.i)[0]);
    }
  }

  lemma {:induction false} ParseRaw(j: Json, rest: string)
    requires AllJoined(j) && Stops(rest)
    ensures ParseValue(Raw(j) + rest) == Some((j, rest))
    decreases j, 1
  {
    hide ParseValue;
    match j
    case Null => ParseWord("null", rest);
    case Bool(b) => ParseWord(if b then "true" else "false", rest);
    case Int(i) => ParseInt(i, rest);
    case String(s) => ParseString(s, rest);
    case List(items) =>
      if items != [] {
        ParseRawItems(items, rest);
        RawFirst(items[0]);
        ListText(RawItems(items), rest);
      } else {
        assert Raw(j) == "[]";
        EmptyText("[]", rest);
      }
    case Dict(entries) =>
      if entries != [] {
        ParseRawMembers(entries, rest);
        DictText(JoinMembers(RawEntries(entries)), rest);
      } else {
        assert Raw(j) == "{}";
        EmptyText("{}", rest);
      }
  }

  lemma ParseWord(w: string, rest: string)
    requires w == "null" || w == "true" || w == "false"
    ensures ParseValue(w + rest)
         == Some((if w == "null" then Null else Bool(w == "true"), rest))
  {
    assert (w + rest)[..|w|] == w && (w + rest)[|w|..] == rest;
    assert (w + rest)[0] == w[0];
  }

  lemma EmptyText(w: string, rest: string)
    requires w == "[]" || w == "{}"
    ensures ParseValue(w + rest) == Some((if w == "[]" then List([]) else Dict([]), rest))
  {
    var t := w + rest;
    assert t[0] == w[0] && t[1] == w[1] && t[2..] == rest;
  }

  lemma ParseInt(i: int, rest: string)
    requires Stops(rest)
    ensures ParseValue(IntText(i) + rest) == Some((Int(i), rest))
  {
    hide ParseValue, Digits, ReadNat;
    if i < 0 {
      ReadDigits(-i, rest);
      ParseNegative(Digits(-i) + rest, -i, rest);
      assert "-" + Digits(-i) + rest == "-" + (Digits(-i) + rest);
    } else {
      ReadDigits(i, rest);
      assert IsDigit((Digits(i) + rest)[0]);
      ParseDigits(Digits(i) + rest, i, rest);
    }
  }

  lemma ParseNegative(t: string, n: nat, rest: string)
    requires ReadNat(t) == Some((n, rest))
    ensures ParseValue("-" + t) == Some((Int(0 - n), rest))
  {
    hide ReadNat;
    assert ("-" + t)[1..] == t && ("-" + t)[0] == '-';
  }

  lemma ParseDigits(t: string, n: nat, rest: string)
    requires t != [] && IsDigit(t[0]) && ReadNat(t) == Some((n, rest))
    ensures ParseValue(t) == Some((Int(n), rest))
  {
    hide ReadNat;
    assert !StartsWith(t, "null") && !StartsWith(t, "true") && !StartsWith(t, "false");
  }

  lemma ParseString(s: Str, rest: string)
    requires Joined(s) == s
    ensures ParseValue(Dumps(s) + rest) == Some((String(s), rest))
  {
    ReadEscapedUnits(Utf16(s), rest);
    DumpsTail(s, rest);
    QuotedText(Dumps(s) + rest);
    hide Dumps, EscapeUnits, ReadUnits, Utf16, ParseValue;
  }

  lemma QuotedText(t: string)
    requires t != [] && t[0] == '\"' && ReadUnits(t[1..]).Some?
    ensures ParseValue(t) == Some((String(FromUtf16(ReadUnits(t[1..]).value.0)), ReadUnits(t[1..]).value.1))
  {
    hide ReadUnits;
  }

  lemma DumpsTail(s: Str, rest: string)
    ensures (Dumps(s) + rest)[0] == '\"' && (Dumps(s) + rest)[1..] == EscapeUnits(Utf16(s)) + "\"" + rest
  {
  }

  lemma ListText(body: string, rest: string)
    requires body != [] && body[0] != ']'
    ensures ParseItems(body + "]" + rest).Some? ==>
      ParseValue("[" + body + "]" + rest)
        == Some((List(ParseItems(body + "]" + rest).value.0), ParseItems(body + "]" + rest).value.1))
  {
    hide ParseItems;
    var t := "[" + body + "]" + rest;
    assert t[0] == '[' && t[1] == body[0] && t[1..] == body + "]" + rest;
  }

  lemma DictText(body: string, rest: string)
    requires body != [] && body[0] != '}'
    ensures ParseMembers(body + "}" + rest).Some? ==>
      ParseValue("{" + body + "}" + rest)
        == Some((Dict(ParseMembers(body + "}" + rest).value.0), ParseMembers(body + "}" + rest).value.1))
  {
    hide ParseMembers;
    var t := "{" + body + "}" + rest;
    assert t[0] == '{' && t[1] == body[0] && t[1..] == body + "}" + rest;
  }

  lemma {:induction false} ParseRawItems(items: seq<Json>, rest: string)
    requires items != [] && (forall i :: 0 <= i < |items| ==> AllJoined(items[i]))
    ensures ParseItems(RawItems(items) + "]" + rest) == Some((items, rest))
    ensures RawItems(items) != [] && RawItems(items)[0] == Raw(items[0])[0]
    decreases items, 0
  {
    hide Raw, ParseValue, ParseItems, RawItems;
    RawFirst(items[0]);
    ItemsText(items, rest);
    if |items| == 1 {
      ParseRaw(items[0], "]" + rest);
      ItemLast(items[0], rest);
      assert items == [items[0]];
    } else {
      var more := RawItems(items[1..]) + "]" + rest;
      ParseRaw(items[0], "," + more);
      ParseRawItems(items[1..], rest);
      ItemMore(items[0], more, items[1..], rest);
      assert items == [items[0]] + items[1..];
    }
  }

  /** The text of an item list is its first item and then the end or the other items. */
  lemma ItemsText(items: seq<Json>, rest: string)
    requires items != [] && Raw(items[0]) != []
    ensures RawItems(items) != [] && RawItems(items)[0] == Raw(items[0])[0]
    ensures |items| == 1 ==> RawItems(items) + "]" + rest == Raw(items[0]) + ("]" + rest)
    ensures |items| > 1 ==>
      RawItems(items) + "]" + rest == Raw(items[0]) + ("," + (RawItems(items[1..]) + "]" + rest))
  {
    var first := Raw(items[0]);
    assert |items| == 1 ==> RawItems(items) == first + "" == first;
    assert |items| > 1 ==> RawItems(items) == first + ("," + RawItems(items[1..]));
    hide Raw, RawItems;
    if |items| == 1 {
      Reassociate(first, "]", rest);
    } else {
      Nest(first, ",", RawItems(items[1..]), "]", rest);
    }
  }

  lemma ItemLast(v: Json, rest: string)
    requires ParseValue(Raw(v) + ("]" + rest)) == Some((v, "]" + rest))
    ensures ParseItems(Raw(v) + ("]" + rest)) == Some(([v], rest))
  {
    hide Raw, ParseValue;
    assert ("]" + rest)[1..] == rest;
  }

  lemma ItemMore(v: Json, more: string, vs: seq<Json>, rest: string)
    requires ParseValue(Raw(v) + ("," + more)) == Some((v, "," + more)) && ParseItems(more) == Some((vs, rest))
    ensures ParseItems(Raw(v) + ("," + more)) == Some(([v] + vs, rest))
  {
    hide Raw, ParseValue;
    assert ("," + more)[1..] == more;
  }

  lemma {:induction false} ParseRawMembers(es: seq<(Str, Json)>, rest: string)
    requires es != [] && EntriesJoined(es)
    ensures ParseMembers(JoinMembers(RawEntries(es)) + "}" + rest) == Some((es, rest))
    ensures JoinMembers(RawEntries(es)) != [] && JoinMembers(RawEntries(es))[0] == '\"'
    decreases es, 0
  {
    hide Raw, ParseValue, ParseMembers, Dumps, JoinMembers, Joined;
    assert (es decreases to es[0]) && (es[0] decreases to es[0].1);
    var (k, v) := es[0];
    MembersText(es, rest);
    if |es| == 1 {
      ParseRaw(v, "}" + rest);
      MemberLast(k, v, rest);
      assert es == [(k, v)];
    } else {
      var more := JoinMembers(RawEntries(es[1..])) + "}" + rest;
      ParseRaw(v, "," + more);
      ParseRawMembers(es[1..], rest);
      MemberMore(k, v, more, es[1..], rest);
      assert es == [(k, v)] + es[1..];
    }
  }

  /** The text of a member list is its first member and then the end or the other members. */
  lemma MembersText(es: seq<(Str, Json)>, rest: string)
    requires es != []
    ensures JoinMembers(RawEntries(es)) != [] && JoinMembers(RawEntries(es))[0] == '\"'
    ensures |es| == 1 ==>
      JoinMembers(RawEntries(es)) + "}" + rest == Dumps(es[0].0) + ":" + Raw(es[0].1) + ("}" + rest)
    ensures |es| > 1 ==>
      JoinMembers(RawEntries(es)) + "}" + rest
        == Dumps(es[0].0) + ":" + Raw(es[0].1) + ("," + (JoinMembers(RawEntries(es[1..])) + "}" + rest))
  {
    hide Raw, Dumps;
    var ps := RawEntries(es);
    var first := Dumps(es[0].0) + ":" + Raw(es[0].1);
    assert ps[1..] == RawEntries(es[1..]) && ps[0] == (es[0].0, Raw(es[0].1));
    DumpsFirst(es[0].0);
    assert first[0] == '\"';
    if |es| == 1 {
      assert JoinMembers(ps) == first + "" == first;
      Reassociate(first, "}", rest);
    } else {
      var more := "," + JoinMembers(ps[1..]);
      assert JoinMembers(ps) == first + more;
      assert (first + more)[0] == first[0];
      Nest(first, ",", JoinMembers(ps[1..]), "}", rest);
    }
  }

  lemma DumpsFirst(k: Str)
    ensures Dumps(k) != [] && Dumps(k)[0] == '\"'
  {
  }

  lemma Reassociate(a: string, b: string, c: string)
    ensures a + b + c == a + (b + c)
  {
  }

  lemma Nest(a: string, b: string, c: string, d: string, e: string)
    ensures a + (b + c) + d + e == a + (b + (c + d + e))
  {
  }

  lemma MemberLast(k: Str, v: Json, rest: string)
    requires Joined(k) == k && ParseValue(Raw(v) + ("}" + rest)) == Some((v, "}" + rest))
    ensures ParseMembers(Dumps(k) + ":" + Raw(v) + ("}" + rest)) == Some(([(k, v)], rest))
  {
    hide Raw, ParseValue, Dumps;
    MemberText(k, v, "}" + rest);
    assert ("}" + rest)[1..] == rest;
    assert (":" + (Raw(v) + ("}" + rest)))[1..] == Raw(v) + ("}" + rest);
  }

  lemma MemberMore(k: Str, v: Json, more: string, es: seq<(Str, Json)>, rest: string)
    requires Joined(k) == k && ParseValue(Raw(v) + ("," + more)) == Some((v, "," + more))
    requires ParseMembers(more) == Some((es, rest))
    ensures ParseMembers(Dumps(k) + ":" + Raw(v) + ("," + more)) == Some(([(k, v)] + es, rest))
  {
    hide Raw, ParseValue, Dumps;
    MemberText(k, v, "," + more);
    assert ("," + more)[1..] == more;
    assert (":" + (Raw(v) + ("," + more)))[1..] == Raw(v) + ("," + more);
  }

  /** Reading one member leaves the parser right before its value. */
  lemma MemberText(k: Str, v: Json, rest: string)
    ensures (Dumps(k) + ":" + Raw(v) + rest)[0] == '\"'
    ensures ReadUnits((Dumps(k) + ":" + Raw(v) + rest)[1..]) == Some((Utf16(k), ":" + (Raw(v) + rest)))
  {
    hide Raw;
    var after := ":" + (Raw(v) + rest);
    ReadEscapedUnits(Utf16(k), after);
    DumpsTail(k, after);
    assert Dumps(k) + ":" + Raw(v) + rest == Dumps(k) + after;
  }

  // ----- the canonical form is exact ---------------------------------------

  lemma JoinedTwice(s: Str)
    ensures Joined(Joined(s)) == Joined(s)
  {
    JoinedUtf16(s);
  }

  lemma {:induction false} NormJoined(j: Json)
    ensures AllJoined(Norm(j))
    decreases j, 1
  {
    match j
    case String(s) => JoinedTwice(s);
    case List(items) => ItemsNormJoined(items);
    case Dict(entries) =>
      ValuesNormJoined(entries);
      SortKeepsValues(NormEntries(entries));
      KeysJoined(SortByKey(NormEntries(entries)));
    case _ =>
  }

  lemma {:induction false} ItemsNormJoined(items: seq<Json>)
    ensures forall i :: 0 <= i < |items| ==> AllJoined(NormItems(items)[i])
    decreases items, 0
  {
    if items != [] {
      NormJoined(items[0]);
      ItemsNormJoined(items[1..]);
      assert forall i :: 1 <= i < |items| ==> NormItems(items)[i] == NormItems(items[1..])[i - 1];
    }
  }

  ghost predicate ValuesJoined(es: seq<(Str, Json)>) {
    forall i :: 0 <= i < |es| ==> AllJoined(es[i].1)
  }

  lemma {:induction false} ValuesNormJoined(es: seq<(Str, Json)>)
    ensures ValuesJoined(NormEntries(es))
    decreases es, 0
  {
    if es != [] {
      assert (es decreases to es[0]) && (es[0] decreases to es[0].1);
      NormJoined(es[0].1);
      ValuesNormJoined(es[1..]);
    }
  }

  lemma {:induction false} InsertKeepsValues(e: (Str, Json), es: seq<(Str, Json)>)
    requires AllJoined(e.1) && ValuesJoined(es)
    ensures ValuesJoined(InsertByKey(e, es))
    decreases |es|
  {
    if !(es == [] || LexLe(e.0, es[0].0)) {
      InsertKeepsValues(e, es[1..]);
    }
  }

  lemma {:induction false} SortKeepsValues(es: seq<(Str, Json)>)
    requires ValuesJoined(es)
    ensures ValuesJoined(SortByKey(es))
    decreases |es|
  {
    if es != [] {
      SortKeepsValues(es[1..]);
      InsertKeepsValues(es[0], SortByKey(es[1..]));
    }
  }

  lemma {:induction false} KeysJoined(es: seq<(Str, Json)>)
    requires ValuesJoined(es)
    ensures EntriesJoined(JoinKeys(es))
    decreases |es|
  {
    if es != [] {
      JoinedTwice(es[0].0);
      KeysJoined(es[1..]);
      assert JoinKeys(es)[1..] == JoinKeys(es[1..]);
    }
  }

  /** The parser recovers, from any canonical text, the normal form of the printed value. */
  lemma ParseCanonical(j: Json)
    ensures ParseValue(Canonical(j)) == Some((Norm(j), ""))
  {
    CanonicalIsRawNorm(j);
    NormJoined(j);
    ParseRaw(Norm(j), "");
    assert Canonical(j) + "" == Canonical(j);
  }

  /** Two values have the same canonical text exactly when they have the same normal form. */
  lemma CanonicalExact(a: Json, b: Json)
    ensures Canonical(a) == Canonical(b) <==> Norm(a) == Norm(b)
  {
    ParseCanonical(a);
    ParseCanonical(b);
    CanonicalIsRawNorm(a);
    CanonicalIsRawNorm(b);
  }
}
