/** Canonical texts and Python equality: what two values with one canonical text have in common. */
module JsonEquality {
  import opened Common
  import opened Unicode
  import opened JsonText
  import opened CanonicalJson

  /** A value json.load can build: distinct keys, no split surrogate pair. */
  ghost predicate WellFormed(j: Json)
    decreases j
  {
    match j
    case String(s) => Plain(s)
    case List(items) => forall i :: 0 <= i < |items| ==> WellFormed(items[i])
    case Dict(es) =>
      DistinctKeys(es)
      && (forall i :: 0 <= i < |es| ==> Plain(es[i].0))
      && (forall i :: 0 <= i < |es| ==>
            (assert (es decreases to es[i]) && (es[i] decreases to es[i].1); WellFormed(es[i].1)))
    case _ => true
  }

  ghost predicate DistinctKeys<V>(es: seq<(Str, V)>) {
    forall i, j :: 0 <= i < j < |es| ==> es[i].0 != es[j].0
  }

  /** `d.get(k)` on a dictionary's members. */
  function Lookup<V>(es: seq<(Str, V)>, k: Str): Option<V> {
    if es == [] then None else if es[0].0 == k then Some(es[0].1) else Lookup(es[1..], k)
  }

  /** The same JSON value: dictionaries are compared key by key, insertion order ignored.  Unlike
      under Python's `==`, true is not 1. */
  ghost predicate Same(a: Json, b: Json)
    decreases a
  {
    match a
    case List(xs) =>
      b.List? && |xs| == |b.items| && forall i :: 0 <= i < |xs| ==> Same(xs[i], b.items[i])
    case Dict(es) =>
      b.Dict? && |es| == |b.entries|
      && (forall j :: 0 <= j < |b.entries| ==> Lookup(es, b.entries[j].0).Some?)
      && (forall i :: 0 <= i < |es| ==>
            (assert (es decreases to es[i]) && (es[i] decreases to es[i].1);
             Lookup(b.entries, es[i].0).Some? && Same(es[i].1, Lookup(b.entries, es[i].0).value)))
    case _ => a == b
  }

  lemma {:induction false} LookupAt<V>(es: seq<(Str, V)>, j: nat)
    requires j < |es| && DistinctKeys(es)
    ensures Lookup(es, es[j].0) == Some(es[j].1)
    decreases |es|
  {
    if j > 0 {
      LookupAt(es[1..], j - 1);
    }
  }

  lemma {:induction false} LookupFound<V>(es: seq<(Str, V)>, k: Str) returns (j: nat)
    requires Lookup(es, k).Some?
    ensures j < |es| && es[j] == (k, Lookup(es, k).value)
    decreases |es|
  {
    if es[0].0 == k {
      j := 0;
    } else {
      j := LookupFound(es[1..], k);
      j := j + 1;
    }
  }

  // ----- sorted members ----------------------------------------------------

  ghost predicate SortedKeys<V>(es: seq<(Str, V)>) {
    forall i, j :: 0 <= i < j < |es| ==> LexLe(es[i].0, es[j].0)
  }

  lemma {:induction false} InsertMembers<V>(e: (Str, V), es: seq<(Str, V)>)
    ensures |InsertByKey(e, es)| == |es| + 1
    ensures forall x :: x in InsertByKey(e, es) <==> x == e || x in es
    decreases |es|
  {
    if !(es == [] || LexLe(e.0, es[0].0)) {
      InsertMembers(e, es[1..]);
      assert es == [es[0]] + es[1..];
    }
  }

  lemma {:induction false} SortMembers<V>(es: seq<(Str, V)>)
    ensures |SortByKey(es)| == |es|
    ensures forall x :: x in SortByKey(es) <==> x in es
    decreases |es|
  {
    if es != [] {
      SortMembers(es[1..]);
      InsertMembers(es[0], SortByKey(es[1..]));
      assert es == [es[0]] + es[1..];
    }
  }

  ghost predicate Below<V>(k: Str, es: seq<(Str, V)>) {
    forall x :: x in es ==> LexLe(k, x.0)
  }

  lemma SortedCons<V>(e: (Str, V), es: seq<(Str, V)>)
    requires SortedKeys(es) && Below(e.0, es)
    ensures SortedKeys([e] + es)
  {
    assert forall i :: 0 <= i < |es| ==> es[i] in es;
  }

  lemma {:induction false} InsertSorted<V(!new)>(e: (Str, V), es: seq<(Str, V)>)
    requires SortedKeys(es)
    ensures SortedKeys(InsertByKey(e, es))
    decreases |es|
  {
    if es == [] {
    } else if LexLe(e.0, es[0].0) {
      forall x | x in es ensures LexLe(e.0, x.0) {
        var i :| 0 <= i < |es| && es[i] == x;
        if i > 0 {
          LexTransitive(e.0, es[0].0, x.0);
        }
      }
      SortedCons(e, es);
    } else {
      LexTotal(e.0, es[0].0);
      InsertSorted(e, es[1..]);
      InsertMembers(e, es[1..]);
      assert Below(es[0].0, InsertByKey(e, es[1..]));
      SortedCons(es[0], InsertByKey(e, es[1..]));
    }
  }

  lemma {:induction false} SortSorted<V(!new)>(es: seq<(Str, V)>)
    ensures SortedKeys(SortByKey(es))
    decreases |es|
  {
    if es != [] {
      SortSorted(es[1..]);
      InsertSorted(es[0], SortByKey(es[1..]));
    }
  }

  /** Sorted member lists of one length with the same members, one per key, are equal. */
  lemma {:induction false} SortedDetermined<V(!new)>(s: seq<(Str, V)>, t: seq<(Str, V)>)
    requires SortedKeys(s) && SortedKeys(t) && DistinctKeys(s) && DistinctKeys(t)
    requires forall x :: x in s <==> x in t
    ensures s == t
    decreases |s|
  {
    assert t != [] ==> t[0] in t;
    if s != [] {
      assert s[0] in s && s[0] in t && t[0] in s;
      FirstsEqual(s, t);
      TailMembers(s);
      TailMembers(t);
      SortedDetermined(s[1..], t[1..]);
      assert s == [s[0]] + s[1..] && t == [t[0]] + t[1..];
    }
  }

  lemma FirstsEqual<V(!new)>(s: seq<(Str, V)>, t: seq<(Str, V)>)
    requires SortedKeys(s) && SortedKeys(t) && DistinctKeys(s) && DistinctKeys(t)
    requires s != [] && t != [] && s[0] in t && t[0] in s
    ensures s[0] == t[0]
  {
    var i :| 0 <= i < |t| && t[i] == s[0];
    var j :| 0 <= j < |s| && s[j] == t[0];
    if i > 0 && j > 0 {
      LexAntisymmetric(s[0].0, t[0].0);
    }
  }

  lemma TailMembers<V(!new)>(s: seq<(Str, V)>)
    requires s != [] && DistinctKeys(s)
    ensures forall x :: x in s[1..] <==> x in s && x != s[0]
  {
    assert s == [s[0]] + s[1..];
  }

  // ----- normal forms and equality -----------------------------------------

  lemma {:induction false} JoinKeysPlain(es: seq<(Str, Json)>)
    requires forall i :: 0 <= i < |es| ==> Plain(es[i].0)
    ensures JoinKeys(es) == es
    decreases |es|
  {
    if es != [] {
      DecodedUtf16(es[0].0);
      JoinKeysPlain(es[1..]);
      assert es == [es[0]] + es[1..];
    }
  }

  lemma {:induction false} NormEntryAt(es: seq<(Str, Json)>)
    ensures |NormEntries(es)| == |es|
    ensures forall i :: 0 <= i < |es| ==> NormEntries(es)[i] == (es[i].0, Norm(es[i].1))
    decreases |es|
  {
    if es != [] {
      NormEntryAt(es[1..]);
      assert forall i :: 1 <= i < |es| ==> es[i] == es[1..][i - 1];
    }
  }

  lemma {:induction false} NormItemAt(items: seq<Json>)
    ensures forall i :: 0 <= i < |items| ==> NormItems(items)[i] == Norm(items[i])
    decreases |items|
  {
    if items != [] {
      NormItemAt(items[1..]);
      assert forall i :: 1 <= i < |items| ==> items[i] == items[1..][i - 1];
    }
  }

  /** The normal form of a well-formed dictionary: its members, values normalized, by key. */
  lemma NormDict(es: seq<(Str, Json)>)
    requires WellFormed(Dict(es))
    ensures Norm(Dict(es)) == Dict(SortByKey(NormEntries(es)))
    ensures SortedKeys(SortByKey(NormEntries(es))) && DistinctKeys(SortByKey(NormEntries(es)))
    ensures |SortByKey(NormEntries(es))| == |es|
    ensures forall x :: x in SortByKey(NormEntries(es)) <==> x in NormEntries(es)
  {
    var ns := NormEntries(es);
    NormEntryAt(es);
    SortMembers(ns);
    SortSorted(ns);
    SortedPlain(ns);
    JoinKeysPlain(SortByKey(ns));
    SortDistinct(ns);
  }

  lemma SortedPlain(ns: seq<(Str, Json)>)
    requires forall i :: 0 <= i < |ns| ==> Plain(ns[i].0)
    ensures forall i :: 0 <= i < |SortByKey(ns)| ==> Plain(SortByKey(ns)[i].0)
  {
    SortMembers(ns);
    var sorted := SortByKey(ns);
    forall i | 0 <= i < |sorted| ensures Plain(sorted[i].0) {
      assert sorted[i] in ns;
    }
  }

  lemma {:induction false} InsertDistinct<V(!new)>(e: (Str, V), es: seq<(Str, V)>)
    requires DistinctKeys(es) && (forall x :: x in es ==> x.0 != e.0)
    ensures DistinctKeys(InsertByKey(e, es))
    decreases |es|
  {
    if es == [] || LexLe(e.0, es[0].0) {
      assert forall i :: 0 <= i < |es| ==> es[i] in es;
    } else {
      InsertDistinct(e, es[1..]);
      InsertMembers(e, es[1..]);
      TailMembers(es);
      var tail := InsertByKey(e, es[1..]);
      forall i | 0 <= i < |tail| ensures tail[i].0 != es[0].0 {
        assert tail[i] in tail;
        assert es[0] in es;
        if tail[i] in es[1..] {
          var k :| 0 <= k < |es[1..]| && es[1..][k] == tail[i];
        }
      }
    }
  }

  lemma {:induction false} SortDistinct<V(!new)>(es: seq<(Str, V)>)
    requires DistinctKeys(es)
    ensures DistinctKeys(SortByKey(es))
    decreases |es|
  {
    if es != [] {
      SortDistinct(es[1..]);
      SortMembers(es[1..]);
      forall x | x in SortByKey(es[1..]) ensures x.0 != es[0].0 {
        var k :| 0 <= k < |es[1..]| && es[1..][k] == x;
      }
      InsertDistinct(es[0], SortByKey(es[1..]));
    }
  }

  /** Two well-formed values are equal, order of insertion aside, exactly when their normal
      forms coincide. */
  lemma {:induction false} SameIffNorm(a: Json, b: Json)
    requires WellFormed(a) && WellFormed(b)
    ensures Same(a, b) <==> Norm(a) == Norm(b)
    decreases a
  {
    match a
    case String(s) =>
      DecodedUtf16(s);
      if b.String? { DecodedUtf16(b.s); }
    case List(xs) =>
      if b.List? { SameListIffNorm(xs, b.items); }
    case Dict(es) =>
      if b.Dict? {
        forall i, j | 0 <= i < |es| && 0 <= j < |b.entries|
          ensures Agree(es[i].1, b.entries[j].1)
        {
          assert (es decreases to es[i]) && (es[i] decreases to es[i].1);
          SameIffNorm(es[i].1, b.entries[j].1);
        }
        SameDictIffNorm(es, b.entries);
      }
    case _ =>
  }

  lemma {:induction false} SameListIffNorm(xs: seq<Json>, ys: seq<Json>)
    requires WellFormed(List(xs)) && WellFormed(List(ys))
    ensures Same(List(xs), List(ys)) <==> NormItems(xs) == NormItems(ys)
    decreases xs
  {
    NormItemAt(xs);
    NormItemAt(ys);
    if |xs| == |ys| {
      forall i | 0 <= i < |xs| ensures Same(xs[i], ys[i]) <==> Norm(xs[i]) == Norm(ys[i]) {
        SameIffNorm(xs[i], ys[i]);
      }
      if Same(List(xs), List(ys)) {
        assert NormItems(xs) == NormItems(ys);
      }
      if NormItems(xs) == NormItems(ys) {
        assert forall i :: 0 <= i < |xs| ==> Norm(xs[i]) == NormItems(ys)[i];
      }
    }
  }

  /** The two values compare equal exactly when they normalize alike. */
  ghost predicate Agree(a: Json, b: Json) {
    Same(a, b) <==> Norm(a) == Norm(b)
  }

  ghost predicate ValuesAgree(es: seq<(Str, Json)>, fs: seq<(Str, Json)>) {
    forall i, j {:trigger Agree(es[i].1, fs[j].1)} :: 0 <= i < |es| && 0 <= j < |fs| ==> Agree(es[i].1, fs[j].1)
  }

  lemma SameDictIffNorm(es: seq<(Str, Json)>, fs: seq<(Str, Json)>)
    requires WellFormed(Dict(es)) && WellFormed(Dict(fs)) && ValuesAgree(es, fs)
    ensures Same(Dict(es), Dict(fs)) <==> Norm(Dict(es)) == Norm(Dict(fs))
  {
    NormDict(es);
    NormDict(fs);
    hide Norm, Same, ValuesAgree, SortByKey, NormEntries, SortedKeys;
    if Norm(Dict(es)) == Norm(Dict(fs)) {
      NormThenSame(es, fs);
    }
    if Same(Dict(es), Dict(fs)) {
      SameThenNorm(es, fs);
      SortedDetermined(SortByKey(NormEntries(es)), SortByKey(NormEntries(fs)));
    }
  }

  lemma NormThenSame(es: seq<(Str, Json)>, fs: seq<(Str, Json)>)
    requires ValuesAgree(es, fs) && |es| == |fs| && DistinctKeys(es) && DistinctKeys(fs)
    requires forall x :: x in NormEntries(es) <==> x in NormEntries(fs)
    ensures Same(Dict(es), Dict(fs))
  {
    hide Norm, NormEntries;
    var ns, ms := NormEntries(es), NormEntries(fs);
    NormEntryAt(es);
    NormEntryAt(fs);
    forall i | 0 <= i < |es|
      ensures Lookup(fs, es[i].0).Some? && Same(es[i].1, Lookup(fs, es[i].0).value)
    {
      assert ns[i] in ms;
      var j :| 0 <= j < |fs| && ms[j] == ns[i];
      LookupAt(fs, j);
      assert Agree(es[i].1, fs[j].1);
    }
    forall j | 0 <= j < |fs| ensures Lookup(es, fs[j].0).Some? {
      assert ms[j] in ns;
      var i :| 0 <= i < |es| && ns[i] == ms[j];
      LookupAt(es, i);
    }
  }

  lemma SameThenNorm(es: seq<(Str, Json)>, fs: seq<(Str, Json)>)
    requires ValuesAgree(es, fs) && DistinctKeys(es) && DistinctKeys(fs) && Same(Dict(es), Dict(fs))
    ensures forall x :: x in NormEntries(es) <==> x in NormEntries(fs)
  {
    forall x ensures x in NormEntries(es) <==> x in NormEntries(fs) {
      NormEntryAt(es);
      NormEntryAt(fs);
      if x in NormEntries(es) {
        var i :| 0 <= i < |es| && NormEntries(es)[i] == x;
        var j := SameEntryNorm(es, fs, i);
      }
      if x in NormEntries(fs) {
        var j :| 0 <= j < |fs| && NormEntries(fs)[j] == x;
        assert Lookup(es, fs[j].0).Some?;
        var i := LookupFound(es, fs[j].0);
        var j' := SameEntryNorm(es, fs, i);
        LookupAt(fs, j);
        LookupAt(fs, j');
      }
    }
  }

  lemma SameEntryNorm(es: seq<(Str, Json)>, fs: seq<(Str, Json)>, i: nat) returns (j: nat)
    requires i < |es| && ValuesAgree(es, fs) && Same(Dict(es), Dict(fs))
    ensures j < |fs| && |NormEntries(es)| == |es| && |NormEntries(fs)| == |fs|
    ensures NormEntries(es)[i] == NormEntries(fs)[j] && fs[j].0 == es[i].0
  {
    NormEntryAt(es);
    NormEntryAt(fs);
    assert Lookup(fs, es[i].0).Some?;
    j := LookupFound(fs, es[i].0);
    assert Agree(es[i].1, fs[j].1);
  }

  /** Canonical texts of well-formed values agree exactly for equal values: insertion order is
      irrelevant and nothing else is lost. */
  lemma CanonicalIffSame(a: Json, b: Json)
    requires WellFormed(a) && WellFormed(b)
    ensures Canonical(a) == Canonical(b) <==> Same(a, b)
  {
    CanonicalExact(a, b);
    SameIffNorm(a, b);
  }
}
