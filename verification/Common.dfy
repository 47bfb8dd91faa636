/** Small vocabulary shared by every component: optional values, digests, and the
    lexicographic order that JavaScript and Python use when they sort strings. */
module Common {
  import opened Unicode

  /** An optional value; usable with `:-`, where `None` stands for a thrown error. */
  datatype Option<+T> = None | Some(value: T) {
    predicate IsFailure() {
      None?
    }

    function PropagateFailure<U>(): Option<U>
      requires None?
    {
      None
    }

    function Extract(): T
      requires Some?
    {
      value
    }
  }

  /** A SHA-256 digest in lower-case hexadecimal: 64 characters. */
  type Digest = s: string | |s| == 64 witness seq(64, _ => '0')

  /** SHA-256 itself stays abstract.  Nothing below assumes that it is injective. */
  type Hash = string -> Digest

  /** Two different inputs with the same digest. */
  ghost predicate Collides(h: Hash, x: string, y: string) {
    x != y && h(x) == h(y)
  }

  /** `a <= b` element by element: over code points the order of Python's `sorted`, over UTF-16 units that of
      `Array.prototype.sort`. */
  predicate LexLe(a: seq<int>, b: seq<int>) {
    |a| == 0 || (|b| > 0 && (a[0] < b[0] || (a[0] == b[0] && LexLe(a[1..], b[1..]))))
  }

  lemma {:induction false} LexTotal(a: seq<int>, b: seq<int>)
    ensures LexLe(a, b) || LexLe(b, a)
  {
    if |a| > 0 && |b| > 0 && a[0] == b[0] {
      LexTotal(a[1..], b[1..]);
    }
  }

  lemma {:induction false} LexAntisymmetric(a: seq<int>, b: seq<int>)
    requires LexLe(a, b) && LexLe(b, a)
    ensures a == b
  {
    if |a| > 0 {
      LexAntisymmetric(a[1..], b[1..]);
      assert a == [a[0]] + a[1..] == [b[0]] + b[1..] == b;
    }
  }

  lemma {:induction false} LexTransitive(a: seq<int>, b: seq<int>, c: seq<int>)
    requires LexLe(a, b) && LexLe(b, c)
    ensures LexLe(a, c)
  {
    if |a| > 0 && a[0] == c[0] {
      LexTransitive(a[1..], b[1..], c[1..]);
    }
  }

  /** One is a prefix of the other, or the first difference decides. */
  ghost predicate Precedes(a: seq<int>, b: seq<int>) {
    (|a| <= |b| && b[..|a|] == a) || exists k :: 0 <= k < |a| && k < |b| && a[..k] == b[..k] && a[k] < b[k]
  }

  lemma {:induction false} LexExactly(a: seq<int>, b: seq<int>)
    ensures LexLe(a, b) <==> Precedes(a, b)
  {
    if |a| > 0 && |b| > 0 && a[0] == b[0] {
      LexExactly(a[1..], b[1..]);
      PrecedesDown(a, b);
      PrecedesUp(a, b);
      hide Precedes;
    } else if |a| > 0 && |b| > 0 {
      assert a[0] < b[0] ==> a[..0] == b[..0];
      if b[0] < a[0] {
        FirstDecides(a, b);
      }
    }
  }

  lemma PrecedesUp(a: seq<int>, b: seq<int>)
    requires |a| > 0 && |b| > 0 && a[0] == b[0]
    ensures Precedes(a[1..], b[1..]) ==> Precedes(a, b)
  {
    var (c, d) := (a[1..], b[1..]);
    assert a == [a[0]] + c && b == [a[0]] + d;
    if |c| <= |d| && d[..|c|] == c {
      assert b[..|a|] == [a[0]] + d[..|c|];
    } else if Precedes(c, d) {
      var k :| 0 <= k < |c| && k < |d| && c[..k] == d[..k] && c[k] < d[k];
      assert a[..k + 1] == [a[0]] + c[..k] && b[..k + 1] == [a[0]] + d[..k];
    }
  }

  lemma PrecedesDown(a: seq<int>, b: seq<int>)
    requires |a| > 0 && |b| > 0 && a[0] == b[0]
    ensures Precedes(a, b) ==> Precedes(a[1..], b[1..])
  {
    var (c, d) := (a[1..], b[1..]);
    if |a| <= |b| && b[..|a|] == a {
      assert d[..|c|] == b[..|a|][1..] == c;
    } else if Precedes(a, b) {
      var k :| 0 <= k < |a| && k < |b| && a[..k] == b[..k] && a[k] < b[k];
      assert k > 0 && c[..k - 1] == a[..k][1..] && d[..k - 1] == b[..k][1..] && c[k - 1] < d[k - 1];
    }
  }

  lemma FirstDecides(a: seq<int>, b: seq<int>)
    requires |a| > 0 && |b| > 0 && b[0] < a[0]
    ensures !Precedes(a, b)
  {
    assert |a| <= |b| ==> b[..|a|][0] == b[0];
    if k :| 0 <= k < |a| && k < |b| && a[..k] == b[..k] && a[k] < b[k] {
      assert k > 0 && a[..k][0] == a[0] && b[..k][0] == b[0];
    }
  }

  /** The order of JavaScript strings. */
  predicate StringLe(a: string, b: string) {
    LexLe(Utf16(Codes(a)), Utf16(Codes(b)))
  }

  lemma StringLeExactly(a: string, b: string)
    ensures StringLe(a, b) <==> Precedes(Utf16(Codes(a)), Utf16(Codes(b)))
  {
    LexExactly(Utf16(Codes(a)), Utf16(Codes(b)));
  }

  lemma StringTotal(a: string, b: string)
    ensures StringLe(a, b) || StringLe(b, a)
  {
    LexTotal(Utf16(Codes(a)), Utf16(Codes(b)));
  }

  lemma StringAntisymmetric(a: string, b: string)
    requires StringLe(a, b) && StringLe(b, a)
    ensures a == b
  {
    LexAntisymmetric(Utf16(Codes(a)), Utf16(Codes(b)));
    CodesPlain(a);
    CodesPlain(b);
    DecodedUtf16(Codes(a));
    DecodedUtf16(Codes(b));
    CodesInjective(a, b);
  }

  lemma StringTransitive(a: string, b: string, c: string)
    requires StringLe(a, b) && StringLe(b, c)
    ensures StringLe(a, c)
  {
    LexTransitive(Utf16(Codes(a)), Utf16(Codes(b)), Utf16(Codes(c)));
  }

  /** `xs` has no repeated element. */
  ghost predicate Distinct<T>(xs: seq<T>) {
    forall i, j :: 0 <= i < j < |xs| ==> xs[i] != xs[j]
  }

  /** A JavaScript Map: its keys iterate in insertion order. */
  datatype OrderedMap<K(==, !new), V> = OrderedMap(keys: seq<K>, vals: map<K, V>) {
    ghost predicate Valid() {
      Distinct(keys) && (forall k :: k in keys <==> k in vals)
    }

    function Set(k: K, v: V): OrderedMap<K, V> {
      OrderedMap(if k in vals then keys else keys + [k], vals[k := v])
    }
  }

  /** A known key keeps its place and takes the new value; a new key goes to the end. */
  lemma SetEffect<K(!new), V>(m: OrderedMap<K, V>, k: K, v: V, l: K)
    requires m.Valid()
    ensures var n := m.Set(k, v);
            && k in n.vals && n.vals[k] == v
            && (l != k ==> (l in n.vals <==> l in m.vals) && (l in m.vals ==> n.vals[l] == m.vals[l]))
            && |m.keys| <= |n.keys| && n.keys[..|m.keys|] == m.keys
            && (k in m.vals ==> n.keys == m.keys)
            && (k !in m.vals ==> |n.keys| == |m.keys| + 1 && n.keys[|m.keys|] == k)
  {
  }

  lemma SetKeepsValid<K(!new), V>(m: OrderedMap<K, V>, k: K, v: V)
    requires m.Valid()
    ensures m.Set(k, v).Valid()
  {
  }

  function Join(xs: seq<string>, sep: char): string {
    if xs == [] then "" else if |xs| == 1 then xs[0] else xs[0] + [sep] + Join(xs[1..], sep)
  }

  ghost predicate SeparatorFree(xs: seq<string>, sep: char) {
    forall i :: 0 <= i < |xs| ==> sep !in xs[i]
  }

  /** Joining is injective when no part contains the separator. */
  lemma {:induction false} JoinInjective(xs: seq<string>, ys: seq<string>, sep: char)
    requires xs != [] && ys != [] && SeparatorFree(xs, sep) && SeparatorFree(ys, sep)
    requires Join(xs, sep) == Join(ys, sep)
    ensures xs == ys
    decreases |xs|
  {
    JoinHasSeparator(xs, sep);
    JoinHasSeparator(ys, sep);
    if |xs| > 1 && |ys| > 1 {
      HeadsEqual(xs[0], Join(xs[1..], sep), ys[0], Join(ys[1..], sep), sep);
      JoinInjective(xs[1..], ys[1..], sep);
      assert xs == [xs[0]] + xs[1..] && ys == [ys[0]] + ys[1..];
    }
  }

  lemma JoinHasSeparator(xs: seq<string>, sep: char)
    ensures |xs| > 1 ==> sep in Join(xs, sep)
  {
    if |xs| > 1 {
      assert Join(xs, sep)[|xs[0]|] == sep;
    }
  }

  lemma HeadsEqual(a: string, s: string, b: string, t: string, sep: char)
    requires sep !in a && sep !in b && a + [sep] + s == b + [sep] + t
    ensures a == b && s == t
  {
    var x, y := a + [sep] + s, b + [sep] + t;
    assert x[|a|] == sep && y[|b|] == sep;
    assert forall i :: 0 <= i < |a| ==> x[i] == a[i];
    assert forall i :: 0 <= i < |b| ==> y[i] == b[i];
    assert |a| == |b|;
    assert a == x[..|a|] && b == y[..|b|];
    assert s == x[|a| + 1..] && t == y[|b| + 1..];
  }
}
