/** JavaScript values and plain objects, as far as the provider's property bags use them.

    A plain object is an ordered list of distinct own keys (the order `Object.keys`
    reports) together with the value stored under each key. A key may be present
    and hold `undefined`; reading a key that is absent also gives `undefined`.
 */
module JsObjects {

  /** A property value. `Ref` stands for an object or an array, which `===`
      compares by identity; every other kind is compared by content. */
  datatype Value = Undef | Null | Bool(b: bool) | Num(n: int) | Str(s: string) | Ref(address: nat)

  /** JavaScript's strict equality `===` on the values above. */
  function StrictEquals(a: Value, b: Value): (r: bool)
    ensures r <==> a == b
  {
    match (a, b)
    case (Undef, Undef) => true
    case (Null, Null) => true
    case (Bool(x), Bool(y)) => x == y
    case (Num(x), Num(y)) => x == y
    case (Str(x), Str(y)) => x == y
    case (Ref(x), Ref(y)) => x == y
    case _ => false
  }

  predicate Distinct(s: seq<string>) {
    forall i, j :: 0 <= i < j < |s| ==> s[i] != s[j]
  }

  function Elems(s: seq<string>): set<string> {
    set k | k in s
  }

  datatype Obj = Obj(keys: seq<string>, props: map<string, Value>)

  /** The own keys are listed once each, and exactly the keys that hold a value are listed. */
  predicate WellFormed(o: Obj) {
    && Distinct(o.keys)
    && (forall k :: k in o.keys ==> k in o.props)
    && (forall k :: k in o.props ==> k in o.keys)
  }

  type JsObject = o: Obj | WellFormed(o) witness Obj([], map[])

  /** Property access `o[k]`: a present key gives its value, a missing key `undefined`. */
  function Get(o: JsObject, k: string): (v: Value)
    ensures k in o.props ==> v == o.props[k]
    ensures k !in o.props ==> v == Undef
    ensures v != Undef ==> k in o.keys
  {
    if k in o.props then o.props[k] else Undef
  }

  /** Position of the first occurrence of `k` in `s`. */
  function IndexOf(s: seq<string>, k: string): (i: nat)
    requires k in s
    ensures i < |s| && s[i] == k
    ensures forall j :: 0 <= j < i ==> s[j] != k
  {
    if s[0] == k then 0 else 1 + IndexOf(s[1..], k)
  }

  /** Every element of `r` occurs in `s`, and `r` lists them in the order `s` does. */
  predicate OrderedWithin(r: seq<string>, s: seq<string>) {
    && (forall i :: 0 <= i < |r| ==> r[i] in s)
    && (forall i, j :: 0 <= i < j < |r| ==> IndexOf(s, r[i]) < IndexOf(s, r[j]))
  }

  /** `Array.prototype.filter` on a list of keys. */
  function Filter(s: seq<string>, p: string -> bool): (r: seq<string>)
    ensures |r| <= |s|
    ensures forall k :: k in r <==> k in s && p(k)
    ensures Distinct(s) ==> Distinct(r)
  {
    if s == [] then []
    else if p(s[0]) then [s[0]] + Filter(s[1..], p)
    else Filter(s[1..], p)
  }

  /** `Array.prototype.every` on a list of keys. */
  function Every(s: seq<string>, p: string -> bool): (r: bool)
    ensures r <==> forall k :: k in s ==> p(k)
  {
    if s == [] then true
    else
      assert s == [s[0]] + s[1..];
      p(s[0]) && Every(s[1..], p)
  }

  /** Filtering keeps the relative order of the keys it keeps. */
  lemma {:induction false} FilterKeepsOrder(s: seq<string>, p: string -> bool)
    ensures Distinct(s) ==> OrderedWithin(Filter(s, p), s)
  {
    if s != [] && Distinct(s) {
      var t := s[1..];
      assert Distinct(t);
      FilterKeepsOrder(t, p);
      var rt := Filter(t, p);
      forall k | k in t
        ensures IndexOf(s, k) == 1 + IndexOf(t, k)
      {
        assert s[0] != k;
      }
      var r := Filter(s, p);
      if p(s[0]) {
        assert r == [s[0]] + rt;
        forall i, j | 0 <= i < j < |r|
          ensures IndexOf(s, r[i]) < IndexOf(s, r[j])
        {
          assert r[j] == rt[j - 1] && r[j] in t;
          if i > 0 {
            assert r[i] == rt[i - 1] && r[i] in t;
          }
        }
      }
    }
  }

  /** Filtering distributes over concatenation. */
  lemma {:induction false} FilterAppend(a: seq<string>, b: seq<string>, p: string -> bool)
    ensures Filter(a + b, p) == Filter(a, p) + Filter(b, p)
  {
    if a == [] {
      assert a + b == b;
    } else {
      assert (a + b)[0] == a[0];
      assert (a + b)[1..] == a[1..] + b;
      FilterAppend(a[1..], b, p);
    }
  }

  /** Filtering by `p` and then by a stronger `q` is filtering by `q` alone. */
  lemma {:induction false} FilterFilter(s: seq<string>, p: string -> bool, q: string -> bool)
    requires forall k :: q(k) ==> p(k)
    ensures Filter(Filter(s, p), q) == Filter(s, q)
  {
    if s != [] {
      FilterFilter(s[1..], p, q);
    }
  }

  /** A filter that no key passes gives the empty list. */
  lemma FilterNone(s: seq<string>, p: string -> bool)
    requires forall k :: k in s ==> !p(k)
    ensures Filter(s, p) == []
  {
  }

  /** A list without repetitions has as many elements as the set of its elements. */
  lemma {:induction false} DistinctCardinality(s: seq<string>)
    requires Distinct(s)
    ensures |Elems(s)| == |s|
  {
    if s != [] {
      var t := s[1..];
      assert Distinct(t);
      DistinctCardinality(t);
      assert Elems(s) == {s[0]} + Elems(t);
      assert s[0] !in Elems(t);
    }
  }

  lemma SubsetSize(a: set<string>, b: set<string>)
    requires a <= b
    ensures |a| <= |b|
  {
    var rest := b - a;
    assert b == a + rest && a * rest == {};
  }

  /** A subset as large as its superset is the superset. */
  lemma SubsetSameSize(a: set<string>, b: set<string>)
    requires a <= b && |a| == |b|
    ensures a == b
  {
    var rest := b - a;
    assert b == a + rest && a * rest == {};
    assert |rest| == 0;
  }

  lemma DistinctAppend(a: seq<string>, b: seq<string>)
    requires Distinct(a) && Distinct(b)
    requires forall k :: k in a ==> k !in b
    ensures Distinct(a + b)
  {
    var ab := a + b;
    forall i, j | 0 <= i < j < |ab|
      ensures ab[i] != ab[j]
    {
      if i < |a| && |a| <= j {
        assert ab[i] in a && ab[j] == b[j - |a|];
      }
    }
  }

  /** The keys that `b` contributes to `{...a, ...b}`: those `a` lacks, in `b`'s order. */
  function AddedKeys(a: JsObject, b: JsObject): seq<string> {
    Filter(b.keys, k => k !in a.props)
  }

  lemma SpreadWellFormed(a: JsObject, b: JsObject)
    ensures WellFormed(Obj(a.keys + AddedKeys(a, b), a.props + b.props))
    ensures OrderedWithin(AddedKeys(a, b), b.keys)
  {
    var added := AddedKeys(a, b);
    DistinctAppend(a.keys, added);
    FilterKeepsOrder(b.keys, k => k !in a.props);
  }

  /** The object spread `{...a, ...b}`: the keys of `a` in their order, then the keys
      only `b` has in `b`'s order; on a shared key `b`'s value wins. */
  function Spread(a: JsObject, b: JsObject): (r: JsObject)
    ensures forall k :: k in r.props <==> k in a.props || k in b.props
    ensures forall k :: k in b.props ==> r.props[k] == b.props[k]
    ensures forall k :: k in a.props && k !in b.props ==> r.props[k] == a.props[k]
    ensures |a.keys| <= |r.keys| && r.keys[..|a.keys|] == a.keys
    ensures OrderedWithin(r.keys[|a.keys|..], b.keys)
  {
    SpreadWellFormed(a, b);
    var keys := a.keys + AddedKeys(a, b);
    assert keys[..|a.keys|] == a.keys && keys[|a.keys|..] == AddedKeys(a, b);
    Obj(keys, a.props + b.props)
  }

  /** The rest pattern `const {k1, k2, ...rest} = o`: `o` without the keys in `drop`,
      in `o`'s key order. */
  function Omit(o: JsObject, drop: set<string>): (r: JsObject)
    ensures forall k :: k in r.props <==> k in o.props && k !in drop
    ensures forall k :: k in r.props ==> r.props[k] == o.props[k]
    ensures OrderedWithin(r.keys, o.keys)
  {
    var kept := k => k !in drop;
    FilterKeepsOrder(o.keys, kept);
    Obj(Filter(o.keys, kept), map k | k in o.props && k !in drop :: o.props[k])
  }
}
