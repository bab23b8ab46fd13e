/** Python dictionaries keep their keys in insertion order, and writing to a
    key that is already present keeps its position. The system's outputs
    (grouped mappings, ranked universities, per-country summaries) depend on
    that order, so a dictionary is modelled as the sequence of its entries. */
module ODicts {
  import opened Wrappers

  /** The entries of a dictionary, in insertion order. */
  type ODict<K, V> = seq<(K, V)>

  function Keys<K, V>(d: ODict<K, V>): (ks: seq<K>)
    ensures |ks| == |d|
    ensures forall i :: 0 <= i < |d| ==> ks[i] == d[i].0
  {
    if |d| == 0 then [] else [d[0].0] + Keys(d[1..])
  }

  function Values<K, V>(d: ODict<K, V>): (vs: seq<V>)
    ensures |vs| == |d|
    ensures forall i :: 0 <= i < |d| ==> vs[i] == d[i].1
  {
    seq(|d|, i requires 0 <= i < |d| => d[i].1)
  }

  /** No key occurs twice: what every Python dict satisfies. */
  predicate Valid<K(==), V>(d: ODict<K, V>) {
    forall i, j :: 0 <= i < j < |d| ==> d[i].0 != d[j].0
  }

  /** `d.get(k)` */
  function Get<K(==), V>(d: ODict<K, V>, k: K): (r: Option<V>)
    ensures r.Some? <==> k in Keys(d)
    ensures r.Some? ==> exists i :: 0 <= i < |d| && d[i] == (k, r.value)
  {
    if |d| == 0 then None
    else if d[0].0 == k then Some(d[0].1)
    else
      var r := Get(d[1..], k);
      assert r.Some? ==> exists i :: 0 <= i < |d| && d[i] == (k, r.value) by {
        if r.Some? {
          var i :| 0 <= i < |d[1..]| && d[1..][i] == (k, r.value);
          assert d[i + 1] == (k, r.value);
        }
      }
      r
  }

  /** In a valid dictionary the entry found by `Get` is the one at the key's
      position. */
  lemma {:induction false} GetAt<K, V>(d: ODict<K, V>, i: nat)
    requires Valid(d) && i < |d|
    ensures Get(d, d[i].0) == Some(d[i].1)
  {
    if i > 0 {
      assert d[0].0 != d[i].0;
      assert d[1..][i - 1] == d[i];
      GetAt(d[1..], i - 1);
    }
  }

  /** `d[k] = v`: an existing key keeps its place, a new key goes last. */
  function Put<K(==), V>(d: ODict<K, V>, k: K, v: V): (r: ODict<K, V>)
    ensures k in Keys(d) ==> Keys(r) == Keys(d)
    ensures k !in Keys(d) ==> Keys(r) == Keys(d) + [k]
  {
    if |d| == 0 then [(k, v)]
    else if d[0].0 == k then
      assert ([(k, v)] + d[1..])[1..] == d[1..];
      [(k, v)] + d[1..]
    else
      var rest := Put(d[1..], k, v);
      assert ([d[0]] + rest)[1..] == rest;
      [d[0]] + rest
  }

  /** After `d[k] = v`, `k` reads `v` and every other key reads as before. */
  lemma {:induction false} PutGet<K, V>(d: ODict<K, V>, k: K, v: V, k': K)
    ensures Get(Put(d, k, v), k') == if k' == k then Some(v) else Get(d, k')
  {
    if |d| > 0 && d[0].0 != k {
      PutGet(d[1..], k, v, k');
    }
  }

  /** Writing a key keeps the keys distinct. */
  lemma PutValid<K, V>(d: ODict<K, V>, k: K, v: V)
    requires Valid(d)
    ensures Valid(Put(d, k, v))
  {
    var r := Put(d, k, v);
    var ks := Keys(r);
    assert forall i :: 0 <= i < |r| ==> r[i].0 == ks[i];
    if k in Keys(d) {
      assert Keys(r) == Keys(d);
    } else {
      assert Keys(r) == Keys(d) + [k];
    }
  }

  lemma KeysSnoc<K, V>(d: ODict<K, V>, e: (K, V))
    ensures Keys(d + [e]) == Keys(d) + [e.0]
  {
  }

  /** Writing a key that is not yet present appends one entry. */
  lemma {:induction false} PutNew<K, V>(d: ODict<K, V>, k: K, v: V)
    requires k !in Keys(d)
    ensures Put(d, k, v) == d + [(k, v)]
  {
    if |d| > 0 {
      assert d[0].0 == Keys(d)[0];
      assert Keys(d)[1..] == Keys(d[1..]);
      PutNew(d[1..], k, v);
      assert [d[0]] + (d[1..] + [(k, v)]) == d + [(k, v)];
    }
  }

  /** Two dictionaries with the same keys position by position have equal
      key lists. */
  lemma KeysPointwise<K, V, W>(a: ODict<K, V>, b: ODict<K, W>)
    requires |a| == |b| && forall i :: 0 <= i < |a| ==> a[i].0 == b[i].0
    ensures Keys(a) == Keys(b)
  {
    assert forall i :: 0 <= i < |a| ==> Keys(a)[i] == Keys(b)[i];
  }

  /** `d = {}` followed by `d[k] = v` for each pair in turn. */
  function FromPairs<K(==), V>(ps: seq<(K, V)>): ODict<K, V>
  {
    if |ps| == 0 then [] else Put(FromPairs(ps[..|ps| - 1]), ps[|ps| - 1].0, ps[|ps| - 1].1)
  }

  /** The value written last for `k`, if any pair writes it. */
  function LastValue<K(==), V>(ps: seq<(K, V)>, k: K): (r: Option<V>)
    ensures r.Some? <==> exists i :: 0 <= i < |ps| && ps[i].0 == k
    ensures r.Some? ==> exists i :: 0 <= i < |ps| && ps[i] == (k, r.value) && forall j :: i < j < |ps| ==> ps[j].0 != k
  {
    if |ps| == 0 then None
    else if ps[|ps| - 1].0 == k then Some(ps[|ps| - 1].1)
    else
      var pre := ps[..|ps| - 1];
      var r := LastValue(pre, k);
      assert forall i :: 0 <= i < |pre| ==> pre[i] == ps[i];
      assert r.Some? ==> exists i :: 0 <= i < |ps| && ps[i] == (k, r.value) && forall j :: i < j < |ps| ==> ps[j].0 != k by {
        if r.Some? {
          var i :| 0 <= i < |pre| && pre[i] == (k, r.value) && forall j :: i < j < |pre| ==> pre[j].0 != k;
          assert ps[i] == (k, r.value);
        }
      }
      r
  }

  /** Reading a key of the built dictionary gives the last value written
      for it. */
  lemma {:induction false} FromPairsGet<K, V>(ps: seq<(K, V)>, k: K)
    ensures Get(FromPairs(ps), k) == LastValue(ps, k)
  {
    if |ps| > 0 {
      FromPairsGet(ps[..|ps| - 1], k);
      PutGet(FromPairs(ps[..|ps| - 1]), ps[|ps| - 1].0, ps[|ps| - 1].1, k);
    }
  }

  /** The built dictionary has distinct keys. */
  lemma {:induction false} FromPairsValid<K, V>(ps: seq<(K, V)>)
    ensures Valid(FromPairs(ps))
  {
    if |ps| > 0 {
      FromPairsValid(ps[..|ps| - 1]);
      PutValid(FromPairs(ps[..|ps| - 1]), ps[|ps| - 1].0, ps[|ps| - 1].1);
    }
  }

  /** `d.setdefault(k, []).append(v)` */
  function Append<K(==), V>(d: ODict<K, seq<V>>, k: K, v: V): ODict<K, seq<V>>
  {
    Put(d, k, Get(d, k).GetOr([]) + [v])
  }

  lemma AppendSame<K, V>(d: ODict<K, seq<V>>, k: K, v: V, vs: seq<V>)
    requires Get(d, k).GetOr([]) == vs
    ensures Get(Append(d, k, v), k) == Some(vs + [v])
  {
    PutGet(d, k, vs + [v], k);
  }

  lemma AppendOther<K, V>(d: ODict<K, seq<V>>, k: K, v: V, k': K)
    requires k' != k
    ensures Get(Append(d, k, v), k') == Get(d, k')
  {
    PutGet(d, k, Get(d, k).GetOr([]) + [v], k');
  }

  /** The elements of `xs` whose key is `k`, in their order in `xs`. */
  function Having<K(==), T(!new)>(xs: seq<T>, key: T -> K, k: K): (r: seq<T>)
    ensures |r| <= |xs|
    ensures forall x :: x in r <==> x in xs && key(x) == k
  {
    if |xs| == 0 then []
    else
      var rest := Having(xs[..|xs| - 1], key, k);
      assert forall x :: x in xs <==> x in xs[..|xs| - 1] || x == xs[|xs| - 1];
      if key(xs[|xs| - 1]) == k then rest + [xs[|xs| - 1]] else rest
  }

  /** Grouping by key: each element appended, in order, to the list under
      its key; a key enters the dictionary when its first element is met. */
  function GroupBy<K(==), T(!new)>(xs: seq<T>, key: T -> K): ODict<K, seq<T>>
  {
    if |xs| == 0 then [] else Append(GroupBy(xs[..|xs| - 1], key), key(xs[|xs| - 1]), xs[|xs| - 1])
  }

  /** A key is present iff some element has it, and its list is exactly
      the elements with that key, in input order. */
  lemma {:induction false} GroupByGet<K, T(!new)>(xs: seq<T>, key: T -> K, k: K)
    ensures Get(GroupBy(xs, key), k).Some? <==> Having(xs, key, k) != []
    ensures Having(xs, key, k) != [] ==> Get(GroupBy(xs, key), k) == Some(Having(xs, key, k))
  {
    if |xs| > 0 {
      var init := xs[..|xs| - 1];
      var x := xs[|xs| - 1];
      GroupByGet(init, key, k);
      if key(x) == k {
        AppendSame(GroupBy(init, key), k, x, Having(init, key, k));
      } else {
        AppendOther(GroupBy(init, key), key(x), x, k);
      }
    }
  }

  lemma {:induction false} GroupByValid<K, T(!new)>(xs: seq<T>, key: T -> K)
    ensures Valid(GroupBy(xs, key))
  {
    if |xs| > 0 {
      var init := xs[..|xs| - 1];
      GroupByValid(init, key);
      PutValid(GroupBy(init, key), key(xs[|xs| - 1]), Get(GroupBy(init, key), key(xs[|xs| - 1])).GetOr([]) + [xs[|xs| - 1]]);
    }
  }

  /** The dictionary with every value replaced by `f(key, value)`, keys and
      their order unchanged. */
  function MapValues<K, V, W>(d: ODict<K, V>, f: (K, V) -> W): (r: ODict<K, W>)
    ensures |r| == |d| && Keys(r) == Keys(d)
    ensures forall i :: 0 <= i < |d| ==> r[i] == (d[i].0, f(d[i].0, d[i].1))
  {
    var r := seq(|d|, i requires 0 <= i < |d| => (d[i].0, f(d[i].0, d[i].1)));
    KeysPointwise(r, d);
    r
  }

  lemma {:induction false} MapValuesGet<K, V, W>(d: ODict<K, V>, f: (K, V) -> W, k: K)
    ensures Get(MapValues(d, f), k).Some? <==> Get(d, k).Some?
    ensures Get(d, k).Some? ==> Get(MapValues(d, f), k) == Some(f(k, Get(d, k).value))
  {
    if |d| > 0 {
      var r := MapValues(d, f);
      var tail := MapValues(d[1..], f);
      assert r[1..] == tail;
      MapValuesGet(d[1..], f, k);
    }
  }
}
