/** Sequence helpers shared by the loops that collect results page by page
    and table by table. */
module Seqs {
  import opened Wrappers

  /** A slice is its first element followed by the rest. */
  lemma SliceCons<T>(s: seq<T>, i: nat, m: nat)
    requires i < m <= |s|
    ensures s[i..m] == [s[i]] + s[i + 1..m]
  {
  }

  /** The concatenation of `ss`, in order. */
  function Flatten<T>(ss: seq<seq<T>>): (r: seq<T>)
  {
    if |ss| == 0 then [] else Flatten(ss[..|ss| - 1]) + ss[|ss| - 1]
  }

  /** An element is in the concatenation iff it is in one of the parts. */
  lemma {:induction false} FlattenMember<T>(ss: seq<seq<T>>, x: T)
    ensures x in Flatten(ss) <==> exists i :: 0 <= i < |ss| && x in ss[i]
  {
    if |ss| > 0 {
      var init := ss[..|ss| - 1];
      FlattenMember(init, x);
      assert forall i :: 0 <= i < |init| ==> init[i] == ss[i];
      if x in ss[|ss| - 1] {
        assert x in ss[|ss| - 1];
      }
    }
  }

  /** The length of the concatenation is the sum of the parts' lengths. */
  function SumLengths<T>(ss: seq<seq<T>>): nat
  {
    if |ss| == 0 then 0 else SumLengths(ss[..|ss| - 1]) + |ss[|ss| - 1]|
  }

  lemma {:induction false} FlattenLength<T>(ss: seq<seq<T>>)
    ensures |Flatten(ss)| == SumLengths(ss)
  {
    if |ss| > 0 {
      FlattenLength(ss[..|ss| - 1]);
    }
  }

  /** The images under `f` of the elements `f` accepts, in order. */
  function Collect<A, B>(xs: seq<A>, f: A -> Option<B>): (r: seq<B>)
    ensures |r| <= |xs|
  {
    if |xs| == 0 then []
    else
      var rest := Collect(xs[..|xs| - 1], f);
      match f(xs[|xs| - 1])
      case Some(y) => rest + [y]
      case None => rest
  }

  lemma {:induction false} CollectMember<A, B>(xs: seq<A>, f: A -> Option<B>, y: B)
    ensures y in Collect(xs, f) <==> exists k :: 0 <= k < |xs| && f(xs[k]) == Some(y)
  {
    if |xs| > 0 {
      var init := xs[..|xs| - 1];
      CollectMember(init, f, y);
      assert forall k :: 0 <= k < |init| ==> init[k] == xs[k];
    }
  }

  /** What one table yields: nothing for a table of fewer than two rows,
      otherwise the accepted rows after the header. */
  function TableBody<A, B>(t: seq<A>, f: A -> Option<B>): seq<B>
  {
    if |t| < 2 then [] else Collect(t[1..], f)
  }

  /** What all tables of all pages yield, page after page, table after table. */
  function CollectTables<A, B>(pages: seq<seq<seq<A>>>, f: A -> Option<B>): seq<B>
  {
    Flatten(seq(|pages|, p requires 0 <= p < |pages| => Flatten(seq(|pages[p]|, t requires 0 <= t < |pages[p]| => TableBody(pages[p][t], f)))))
  }

  lemma TableBodyMember<A, B>(t: seq<A>, f: A -> Option<B>, y: B)
    ensures y in TableBody(t, f) <==> exists k :: 1 <= k < |t| && f(t[k]) == Some(y)
  {
    if |t| >= 2 {
      CollectMember(t[1..], f, y);
      assert forall k :: 1 <= k < |t| ==> t[1..][k - 1] == t[k];
      if y in TableBody(t, f) {
        var k :| 0 <= k < |t[1..]| && f(t[1..][k]) == Some(y);
        assert f(t[k + 1]) == Some(y);
      }
    }
  }

  lemma CollectTablesMember<A, B>(pages: seq<seq<seq<A>>>, f: A -> Option<B>, y: B)
    ensures y in CollectTables(pages, f) <==>
              exists p, t, k :: 0 <= p < |pages| && 0 <= t < |pages[p]| && 1 <= k < |pages[p][t]| && f(pages[p][t][k]) == Some(y)
  {
    var perPage := seq(|pages|, p requires 0 <= p < |pages| => Flatten(seq(|pages[p]|, t requires 0 <= t < |pages[p]| => TableBody(pages[p][t], f))));
    FlattenMember(perPage, y);
    forall p | 0 <= p < |pages|
      ensures y in perPage[p] <==> exists t, k :: 0 <= t < |pages[p]| && 1 <= k < |pages[p][t]| && f(pages[p][t][k]) == Some(y)
    {
      var perTable := seq(|pages[p]|, t requires 0 <= t < |pages[p]| => TableBody(pages[p][t], f));
      FlattenMember(perTable, y);
      forall t | 0 <= t < |pages[p]|
        ensures y in perTable[t] <==> exists k :: 1 <= k < |pages[p][t]| && f(pages[p][t][k]) == Some(y)
      {
        TableBodyMember(pages[p][t], f, y);
      }
    }
  }

  /** How many elements of `xs` satisfy `p`. */
  function CountIf<T>(xs: seq<T>, p: T -> bool): (n: nat)
    ensures n <= |xs|
  {
    if |xs| == 0 then 0 else CountIf(xs[..|xs| - 1], p) + (if p(xs[|xs| - 1]) then 1 else 0)
  }

  /** Every element satisfies `p` or its negation, never both. */
  lemma {:induction false} CountIfComplement<T>(xs: seq<T>, p: T -> bool, q: T -> bool)
    requires forall x :: q(x) == !p(x)
    ensures CountIf(xs, p) + CountIf(xs, q) == |xs|
  {
    if |xs| > 0 {
      CountIfComplement(xs[..|xs| - 1], p, q);
    }
  }

  /** The distinct elements of `xs` in order of first occurrence. Python's
      `set` has no defined order; this is the order the model fixes. */
  function Dedup<T(==, !new)>(xs: seq<T>): (r: seq<T>)
    ensures |r| <= |xs|
    ensures forall x :: x in r <==> x in xs
    ensures forall i, j :: 0 <= i < j < |r| ==> r[i] != r[j]
  {
    if |xs| == 0 then []
    else
      var r := Dedup(xs[..|xs| - 1]);
      assert xs == xs[..|xs| - 1] + [xs[|xs| - 1]];
      if xs[|xs| - 1] in r then r else r + [xs[|xs| - 1]]
  }

  /** The position of the first element satisfying `p`, if any. */
  function FirstIndex<T>(xs: seq<T>, p: T -> bool): (r: Option<nat>)
    ensures r.Some? ==> r.value < |xs| && p(xs[r.value]) && forall j :: 0 <= j < r.value ==> !p(xs[j])
    ensures r.None? ==> forall j :: 0 <= j < |xs| ==> !p(xs[j])
  {
    if |xs| == 0 then None
    else if p(xs[0]) then Some(0)
    else
      var r := FirstIndex(xs[1..], p);
      assert forall j :: 1 <= j < |xs| ==> xs[1..][j - 1] == xs[j];
      if r.Some? then Some(r.value + 1) else None
  }

  /** The elements of `xs` satisfying `p`, in order. */
  function Filter<T(!new)>(xs: seq<T>, p: T -> bool): (r: seq<T>)
    ensures |r| <= |xs|
    ensures forall x :: x in r <==> x in xs && p(x)
  {
    if |xs| == 0 then []
    else
      var rest := Filter(xs[..|xs| - 1], p);
      assert forall x :: x in xs <==> x in xs[..|xs| - 1] || x == xs[|xs| - 1];
      if p(xs[|xs| - 1]) then rest + [xs[|xs| - 1]] else rest
  }

  /** Appending an element moves the first match only when there was none. */
  lemma FirstIndexSnoc<T>(xs: seq<T>, x: T, p: T -> bool)
    ensures FirstIndex(xs + [x], p) ==
              if FirstIndex(xs, p).Some? then FirstIndex(xs, p)
              else if p(x) then Some(|xs|) else None
  {
    var ys := xs + [x];
    var r := FirstIndex(xs, p);
    var r' := FirstIndex(ys, p);
    assert forall j :: 0 <= j < |xs| ==> ys[j] == xs[j];
    if r.Some? {
      assert p(ys[r.value]);
      assert r'.Some?;
      assert r'.value == r.value;
    } else if p(x) {
      assert p(ys[|xs|]);
      assert r'.Some?;
      assert r'.value == |xs|;
    }
  }

  /** A list without repeats whose elements all occur in `ys` is no longer
      than `ys`. */
  lemma {:induction false} DistinctWithinLength<T>(xs: seq<T>, ys: seq<T>)
    requires forall i, j :: 0 <= i < j < |xs| ==> xs[i] != xs[j]
    requires forall x :: x in xs ==> x in ys
    ensures |xs| <= |ys|
    decreases |ys|
  {
    if |xs| > 0 {
      var x := xs[|xs| - 1];
      assert x in ys;
      var i :| 0 <= i < |ys| && ys[i] == x;
      var ys' := ys[..i] + ys[i + 1..];
      var xs' := xs[..|xs| - 1];
      forall y | y in xs' ensures y in ys' {
        var k :| 0 <= k < |xs'| && xs'[k] == y;
        assert xs[k] != xs[|xs| - 1];
        assert y in ys;
        var m :| 0 <= m < |ys| && ys[m] == y;
        if m < i {
          assert ys'[m] == y;
        } else {
          assert ys'[m - 1] == y;
        }
      }
      DistinctWithinLength(xs', ys');
    }
  }

  /** Filtering with two tests that agree on the list gives the same list. */
  lemma {:induction false} FilterAgree<T(!new)>(xs: seq<T>, p: T -> bool, q: T -> bool)
    requires forall x :: x in xs ==> p(x) == q(x)
    ensures Filter(xs, p) == Filter(xs, q)
  {
    if |xs| > 0 {
      FilterAgree(xs[..|xs| - 1], p, q);
    }
  }
}
