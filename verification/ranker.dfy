/** `UniversityRanker` (processors/ranker.py): filtering the joined data by
    a minimum number of mappable modules, ordering it, grouping and
    summarising it per country, and scoring each university. */
module Ranker {
  import opened Wrappers
  import opened ODicts
  import opened Sorting
  import opened Records

  /** A `(university_id, data)` pair, as `data.items()` yields it. */
  type Entry = (string, Integrated)

  // ---------------------------------------------------------------------
  // Filtering
  // ---------------------------------------------------------------------

  /** `filter_minimum_mappings`: the entries with at least `min` mappable
      modules, in their original order and unchanged. */
  function FilterMinimum(data: seq<Entry>, min: int): (r: seq<Entry>)
    ensures |r| <= |data|
    ensures forall e :: e in r <==> e in data && e.1.mappableCount >= min
  {
    if |data| == 0 then []
    else
      var rest := FilterMinimum(data[..|data| - 1], min);
      var e := data[|data| - 1];
      assert forall x :: x in data <==> x in data[..|data| - 1] || x == e;
      if e.1.mappableCount >= min then rest + [e] else rest
  }

  /** The filter is exactly the grouping of the entries under "passes":
      the entries that pass, in input order. */
  lemma FilterMinimumIsHaving(data: seq<Entry>, min: int)
    ensures FilterMinimum(data, min) == Having(data, (e: Entry) => e.1.mappableCount >= min, true)
  {
    if |data| > 0 {
      FilterMinimumIsHaving(data[..|data| - 1], min);
    }
  }

  /** Distinct ids stay distinct: the filter keeps a sub-list. */
  lemma {:induction false} FilterMinimumValid(data: seq<Entry>, min: int)
    requires Valid(data)
    ensures Valid(FilterMinimum(data, min))
  {
    if |data| > 0 {
      var init := data[..|data| - 1];
      var e := data[|data| - 1];
      FilterMinimumValid(init, min);
      var f := FilterMinimum(init, min);
      if e.1.mappableCount >= min {
        forall i | 0 <= i < |f| ensures f[i].0 != e.0 {
          assert f[i] in init;
          var j :| 0 <= j < |init| && init[j] == f[i];
          assert data[j] == init[j];
        }
      }
    }
  }

  // ---------------------------------------------------------------------
  // Ordering
  // ---------------------------------------------------------------------

  /** The sort key of `rank_universities`: country A-Z, then mappable
      modules high to low, then spots high to low, then CGPA low to high. */
  function RankKey(e: Entry): Key
  {
    [Str(e.1.country), Num(-(e.1.mappableCount as real)), Num(-(e.1.sem1Spots as real)), Num(e.1.minCgpa)]
  }

  /** `a` may be ranked before `b`. */
  predicate RankBefore(a: Integrated, b: Integrated)
  {
    StrLess(a.country, b.country) ||
    (a.country == b.country &&
      (a.mappableCount > b.mappableCount ||
       (a.mappableCount == b.mappableCount &&
         (a.sem1Spots > b.sem1Spots || (a.sem1Spots == b.sem1Spots && a.minCgpa <= b.minCgpa)))))
  }

  /** Comparing the key tuples is comparing the fields in priority order. */
  lemma RankKeyLe(a: Entry, b: Entry)
    ensures KeyLe(RankKey(a), RankKey(b)) <==> RankBefore(a.1, b.1)
  {
    var ka := RankKey(a);
    var kb := RankKey(b);
    KeyLessUnfold(kb, ka);
    KeyLessUnfold(kb[1..], ka[1..]);
    KeyLessUnfold(kb[2..], ka[2..]);
    KeyLessUnfold(kb[3..], ka[3..]);
    assert kb[1..][1..] == kb[2..] && ka[1..][1..] == ka[2..];
    assert kb[2..][1..] == kb[3..] && ka[2..][1..] == ka[3..];
    assert kb[3..][1..] == [] && ka[3..][1..] == [];
    StrLessStrict(a.1.country, b.1.country, a.1.country);
    StrLessStrict(b.1.country, a.1.country, b.1.country);
  }

  /** `rank_universities`: the entries in ranking order, ties in input order. */
  function Rank(data: seq<Entry>): (r: seq<Entry>)
    ensures multiset(r) == multiset(data)
    ensures forall i, j :: 0 <= i < j < |r| ==> RankBefore(r[i].1, r[j].1)
    ensures forall k :: WithKey(r, RankKey, k) == WithKey(data, RankKey, k)
  {
    var r := SortBy(data, RankKey);
    forall i, j | 0 <= i < j < |r| ensures RankBefore(r[i].1, r[j].1) {
      RankKeyLe(r[i], r[j]);
    }
    r
  }

  /** `filter_and_rank`: every ranked entry meets the minimum, and the
      ranked list holds exactly the entries that do. */
  function FilterAndRank(data: seq<Entry>, min: int): (r: seq<Entry>)
    ensures multiset(r) == multiset(FilterMinimum(data, min))
    ensures forall e :: e in r <==> e in data && e.1.mappableCount >= min
    ensures forall i, j :: 0 <= i < j < |r| ==> RankBefore(r[i].1, r[j].1)
  {
    var f := FilterMinimum(data, min);
    var r := Rank(f);
    assert forall e :: e in r <==> e in multiset(r);
    assert forall e :: e in f <==> e in multiset(f);
    r
  }

  /** The sort key of `get_top_universities`: mappable modules high to low,
      spots high to low, CGPA low to high. */
  function TopKey(e: Entry): Key
  {
    [Num(-(e.1.mappableCount as real)), Num(-(e.1.sem1Spots as real)), Num(e.1.minCgpa)]
  }

  predicate TopBefore(a: Integrated, b: Integrated)
  {
    a.mappableCount > b.mappableCount ||
    (a.mappableCount == b.mappableCount &&
      (a.sem1Spots > b.sem1Spots || (a.sem1Spots == b.sem1Spots && a.minCgpa <= b.minCgpa)))
  }

  lemma TopKeyLe(a: Entry, b: Entry)
    ensures KeyLe(TopKey(a), TopKey(b)) <==> TopBefore(a.1, b.1)
  {
    var ka := TopKey(a);
    var kb := TopKey(b);
    KeyLessUnfold(kb, ka);
    KeyLessUnfold(kb[1..], ka[1..]);
    KeyLessUnfold(kb[2..], ka[2..]);
    assert kb[1..][1..] == kb[2..] && ka[1..][1..] == ka[2..];
    assert kb[2..][1..] == [] && ka[2..][1..] == [];
  }

  /** How many elements `xs[:n]` keeps of a list of length `len`; a
      negative `n` counts from the end. */
  function SliceLength(len: nat, n: int): (k: nat)
    ensures k <= len
    ensures n >= 0 ==> k == if n < len then n else len
    ensures n < 0 ==> k == if len + n > 0 then len + n else 0
  {
    if n >= 0 then (if n < len then n else len)
    else if len + n > 0 then len + n else 0
  }

  /** The overall order: every entry may come before every later one. */
  function TopOrder(data: seq<Entry>): (s: seq<Entry>)
    ensures multiset(s) == multiset(data)
    ensures forall i, j :: 0 <= i < j < |s| ==> TopBefore(s[i].1, s[j].1)
    ensures forall k :: WithKey(s, TopKey, k) == WithKey(data, TopKey, k)
  {
    var s := SortBy(data, TopKey);
    forall i, j | 0 <= i < j < |s| ensures TopBefore(s[i].1, s[j].1) {
      TopKeyLe(s[i], s[j]);
    }
    s
  }

  /** A prefix of an ordered permutation of `data`: its entries come from
      `data`, stay ordered, and may come before every entry left out. */
  lemma PrefixFacts(data: seq<Entry>, s: seq<Entry>, k: nat)
    requires k <= |s| && multiset(s) == multiset(data)
    requires forall i, j :: 0 <= i < j < |s| ==> TopBefore(s[i].1, s[j].1)
    ensures forall e :: e in s[..k] ==> e in data
    ensures forall i, j :: 0 <= i < j < k ==> TopBefore(s[..k][i].1, s[..k][j].1)
    ensures forall i, e :: 0 <= i < k && e in data && e !in s[..k] ==> TopBefore(s[..k][i].1, e.1)
  {
    var r := s[..k];
    forall e | e in r ensures e in data {
      assert e in s;
      assert e in multiset(s);
    }
    forall i, j | 0 <= i < j < k ensures TopBefore(r[i].1, r[j].1) {
      assert r[i] == s[i] && r[j] == s[j];
    }
    forall i, e | 0 <= i < k && e in data && e !in r ensures TopBefore(r[i].1, e.1) {
      assert e in multiset(data);
      assert e in s;
      var j :| 0 <= j < |s| && s[j] == e;
      assert r[i] == s[i];
    }
  }

  /** `get_top_universities`: the first `top_n` entries in the overall
      order. Among entries that tie on the key, the cut keeps those that
      come first in `data`, since the sort is stable. */
  function TopUniversities(data: seq<Entry>, topN: int): (r: seq<Entry>)
    ensures |r| == SliceLength(|data|, topN)
    ensures multiset(r) <= multiset(data)
    ensures forall e :: e in r ==> e in data
    ensures forall i, j :: 0 <= i < j < |r| ==> TopBefore(r[i].1, r[j].1)
    ensures forall i, e :: 0 <= i < |r| && e in data && e !in r ==> TopBefore(r[i].1, e.1)
    ensures forall k :: WithKey(r, TopKey, k) <= WithKey(data, TopKey, k)
  {
    var s := TopOrder(data);
    var k := SliceLength(|data|, topN);
    PrefixFacts(data, s, k);
    assert s == s[..k] + s[k..];
    forall key ensures WithKey(s[..k], TopKey, key) <= WithKey(data, TopKey, key) {
      WithKeyPrefix(s, k, TopKey, key);
    }
    s[..k]
  }

  // ---------------------------------------------------------------------
  // Per country
  // ---------------------------------------------------------------------

  function CountryOf(e: Entry): string
  {
    e.1.country
  }

  /** `group_by_country`: every entry under its country, in input order. */
  function GroupByCountry(ranked: seq<Entry>): ODict<string, seq<Entry>>
  {
    GroupBy(ranked, CountryOf)
  }

  /** A country is a key iff some entry is in it; its list is exactly the
      entries of that country, in their order in the input. */
  lemma GroupByCountrySpec(ranked: seq<Entry>, c: string)
    ensures Valid(GroupByCountry(ranked))
    ensures Get(GroupByCountry(ranked), c).Some? <==> exists e :: e in ranked && e.1.country == c
    ensures forall es :: Get(GroupByCountry(ranked), c) == Some(es) ==>
              es == Having(ranked, CountryOf, c) && forall e :: e in es <==> e in ranked && e.1.country == c
  {
    GroupByValid(ranked, CountryOf);
    GroupByGet(ranked, CountryOf, c);
    var h := Having(ranked, CountryOf, c);
    if exists e :: e in ranked && e.1.country == c {
      var e :| e in ranked && e.1.country == c;
      assert e in h;
    }
  }

  function UniCountry(u: Integrated): string
  {
    u.country
  }

  /** A country's running totals in `get_country_summary`: `lo` is the least
      positive CGPA so far (`None` standing for the initial infinity), `hi`
      the greatest (initially 0.0). */
  datatype Acc = Acc(count: nat, totalSpots: nat, names: seq<string>, lo: Option<real>, hi: real)

  const Fresh := Acc(0, 0, [], None, 0.0)

  /** One university added to its country's totals; a CGPA of 0 or less is
      ignored for the range. */
  function Step(a: Acc, u: Integrated): Acc
  {
    var g := u.minCgpa;
    Acc(a.count + 1, a.totalSpots + u.sem1Spots, a.names + [u.name],
        if g > 0.0 then Some(if a.lo.Some? && a.lo.value < g then a.lo.value else g) else a.lo,
        if g > 0.0 && g > a.hi then g else a.hi)
  }

  function SpotsSum(us: seq<Integrated>): nat
  {
    if |us| == 0 then 0 else SpotsSum(us[..|us| - 1]) + us[|us| - 1].sem1Spots
  }

  /** The totals of a list of universities, taken one after another. */
  function AccOf(us: seq<Integrated>): (a: Acc)
    ensures a.count == |us| && a.totalSpots == SpotsSum(us)
    ensures |a.names| == |us| && forall i :: 0 <= i < |us| ==> a.names[i] == us[i].name
  {
    if |us| == 0 then Fresh
    else
      var init := us[..|us| - 1];
      assert forall i :: 0 <= i < |init| ==> init[i] == us[i];
      Step(AccOf(init), us[|us| - 1])
  }

  /** The running minimum is the least positive CGPA, absent when none is
      positive. */
  lemma {:induction false} AccOfLo(us: seq<Integrated>)
    ensures AccOf(us).lo.None? <==> forall i :: 0 <= i < |us| ==> us[i].minCgpa <= 0.0
    ensures AccOf(us).lo.Some? ==> AccOf(us).lo.value > 0.0 && exists i :: 0 <= i < |us| && us[i].minCgpa == AccOf(us).lo.value
    ensures forall i :: 0 <= i < |us| && us[i].minCgpa > 0.0 ==> AccOf(us).lo.Some? && AccOf(us).lo.value <= us[i].minCgpa
  {
    if |us| > 0 {
      var init := us[..|us| - 1];
      AccOfLo(init);
      assert forall i :: 0 <= i < |init| ==> init[i] == us[i];
    }
  }

  /** The running maximum is the greatest positive CGPA, 0.0 when none is
      positive. */
  lemma {:induction false} AccOfHi(us: seq<Integrated>)
    ensures (forall i :: 0 <= i < |us| ==> us[i].minCgpa <= 0.0) ==> AccOf(us).hi == 0.0
    ensures AccOf(us).hi > 0.0 ==> exists i :: 0 <= i < |us| && us[i].minCgpa == AccOf(us).hi
    ensures AccOf(us).hi >= 0.0 && forall i :: 0 <= i < |us| ==> us[i].minCgpa <= AccOf(us).hi
  {
    if |us| > 0 {
      var init := us[..|us| - 1];
      AccOfHi(init);
      assert forall i :: 0 <= i < |init| ==> init[i] == us[i];
    }
  }

  lemma AccOfSnoc(us: seq<Integrated>, u: Integrated)
    ensures AccOf(us + [u]) == Step(AccOf(us), u)
  {
    assert (us + [u])[..|us|] == us;
  }

  /** The first loop of `get_country_summary`: totals per country, the
      countries in order of first appearance. */
  function SummaryFold(us: seq<Integrated>): ODict<string, Acc>
  {
    if |us| == 0 then []
    else
      var d := SummaryFold(us[..|us| - 1]);
      var u := us[|us| - 1];
      Put(d, u.country, Step(Get(d, u.country).GetOr(Fresh), u))
  }

  /** A country has totals iff some university is in it, and they are the
      totals of exactly its universities. */
  lemma {:induction false} SummaryFoldGet(us: seq<Integrated>, c: string)
    ensures Get(SummaryFold(us), c).Some? <==> Having(us, UniCountry, c) != []
    ensures Having(us, UniCountry, c) != [] ==> Get(SummaryFold(us), c) == Some(AccOf(Having(us, UniCountry, c)))
  {
    if |us| > 0 {
      var init := us[..|us| - 1];
      var u := us[|us| - 1];
      var d := SummaryFold(init);
      var h := Having(init, UniCountry, c);
      SummaryFoldGet(init, c);
      var a := Get(d, u.country).GetOr(Fresh);
      PutGet(d, u.country, Step(a, u), c);
      if u.country == c {
        assert a == AccOf(h);
        AccOfSnoc(h, u);
      }
    }
  }

  lemma {:induction false} SummaryFoldValid(us: seq<Integrated>)
    ensures Valid(SummaryFold(us))
  {
    if |us| > 0 {
      var d := SummaryFold(us[..|us| - 1]);
      var u := us[|us| - 1];
      SummaryFoldValid(us[..|us| - 1]);
      PutValid(d, u.country, Step(Get(d, u.country).GetOr(Fresh), u));
    }
  }

  function MappableTotal(us: seq<Integrated>): nat
  {
    if |us| == 0 then 0 else MappableTotal(us[..|us| - 1]) + us[|us| - 1].mappableCount
  }

  /** The positive CGPAs of `us`, in order. */
  function PositiveCgpas(us: seq<Integrated>): (r: seq<real>)
    ensures forall x :: x in r <==> x > 0.0 && exists i :: 0 <= i < |us| && us[i].minCgpa == x
  {
    if |us| == 0 then []
    else
      var init := us[..|us| - 1];
      var rest := PositiveCgpas(init);
      assert forall i :: 0 <= i < |init| ==> init[i] == us[i];
      var g := us[|us| - 1].minCgpa;
      if g > 0.0 then rest + [g] else rest
  }

  function RealSum(xs: seq<real>): real
  {
    if |xs| == 0 then 0.0 else RealSum(xs[..|xs| - 1]) + xs[|xs| - 1]
  }

  /** `total / n` */
  function Mean(total: real, n: nat): (m: real)
    ensures n == 0 ==> m == 0.0
    ensures n > 0 ==> m * n as real == total
  {
    if n > 0 then total / n as real else 0.0
  }

  datatype CountrySummary = CountrySummary(
    count: nat,
    totalSpots: nat,
    avgMappable: real,
    avgCgpa: real,
    minCgpa: real,
    maxCgpa: real,
    universities: seq<string>)

  /** The second and third loops: averages over the country's universities,
      an untouched infinity becomes 0.0, names sorted. */
  function Finalize(mine: seq<Integrated>, a: Acc): CountrySummary
  {
    var cg := PositiveCgpas(mine);
    CountrySummary(
      a.count, a.totalSpots,
      Mean(MappableTotal(mine) as real, a.count),
      Mean(RealSum(cg), |cg|),
      a.lo.GetOr(0.0), a.hi, SortStrings(a.names))
  }

  /** `get_country_summary` over the data's values. */
  function CountrySummaries(us: seq<Integrated>): ODict<string, CountrySummary>
  {
    MapValues(SummaryFold(us), (c, a) => Finalize(Having(us, UniCountry, c), a))
  }

  /** A country has a summary iff some university is in it, and the
      summary is made from exactly the universities of that country. */
  lemma CountrySummaryGet(us: seq<Integrated>, c: string)
    ensures Get(CountrySummaries(us), c).Some? <==> Having(us, UniCountry, c) != []
    ensures Having(us, UniCountry, c) != [] ==>
              Get(CountrySummaries(us), c) == Some(Finalize(Having(us, UniCountry, c), AccOf(Having(us, UniCountry, c))))
  {
    SummaryFoldGet(us, c);
    MapValuesGet(SummaryFold(us), (c: string, a: Acc) => Finalize(Having(us, UniCountry, c), a), c);
  }

  /** Some university is in country `c` iff its list is non-empty. */
  lemma HavingCountry(us: seq<Integrated>, c: string)
    ensures Having(us, UniCountry, c) != [] <==> exists u :: u in us && u.country == c
  {
    if exists u :: u in us && u.country == c {
      var u :| u in us && u.country == c;
      assert u in Having(us, UniCountry, c);
    }
  }

  lemma CountrySummaryValid(us: seq<Integrated>)
    ensures Valid(CountrySummaries(us))
  {
    var d := SummaryFold(us);
    var r := CountrySummaries(us);
    SummaryFoldValid(us);
    assert forall i :: 0 <= i < |r| ==> r[i].0 == d[i].0;
  }

  /** The summary of the universities `mine` of one country: their number,
      the sum of their spots, the least and greatest positive CGPA among
      them (0.0 when none is positive), their mean mappable count and their
      names in sorted order. */
  lemma FinalizeSpec(mine: seq<Integrated>)
    ensures var s := Finalize(mine, AccOf(mine));
            s.count == |mine| && s.totalSpots == SpotsSum(mine) &&
            s.avgMappable == Mean(MappableTotal(mine) as real, |mine|) &&
            multiset(s.universities) == multiset(seq(|mine|, i requires 0 <= i < |mine| => mine[i].name)) &&
            (forall i, j :: 0 <= i < j < |s.universities| ==> !StrLess(s.universities[j], s.universities[i])) &&
            ((forall i :: 0 <= i < |mine| ==> mine[i].minCgpa <= 0.0) ==> s.minCgpa == 0.0 && s.maxCgpa == 0.0) &&
            (forall i :: 0 <= i < |mine| && mine[i].minCgpa > 0.0 ==> 0.0 < s.minCgpa <= mine[i].minCgpa <= s.maxCgpa)
  {
    var a := AccOf(mine);
    AccOfLo(mine);
    AccOfHi(mine);
    assert a.names == seq(|mine|, i requires 0 <= i < |mine| => mine[i].name);
  }

  /** `avg_cgpa`: the mean of the positive CGPAs, 0.0 when there are none,
      and otherwise between the country's least and greatest CGPA. */
  lemma FinalizeAvgCgpa(mine: seq<Integrated>)
    ensures var s := Finalize(mine, AccOf(mine));
            var cg := PositiveCgpas(mine);
            && s.avgCgpa == Mean(RealSum(cg), |cg|)
            && (|cg| == 0 ==> s.avgCgpa == 0.0)
            && (|cg| > 0 ==> s.minCgpa <= s.avgCgpa <= s.maxCgpa)
  {
    var s := Finalize(mine, AccOf(mine));
    var cg := PositiveCgpas(mine);
    var m := Mean(RealSum(cg), |cg|);
    assert s.avgCgpa == m;
    if |cg| > 0 {
      FinalizeCgpaRange(mine);
      PositiveCgpasWithin(mine, s.minCgpa, s.maxCgpa);
      MeanWithin(cg, s.minCgpa, s.maxCgpa);
    }
  }

  lemma FinalizeCgpaRange(mine: seq<Integrated>)
    ensures var s := Finalize(mine, AccOf(mine));
            forall i :: 0 <= i < |mine| && mine[i].minCgpa > 0.0 ==> s.minCgpa <= mine[i].minCgpa <= s.maxCgpa
  {
    FinalizeSpec(mine);
  }

  lemma PositiveCgpasWithin(mine: seq<Integrated>, lo: real, hi: real)
    requires forall i :: 0 <= i < |mine| && mine[i].minCgpa > 0.0 ==> lo <= mine[i].minCgpa <= hi
    ensures forall k :: 0 <= k < |PositiveCgpas(mine)| ==> lo <= PositiveCgpas(mine)[k] <= hi
  {
    var cg := PositiveCgpas(mine);
    forall k | 0 <= k < |cg| ensures lo <= cg[k] <= hi {
      assert cg[k] in cg;
    }
  }

  /** A mean lies between any bounds of its values. */
  lemma MeanWithin(xs: seq<real>, lo: real, hi: real)
    requires |xs| > 0
    requires forall k :: 0 <= k < |xs| ==> lo <= xs[k] <= hi
    ensures lo <= Mean(RealSum(xs), |xs|) <= hi
  {
    var n := |xs| as real;
    var m := Mean(RealSum(xs), |xs|);
    SumWithin(xs, lo, hi);
    assert m * n == RealSum(xs);
    assert (m - lo) * n == m * n - lo * n;
    assert (hi - m) * n == hi * n - m * n;
    NonNegativeFactor(m - lo, n);
    NonNegativeFactor(hi - m, n);
  }

  lemma NonNegativeFactor(x: real, n: real)
    requires n > 0.0 && x * n >= 0.0
    ensures x >= 0.0
  {
  }

  lemma {:induction false} SumWithin(xs: seq<real>, lo: real, hi: real)
    requires forall k :: 0 <= k < |xs| ==> lo <= xs[k] <= hi
    ensures lo * |xs| as real <= RealSum(xs) <= hi * |xs| as real
  {
    if |xs| > 0 {
      var init := xs[..|xs| - 1];
      assert forall k :: 0 <= k < |init| ==> init[k] == xs[k];
      SumWithin(init, lo, hi);
      assert lo * |xs| as real == lo * |init| as real + lo;
      assert hi * |xs| as real == hi * |init| as real + hi;
    }
  }

  // ---------------------------------------------------------------------
  // Scores
  // ---------------------------------------------------------------------

  /** `max(xs, default=d)` */
  function MaxOr(xs: seq<nat>, d: nat): (m: nat)
    ensures |xs| == 0 ==> m == d
    ensures |xs| > 0 ==> m in xs && forall i :: 0 <= i < |xs| ==> xs[i] <= m
  {
    if |xs| == 0 then d
    else
      var rest := MaxOr(xs[..|xs| - 1], d);
      assert forall i :: 0 <= i < |xs| - 1 ==> xs[..|xs| - 1][i] == xs[i];
      if |xs| == 1 || xs[|xs| - 1] > rest then xs[|xs| - 1] else rest
  }

  /** The CGPA scale's maximum. */
  const MaxCgpa: real := 5.0

  datatype Scores = Scores(mappableScore: real, spotsScore: real, cgpaScore: real, totalScore: real)

  /** `value / max * weight`, or 0 when `max` is 0. */
  function Scaled(value: nat, max: nat, weight: real): (r: real)
    requires weight >= 0.0
    ensures max == 0 ==> r == 0.0
    ensures max > 0 ==> r * max as real == value as real * weight
    ensures value <= max ==> 0.0 <= r <= weight
  {
    if max > 0 then
      var q := value as real / max as real;
      assert q * max as real == value as real;
      assert value <= max ==> q <= 1.0;
      FractionOfWeight(q, weight);
      q * weight
    else 0.0
  }

  /** A fraction in [0,1] of a non-negative weight lies between 0 and the
      weight. */
  lemma FractionOfWeight(q: real, w: real)
    requires w >= 0.0
    ensures q >= 0.0 ==> q * w >= 0.0
    ensures 0.0 <= q <= 1.0 ==> q * w <= w
  {
    if 0.0 <= q <= 1.0 {
      assert w - q * w == (1.0 - q) * w;
    }
  }

  function CgpaScore(g: real): (r: real)
    ensures g <= 0.0 ==> r == 30.0
    ensures g > 0.0 ==> r == 30.0 - 6.0 * g
    ensures 0.0 < g <= MaxCgpa ==> 0.0 <= r < 30.0
  {
    if g > 0.0 then (MaxCgpa - g) / MaxCgpa * 30.0 else 30.0
  }

  function ScoreOf(u: Integrated, maxMappable: nat, maxSpots: nat): (s: Scores)
    ensures s.totalScore == s.mappableScore + s.spotsScore + s.cgpaScore
  {
    var m := Scaled(u.mappableCount, maxMappable, 40.0);
    var sp := Scaled(u.sem1Spots, maxSpots, 30.0);
    var cg := CgpaScore(u.minCgpa);
    Scores(m, sp, cg, m + sp + cg)
  }

  function MappableCounts(data: seq<Entry>): (r: seq<nat>)
    ensures |r| == |data| && forall i :: 0 <= i < |data| ==> r[i] == data[i].1.mappableCount
  {
    seq(|data|, i requires 0 <= i < |data| => data[i].1.mappableCount)
  }

  function SpotCounts(data: seq<Entry>): (r: seq<nat>)
    ensures |r| == |data| && forall i :: 0 <= i < |data| ==> r[i] == data[i].1.sem1Spots
  {
    seq(|data|, i requires 0 <= i < |data| => data[i].1.sem1Spots)
  }

  /** `calculate_scores`: every university kept, with its score breakdown;
      the maxima default to 6 mappable modules and 10 spots. */
  function CalculateScores(data: seq<Entry>): (r: seq<(string, (Integrated, Scores))>)
    ensures |r| == |data| && Keys(r) == Keys(data)
    ensures forall i :: 0 <= i < |r| ==> r[i].1.0 == data[i].1
  {
    var maxM := MaxOr(MappableCounts(data), 6);
    var maxS := MaxOr(SpotCounts(data), 10);
    MapValues(data, (k: string, u: Integrated) => (u, ScoreOf(u, maxM, maxS)))
  }

  /** Each component stays within its weight: at most 40 for modules and 30
      for spots, 30 exactly when no CGPA is required, and below 30 for a
      CGPA on the scale. */
  lemma ScoreBounds(data: seq<Entry>, i: nat)
    requires i < |data|
    ensures var s := CalculateScores(data)[i].1.1;
            var u := data[i].1;
            0.0 <= s.mappableScore <= 40.0 && 0.0 <= s.spotsScore <= 30.0 &&
            (u.minCgpa <= 0.0 ==> s.cgpaScore == 30.0) &&
            (0.0 < u.minCgpa <= MaxCgpa ==> 0.0 <= s.cgpaScore < 30.0) &&
            s.totalScore == s.mappableScore + s.spotsScore + s.cgpaScore
  {
    var ms := MappableCounts(data);
    var ss := SpotCounts(data);
    assert ms[i] <= MaxOr(ms, 6);
    assert ss[i] <= MaxOr(ss, 10);
  }
}
