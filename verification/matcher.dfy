/** `UniversityMatcher` (processors/matcher.py): vacancy data from the PDF is
    joined with the scraped module mappings; each university's module codes
    are split into mappable and unmappable ones and a coverage percentage is
    derived, and statistics are gathered over the joined data. */
module Matcher {
  import opened Wrappers
  import opened Text
  import opened ODicts
  import opened Seqs
  import opened Records

  // ---------------------------------------------------------------------
  // Joining vacancy data and mappings
  // ---------------------------------------------------------------------

  /** The loop over one university's module codes: codes with at least one
      mapping go to the mappable dictionary, codes with none to the
      unmappable list, both in the order met. */
  function SplitModules(groups: ModuleGroups): (r: (ModuleGroups, seq<string>))
    ensures |r.0| + |r.1| == |groups|
    ensures forall e :: e in r.0 <==> e in groups && e.1 != []
    ensures forall k :: k in r.1 <==> (k, []) in groups
  {
    if |groups| == 0 then ([], [])
    else
      var init := groups[..|groups| - 1];
      var e := groups[|groups| - 1];
      var rest := SplitModules(init);
      assert groups == init + [e];
      if e.1 != [] then (rest.0 + [e], rest.1) else (rest.0, rest.1 + [e.0])
  }

  /** The mappable codes are in order a sub-list of the dictionary's entries,
      so their keys stay distinct. */
  lemma {:induction false} SplitModulesValid(groups: ModuleGroups)
    requires Valid(groups)
    ensures Valid(SplitModules(groups).0)
  {
    if |groups| > 0 {
      var init := groups[..|groups| - 1];
      var e := groups[|groups| - 1];
      SplitModulesValid(init);
      var m := SplitModules(init).0;
      if e.1 != [] {
        forall i | 0 <= i < |m| ensures m[i].0 != e.0 {
          assert m[i] in init;
          var j :| 0 <= j < |init| && init[j] == m[i];
          assert groups[j] == init[j];
        }
      }
    }
  }

  /** `mappable_count / total_modules * 100`, or 0.0 without modules. */
  function Coverage(mappable: nat, total: nat): (c: real)
    requires mappable <= total
    ensures 0.0 <= c <= 100.0
    ensures total == 0 ==> c == 0.0
    ensures total > 0 && mappable == total ==> c == 100.0
    ensures total > 0 ==> c * total as real == mappable as real * 100.0
  {
    if total > 0 then
      var q := mappable as real / total as real;
      assert q <= 1.0 by {
        assert q * total as real == mappable as real;
      }
      q * 100.0
    else 0.0
  }

  /** The joined entry for one university of the vacancy data. Fields the
      merged record carries (`all_codes`, `variation_count`) default to the
      single code and 1 for a university that was not merged. */
  function JoinOne(u: Uni, groups: ModuleGroups): (r: Integrated)
    ensures r.name == u.name && r.country == u.country && r.sem1Spots == u.sem1Spots && r.minCgpa == u.minCgpa
    ensures r.code == u.code && r.subCode == u.subCode && r.remarks == u.remarks
    ensures r.mappableCount == |r.mappable| && r.mappableCount + |r.unmappable| == |groups|
    ensures forall e :: e in r.mappable <==> e in groups && e.1 != []
    ensures forall k :: k in r.unmappable <==> (k, []) in groups
    ensures 0.0 <= r.coverage <= 100.0 && (|groups| == 0 ==> r.coverage == 0.0)
    ensures |groups| > 0 ==> r.coverage * |groups| as real == r.mappableCount as real * 100.0
    ensures u.merged.None? ==> r.allCodes == {u.code} && r.variationCount == 1
    ensures u.merged.Some? ==> r.allCodes == u.merged.value.allCodes && r.variationCount == u.merged.value.variationCount
  {
    var split := SplitModules(groups);
    Integrated(
      u.name, u.country, u.sem1Spots, u.minCgpa, u.code, u.subCode, u.remarks,
      split.0, |split.0|, split.1, Coverage(|split.0|, |groups|),
      if u.merged.Some? then u.merged.value.allCodes else {u.code},
      if u.merged.Some? then u.merged.value.variationCount else 1)
  }

  /** `match_pdf_to_mappings` (also `combine_data_sources`): one joined entry
      per university of the vacancy data, in its order; a university without
      scraped mappings gets no modules. */
  function MatchPdfToMappings(pdf: ODict<string, Uni>, maps: MappingData): (r: ODict<string, Integrated>)
    ensures Keys(r) == Keys(pdf)
    ensures forall i :: 0 <= i < |r| ==> r[i].1 == JoinOne(pdf[i].1, Get(maps, pdf[i].0).GetOr([]))
  {
    var r := seq(|pdf|, i requires 0 <= i < |pdf| => (pdf[i].0, JoinOne(pdf[i].1, Get(maps, pdf[i].0).GetOr([]))));
    KeysPointwise(r, pdf);
    r
  }

  /** A university absent from the mapping data is joined with no modules
      and zero coverage. */
  lemma UnscrapedHasNoModules(pdf: ODict<string, Uni>, maps: MappingData, i: nat)
    requires i < |pdf| && pdf[i].0 !in Keys(maps)
    ensures var e := MatchPdfToMappings(pdf, maps)[i].1;
            e.mappableCount == 0 && e.unmappable == [] && e.coverage == 0.0
  {
  }

  // ---------------------------------------------------------------------
  // Summaries
  // ---------------------------------------------------------------------

  /** The first name recorded for each partner code, codes in order of
      first appearance. */
  function FirstByCode(ms: seq<Mapping>): (d: ODict<string, string>)
    ensures Valid(d)
    ensures forall k :: k in Keys(d) <==> exists i :: 0 <= i < |ms| && ms[i].partnerCode == k
  {
    if |ms| == 0 then []
    else
      var d := FirstByCode(ms[..|ms| - 1]);
      var m := ms[|ms| - 1];
      assert forall i :: 0 <= i < |ms| - 1 ==> ms[..|ms| - 1][i] == ms[i];
      if m.partnerCode in Keys(d) then d
      else
        KeysSnoc(d, (m.partnerCode, m.partnerName));
        d + [(m.partnerCode, m.partnerName)]
  }

  /** The name kept for a code is that of the code's first mapping. */
  lemma {:induction false} FirstByCodeName(ms: seq<Mapping>, i: nat)
    requires i < |ms|
    requires forall j :: 0 <= j < i ==> ms[j].partnerCode != ms[i].partnerCode
    ensures Get(FirstByCode(ms), ms[i].partnerCode) == Some(ms[i].partnerName)
  {
    var init := ms[..|ms| - 1];
    var d := FirstByCode(init);
    if i < |ms| - 1 {
      FirstByCodeName(init, i);
      if ms[|ms| - 1].partnerCode !in Keys(d) {
        PutNew(d, ms[|ms| - 1].partnerCode, ms[|ms| - 1].partnerName);
        PutGet(d, ms[|ms| - 1].partnerCode, ms[|ms| - 1].partnerName, ms[i].partnerCode);
      }
    } else {
      assert ms[i].partnerCode !in Keys(d) by {
        forall k | k in Keys(d) ensures k != ms[i].partnerCode {
          var j :| 0 <= j < |init| && init[j].partnerCode == k;
          assert ms[j] == init[j];
        }
      }
      PutNew(d, ms[i].partnerCode, ms[i].partnerName);
      PutGet(d, ms[i].partnerCode, ms[i].partnerName, ms[i].partnerCode);
    }
  }

  /** "CODE (Name)", or "CODE" alone when the name is empty. */
  function Part(code: string, name: string): string
  {
    if name != "" then code + " (" + name + ")" else code
  }

  function Parts(d: ODict<string, string>): (ps: seq<string>)
    ensures |ps| == |d|
  {
    seq(|d|, i requires 0 <= i < |d| => Part(d[i].0, d[i].1))
  }

  /** `get_mapping_summary` */
  function MappingSummary(ms: seq<Mapping>): string
  {
    if |ms| == 0 then "No mappings found"
    else Join(Parts(FirstByCode(ms)), "; ")
  }

  /** The summary lists each distinct partner code exactly once, with the
      name of its first mapping. */
  lemma MappingSummarySpec(ms: seq<Mapping>)
    ensures |ms| == 0 ==> MappingSummary(ms) == "No mappings found"
    ensures var d := FirstByCode(ms);
            |ms| > 0 ==> (MappingSummary(ms) == Join(Parts(d), "; ") &&
              (forall i, j :: 0 <= i < j < |d| ==> d[i].0 != d[j].0) &&
              (forall k :: k in Keys(d) <==> exists i :: 0 <= i < |ms| && ms[i].partnerCode == k) &&
              (forall i :: 0 <= i < |ms| && (forall j :: 0 <= j < i ==> ms[j].partnerCode != ms[i].partnerCode) ==>
                 Get(d, ms[i].partnerCode) == Some(ms[i].partnerName)))
  {
    forall i | 0 <= i < |ms| && (forall j :: 0 <= j < i ==> ms[j].partnerCode != ms[i].partnerCode)
      ensures Get(FirstByCode(ms), ms[i].partnerCode) == Some(ms[i].partnerName)
    {
      FirstByCodeName(ms, i);
    }
  }

  /** Repeated mappings of one partner module are summarised once. */
  lemma SummaryOfRepeats(m: Mapping)
    ensures MappingSummary([m, m]) == Part(m.partnerCode, m.partnerName)
  {
    assert [m, m][..1] == [m];
    assert [m][..0] == [];
    KeysSnoc([], (m.partnerCode, m.partnerName));
    assert FirstByCode([m]) == [(m.partnerCode, m.partnerName)];
    assert FirstByCode([m, m]) == [(m.partnerCode, m.partnerName)];
    assert Parts(FirstByCode([m, m])) == [Part(m.partnerCode, m.partnerName)];
  }

  // ---------------------------------------------------------------------
  // Statistics
  // ---------------------------------------------------------------------

  /** The coverage bucket: 0 for 100%, then 75-99%, 50-74%, 25-49%, 0-24%. */
  function Bucket(c: real): (b: nat)
    ensures b < 5
  {
    if c == 100.0 then 0 else if c >= 75.0 then 1 else if c >= 50.0 then 2 else if c >= 25.0 then 3 else 4
  }

  /** The bucket counters after the loop over `us`. */
  function BucketCounts(us: seq<Integrated>): (r: seq<nat>)
    ensures |r| == 5
    ensures r[0] + r[1] + r[2] + r[3] + r[4] == |us|
    ensures forall b :: 0 <= b < 5 ==> r[b] == CountIf(us, (u: Integrated) => Bucket(u.coverage) == b)
  {
    if |us| == 0 then [0, 0, 0, 0, 0]
    else
      var r := BucketCounts(us[..|us| - 1]);
      var b := Bucket(us[|us| - 1].coverage);
      r[b := r[b] + 1]
  }

  /** Every module code seen at any university, mappable or not. */
  function AllModules(us: seq<Integrated>): (ms: set<string>)
    ensures forall m :: m in ms <==> exists i :: 0 <= i < |us| && (m in Keys(us[i].mappable) || m in us[i].unmappable)
  {
    if |us| == 0 then {}
    else
      var rest := AllModules(us[..|us| - 1]);
      assert forall i :: 0 <= i < |us| - 1 ==> us[..|us| - 1][i] == us[i];
      rest + ModulesOf(us[|us| - 1])
  }

  /** The module codes of one university, mappable or not. */
  function ModulesOf(u: Integrated): (ms: set<string>)
    ensures forall m :: m in ms <==> m in Keys(u.mappable) || m in u.unmappable
  {
    (set k | k in Keys(u.mappable)) + (set k | k in u.unmappable)
  }

  /** Per module: at how many universities it is mappable, and at how many
      it is not. */
  datatype Availability = Availability(availableAt: nat, notAvailableAt: nat)

  function ModuleAvailability(us: seq<Integrated>): (r: map<string, Availability>)
    ensures r.Keys == AllModules(us)
    ensures forall m :: m in r ==> r[m].availableAt + r[m].notAvailableAt == |us|
    ensures forall m :: m in r ==> r[m].availableAt == CountIf(us, (u: Integrated) => m in Keys(u.mappable))
  {
    var r := map m | m in AllModules(us) ::
      Availability(CountIf(us, (u: Integrated) => m in Keys(u.mappable)),
                   CountIf(us, (u: Integrated) => m !in Keys(u.mappable)));
    forall m | m in r ensures r[m].availableAt + r[m].notAvailableAt == |us| {
      CountIfComplement(us, (u: Integrated) => m in Keys(u.mappable), (u: Integrated) => m !in Keys(u.mappable));
    }
    r
  }

  /** Per country: how many universities, how many semester-1 spots, and
      the `avg_mappable` written after the loop. */
  datatype CountryStat = CountryStat(count: nat, totalSpots: nat, avgMappable: real)

  /** A country's entry when it is first seen. */
  const NewStat := CountryStat(0, 0, 0.0)

  /** `by_country[country]`: one more university, its spots added. */
  function Tally(s: CountryStat, spots: nat): CountryStat
  {
    s.(count := s.count + 1, totalSpots := s.totalSpots + spots)
  }

  function ByCountry(us: seq<Integrated>): ODict<string, CountryStat>
  {
    if |us| == 0 then []
    else
      var d := ByCountry(us[..|us| - 1]);
      var u := us[|us| - 1];
      Put(d, u.country, Tally(Get(d, u.country).GetOr(NewStat), u.sem1Spots))
  }

  /** The number of universities in country `c` and the sum of their spots,
      counted independently of the dictionary. */
  function StatIn(us: seq<Integrated>, c: string): (r: CountryStat)
    ensures r.count <= |us|
    ensures r.count == 0 ==> r == NewStat
  {
    if |us| == 0 then NewStat
    else
      var s := StatIn(us[..|us| - 1], c);
      if us[|us| - 1].country == c then Tally(s, us[|us| - 1].sem1Spots) else s
  }

  /** A country is a key iff some university is in it, and then it holds
      the number of its universities and the sum of their spots. */
  lemma {:induction false} ByCountryGet(us: seq<Integrated>, c: string)
    ensures Get(ByCountry(us), c).Some? <==> StatIn(us, c).count > 0
    ensures StatIn(us, c).count > 0 ==> Get(ByCountry(us), c) == Some(StatIn(us, c))
  {
    if |us| > 0 {
      var init := us[..|us| - 1];
      var u := us[|us| - 1];
      var d := ByCountry(init);
      ByCountryGet(init, c);
      PutGet(d, u.country, Tally(Get(d, u.country).GetOr(NewStat), u.sem1Spots), c);
    }
  }

  /** `total / n` */
  function Average(total: nat, n: nat): (a: real)
    ensures n == 0 ==> a == 0.0
    ensures n > 0 ==> a * n as real == total as real
  {
    if n > 0 then total as real / n as real else 0.0
  }

  function SumMappable(us: seq<Integrated>): nat
  {
    if |us| == 0 then 0 else SumMappable(us[..|us| - 1]) + us[|us| - 1].mappableCount
  }

  /** The mean number of mappable modules per university. */
  function AvgMappable(us: seq<Integrated>): (a: real)
    ensures |us| == 0 ==> a == 0.0
    ensures |us| > 0 ==> a * |us| as real == SumMappable(us) as real
  {
    Average(SumMappable(us), |us|)
  }

  /** The sum of the mappable counts of the universities in country `c`. */
  function SumMappableIn(us: seq<Integrated>, c: string): nat
  {
    if |us| == 0 then 0
    else
      var u := us[|us| - 1];
      SumMappableIn(us[..|us| - 1], c) + (if u.country == c then u.mappableCount else 0)
  }

  /** `a` is the mean of `n` values that add up to `total`. */
  predicate MeanOf(a: real, total: nat, n: nat)
  {
    a * n as real == total as real
  }

  /** The mean of values adding up to 0 is 0. */
  lemma MeanOfNothing(a: real, n: nat)
    requires n > 0 && MeanOf(a, 0, n)
    ensures a == 0.0
  {
  }

  /** The per-country pass after the loop: an entry with at least one
      university gets `total / count` as its `avg_mappable`. */
  function Averaged(s: CountryStat, total: nat): (r: CountryStat)
    ensures r.count == s.count && r.totalSpots == s.totalSpots
    ensures r.count > 0 ==> MeanOf(r.avgMappable, total, r.count)
  {
    if s.count > 0 then s.(avgMappable := Average(total, s.count)) else s
  }

  /** `by_country` with each country's `avg_mappable` set from the total
      `total(country)`. */
  function AverageBy(us: seq<Integrated>, total: string -> nat): (r: ODict<string, CountryStat>)
    ensures Keys(r) == Keys(ByCountry(us))
  {
    MapValues(ByCountry(us), (k: string, s: CountryStat) => Averaged(s, total(k)))
  }

  /** A country is a key iff some university is in it; its entry then holds
      the number of its universities, the sum of their spots, and an
      average of `total(country)` over that number. */
  lemma AverageByGet(us: seq<Integrated>, total: string -> nat, c: string)
    ensures Get(AverageBy(us, total), c).Some? <==> StatIn(us, c).count > 0
    ensures StatIn(us, c).count > 0 ==>
      var s := Get(AverageBy(us, total), c).value;
      s.count == StatIn(us, c).count && s.totalSpots == StatIn(us, c).totalSpots &&
      MeanOf(s.avgMappable, total(c), s.count)
  {
    var f := (k: string, s: CountryStat) => Averaged(s, total(k));
    ByCountryGet(us, c);
    MapValuesGet(ByCountry(us), f, c);
    if StatIn(us, c).count > 0 {
      var r := Averaged(StatIn(us, c), total(c));
      assert Get(AverageBy(us, total), c) == Some(r);
    }
  }

  datatype ModuleStats = ModuleStats(
    totalUniversities: nat,
    byCountry: ODict<string, CountryStat>,
    availability: map<string, Availability>,
    avgMappable: real,
    buckets: seq<nat>)

  /** `calculate_module_statistics` over the joined entries (the dictionary's
      values, in order). */
  function ModuleStatistics(us: seq<Integrated>): (r: ModuleStats)
    ensures r.totalUniversities == |us|
    ensures |r.buckets| == 5 && r.buckets[0] + r.buckets[1] + r.buckets[2] + r.buckets[3] + r.buckets[4] == |us|
    ensures forall m :: m in r.availability ==> r.availability[m].availableAt + r.availability[m].notAvailableAt == |us|
    ensures r.availability.Keys == AllModules(us)
    ensures Keys(r.byCountry) == Keys(ByCountry(us)) && r.avgMappable == AvgMappable(us)
  {
    var avail := ModuleAvailability(us);
    var buckets := BucketCounts(us);
    var avg := AvgMappable(us);
    // The per-country sum filters on a 'country' key the entries never
    // carry, so it always sums the universities whose country is "".
    var byCountry := if |us| > 0 then AverageBy(us, (k: string) => SumMappableIn(us, "")) else ByCountry(us);
    ModuleStats(|us|, byCountry, avail, avg, buckets)
  }

  /** A country is a key of `by_country` iff some university is in it; its
      entry then holds the number of its universities and the sum of their
      spots, and an `avg_mappable` that times that number gives the mappable
      total of the universities whose country is "" (not of its own). */
  lemma ModuleStatisticsByCountry(us: seq<Integrated>, c: string)
    ensures Get(ModuleStatistics(us).byCountry, c).Some? <==> StatIn(us, c).count > 0
    ensures StatIn(us, c).count > 0 ==>
      var s := Get(ModuleStatistics(us).byCountry, c).value;
      s.count == StatIn(us, c).count && s.totalSpots == StatIn(us, c).totalSpots &&
      MeanOf(s.avgMappable, SumMappableIn(us, ""), s.count)
  {
    ByCountryGet(us, c);
    if |us| > 0 {
      AverageByGet(us, (k: string) => SumMappableIn(us, ""), c);
    }
  }

  /** No university has the country "": nothing is summed. */
  lemma {:induction false} SumMappableInAbsent(us: seq<Integrated>, c: string)
    requires forall i :: 0 <= i < |us| ==> us[i].country != c
    ensures SumMappableIn(us, c) == 0
  {
    if |us| > 0 {
      SumMappableInAbsent(us[..|us| - 1], c);
    }
  }

  /** As written, when no university's country is the empty string (which
      the extraction never produces), every country's `avg_mappable` is 0. */
  lemma ModuleStatisticsAvgZero(us: seq<Integrated>, c: string)
    requires forall i :: 0 <= i < |us| ==> us[i].country != ""
    requires Get(ModuleStatistics(us).byCountry, c).Some?
    ensures Get(ModuleStatistics(us).byCountry, c).value.avgMappable == 0.0
  {
    ModuleStatisticsByCountry(us, c);
    SumMappableInAbsent(us, "");
    var s := Get(ModuleStatistics(us).byCountry, c).value;
    MeanOfNothing(s.avgMappable, s.count);
  }

  /** One university in "Japan" with three mappable modules: its country's
      `avg_mappable` is 0.0 as written, 3.0 as intended. */
  lemma ModuleStatisticsAvgExample()
    ensures var us := [Integrated("U", "Japan", 2, 3.0, "C", "", "", [], 3, [], 100.0, {}, 1)];
      Get(ModuleStatistics(us).byCountry, "Japan") == Some(CountryStat(1, 2, 0.0)) &&
      Get(CountryAverages(us), "Japan") == Some(CountryStat(1, 2, 3.0))
  {
    var us := [Integrated("U", "Japan", 2, 3.0, "C", "", "", [], 3, [], 100.0, {}, 1)];
    assert us[..0] == [];
    ModuleStatisticsByCountry(us, "Japan");
    CountryAveragesGet(us, "Japan");
  }

  /** The per-country averages as evidently intended: each country's
      universities' own mappable counts are averaged. */
  function CountryAverages(us: seq<Integrated>): (r: ODict<string, CountryStat>)
    ensures Keys(r) == Keys(ByCountry(us))
  {
    AverageBy(us, (k: string) => SumMappableIn(us, k))
  }

  /** Corrected: a country's `avg_mappable` is the mean mappable count of
      the universities in that country. */
  lemma CountryAveragesGet(us: seq<Integrated>, c: string)
    ensures Get(CountryAverages(us), c).Some? <==> StatIn(us, c).count > 0
    ensures StatIn(us, c).count > 0 ==>
      var s := Get(CountryAverages(us), c).value;
      s.count == StatIn(us, c).count && s.totalSpots == StatIn(us, c).totalSpots &&
      MeanOf(s.avgMappable, SumMappableIn(us, c), s.count)
  {
    AverageByGet(us, (k: string) => SumMappableIn(us, k), c);
  }
}
