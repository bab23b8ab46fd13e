/** The admin endpoints over the job store and the pre-scraped database:
    starting and cancelling a full crawl, and the database search that
    turns the grouped query result into ranked university results. The set
    `active` holds the job ids that have a registered crawler. */
module Admin {
  import opened Wrappers
  import opened Text
  import opened ODicts
  import opened Seqs
  import opened Sorting
  import opened Records
  import opened Database
  import Matcher
  import BulkScrape

  // -------------------------------------------------------------- start

  datatype StartReply = AlreadyRunning(runningId: nat) | Started(jobId: nat)

  /** `start_scrape`: refused with 409 while a job is running; otherwise
      the job row is created and its crawler registered before the crawl
      is handed to the background. */
  function StartScrape(db: Db, active: set<nat>, now: int): (r: (StartReply, Db, set<nat>))
    ensures r.0.AlreadyRunning? <==> RunningJob(db).Some?
    ensures r.0.AlreadyRunning? ==> r.0.runningId == RunningJob(db).value.id && r.1 == db && r.2 == active
    ensures r.0.Started? ==> (r.1, r.0.jobId) == CreateJob(db, now) && r.2 == active + {r.0.jobId}
    ensures r.0.Started? && Wf(db) ==> GetJob(r.1, r.0.jobId).Some? && IsRunning(GetJob(r.1, r.0.jobId).value)
    ensures Wf(db) ==> Wf(r.1)
  {
    match RunningJob(db)
    case Some(j) => (AlreadyRunning(j.id), db, active)
    case None =>
      var (db', id) := CreateJob(db, now);
      (Started(id), db', active + {id})
  }

  /** A second start right after a successful one is refused, naming a
      running job at least as new as the one just started. */
  lemma StartTwiceRefused(db: Db, active: set<nat>, now: int, later: int)
    requires Wf(db)
    requires StartScrape(db, active, now).0.Started?
    ensures var (first, db', active') := StartScrape(db, active, now);
            var second := StartScrape(db', active', later);
            second.0.AlreadyRunning? && second.0.runningId >= first.jobId && second.1 == db'
  {
    var (first, db', active') := StartScrape(db, active, now);
    var j := GetJob(db', first.jobId).value;
    var i :| 0 <= i < |db'.jobs| && db'.jobs[i] == j;
    assert IsRunning(db'.jobs[i]);
  }

  // ------------------------------------------------------------- cancel

  datatype CancelReply = NotFound | NotRunning(status: string) | CancelAccepted

  /** `cancel_scrape`: 404 for an unknown job, 400 for a job that is not
      running. A running job is cancelled through its crawler when one is
      registered, which is then unregistered; with no crawler registered the
      reply is still "cancelled" and nothing changes. */
  function CancelScrape(db: Db, active: set<nat>, jobId: nat, now: int): (r: (CancelReply, Db, set<nat>))
    ensures r.0 == NotFound <==> GetJob(db, jobId).None?
    ensures r.0.NotRunning? <==> GetJob(db, jobId).Some? && !IsRunning(GetJob(db, jobId).value)
    ensures r.0.NotRunning? ==> r.0.status == GetJob(db, jobId).value.status
    ensures !r.0.CancelAccepted? || jobId !in active ==> r.1 == db && r.2 == active
    ensures r.0.CancelAccepted? && jobId in active ==> r.2 == active - {jobId}
    ensures |r.1.jobs| == |db.jobs| && forall i :: 0 <= i < |db.jobs| && db.jobs[i].id != jobId ==> r.1.jobs[i] == db.jobs[i]
    ensures r.0.CancelAccepted? && jobId in active && jobId != 0 && Wf(db) ==>
              GetJob(r.1, jobId).Some? && GetJob(r.1, jobId).value.status == "cancelled" &&
              GetJob(r.1, jobId).value.errorMessage == Some(BulkScrape.CancelledByUser)
  {
    match GetJob(db, jobId)
    case None => (NotFound, db, active)
    case Some(j) =>
      if !IsRunning(j) then (NotRunning(j.status), db, active)
      else if jobId in active then (CancelAccepted, BulkScrape.Cancel(db, Some(jobId), now).1, active - {jobId})
      else (CancelAccepted, db, active)
  }

  // ------------------------------------------------------------- search

  /** One university of the database search response. */
  datatype DbResult = DbResult(
    rank: nat,
    name: string,
    country: string,
    universityCode: string,
    sem1Spots: nat,
    minCgpa: real,
    mappableCount: nat,
    coverage: real,
    mappable: ModuleGroups,
    unmappable: seq<string>,
    remarks: string)

  /** The eight fields of a mapping the response carries: the module type
      is dropped. */
  function Project(m: Mapping): Mapping {
    m.(ntuModuleType := "")
  }

  /** The keys of the groups kept for having a mapping are the codes that
      have one. */
  lemma KeptKeys(groups: ModuleGroups, split: ModuleGroups)
    requires forall e :: e in split <==> e in groups && e.1 != []
    ensures forall c :: c in Keys(split) <==> exists ms :: (c, ms) in groups && ms != []
  {
    forall c ensures c in Keys(split) <==> exists ms :: (c, ms) in groups && ms != [] {
      if c in Keys(split) {
        var i :| 0 <= i < |split| && Keys(split)[i] == c;
        assert split[i] in split;
      }
      if exists ms :: (c, ms) in groups && ms != [] {
        var ms :| (c, ms) in groups && ms != [];
        assert (c, ms) in split;
        var i :| 0 <= i < |split| && split[i] == (c, ms);
        assert Keys(split)[i] == c;
      }
    }
  }

  /** Projecting every mapping of every group. */
  function ProjectAll(split: ModuleGroups): (r: ModuleGroups)
    ensures Keys(r) == Keys(split)
    ensures Valid(split) ==> Valid(r)
  {
    var r := MapValues(split, (c: string, ms: seq<Mapping>) => seq(|ms|, i requires 0 <= i < |ms| => Project(ms[i])));
    assert forall i :: 0 <= i < |r| ==> r[i].0 == Keys(r)[i] == Keys(split)[i] == split[i].0;
    r
  }

  /** The codes with at least one mapping, their mappings projected. */
  function MappableOf(groups: ModuleGroups): (r: ModuleGroups)
    ensures forall c :: c in Keys(r) <==> exists ms :: (c, ms) in groups && ms != []
    ensures Valid(groups) ==> Valid(r)
  {
    var split := Matcher.SplitModules(groups).0;
    assert Valid(groups) ==> Valid(split) by {
      if Valid(groups) { Matcher.SplitModulesValid(groups); }
    }
    KeptKeys(groups, split);
    ProjectAll(split)
  }

  /** The requested modules not reported mappable, by exact string: a
      request in lower case is never found among the upper-cased keys. */
  function UnmappableAsWritten(targets: seq<string>, mappable: ModuleGroups): (r: seq<string>)
    ensures forall t :: t in r <==> t in targets && t !in Keys(mappable)
  {
    Filter(targets, (t: string) => t !in Keys(mappable))
  }

  /** The requested modules not reported mappable, compared upper-cased
      as the query compares them. */
  function Unmappable(targets: seq<string>, mappable: ModuleGroups): (r: seq<string>)
    ensures forall t :: t in r <==> t in targets && Upper(t) !in Keys(mappable)
  {
    Filter(targets, (t: string) => Upper(t) !in Keys(mappable))
  }

  /** `mappable / len(targets) * 100`; the search never divides by zero, as
      no row is selected without requested modules (`NoTargetsNoResults`). */
  function DbCoverage(count: nat, total: nat): (c: real)
    ensures total == 0 ==> c == 0.0
    ensures total > 0 ==> c * total as real == count as real * 100.0
  {
    if total == 0 then 0.0
    else
      var q := count as real / total as real;
      assert q * total as real == count as real;
      q * 100.0
  }

  /** One response entry before ranking (rank 0); the counter of the
      building loop is overwritten after the sort and is not modelled. */
  function ResultFor(key: string, u: UniResult, targets: seq<string>): (r: DbResult)
    ensures r.mappable == MappableOf(u.mappings) && r.mappableCount == |r.mappable|
    ensures r.name == u.university && r.country == u.country && r.universityCode == key
    ensures r.sem1Spots == 0 && r.minCgpa == 0.0 && r.remarks == "" && r.rank == 0
    ensures forall t :: t in r.unmappable <==> t in targets && Upper(t) !in Keys(r.mappable)
    ensures |targets| == 0 ==> r.coverage == 0.0
    ensures r.coverage == DbCoverage(r.mappableCount, |targets|)
  {
    var mappable := MappableOf(u.mappings);
    var coverage := DbCoverage(|mappable|, |targets|);
    var unmappable := Unmappable(targets, mappable);
    DbResult(0, u.university, u.country, key, 0, 0.0, |mappable|, coverage, mappable, unmappable, "")
  }

  function Keep(targets: seq<string>, min: int): ((string, UniResult)) -> Option<DbResult> {
    (e: (string, UniResult)) =>
      var x := ResultFor(e.0, e.1, targets);
      if x.mappableCount >= min then Some(x) else None
  }

  /** The building loop: one entry per university with at least `min`
      mappable modules, in query order. */
  function Build(raw: ODict<string, UniResult>, targets: seq<string>, min: int): seq<DbResult> {
    Collect(raw, Keep(targets, min))
  }

  /** An entry is built exactly for a university of the query result with
      enough mappable modules. */
  lemma BuildMember(raw: ODict<string, UniResult>, targets: seq<string>, min: int, x: DbResult)
    ensures x in Build(raw, targets, min) <==>
              exists k :: 0 <= k < |raw| && x == ResultFor(raw[k].0, raw[k].1, targets) && x.mappableCount >= min
  {
    CollectMember(raw, Keep(targets, min), x);
  }

  lemma BuildFacts(raw: ODict<string, UniResult>, targets: seq<string>, min: int)
    ensures forall x :: x in Build(raw, targets, min) ==> x.rank == 0 && x.mappableCount >= min
  {
    forall x | x in Build(raw, targets, min) ensures x.rank == 0 && x.mappableCount >= min {
      BuildMember(raw, targets, min, x);
    }
  }

  /** The response order: mappable modules high to low, then country, then
      name. */
  function ResultKey(x: DbResult): Key {
    [Num(-(x.mappableCount as real)), Str(x.country), Str(x.name)]
  }

  /** The results with their ranks cleared. */
  function Unranked(xs: seq<DbResult>): (r: seq<DbResult>)
    ensures |r| == |xs|
    ensures forall i :: 0 <= i < |xs| ==> r[i] == xs[i].(rank := 0)
  {
    seq(|xs|, i requires 0 <= i < |xs| => xs[i].(rank := 0))
  }

  /** Ranks 1..n in list order. */
  function Rerank(xs: seq<DbResult>): (r: seq<DbResult>)
    ensures |r| == |xs|
    ensures forall i :: 0 <= i < |xs| ==> r[i] == xs[i].(rank := i + 1)
  {
    seq(|xs|, i requires 0 <= i < |xs| => xs[i].(rank := i + 1))
  }

  /** Clearing the new ranks gives back entries that had none. */
  lemma RerankUnranked(xs: seq<DbResult>)
    requires forall i :: 0 <= i < |xs| ==> xs[i].rank == 0
    ensures Unranked(Rerank(xs)) == xs
  {
  }

  /** The sort and the re-ranking after the building loop: the entries in
      response order, ranked 1..n. */
  function RankResults(xs: seq<DbResult>): (r: seq<DbResult>)
    requires forall x :: x in xs ==> x.rank == 0
    ensures forall i :: 0 <= i < |r| ==> r[i].rank == i + 1
    ensures forall i, j :: 0 <= i < j < |r| ==> KeyLe(ResultKey(r[i]), ResultKey(r[j]))
    ensures multiset(Unranked(r)) == multiset(xs)
  {
    var sorted := SortBy(xs, ResultKey);
    assert forall i :: 0 <= i < |sorted| ==> sorted[i].rank == 0 by {
      forall i | 0 <= i < |sorted| ensures sorted[i].rank == 0 {
        assert sorted[i] in multiset(xs);
      }
    }
    RerankUnranked(sorted);
    Rerank(sorted)
  }

  /** Ranking only renumbers: a lower bound on the mappable count of every
      entry survives it. */
  lemma RankingKeepsCounts(xs: seq<DbResult>, r: seq<DbResult>, min: int)
    requires forall x :: x in xs ==> x.mappableCount >= min
    requires multiset(Unranked(r)) == multiset(xs)
    ensures forall i :: 0 <= i < |r| ==> r[i].mappableCount >= min
  {
    forall i | 0 <= i < |r| ensures r[i].mappableCount >= min {
      var x := Unranked(r)[i];
      assert x in multiset(Unranked(r));
      assert x in xs;
    }
  }

  /** The search over a query result. */
  function RankedSearch(raw: ODict<string, UniResult>, targets: seq<string>, min: int): (r: seq<DbResult>)
    ensures forall i :: 0 <= i < |r| ==> r[i].rank == i + 1 && r[i].mappableCount >= min
    ensures forall i, j :: 0 <= i < j < |r| ==> KeyLe(ResultKey(r[i]), ResultKey(r[j]))
    ensures multiset(Unranked(r)) == multiset(Build(raw, targets, min))
  {
    var built := Build(raw, targets, min);
    BuildFacts(raw, targets, min);
    var r := RankResults(built);
    RankingKeepsCounts(built, r, min);
    r
  }

  /** `search_database`: 400 when nothing has been scraped; otherwise the
      grouped query result, restricted to universities with enough mappable
      modules, sorted, and ranked 1..n. */
  function SearchDatabase(db: Db, targets: seq<string>, countries: seq<string>, min: int): (r: Result<seq<DbResult>, nat>)
    ensures r.Failure? <==> !IsPopulated(db)
    ensures r.Failure? ==> r.error == 400
    ensures r.Success? ==> forall i :: 0 <= i < |r.value| ==> r.value[i].rank == i + 1 && r.value[i].mappableCount >= min
    ensures r.Success? ==> forall i, j :: 0 <= i < j < |r.value| ==> KeyLe(ResultKey(r.value[i]), ResultKey(r.value[j]))
    ensures r.Success? ==>
              multiset(Unranked(r.value)) == multiset(Build(GetMappingsByModules(db, targets, countries), targets, min))
  {
    if !IsPopulated(db) then Failure(400)
    else
      var raw := GetMappingsByModules(db, targets, countries);
      var ranked := RankedSearch(raw, targets, min);
      Success(ranked)
  }

  // ---------------------------------------------- what the query hands back

  /** The requested modules upper-cased, as the query compares them. */
  function Uppers(targets: seq<string>): (r: seq<string>)
    ensures |r| == |targets| && forall i :: 0 <= i < |targets| ==> r[i] == Upper(targets[i])
  {
    seq(|targets|, i requires 0 <= i < |targets| => Upper(targets[i]))
  }

  /** What one university of the query result looks like: distinct codes,
      each an upper-cased requested module with at least one mapping. */
  predicate RequestedCodes(u: UniResult, targets: seq<string>) {
    Valid(u.mappings)
    && forall e :: e in u.mappings ==> e.1 != [] && Upper(e.0) == e.0 && e.0 in Uppers(targets)
  }

  /** Within one university the codes are distinct. */
  lemma UniResultValid(db: Db, targets: seq<string>, countries: seq<string>, k: string, u: UniResult)
    requires Get(GetMappingsByModules(db, targets, countries), k) == Some(u)
    ensures Valid(u.mappings)
  {
    var outer := Having(Query(db, targets, countries), UniKey, k);
    UniGroup(db, targets, countries, k);
    GroupByValid(outer, CodeKey);
  }

  /** A code present in a university's entry has at least one row. */
  lemma EntryNonEmpty(db: Db, targets: seq<string>, countries: seq<string>, k: string, u: UniResult, c: string, ms: seq<Mapping>)
    requires Get(GetMappingsByModules(db, targets, countries), k) == Some(u)
    requires Get(u.mappings, c) == Some(ms)
    ensures ms != []
  {
    var outer := Having(Query(db, targets, countries), UniKey, k);
    UniGroup(db, targets, countries, k);
    CodeGroup(k, outer, c);
  }

  /** A code present in a university's entry is the upper-cased form of a
      requested module. */
  lemma EntryRequested(db: Db, targets: seq<string>, countries: seq<string>, k: string, u: UniResult, c: string, ms: seq<Mapping>)
    requires Get(GetMappingsByModules(db, targets, countries), k) == Some(u)
    requires Get(u.mappings, c) == Some(ms) && ms != []
    ensures Upper(c) == c && c in Uppers(targets)
  {
    GetMappingsByModulesSound(db, targets, countries, k, c, u, ms, ms[0]);
    var j :| j in JoinAll(db) && Selected(j, targets, countries) && UniKey(j) == k && CodeKey(j) == c && ToMapping(j) == ms[0];
    UpperIdempotent(j.row.code);
    var t :| t in targets && Upper(t) == Upper(j.row.code);
    var i :| 0 <= i < |targets| && targets[i] == t;
    assert Uppers(targets)[i] == c;
  }

  /** Every university of the query result has the shape `RequestedCodes`
      describes. */
  lemma QueryEntriesRequested(db: Db, targets: seq<string>, countries: seq<string>, k: string, u: UniResult)
    requires Get(GetMappingsByModules(db, targets, countries), k) == Some(u)
    ensures RequestedCodes(u, targets)
  {
    UniResultValid(db, targets, countries, k, u);
    forall e | e in u.mappings ensures e.1 != [] && Upper(e.0) == e.0 && e.0 in Uppers(targets) {
      var i :| 0 <= i < |u.mappings| && u.mappings[i] == e;
      EntryAtRequested(db, targets, countries, k, u, i);
    }
  }

  /** The entry at position `i` of a university has the shape
      `RequestedCodes` describes. */
  lemma EntryAtRequested(db: Db, targets: seq<string>, countries: seq<string>, k: string, u: UniResult, i: nat)
    requires Get(GetMappingsByModules(db, targets, countries), k) == Some(u)
    requires Valid(u.mappings) && i < |u.mappings|
    ensures var e := u.mappings[i]; e.1 != [] && Upper(e.0) == e.0 && e.0 in Uppers(targets)
  {
    var e := u.mappings[i];
    GetAt(u.mappings, i);
    EntryNonEmpty(db, targets, countries, k, u, e.0, e.1);
    EntryRequested(db, targets, countries, k, u, e.0, e.1);
  }

  /** With no module requested no row is selected, so the search never
      reaches the coverage division with a zero divisor. */
  lemma NoTargetsNoResults(db: Db, countries: seq<string>)
    ensures GetMappingsByModules(db, [], countries) == []
  {
    var q := Query(db, [], countries);
    if |q| > 0 {
      QueryMember(db, [], countries, q[0]);
      assert false;
    }
  }

  // ---------------------------------------------- coverage and unmappable

  /** Every code the query returns is mappable: the mappable part is the
      whole entry. */
  lemma MappableKeys(u: UniResult, targets: seq<string>)
    requires RequestedCodes(u, targets)
    ensures forall c :: c in Keys(MappableOf(u.mappings)) <==> c in Keys(u.mappings)
  {
    forall c ensures c in Keys(MappableOf(u.mappings)) <==> c in Keys(u.mappings) {
      if c in Keys(u.mappings) {
        KeyMappable(u, targets, c);
      }
      if c in Keys(MappableOf(u.mappings)) {
        MappableKey(u.mappings, c);
      }
    }
  }

  /** A code of a query entry has rows, so it is mappable. */
  lemma KeyMappable(u: UniResult, targets: seq<string>, c: string)
    requires RequestedCodes(u, targets) && c in Keys(u.mappings)
    ensures c in Keys(MappableOf(u.mappings))
  {
    var i :| 0 <= i < |u.mappings| && Keys(u.mappings)[i] == c;
    assert u.mappings[i] in u.mappings;
  }

  /** A mappable code is a code of the entry. */
  lemma MappableKey(groups: ModuleGroups, c: string)
    requires c in Keys(MappableOf(groups))
    ensures c in Keys(groups)
  {
    var ms :| (c, ms) in groups && ms != [];
    var i :| 0 <= i < |groups| && groups[i] == (c, ms);
    assert Keys(groups)[i] == c;
  }

  /** The coverage of an entry lies in [0, 100]: its mappable codes are
      distinct upper-cased requested modules, so there are no more of them
      than requested modules. */
  lemma {:induction false} CoverageBounded(k: string, u: UniResult, targets: seq<string>)
    requires RequestedCodes(u, targets)
    ensures var x := ResultFor(k, u, targets);
            x.mappableCount <= |targets| && 0.0 <= x.coverage <= 100.0
  {
    var mappable := MappableOf(u.mappings);
    MappableKeys(u, targets);
    forall c | c in Keys(mappable) ensures c in Uppers(targets) {
      var i :| 0 <= i < |u.mappings| && Keys(u.mappings)[i] == c;
      assert u.mappings[i] in u.mappings;
    }
    DistinctWithinLength(Keys(mappable), Uppers(targets));
    CoverageAtMostHundred(|mappable|, |targets|);
  }

  lemma CoverageAtMostHundred(n: nat, total: nat)
    requires n <= total
    ensures 0.0 <= DbCoverage(n, total) <= 100.0
  {
    if total > 0 {
      var q := n as real / total as real;
      assert q * total as real == n as real;
      assert q <= 1.0;
    }
  }

  /** Compared upper-cased, a requested module is reported unmappable
      exactly when the university has no row for it. */
  lemma UnmappableIff(u: UniResult, targets: seq<string>, t: string)
    requires RequestedCodes(u, targets)
    ensures t in Unmappable(targets, MappableOf(u.mappings)) <==> t in targets && Get(u.mappings, Upper(t)).None?
  {
    MappableKeys(u, targets);
  }

  /** As written, a requested module spelt with a lower-case letter is
      reported unmappable even when the university has a row for it. */
  lemma LowerCaseReportedUnmappable(u: UniResult, targets: seq<string>, t: string)
    requires RequestedCodes(u, targets)
    requires t in targets && Upper(t) != t
    ensures t in UnmappableAsWritten(targets, MappableOf(u.mappings))
  {
    MappableKeys(u, targets);
  }

  /** The two agree when every request is already upper-case. */
  lemma UnmappableAgreeOnUpper(u: UniResult, targets: seq<string>)
    requires forall t :: t in targets ==> Upper(t) == t
    ensures UnmappableAsWritten(targets, MappableOf(u.mappings)) == Unmappable(targets, MappableOf(u.mappings))
  {
    var m := MappableOf(u.mappings);
    FilterAgree(targets, (t: string) => t !in Keys(m), (t: string) => Upper(t) !in Keys(m));
  }

  /** A concrete case: a request for "sc1007" matched by a stored
      "SC1007" mapping lists SC1007 as mappable and "sc1007" as unmappable,
      while the upper-cased comparison lists nothing as unmappable. */
  lemma LowerCaseExample(m: Mapping)
    ensures var u := UniResult("Sweden", "Uni One", [("SC1007", [m])]);
            var mappable := MappableOf(u.mappings);
            Keys(mappable) == ["SC1007"]
            && UnmappableAsWritten(["sc1007"], mappable) == ["sc1007"]
            && Unmappable(["sc1007"], mappable) == []
  {
    var g: ModuleGroups := [("SC1007", [m])];
    var split := Matcher.SplitModules(g);
    assert g[0] in split.0;
    assert split.0 == g;
    var mappable := MappableOf(g);
    assert Keys(mappable) == ["SC1007"];
    assert "sc1007" != "SC1007";
    assert Upper("sc1007") == "SC1007";
    var r := UnmappableAsWritten(["sc1007"], mappable);
    assert "sc1007" in r;
    var r' := Unmappable(["sc1007"], mappable);
    assert "sc1007" !in r';
  }

  /** A selected row keeps its requested module out of the corrected
      unmappable list of its university. */
  lemma UnmappableMeansNoRow(db: Db, targets: seq<string>, countries: seq<string>, j: Joined, t: string, u: UniResult)
    requires j in JoinAll(db) && Selected(j, targets, countries)
    requires Get(GetMappingsByModules(db, targets, countries), UniKey(j)) == Some(u)
    requires t in targets && Upper(t) == CodeKey(j)
    ensures t !in Unmappable(targets, MappableOf(u.mappings))
  {
    GetMappingsByModulesComplete(db, targets, countries, j);
    QueryEntriesRequested(db, targets, countries, UniKey(j), u);
    UnmappableIff(u, targets, t);
  }
}
