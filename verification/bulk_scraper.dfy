/** The admin bulk crawl: log in once, list every country and university,
    wipe the data tables, then store every university's approved mappings,
    reporting progress as events and keeping the job row up to date. The
    browser and the cancellation flag, which another thread sets, are
    oracles; the database is the `Database` model. */
module BulkScrape {
  import opened Wrappers
  import opened Text
  import opened ODicts
  import opened Seqs
  import opened Records
  import opened Database

  /** The points where the loop reads the cancellation flag. */
  datatype Check = AfterDiscovery | BeforeCountry(country: nat) | BeforeUniversity(country: nat, university: nat)

  /** What the outside world answers during one run. */
  datatype Env = Env(
    startFailure: Option<string>,       // the browser could not start, with the message
    loginOk: bool,
    discovery: Result<ODict<string, seq<string>>, string>,  // country -> universities, or the raised message
    search: (string, string) -> Option<ModuleGroups>,       // (university, country) -> groups; None when it raised
    cancelled: Check -> bool)

  /** The progress callbacks, without their free-text messages. */
  datatype Event =
    | Started(jobId: nat)
    | Discovered(totalCountries: nat, totalUniversities: nat)
    | CountryStart(country: string, universities: nat, completedCountries: nat)
    | UniversityStart(country: string, university: string, completedUniversities: nat)
    | UniversityComplete(country: string, university: string, found: nat)
    | UniversityError(country: string, university: string)
    | CountryComplete(country: string, completedCountries: nat)
    | Finished(totalCountries: nat, totalUniversities: nat, totalMappings: nat)
    | Error(message: string)

  /** The dictionary `scrape_all` returns. */
  datatype Outcome =
    | Completed(jobId: nat, totalCountries: nat, totalUniversities: nat, totalMappings: nat)
    | Failed(jobId: nat, error: string)
    | Cancelled(jobId: nat)

  /** The counters the loops carry next to the database: completed
      countries, completed universities and inserted mappings. */
  datatype Progress = Progress(db: Db, countries: nat, universities: nat, mappings: nat)

  /** A stretch of the crawl: where it got to, the events it emitted, and
      whether it stopped on the cancellation flag. */
  datatype Leg = Leg(p: Progress, events: seq<Event>, stopped: bool)

  const LoginFailed: string := "Login failed - check credentials"
  const CancelledByUser: string := "Cancelled by user"

  /** The scraper's mapping dictionary, as handed to the bulk insert. */
  function ToRecord(m: Mapping): (r: map<string, string>)
    ensures CodeOf(r) == m.ntuModule && Field(r, "status") == m.status
  {
    map["ntu_module" := m.ntuModule, "ntu_module_name" := m.ntuModuleName,
        "ntu_module_type" := m.ntuModuleType, "partner_module_code" := m.partnerCode,
        "partner_module_name" := m.partnerName, "academic_units" := m.academicUnits,
        "status" := m.status, "approval_year" := m.approvalYear, "semester" := m.semester]
  }

  /** `mappings_list`: every group's list, in key order, concatenated. */
  function FlattenGroups(groups: ModuleGroups): (r: seq<map<string, string>>)
    ensures |r| == SumLengths(Values(groups))
  {
    var flat := Flatten(Values(groups));
    FlattenLength(Values(groups));
    seq(|flat|, i requires 0 <= i < |flat| => ToRecord(flat[i]))
  }

  predicate IsAll(name: string) {
    Upper(name) == "ALL"
  }

  /** How many entries of a university list are visited: all but "ALL". */
  function Visited(unis: seq<string>): nat {
    if |unis| == 0 then 0 else (if IsAll(unis[0]) then 0 else 1) + Visited(unis[1..])
  }

  /** How many mappings a university yields; a raised search yields none. */
  function Found(search: (string, string) -> Option<ModuleGroups>, country: string, name: string): nat {
    match search(name, country)
    case None => 0
    case Some(groups) => SumLengths(Values(groups))
  }

  function FoundIn(search: (string, string) -> Option<ModuleGroups>, country: string, unis: seq<string>): nat {
    if |unis| == 0 then 0
    else (if IsAll(unis[0]) then 0 else Found(search, country, unis[0])) + FoundIn(search, country, unis[1..])
  }

  function VisitedAll(cu: ODict<string, seq<string>>): nat {
    if |cu| == 0 then 0 else Visited(cu[0].1) + VisitedAll(cu[1..])
  }

  function FoundAll(search: (string, string) -> Option<ModuleGroups>, cu: ODict<string, seq<string>>): nat {
    if |cu| == 0 then 0 else FoundIn(search, cu[0].0, cu[0].1) + FoundAll(search, cu[1..])
  }

  /** The job rows keep their ids, statuses and completion times. */
  predicate StatusKept(a: Db, b: Db) {
    |b.jobs| == |a.jobs|
    && forall i :: 0 <= i < |a.jobs| ==>
         b.jobs[i].id == a.jobs[i].id && b.jobs[i].status == a.jobs[i].status && b.jobs[i].completedAt == a.jobs[i].completedAt
  }

  lemma UpdateKeepsStatus(db: Db, id: nat, u: JobUpdate, now: int)
    requires u.status.None?
    ensures StatusKept(db, UpdateJob(db, id, u, now))
  {
  }

  /** What the crawl may do to the database: keep every job's status, add
      exactly `added` mapping rows, and keep the schema's constraints. */
  predicate DbExtends(a: Db, b: Db, added: nat) {
    StatusKept(a, b) && |b.mappings| == |a.mappings| + added && (Wf(a) ==> Wf(b))
  }

  lemma DbExtendsTrans(a: Db, b: Db, c: Db, x: nat, y: nat)
    requires DbExtends(a, b, x) && DbExtends(b, c, y)
    ensures DbExtends(a, c, x + y)
  {
  }

  /** No university-start event names an "ALL" entry. */
  predicate NoAllVisited(events: seq<Event>) {
    forall k :: 0 <= k < |events| && events[k].UniversityStart? ==> !IsAll(events[k].university)
  }

  lemma NoAllVisitedConcat(a: seq<Event>, b: seq<Event>)
    requires NoAllVisited(a) && NoAllVisited(b)
    ensures NoAllVisited(a + b)
  {
    forall k | 0 <= k < |a + b| && (a + b)[k].UniversityStart? ensures !IsAll((a + b)[k].university) {
      if k >= |a| {
        assert (a + b)[k] == b[k - |a|];
      }
    }
  }

  /** One university, inside the per-university `try`: progress written
      to the job, the university row upserted, the search run and its
      mappings inserted; a raised search emits an error event instead of
      the completion event. The completed counter grows either way. */
  function VisitUniversity(p: Progress, jobId: nat, country: string, countryId: nat, name: string,
                           search: (string, string) -> Option<ModuleGroups>, now: int): (r: (Progress, seq<Event>))
    ensures r.0.universities == p.universities + 1 && r.0.countries == p.countries
    ensures r.0.mappings == p.mappings + Found(search, country, name)
    ensures |r.1| == 2 && r.1[0] == UniversityStart(country, name, p.universities)
    ensures search(name, country).None? ==> r.1[1] == UniversityError(country, name)
    ensures search(name, country).Some? ==> r.1[1] == UniversityComplete(country, name, Found(search, country, name))
  {
    var u := NoUpdate.(currentUniversity := Some(name), completedUniversities := Some(p.universities));
    var db1 := UpdateJob(p.db, jobId, u, now);
    var (db2, uid) := InsertUniversity(db1, countryId, name, None);
    var start := UniversityStart(country, name, p.universities);
    match search(name, country)
    case None =>
      (Progress(db2, p.countries, p.universities + 1, p.mappings), [start, UniversityError(country, name)])
    case Some(groups) =>
      var (db3, count) := InsertMappingsBulk(db2, uid, FlattenGroups(groups));
      (Progress(db3, p.countries, p.universities + 1, p.mappings + count), [start, UniversityComplete(country, name, count)])
  }

  lemma VisitUniversityDb(p: Progress, jobId: nat, country: string, countryId: nat, name: string,
                          search: (string, string) -> Option<ModuleGroups>, now: int)
    ensures var q := VisitUniversity(p, jobId, country, countryId, name, search, now).0;
            DbExtends(p.db, q.db, q.mappings - p.mappings)
  {
    var u := NoUpdate.(currentUniversity := Some(name), completedUniversities := Some(p.universities));
    UpdateKeepsStatus(p.db, jobId, u, now);
  }

  /** The inner loop over one country's universities, from position
      `ui`: the flag is read before each entry, "ALL" is skipped
      uncounted, every other entry is visited. */
  function UniversityLoop(p: Progress, jobId: nat, ci: nat, country: string, countryId: nat,
                          unis: seq<string>, ui: nat, env: Env, now: int): (r: Leg)
    ensures r.p.countries == p.countries && r.p.universities >= p.universities && r.p.mappings >= p.mappings
    ensures !r.stopped ==> r.p.universities == p.universities + Visited(unis)
                           && r.p.mappings == p.mappings + FoundIn(env.search, country, unis)
    ensures NoAllVisited(r.events)
    decreases |unis|
  {
    if |unis| == 0 then Leg(p, [], false)
    else if env.cancelled(BeforeUniversity(ci, ui)) then Leg(p, [], true)
    else if IsAll(unis[0]) then UniversityLoop(p, jobId, ci, country, countryId, unis[1..], ui + 1, env, now)
    else
      var (q, es) := VisitUniversity(p, jobId, country, countryId, unis[0], env.search, now);
      var r := UniversityLoop(q, jobId, ci, country, countryId, unis[1..], ui + 1, env, now);
      VisitNoAll(p, jobId, country, countryId, unis[0], env.search, now);
      NoAllVisitedConcat(es, r.events);
      Leg(r.p, es + r.events, r.stopped)
  }

  /** Visiting a university other than "All" starts no "All" university. */
  lemma VisitNoAll(p: Progress, jobId: nat, country: string, countryId: nat, name: string,
                   search: (string, string) -> Option<ModuleGroups>, now: int)
    requires !IsAll(name)
    ensures NoAllVisited(VisitUniversity(p, jobId, country, countryId, name, search, now).1)
  {
    var es := VisitUniversity(p, jobId, country, countryId, name, search, now).1;
    assert !es[1].UniversityStart?;
  }

  lemma {:induction false} UniversityLoopDb(p: Progress, jobId: nat, ci: nat, country: string, countryId: nat,
                                            unis: seq<string>, ui: nat, env: Env, now: int)
    ensures var r := UniversityLoop(p, jobId, ci, country, countryId, unis, ui, env, now);
            DbExtends(p.db, r.p.db, r.p.mappings - p.mappings)
    decreases |unis|
  {
    if |unis| > 0 && !env.cancelled(BeforeUniversity(ci, ui)) {
      if IsAll(unis[0]) {
        UniversityLoopDb(p, jobId, ci, country, countryId, unis[1..], ui + 1, env, now);
      } else {
        var q := VisitUniversity(p, jobId, country, countryId, unis[0], env.search, now).0;
        VisitUniversityDb(p, jobId, country, countryId, unis[0], env.search, now);
        UniversityLoopDb(q, jobId, ci, country, countryId, unis[1..], ui + 1, env, now);
        var r := UniversityLoop(q, jobId, ci, country, countryId, unis[1..], ui + 1, env, now);
        DbExtendsTrans(p.db, q.db, r.p.db, q.mappings - p.mappings, r.p.mappings - q.mappings);
      }
    }
  }

  /** Entering a country: its row upserted and the job told which country
      is current and how many are done. */
  function EnterCountry(p: Progress, jobId: nat, name: string, now: int): (r: (Progress, nat))
    ensures r.0.countries == p.countries && r.0.universities == p.universities && r.0.mappings == p.mappings
  {
    var (db1, cid) := InsertCountry(p.db, name);
    var db2 := UpdateJob(db1, jobId, NoUpdate.(currentCountry := Some(name), completedCountries := Some(p.countries)), now);
    (p.(db := db2), cid)
  }

  lemma EnterCountryDb(p: Progress, jobId: nat, name: string, now: int)
    ensures DbExtends(p.db, EnterCountry(p, jobId, name, now).0.db, 0)
  {
    var db1 := InsertCountry(p.db, name).0;
    UpdateKeepsStatus(db1, jobId, NoUpdate.(currentCountry := Some(name), completedCountries := Some(p.countries)), now);
  }

  /** One country: entered, then its universities crawled; the events
      start with the country-start event. */
  function CountryStep(p: Progress, jobId: nat, name: string, unis: seq<string>, ci: nat, env: Env, now: int): (r: Leg)
    ensures r.p.countries == p.countries && r.p.universities >= p.universities && r.p.mappings >= p.mappings
    ensures !r.stopped ==> r.p.universities == p.universities + Visited(unis)
                           && r.p.mappings == p.mappings + FoundIn(env.search, name, unis)
    ensures NoAllVisited(r.events)
  {
    var (q, cid) := EnterCountry(p, jobId, name, now);
    var inner := UniversityLoop(q, jobId, ci, name, cid, unis, 0, env, now);
    NoAllVisitedConcat([CountryStart(name, |unis|, p.countries)], inner.events);
    Leg(inner.p, [CountryStart(name, |unis|, p.countries)] + inner.events, inner.stopped)
  }

  lemma CountryStepDb(p: Progress, jobId: nat, name: string, unis: seq<string>, ci: nat, env: Env, now: int)
    ensures var r := CountryStep(p, jobId, name, unis, ci, env, now);
            DbExtends(p.db, r.p.db, r.p.mappings - p.mappings)
  {
    var (q, cid) := EnterCountry(p, jobId, name, now);
    EnterCountryDb(p, jobId, name, now);
    UniversityLoopDb(q, jobId, ci, name, cid, unis, 0, env, now);
    var inner := UniversityLoop(q, jobId, ci, name, cid, unis, 0, env, now);
    DbExtendsTrans(p.db, q.db, inner.p.db, 0, inner.p.mappings - q.mappings);
  }

  /** The outer loop over the countries, from position `ci`: the flag is
      read before each country; a country crawled to the end is counted
      and reported complete. */
  function CountryLoop(p: Progress, jobId: nat, cu: ODict<string, seq<string>>, ci: nat, env: Env, now: int): (r: Leg)
    ensures r.p.universities >= p.universities && r.p.mappings >= p.mappings
    ensures !r.stopped ==> r.p.countries == p.countries + |cu|
                           && r.p.universities == p.universities + VisitedAll(cu)
                           && r.p.mappings == p.mappings + FoundAll(env.search, cu)
    ensures NoAllVisited(r.events)
    decreases |cu|
  {
    if |cu| == 0 then Leg(p, [], false)
    else if env.cancelled(BeforeCountry(ci)) then Leg(p, [], true)
    else
      var step := CountryStep(p, jobId, cu[0].0, cu[0].1, ci, env, now);
      if step.stopped then step
      else
        var done := step.p.(countries := step.p.countries + 1);
        var head := step.events + [CountryComplete(cu[0].0, done.countries)];
        NoAllVisitedConcat(step.events, [CountryComplete(cu[0].0, done.countries)]);
        var rest := CountryLoop(done, jobId, cu[1..], ci + 1, env, now);
        NoAllVisitedConcat(head, rest.events);
        Leg(rest.p, head + rest.events, rest.stopped)
  }

  lemma {:induction false} CountryLoopDb(p: Progress, jobId: nat, cu: ODict<string, seq<string>>, ci: nat, env: Env, now: int)
    ensures var r := CountryLoop(p, jobId, cu, ci, env, now);
            DbExtends(p.db, r.p.db, r.p.mappings - p.mappings)
    decreases |cu|
  {
    if |cu| > 0 && !env.cancelled(BeforeCountry(ci)) {
      var step := CountryStep(p, jobId, cu[0].0, cu[0].1, ci, env, now);
      CountryStepDb(p, jobId, cu[0].0, cu[0].1, ci, env, now);
      var r := CountryLoop(p, jobId, cu, ci, env, now);
      if step.stopped {
        assert r == step;
      } else {
        var done := step.p.(countries := step.p.countries + 1);
        CountryLoopDb(done, jobId, cu[1..], ci + 1, env, now);
        var rest := CountryLoop(done, jobId, cu[1..], ci + 1, env, now);
        assert r.p == rest.p;
        DbExtendsTrans(p.db, done.db, rest.p.db, step.p.mappings - p.mappings, rest.p.mappings - done.mappings);
      }
    }
  }

  /** The record of one run. `browserOpened` says whether a browser was created,
      `browserClosed` whether it was closed. */
  datatype Run = Run(db: Db, jobId: nat, outcome: Outcome, events: seq<Event>, browserOpened: bool, browserClosed: bool)

  /** The `except` branch: the job fails with the message. */
  function Fail(db: Db, jobId: nat, events: seq<Event>, message: string, browserOpened: bool, now: int): Run {
    Run(UpdateJob(db, jobId, NoUpdate.(status := Some("failed"), errorMessage := Some(message)), now),
        jobId, Failed(jobId, message), events + [Error(message)], browserOpened, browserOpened)
  }

  /** The job a run reports to: the one handed in, or a fresh one. */
  function JobFor(db: Db, jobId: Option<nat>, now: int): (r: (Db, nat))
    ensures jobId.Some? ==> r == (db, jobId.value)
    ensures jobId.None? ==> r == CreateJob(db, now)
  {
    if jobId.None? then CreateJob(db, now) else (db, jobId.value)
  }

  /** The run after a successful discovery: the flag is read, the totals
      are written to the job, the data tables are cleared, the countries
      are crawled, and, unless cancelled, the job is completed with the
      final counters. */
  function Crawl(db1: Db, id: nat, cu: ODict<string, seq<string>>, env: Env, now: int): (r: Run)
    ensures r.jobId == id && r.outcome.jobId == id && !r.outcome.Failed?
    ensures r.browserOpened && r.browserClosed
    ensures NoAllVisited(r.events)
    ensures r.outcome.Completed? ==> r.outcome.totalCountries == |cu|
                                     && r.outcome.totalUniversities == VisitedAll(cu)
                                     && r.outcome.totalMappings == FoundAll(env.search, cu)
  {
    if env.cancelled(AfterDiscovery) then Run(db1, id, Cancelled(id), [], true, true)
    else
      var tc, tu := |cu|, SumLengths(Values(cu));
      var db2 := UpdateJob(db1, id, NoUpdate.(totalCountries := Some(tc), totalUniversities := Some(tu)), now);
      var db3 := ClearAllData(db2);
      var leg := CountryLoop(Progress(db3, 0, 0, 0), id, cu, 0, env, now);
      var events := [Discovered(tc, tu)] + leg.events;
      NoAllVisitedConcat([Discovered(tc, tu)], leg.events);
      if leg.stopped then Run(leg.p.db, id, Cancelled(id), events, true, true)
      else
        var u := NoUpdate.(status := Some("completed"), completedCountries := Some(tc), completedUniversities := Some(leg.p.universities));
        NoAllVisitedConcat(events, [Finished(tc, leg.p.universities, leg.p.mappings)]);
        Run(UpdateJob(leg.p.db, id, u, now), id, Completed(id, tc, leg.p.universities, leg.p.mappings),
            events + [Finished(tc, leg.p.universities, leg.p.mappings)], true, true)
  }

  /** `scrape_all`. The `finally` clause closes the browser whenever one
      was created, so `browserClosed == browserOpened` on every path; the
      run fails exactly when the browser, the login or the discovery
      fails, and no "ALL" entry is ever visited. */
  function ScrapeAll(db: Db, jobId: Option<nat>, env: Env, now: int): (r: Run)
    ensures r.browserClosed == r.browserOpened && (r.browserOpened <==> env.startFailure.None?)
    ensures jobId.Some? ==> r.jobId == jobId.value
    ensures |r.events| > 0 && r.events[0] == Started(r.jobId)
    ensures r.outcome.jobId == r.jobId
    ensures r.outcome.Failed? <==> env.startFailure.Some? || !env.loginOk || env.discovery.Failure?
    ensures NoAllVisited(r.events)
  {
    var (db1, id) := JobFor(db, jobId, now);
    var events := [Started(id)];
    if env.startFailure.Some? then Fail(db1, id, events, env.startFailure.value, false, now)
    else if !env.loginOk then Fail(db1, id, events, LoginFailed, true, now)
    else match env.discovery
    case Failure(message) => Fail(db1, id, events, message, true, now)
    case Success(cu) =>
      var r := Crawl(db1, id, cu, env, now);
      NoAllVisitedConcat(events, r.events);
      r.(events := events + r.events)
  }

  /** The job a run reports to exists afterwards: the one handed in keeps
      the table's size, a new one adds exactly one row. */
  lemma ScrapeAllJob(db: Db, jobId: Option<nat>, env: Env, now: int)
    ensures var r := ScrapeAll(db, jobId, env, now);
            (jobId.None? ==> r.jobId == db.nextJob && |r.db.jobs| == |db.jobs| + 1)
            && (jobId.Some? ==> |r.db.jobs| == |db.jobs|)
  {
    var (db1, id) := JobFor(db, jobId, now);
    if env.startFailure.None? && env.loginOk && env.discovery.Success? {
      CrawlDb(db1, id, env.discovery.value, env, now);
    }
  }

  /** What a crawl does to the job table and the mapping table. */
  lemma CrawlDb(db1: Db, id: nat, cu: ODict<string, seq<string>>, env: Env, now: int)
    ensures var r := Crawl(db1, id, cu, env, now);
            |r.db.jobs| == |db1.jobs|
            && (r.outcome.Cancelled? ==> StatusKept(db1, r.db))
            && (r.outcome.Completed? ==> |r.db.mappings| == r.outcome.totalMappings)
  {
    if !env.cancelled(AfterDiscovery) {
      var u := NoUpdate.(totalCountries := Some(|cu|), totalUniversities := Some(SumLengths(Values(cu))));
      var db2 := UpdateJob(db1, id, u, now);
      UpdateKeepsStatus(db1, id, u, now);
      var db3 := ClearAllData(db2);
      CountryLoopDb(Progress(db3, 0, 0, 0), id, cu, 0, env, now);
    }
  }

  lemma JobKept(a: Db, b: Db, id: nat)
    requires StatusKept(a, b) && GetJob(a, id).Some?
    ensures GetJob(b, id).Some?
  {
    var i :| 0 <= i < |a.jobs| && a.jobs[i].id == id;
    assert b.jobs[i].id == id;
  }

  /** The database and counters a crawl reaches before its last update,
      when the flag was not raised after discovery. */
  function CrawlLeg(db1: Db, id: nat, cu: ODict<string, seq<string>>, env: Env, now: int): Leg {
    var u := NoUpdate.(totalCountries := Some(|cu|), totalUniversities := Some(SumLengths(Values(cu))));
    CountryLoop(Progress(ClearAllData(UpdateJob(db1, id, u, now)), 0, 0, 0), id, cu, 0, env, now)
  }

  lemma CrawlLegDb(db1: Db, id: nat, cu: ODict<string, seq<string>>, env: Env, now: int)
    requires Wf(db1) && GetJob(db1, id).Some?
    ensures Wf(CrawlLeg(db1, id, cu, env, now).p.db) && GetJob(CrawlLeg(db1, id, cu, env, now).p.db, id).Some?
  {
    var u := NoUpdate.(totalCountries := Some(|cu|), totalUniversities := Some(SumLengths(Values(cu))));
    var db2 := UpdateJob(db1, id, u, now);
    UpdateKeepsStatus(db1, id, u, now);
    JobKept(db1, db2, id);
    var db3 := ClearAllData(db2);
    assert GetJob(db3, id).Some?;
    CountryLoopDb(Progress(db3, 0, 0, 0), id, cu, 0, env, now);
    JobKept(db3, CrawlLeg(db1, id, cu, env, now).p.db, id);
  }

  /** A completed crawl leaves its job completed, with completed_countries
      equal to the number of countries and completed_universities to the
      number of universities visited. */
  lemma CrawlCompletesJob(db1: Db, id: nat, cu: ODict<string, seq<string>>, env: Env, now: int)
    requires Wf(db1) && GetJob(db1, id).Some?
    ensures var r := Crawl(db1, id, cu, env, now);
            r.outcome.Completed? ==>
              GetJob(r.db, id).Some? && GetJob(r.db, id).value.status == "completed"
              && GetJob(r.db, id).value.completedAt == Some(now)
              && GetJob(r.db, id).value.completedCountries == |cu|
              && GetJob(r.db, id).value.completedUniversities == VisitedAll(cu)
  {
    if Crawl(db1, id, cu, env, now).outcome.Completed? {
      var leg := CrawlLeg(db1, id, cu, env, now);
      var done := CompletedCrawl(db1, id, cu, env, now);
      CrawlLegDb(db1, id, cu, env, now);
      CompleteJob(leg.p.db, id, |cu|, leg.p.universities, now);
    }
  }

  /** Writing the completion update leaves the job completed now, with the
      given counters. */
  lemma CompleteJob(db: Db, id: nat, countries: nat, universities: nat, now: int)
    requires Wf(db) && GetJob(db, id).Some?
    ensures var done := NoUpdate.(status := Some("completed"), completedCountries := Some(countries),
                                  completedUniversities := Some(universities));
            var j := GetJob(UpdateJob(db, id, done, now), id);
            j.Some? && j.value.status == "completed" && j.value.completedAt == Some(now)
            && j.value.completedCountries == countries && j.value.completedUniversities == universities
  {
    var done := NoUpdate.(status := Some("completed"), completedCountries := Some(countries),
                          completedUniversities := Some(universities));
    var j := ApplyUpdate(GetJob(db, id).value, done, now);
    assert Terminal("completed");
    assert j.status == "completed" && j.completedAt == Some(now);
    UpdateThenGet(db, id, done, now, GetJob(db, id).value);
  }

  /** A completed crawl ran to the end and then wrote the completion
      update to the job. */
  lemma CompletedCrawl(db1: Db, id: nat, cu: ODict<string, seq<string>>, env: Env, now: int) returns (done: JobUpdate)
    requires Crawl(db1, id, cu, env, now).outcome.Completed?
    ensures var leg := CrawlLeg(db1, id, cu, env, now);
            !leg.stopped && leg.p.universities == VisitedAll(cu)
            && done == NoUpdate.(status := Some("completed"), completedCountries := Some(|cu|), completedUniversities := Some(leg.p.universities))
            && Crawl(db1, id, cu, env, now).db == UpdateJob(leg.p.db, id, done, now)
  {
    var leg := CrawlLeg(db1, id, cu, env, now);
    done := NoUpdate.(status := Some("completed"), completedCountries := Some(|cu|), completedUniversities := Some(leg.p.universities));
  }

  lemma FailJob(db1: Db, id: nat, events: seq<Event>, message: string, browserOpened: bool, now: int)
    requires Wf(db1) && GetJob(db1, id).Some?
    ensures var r := Fail(db1, id, events, message, browserOpened, now);
            GetJob(r.db, id).Some? && GetJob(r.db, id).value.status == "failed"
            && GetJob(r.db, id).value.errorMessage == Some(message)
            && GetJob(r.db, id).value.completedAt == Some(now)
            && r.jobId == id && r.outcome == Failed(id, message)
            && r.events[|r.events| - 1] == Error(message)
  {
    UpdateThenGet(db1, id, NoUpdate.(status := Some("failed"), errorMessage := Some(message)), now, GetJob(db1, id).value);
  }

  /** A failed run leaves its job failed with the message, completed now,
      and ends with an error event. */
  lemma ScrapeAllFailed(db: Db, jobId: Option<nat>, env: Env, now: int)
    requires Wf(db) && (jobId.Some? ==> GetJob(db, jobId.value).Some?)
    ensures var r := ScrapeAll(db, jobId, env, now);
            r.outcome.Failed? ==>
              GetJob(r.db, r.jobId).Some? && GetJob(r.db, r.jobId).value.status == "failed"
              && GetJob(r.db, r.jobId).value.errorMessage == Some(r.outcome.error)
              && GetJob(r.db, r.jobId).value.completedAt == Some(now)
              && r.events[|r.events| - 1] == Error(r.outcome.error)
  {
    var (db1, id) := JobFor(db, jobId, now);
    JobForExists(db, jobId, now);
    if ScrapeAll(db, jobId, env, now).outcome.Failed? {
      var message, browser := FailedRun(db, jobId, env, now);
      FailJob(db1, id, [Started(id)], message, browser, now);
    }
  }

  /** A failed run is the failure path taken right after the job is set
      up. */
  lemma FailedRun(db: Db, jobId: Option<nat>, env: Env, now: int) returns (message: string, browser: bool)
    requires ScrapeAll(db, jobId, env, now).outcome.Failed?
    ensures var (db1, id) := JobFor(db, jobId, now);
            ScrapeAll(db, jobId, env, now) == Fail(db1, id, [Started(id)], message, browser, now)
  {
    message := if env.startFailure.Some? then env.startFailure.value
               else if !env.loginOk then LoginFailed
               else env.discovery.error;
    browser := env.startFailure.None?;
  }

  /** The job a run reports to exists in a well-formed table. */
  lemma JobForExists(db: Db, jobId: Option<nat>, now: int)
    requires Wf(db) && (jobId.Some? ==> GetJob(db, jobId.value).Some?)
    ensures var (db1, id) := JobFor(db, jobId, now); Wf(db1) && GetJob(db1, id).Some?
  {
  }

  /** A cancelled run writes neither 'failed' nor 'completed': every job's
      status and completion time are as they were once the job existed. */
  lemma ScrapeAllCancelled(db: Db, jobId: Option<nat>, env: Env, now: int)
    ensures var r := ScrapeAll(db, jobId, env, now);
            r.outcome.Cancelled? ==> StatusKept(JobFor(db, jobId, now).0, r.db)
  {
    var (db1, id) := JobFor(db, jobId, now);
    if env.startFailure.None? && env.loginOk && env.discovery.Success? {
      CrawlDb(db1, id, env.discovery.value, env, now);
    }
  }

  /** A completed run counts every country, every university but the
      "ALL" entries, and every mapping found; the mapping table then holds
      exactly the rows this run inserted, since it was cleared first; and
      the job is completed with those counters. */
  lemma ScrapeAllCompleted(db: Db, jobId: Option<nat>, env: Env, now: int)
    requires Wf(db) && (jobId.Some? ==> GetJob(db, jobId.value).Some?)
    ensures var r := ScrapeAll(db, jobId, env, now);
            r.outcome.Completed? ==>
              env.discovery.Success?
              && r.outcome.totalCountries == |env.discovery.value|
              && r.outcome.totalUniversities == VisitedAll(env.discovery.value)
              && r.outcome.totalMappings == FoundAll(env.search, env.discovery.value)
              && |r.db.mappings| == r.outcome.totalMappings
              && GetJob(r.db, r.jobId).Some?
              && GetJob(r.db, r.jobId).value.status == "completed"
              && GetJob(r.db, r.jobId).value.completedCountries == r.outcome.totalCountries
              && GetJob(r.db, r.jobId).value.completedUniversities == r.outcome.totalUniversities
  {
    var (db1, id) := JobFor(db, jobId, now);
    if env.startFailure.None? && env.loginOk && env.discovery.Success? {
      CrawlDb(db1, id, env.discovery.value, env, now);
      CrawlCompletesJob(db1, id, env.discovery.value, env, now);
    }
  }

  /** `cancel`: the flag is raised and, when the run has a (non-zero) job
      id, the job is marked cancelled by the user. */
  function Cancel(db: Db, jobId: Option<nat>, now: int): (r: (bool, Db))
    ensures r.0
    ensures jobId.None? ==> r.1 == db
    ensures Wf(db) && jobId.Some? && jobId.value != 0 && GetJob(db, jobId.value).Some? ==>
              GetJob(r.1, jobId.value).Some? && GetJob(r.1, jobId.value).value.status == "cancelled"
              && GetJob(r.1, jobId.value).value.errorMessage == Some(CancelledByUser)
              && GetJob(r.1, jobId.value).value.completedAt == Some(now)
  {
    if jobId.Some? && jobId.value != 0 then
      var u := NoUpdate.(status := Some("cancelled"), errorMessage := Some(CancelledByUser));
      var db' := UpdateJob(db, jobId.value, u, now);
      assert Wf(db) && GetJob(db, jobId.value).Some? ==> GetJob(db', jobId.value) == Some(ApplyUpdate(GetJob(db, jobId.value).value, u, now)) by {
        if Wf(db) && GetJob(db, jobId.value).Some? {
          UpdateThenGet(db, jobId.value, u, now, GetJob(db, jobId.value).value);
        }
      }
      (true, db')
    else (true, db)
  }
}
