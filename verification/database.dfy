/** The SQLite store behind the admin crawl: countries, universities,
    module mappings and scrape jobs. Each table is a sequence of rows in
    insertion order, and every AUTOINCREMENT counter is explicit: it starts
    at 1, grows by one per inserted row and is never reset, so an id is
    never reused. `INSERT OR IGNORE` that hits a UNIQUE constraint is
    modelled as leaving the table and the counter alone; SQLite itself may
    take a new id before the constraint check and so leave a gap, which
    this numbering does not show. Timestamps are an integer clock passed
    in by the caller. */
module Database {
  import opened Wrappers
  import opened Text
  import opened ODicts
  import opened Seqs
  import opened Sorting
  import opened Records

  datatype Country = Country(id: nat, name: string)

  datatype University = University(id: nat, countryId: nat, name: string, dropdownValue: Option<string>)

  /** A stored row of `module_mappings`; every text column but the code may
      hold "" when the inserted record lacked it. */
  datatype StoredMapping = StoredMapping(
    id: nat, universityId: nat, code: string, name: string, kind: string,
    partnerCode: string, partnerName: string, academicUnits: string,
    status: string, approvalYear: string, semester: string)

  /** A row of `scrape_jobs`. */
  datatype Job = Job(
    id: nat, status: string,
    totalCountries: int, completedCountries: int,
    totalUniversities: int, completedUniversities: int,
    currentCountry: Option<string>, currentUniversity: Option<string>,
    startedAt: Option<int>, completedAt: Option<int>, errorMessage: Option<string>)

  datatype Db = Db(
    countries: seq<Country>, universities: seq<University>,
    mappings: seq<StoredMapping>, jobs: seq<Job>,
    nextCountry: nat, nextUniversity: nat, nextMapping: nat, nextJob: nat)

  /** A freshly created database file: empty tables, counters at 1. */
  const Empty: Db := Db([], [], [], [], 1, 1, 1, 1)

  /** Ids increase along the table and all lie below the table's counter. */
  predicate IdsFresh<T>(rows: seq<T>, id: T -> nat, next: nat) {
    (forall i, j :: 0 <= i < j < |rows| ==> id(rows[i]) < id(rows[j]))
    && forall i :: 0 <= i < |rows| ==> id(rows[i]) < next
  }

  /** The constraints the schema enforces: fresh primary keys, UNIQUE
      country names and UNIQUE (country_id, name) for universities. */
  predicate Wf(db: Db) {
    IdsFresh(db.countries, (c: Country) => c.id, db.nextCountry)
    && IdsFresh(db.universities, (u: University) => u.id, db.nextUniversity)
    && IdsFresh(db.mappings, (m: StoredMapping) => m.id, db.nextMapping)
    && IdsFresh(db.jobs, (j: Job) => j.id, db.nextJob)
    && (forall i, j :: 0 <= i < j < |db.countries| ==> db.countries[i].name != db.countries[j].name)
    && (forall i, j :: 0 <= i < j < |db.universities| ==>
          (db.universities[i].countryId, db.universities[i].name) != (db.universities[j].countryId, db.universities[j].name))
  }

  lemma EmptyWf()
    ensures Wf(Empty)
  {
  }

  lemma IdsFreshSnoc<T>(rows: seq<T>, id: T -> nat, next: nat, x: T)
    requires IdsFresh(rows, id, next) && id(x) == next
    ensures IdsFresh(rows + [x], id, next + 1)
  {
  }

  // ---------------------------------------------------------------------
  // Countries and universities

  /** `get_country_id`: the id of the row named `name`, if any. */
  function CountryId(db: Db, name: string): (r: Option<nat>)
    ensures r.Some? <==> exists i :: 0 <= i < |db.countries| && db.countries[i].name == name
    ensures r.Some? ==> exists i :: 0 <= i < |db.countries| && db.countries[i] == Country(r.value, name)
  {
    match FirstIndex(db.countries, (c: Country) => c.name == name)
    case None => None
    case Some(i) => Some(db.countries[i].id)
  }

  /** `insert_country`: an existing name returns its id and changes
      nothing; a new name gets the next id. Either way the name then looks
      up to the returned id, no other name's lookup changes, and the
      schema's constraints still hold. */
  function InsertCountry(db: Db, name: string): (r: (Db, nat))
    ensures CountryId(r.0, name) == Some(r.1)
    ensures CountryId(db, name).Some? ==> r == (db, CountryId(db, name).value)
    ensures forall n :: n != name ==> CountryId(r.0, n) == CountryId(db, n)
    ensures Wf(db) ==> Wf(r.0)
    ensures Wf(db) && CountryId(db, name).None? ==> forall i :: 0 <= i < |db.countries| ==> db.countries[i].id != r.1
    ensures r.0.universities == db.universities && r.0.mappings == db.mappings && r.0.jobs == db.jobs
  {
    match FirstIndex(db.countries, (c: Country) => c.name == name)
    case Some(i) => (db, db.countries[i].id)
    case None =>
      var row := Country(db.nextCountry, name);
      var db' := db.(countries := db.countries + [row], nextCountry := db.nextCountry + 1);
      assert db'.countries[|db.countries|] == row;
      FirstIndexSnoc(db.countries, row, (c: Country) => c.name == name);
      forall n | n != name ensures CountryId(db', n) == CountryId(db, n) {
        FirstIndexSnoc(db.countries, row, (c: Country) => c.name == n);
      }
      assert Wf(db) ==> Wf(db') by {
        if Wf(db) {
          IdsFreshSnoc(db.countries, (c: Country) => c.id, db.nextCountry, row);
        }
      }
      (db', db.nextCountry)
  }

  /** The id of the university `name` under `countryId`, if any. */
  function UniversityId(db: Db, countryId: nat, name: string): (r: Option<nat>)
    ensures r.Some? <==> exists i :: 0 <= i < |db.universities| && db.universities[i].countryId == countryId && db.universities[i].name == name
    ensures r.Some? ==> exists i :: 0 <= i < |db.universities| && db.universities[i].id == r.value
                                     && db.universities[i].countryId == countryId && db.universities[i].name == name
  {
    match FirstIndex(db.universities, (u: University) => u.countryId == countryId && u.name == name)
    case None => None
    case Some(i) => Some(db.universities[i].id)
  }

  /** `insert_university`: unique per (country id, name); a repeat returns
      the existing id and leaves the table, including the stored dropdown
      value, as it was. The country id is not checked against the
      countries table (SQLite does not enforce foreign keys by default). */
  function InsertUniversity(db: Db, countryId: nat, name: string, dropdown: Option<string>): (r: (Db, nat))
    ensures UniversityId(r.0, countryId, name) == Some(r.1)
    ensures UniversityId(db, countryId, name).Some? ==> r == (db, UniversityId(db, countryId, name).value)
    ensures forall c: nat, n :: (c, n) != (countryId, name) ==> UniversityId(r.0, c, n) == UniversityId(db, c, n)
    ensures Wf(db) ==> Wf(r.0)
    ensures r.0.countries == db.countries && r.0.mappings == db.mappings && r.0.jobs == db.jobs
  {
    match FirstIndex(db.universities, (u: University) => u.countryId == countryId && u.name == name)
    case Some(i) => (db, db.universities[i].id)
    case None =>
      var row := University(db.nextUniversity, countryId, name, dropdown);
      var db' := db.(universities := db.universities + [row], nextUniversity := db.nextUniversity + 1);
      assert db'.universities[|db.universities|] == row;
      FirstIndexSnoc(db.universities, row, (u: University) => u.countryId == countryId && u.name == name);
      forall c: nat, n | (c, n) != (countryId, name) ensures UniversityId(db', c, n) == UniversityId(db, c, n) {
        FirstIndexSnoc(db.universities, row, (u: University) => u.countryId == c && u.name == n);
      }
      assert Wf(db) ==> Wf(db') by {
        if Wf(db) {
          IdsFreshSnoc(db.universities, (u: University) => u.id, db.nextUniversity, row);
        }
      }
      (db', db.nextUniversity)
  }

  // ---------------------------------------------------------------------
  // Module mappings

  /** `m.get(k, '')` on a scraped record whose values are all text. */
  function Field(m: map<string, string>, k: string): (r: string)
    ensures k !in m ==> r == ""
  {
    if k in m then m[k] else ""
  }

  /** The code column: `ntu_module`, else `ntu_module_code`, else "". */
  function CodeOf(m: map<string, string>): (r: string)
    ensures "ntu_module" in m ==> r == m["ntu_module"]
    ensures "ntu_module" !in m ==> r == Field(m, "ntu_module_code")
  {
    if "ntu_module" in m then m["ntu_module"] else Field(m, "ntu_module_code")
  }

  function RowOf(id: nat, universityId: nat, m: map<string, string>): StoredMapping {
    StoredMapping(id, universityId, CodeOf(m), Field(m, "ntu_module_name"), Field(m, "ntu_module_type"),
                  Field(m, "partner_module_code"), Field(m, "partner_module_name"), Field(m, "academic_units"),
                  Field(m, "status"), Field(m, "approval_year"), Field(m, "semester"))
  }

  /** The rows for a batch of records, with consecutive ids from `next`. */
  function NewRows(next: nat, universityId: nat, ms: seq<map<string, string>>): (rows: seq<StoredMapping>)
    ensures |rows| == |ms|
    ensures forall i :: 0 <= i < |ms| ==> rows[i].id == next + i && rows[i].universityId == universityId
    ensures forall i :: 0 <= i < |ms| ==> rows[i].code == CodeOf(ms[i]) && rows[i].status == Field(ms[i], "status")
  {
    seq(|ms|, i requires 0 <= i < |ms| => RowOf(next + i, universityId, ms[i]))
  }

  lemma IdsFreshAppend(rows: seq<StoredMapping>, next: nat, extra: seq<StoredMapping>)
    requires IdsFresh(rows, (m: StoredMapping) => m.id, next)
    requires forall i :: 0 <= i < |extra| ==> extra[i].id == next + i
    ensures IdsFresh(rows + extra, (m: StoredMapping) => m.id, next + |extra|)
  {
    var all := rows + extra;
    assert forall i :: 0 <= i < |all| ==> all[i].id == if i < |rows| then rows[i].id else next + (i - |rows|);
  }

  /** `insert_mappings_bulk`: one row per record, appended in order with
      consecutive fresh ids, and the count of records returned; an empty
      list returns 0 and touches nothing. */
  function InsertMappingsBulk(db: Db, universityId: nat, ms: seq<map<string, string>>): (r: (Db, nat))
    ensures r.1 == |ms|
    ensures |ms| == 0 ==> r.0 == db
    ensures |r.0.mappings| == |db.mappings| + |ms| && r.0.mappings[..|db.mappings|] == db.mappings
    ensures forall i :: 0 <= i < |ms| ==>
              r.0.mappings[|db.mappings| + i].universityId == universityId &&
              r.0.mappings[|db.mappings| + i].code == CodeOf(ms[i]) &&
              r.0.mappings[|db.mappings| + i].status == Field(ms[i], "status")
    ensures IsPopulated(r.0) <==> IsPopulated(db) || |ms| > 0
    ensures Wf(db) ==> Wf(r.0)
    ensures r.0.countries == db.countries && r.0.universities == db.universities && r.0.jobs == db.jobs
  {
    if |ms| == 0 then (db, 0)
    else
      var rows := NewRows(db.nextMapping, universityId, ms);
      var all := db.mappings + rows;
      assert all[..|db.mappings|] == db.mappings;
      assert forall i :: 0 <= i < |ms| ==> all[|db.mappings| + i] == rows[i];
      var db' := db.(mappings := all, nextMapping := db.nextMapping + |ms|);
      assert Wf(db) ==> Wf(db') by {
        if Wf(db) {
          IdsFreshAppend(db.mappings, db.nextMapping, rows);
        }
      }
      (db', |ms|)
  }

  /** `is_populated`: at least one mapping row exists. */
  predicate IsPopulated(db: Db) {
    |db.mappings| > 0
  }

  // ---------------------------------------------------------------------
  // The lookup query of `get_mappings_by_modules`

  /** A mapping row joined with its university's and country's names. */
  datatype Joined = Joined(country: string, university: string, row: StoredMapping)

  function UniversityById(db: Db, id: nat): Option<University> {
    match FirstIndex(db.universities, (u: University) => u.id == id)
    case None => None
    case Some(i) => Some(db.universities[i])
  }

  function CountryById(db: Db, id: nat): Option<Country> {
    match FirstIndex(db.countries, (c: Country) => c.id == id)
    case None => None
    case Some(i) => Some(db.countries[i])
  }

  /** The inner join of one mapping row; a row whose university or
      country is gone drops out. */
  function JoinRow(db: Db, row: StoredMapping): Option<Joined> {
    match UniversityById(db, row.universityId)
    case None => None
    case Some(u) =>
      match CountryById(db, u.countryId)
      case None => None
      case Some(c) => Some(Joined(c.name, u.name, row))
  }

  function JoinAll(db: Db): seq<Joined> {
    Collect(db.mappings, (row: StoredMapping) => JoinRow(db, row))
  }

  /** The WHERE clause: the upper-cased code is among the upper-cased
      requested codes and, when a country list is given, the country is
      in it. */
  predicate Selected(j: Joined, codes: seq<string>, countries: seq<string>) {
    (exists c :: c in codes && Upper(c) == Upper(j.row.code))
    && (|countries| == 0 || j.country in countries)
  }

  /** ORDER BY country, university, code. */
  function QueryKey(j: Joined): Key {
    [Str(j.country), Str(j.university), Str(j.row.code)]
  }

  function Query(db: Db, codes: seq<string>, countries: seq<string>): seq<Joined> {
    SortBy(Filter(JoinAll(db), (j: Joined) => Selected(j, codes, countries)), QueryKey)
  }

  /** The result key of a university: `f"{country}_{university}"`. */
  function UniKey(j: Joined): string {
    j.country + "_" + j.university
  }

  function CodeKey(j: Joined): string {
    Upper(j.row.code)
  }

  /** The record handed back for a row. */
  function ToMapping(j: Joined): Mapping {
    Mapping(j.row.code, j.row.name, j.row.kind, j.row.partnerCode, j.row.partnerName,
            j.row.academicUnits, j.row.status, j.row.approvalYear, j.row.semester, None, None)
  }

  function ToMappings(js: seq<Joined>): (r: seq<Mapping>)
    ensures |r| == |js| && forall i :: 0 <= i < |js| ==> r[i] == ToMapping(js[i])
  {
    seq(|js|, i requires 0 <= i < |js| => ToMapping(js[i]))
  }

  datatype UniResult = UniResult(country: string, university: string, mappings: ODict<string, seq<Mapping>>)

  /** One university's entry: names from its first row, mappings grouped
      by upper-cased code in row order. */
  function Summarise(key: string, js: seq<Joined>): UniResult {
    if |js| == 0 then UniResult("", "", [])
    else UniResult(js[0].country, js[0].university,
                   MapValues(GroupBy(js, CodeKey), (c: string, g: seq<Joined>) => ToMappings(g)))
  }

  /** `get_mappings_by_modules`: the loop over the sorted rows that fills
      `results[uni_key]['mappings'][code]` is a two-level group-by: a key
      enters each dictionary at its first row, and lists keep row order. */
  function GetMappingsByModules(db: Db, codes: seq<string>, countries: seq<string>): ODict<string, UniResult> {
    MapValues(GroupBy(Query(db, codes, countries), UniKey), Summarise)
  }

  lemma QueryMember(db: Db, codes: seq<string>, countries: seq<string>, j: Joined)
    ensures j in Query(db, codes, countries) <==> j in JoinAll(db) && Selected(j, codes, countries)
  {
    var f := Filter(JoinAll(db), (j: Joined) => Selected(j, codes, countries));
    var q := Query(db, codes, countries);
    assert multiset(q) == multiset(f);
    assert j in q <==> j in multiset(q);
    assert j in f <==> j in multiset(f);
  }

  /** The entry of one university key: the summary of its rows. */
  lemma UniGroup(db: Db, codes: seq<string>, countries: seq<string>, k: string)
    ensures Get(GetMappingsByModules(db, codes, countries), k).Some? <==> Having(Query(db, codes, countries), UniKey, k) != []
    ensures Having(Query(db, codes, countries), UniKey, k) != [] ==>
              Get(GetMappingsByModules(db, codes, countries), k) == Some(Summarise(k, Having(Query(db, codes, countries), UniKey, k)))
  {
    var q := Query(db, codes, countries);
    GroupByGet(q, UniKey, k);
    MapValuesGet(GroupBy(q, UniKey), Summarise, k);
  }

  /** The list of one code inside a university summary: the records of its
      rows. */
  lemma CodeGroup(k: string, js: seq<Joined>, c: string)
    requires js != []
    ensures Get(Summarise(k, js).mappings, c).Some? <==> Having(js, CodeKey, c) != []
    ensures Having(js, CodeKey, c) != [] ==> Get(Summarise(k, js).mappings, c) == Some(ToMappings(Having(js, CodeKey, c)))
  {
    var inner := (c': string, g: seq<Joined>) => ToMappings(g);
    GroupByGet(js, CodeKey, c);
    MapValuesGet(GroupBy(js, CodeKey), inner, c);
  }

  /** Every selected row appears: under its university key and its
      upper-cased code, the list holds its record. */
  lemma GetMappingsByModulesComplete(db: Db, codes: seq<string>, countries: seq<string>, j: Joined)
    requires j in JoinAll(db) && Selected(j, codes, countries)
    ensures Get(GetMappingsByModules(db, codes, countries), UniKey(j)).Some?
    ensures var res := Get(GetMappingsByModules(db, codes, countries), UniKey(j)).value;
            Get(res.mappings, CodeKey(j)).Some? && ToMapping(j) in Get(res.mappings, CodeKey(j)).value
  {
    QueryMember(db, codes, countries, j);
    var outer := Having(Query(db, codes, countries), UniKey, UniKey(j));
    assert j in outer;
    UniGroup(db, codes, countries, UniKey(j));
    var rows := Having(outer, CodeKey, CodeKey(j));
    assert j in rows;
    CodeGroup(UniKey(j), outer, CodeKey(j));
    var i :| 0 <= i < |rows| && rows[i] == j;
    assert ToMappings(rows)[i] == ToMapping(j);
  }

  /** Nothing else appears: every record in the result comes from a
      selected row with that university key and upper-cased code. */
  lemma GetMappingsByModulesSound(db: Db, codes: seq<string>, countries: seq<string>,
                                  k: string, c: string, res: UniResult, ms: seq<Mapping>, m: Mapping)
    requires Get(GetMappingsByModules(db, codes, countries), k) == Some(res)
    requires Get(res.mappings, c) == Some(ms) && m in ms
    ensures exists j :: j in JoinAll(db) && Selected(j, codes, countries) && UniKey(j) == k && CodeKey(j) == c && ToMapping(j) == m
  {
    var outer := Having(Query(db, codes, countries), UniKey, k);
    UniGroup(db, codes, countries, k);
    assert res == Summarise(k, outer);
    var rows := Having(outer, CodeKey, c);
    CodeGroup(k, outer, c);
    assert ms == ToMappings(rows);
    var i :| 0 <= i < |ms| && ms[i] == m;
    var j := rows[i];
    assert ToMapping(j) == m;
    assert j in rows;
    assert j in outer && CodeKey(j) == c;
    assert j in Query(db, codes, countries) && UniKey(j) == k;
    QueryMember(db, codes, countries, j);
  }

  /** Each university entry carries the names its key was built from. */
  lemma GetMappingsByModulesNames(db: Db, codes: seq<string>, countries: seq<string>, k: string, res: UniResult)
    requires Get(GetMappingsByModules(db, codes, countries), k) == Some(res)
    ensures res.country + "_" + res.university == k
  {
    var outer := Having(Query(db, codes, countries), UniKey, k);
    UniGroup(db, codes, countries, k);
    assert outer[0] in outer;
  }

  // ---------------------------------------------------------------------
  // Scrape jobs

  predicate IsRunning(j: Job) {
    j.status == "running"
  }

  predicate Terminal(status: string) {
    status == "completed" || status == "failed" || status == "cancelled"
  }

  /** `create_scrape_job`: a new row, status 'running', started now, every
      counter 0; its id is fresh. */
  function CreateJob(db: Db, now: int): (r: (Db, nat))
    ensures Wf(db) ==> GetJob(r.0, r.1) == Some(Job(r.1, "running", 0, 0, 0, 0, None, None, Some(now), None, None))
    ensures Wf(db) ==> Wf(r.0) && forall i :: 0 <= i < |db.jobs| ==> db.jobs[i].id != r.1
    ensures |r.0.jobs| == |db.jobs| + 1 && r.0.jobs[..|db.jobs|] == db.jobs
    ensures r.0.countries == db.countries && r.0.universities == db.universities && r.0.mappings == db.mappings
  {
    var job := Job(db.nextJob, "running", 0, 0, 0, 0, None, None, Some(now), None, None);
    var db' := db.(jobs := db.jobs + [job], nextJob := db.nextJob + 1);
    assert db'.jobs[|db.jobs|] == job;
    assert db'.jobs[..|db.jobs|] == db.jobs;
    assert Wf(db) ==> Wf(db') by {
      if Wf(db) {
        IdsFreshSnoc(db.jobs, (j: Job) => j.id, db.nextJob, job);
      }
    }
    (db', db.nextJob)
  }

  /** `get_scrape_job` */
  function GetJob(db: Db, id: nat): (r: Option<Job>)
    ensures r.Some? <==> exists i :: 0 <= i < |db.jobs| && db.jobs[i].id == id
    ensures r.Some? ==> r.value.id == id && r.value in db.jobs
  {
    match FirstIndex(db.jobs, (j: Job) => j.id == id)
    case None => None
    case Some(i) => Some(db.jobs[i])
  }

  /** The keyword arguments of `update_scrape_job`; None leaves a column
      as it is. */
  datatype JobUpdate = JobUpdate(
    totalCountries: Option<int>, completedCountries: Option<int>,
    totalUniversities: Option<int>, completedUniversities: Option<int>,
    currentCountry: Option<string>, currentUniversity: Option<string>,
    status: Option<string>, errorMessage: Option<string>)

  const NoUpdate: JobUpdate := JobUpdate(None, None, None, None, None, None, None, None)

  /** A column after an update: the given value, or the old one. */
  predicate Overrides<T(==)>(given: Option<T>, before: T, after: T) {
    after == given.GetOr(before)
  }

  /** One job row after `update_scrape_job`: every passed column takes its
      value, every other column keeps its own, and completed_at becomes
      `now` exactly when the new status is terminal, whatever the old
      status was. With nothing passed the row is untouched. */
  function ApplyUpdate(j: Job, u: JobUpdate, now: int): (r: Job)
    ensures r.id == j.id && r.startedAt == j.startedAt
    ensures Overrides(u.status, j.status, r.status)
    ensures Overrides(u.totalCountries, j.totalCountries, r.totalCountries)
    ensures Overrides(u.completedCountries, j.completedCountries, r.completedCountries)
    ensures Overrides(u.totalUniversities, j.totalUniversities, r.totalUniversities)
    ensures Overrides(u.completedUniversities, j.completedUniversities, r.completedUniversities)
    ensures u.currentCountry.Some? ==> r.currentCountry == u.currentCountry
    ensures u.currentCountry.None? ==> r.currentCountry == j.currentCountry
    ensures u.currentUniversity.Some? ==> r.currentUniversity == u.currentUniversity
    ensures u.currentUniversity.None? ==> r.currentUniversity == j.currentUniversity
    ensures u.errorMessage.Some? ==> r.errorMessage == u.errorMessage
    ensures u.errorMessage.None? ==> r.errorMessage == j.errorMessage
    ensures r.completedAt != j.completedAt ==> u.status.Some? && Terminal(u.status.value)
    ensures u.status.Some? && Terminal(u.status.value) ==> r.completedAt == Some(now)
    ensures u == NoUpdate ==> r == j
  {
    j.(totalCountries := u.totalCountries.GetOr(j.totalCountries),
       completedCountries := u.completedCountries.GetOr(j.completedCountries),
       totalUniversities := u.totalUniversities.GetOr(j.totalUniversities),
       completedUniversities := u.completedUniversities.GetOr(j.completedUniversities),
       currentCountry := if u.currentCountry.Some? then u.currentCountry else j.currentCountry,
       currentUniversity := if u.currentUniversity.Some? then u.currentUniversity else j.currentUniversity,
       status := u.status.GetOr(j.status),
       completedAt := if u.status.Some? && Terminal(u.status.value) then Some(now) else j.completedAt,
       errorMessage := if u.errorMessage.Some? then u.errorMessage else j.errorMessage)
  }

  /** `update_scrape_job`: the row with that id is updated; every other
      row and table is unchanged; an unknown id changes nothing. */
  function UpdateJob(db: Db, id: nat, u: JobUpdate, now: int): (r: Db)
    ensures |r.jobs| == |db.jobs|
    ensures forall i :: 0 <= i < |db.jobs| && db.jobs[i].id != id ==> r.jobs[i] == db.jobs[i]
    ensures forall i :: 0 <= i < |db.jobs| && db.jobs[i].id == id ==> r.jobs[i] == ApplyUpdate(db.jobs[i], u, now)
    ensures GetJob(db, id).None? ==> r == db
    ensures Wf(db) ==> Wf(r)
    ensures r.countries == db.countries && r.universities == db.universities && r.mappings == db.mappings
    ensures r.nextJob == db.nextJob
  {
    var jobs := seq(|db.jobs|, i requires 0 <= i < |db.jobs| =>
                      if db.jobs[i].id == id then ApplyUpdate(db.jobs[i], u, now) else db.jobs[i]);
    assert GetJob(db, id).None? ==> jobs == db.jobs;
    db.(jobs := jobs)
  }

  /** Reading a job back after updating it gives the updated row. */
  lemma UpdateThenGet(db: Db, id: nat, u: JobUpdate, now: int, j: Job)
    requires Wf(db) && GetJob(db, id) == Some(j)
    ensures GetJob(UpdateJob(db, id, u, now), id) == Some(ApplyUpdate(j, u, now))
  {
    var r := UpdateJob(db, id, u, now);
    var i :| 0 <= i < |db.jobs| && db.jobs[i] == j;
    forall k | 0 <= k < |r.jobs| && r.jobs[k].id == id ensures k == i {
      assert db.jobs[k].id == id;
    }
    assert r.jobs[i] == ApplyUpdate(j, u, now);
  }

  /** `get_latest_scrape_job`: the row with the highest id. */
  function LatestJob(db: Db): (r: Option<Job>)
    ensures r.Some? <==> |db.jobs| > 0
    ensures r.Some? ==> r.value in db.jobs
    ensures r.Some? && Wf(db) ==> forall i :: 0 <= i < |db.jobs| ==> db.jobs[i].id <= r.value.id
  {
    if |db.jobs| == 0 then None
    else
      assert Wf(db) ==> forall i :: 0 <= i < |db.jobs| - 1 ==> db.jobs[i].id < db.jobs[|db.jobs| - 1].id;
      Some(db.jobs[|db.jobs| - 1])
  }

  function LastRunning(jobs: seq<Job>): (r: Option<nat>)
    ensures r.Some? ==> r.value < |jobs| && IsRunning(jobs[r.value]) && forall k :: r.value < k < |jobs| ==> !IsRunning(jobs[k])
    ensures r.None? ==> forall k :: 0 <= k < |jobs| ==> !IsRunning(jobs[k])
  {
    if |jobs| == 0 then None
    else if IsRunning(jobs[|jobs| - 1]) then Some(|jobs| - 1)
    else LastRunning(jobs[..|jobs| - 1])
  }

  /** `get_running_scrape_job`: the running job with the highest id. */
  function RunningJob(db: Db): (r: Option<Job>)
    ensures r.None? <==> forall i :: 0 <= i < |db.jobs| ==> !IsRunning(db.jobs[i])
    ensures r.Some? ==> IsRunning(r.value) && r.value in db.jobs
    ensures r.Some? && Wf(db) ==> forall i :: 0 <= i < |db.jobs| && IsRunning(db.jobs[i]) ==> db.jobs[i].id <= r.value.id
  {
    match LastRunning(db.jobs)
    case None => None
    case Some(i) =>
      assert Wf(db) ==> forall k :: 0 <= k < i ==> db.jobs[k].id < db.jobs[i].id;
      Some(db.jobs[i])
  }

  const StaleMessage: string := "Force cancelled - server restarted or process died"

  function CancelStale(j: Job, now: int): Job {
    j.(status := "cancelled", errorMessage := Some(StaleMessage), completedAt := Some(now))
  }

  /** `force_cancel_stale_jobs`: every running job becomes cancelled with
      the stale message and completed now, every other job is unchanged,
      the count of changed rows is returned, and afterwards nothing runs. */
  function ForceCancelStale(db: Db, now: int): (r: (Db, nat))
    ensures |r.0.jobs| == |db.jobs|
    ensures forall i :: 0 <= i < |db.jobs| && IsRunning(db.jobs[i]) ==>
              r.0.jobs[i] == ApplyUpdate(db.jobs[i], NoUpdate.(status := Some("cancelled"), errorMessage := Some(StaleMessage)), now)
    ensures forall i :: 0 <= i < |db.jobs| && !IsRunning(db.jobs[i]) ==> r.0.jobs[i] == db.jobs[i]
    ensures r.1 == CountIf(db.jobs, IsRunning)
    ensures RunningJob(r.0).None?
    ensures Wf(db) ==> Wf(r.0)
    ensures r.0.countries == db.countries && r.0.universities == db.universities && r.0.mappings == db.mappings
  {
    var jobs := seq(|db.jobs|, i requires 0 <= i < |db.jobs| =>
                      if IsRunning(db.jobs[i]) then CancelStale(db.jobs[i], now) else db.jobs[i]);
    (db.(jobs := jobs), CountIf(db.jobs, IsRunning))
  }

  lemma {:induction false} CountIfNone<T>(xs: seq<T>, p: T -> bool)
    requires forall i :: 0 <= i < |xs| ==> !p(xs[i])
    ensures CountIf(xs, p) == 0
  {
    if |xs| > 0 {
      CountIfNone(xs[..|xs| - 1], p);
    }
  }

  /** A second forced cancellation finds nothing to do. */
  lemma ForceCancelStaleTwice(db: Db, now: int, later: int)
    ensures ForceCancelStale(ForceCancelStale(db, now).0, later) == (ForceCancelStale(db, now).0, 0)
  {
    var d1 := ForceCancelStale(db, now).0;
    CountIfNone(d1.jobs, IsRunning);
    assert ForceCancelStale(d1, later).0.jobs == d1.jobs;
  }

  // ---------------------------------------------------------------------
  // Cleanup and statistics

  /** `clear_all_data`: the three data tables are emptied; the job history
      and every counter survive, so no id is ever reused. */
  function ClearAllData(db: Db): (r: Db)
    ensures !IsPopulated(r)
    ensures forall n :: CountryId(r, n).None?
    ensures r.jobs == db.jobs && LatestJob(r) == LatestJob(db)
    ensures r.nextCountry == db.nextCountry && r.nextUniversity == db.nextUniversity && r.nextMapping == db.nextMapping
    ensures Wf(db) ==> Wf(r)
  {
    db.(countries := [], universities := [], mappings := [])
  }

  /** The part of `get_database_stats` the model keeps. */
  datatype Stats = Stats(populated: bool, totalCountries: nat, totalUniversities: nat,
                         totalMappings: nat, uniqueModules: nat, lastScrape: Option<int>)

  /** `get_database_stats`: last_scrape is the latest job's completion
      time, and only when that job completed; unique_modules counts
      distinct codes as stored (case-sensitive). */
  function DatabaseStats(db: Db): (r: Stats)
    ensures r.populated <==> IsPopulated(db)
    ensures r.lastScrape.Some? ==> LatestJob(db).Some? && LatestJob(db).value.status == "completed"
                                   && r.lastScrape == LatestJob(db).value.completedAt
    ensures LatestJob(db).Some? && LatestJob(db).value.status == "completed" ==> r.lastScrape == LatestJob(db).value.completedAt
    ensures r.uniqueModules <= r.totalMappings
    ensures r.uniqueModules > 0 <==> IsPopulated(db)
  {
    var codes := seq(|db.mappings|, i requires 0 <= i < |db.mappings| => db.mappings[i].code);
    var distinct := Dedup(codes);
    assert |db.mappings| > 0 ==> codes[0] in distinct;
    var last := LatestJob(db);
    Stats(|db.mappings| > 0, |db.countries|, |db.universities|, |db.mappings|, |distinct|,
          if last.Some? && last.value.status == "completed" then last.value.completedAt else None)
  }
}
