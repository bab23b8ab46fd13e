/** The older HTTP form scraper of the course-matching portal: one request
    per (module, university) pair. The HTTP exchange is an oracle; what is
    modelled is how a response becomes mappings and how the grid of
    searches is laid out. */
module NtuMapper {
  import opened Wrappers
  import opened Text
  import opened ODicts
  import opened Seqs
  import opened Records
  import PortalScraper
  import Backoff

  /** The approval years this scraper accepts. */
  const ApprovedYears: seq<string> := ["2024", "2025"]

  /** What one search request yields: an exception (network error, HTTP
      error status), or a page whose first table, if any, is given as its
      rows of stripped cell texts, header row included. */
  datatype Response = Raised | Page(table: Option<seq<seq<string>>>)

  /** `status.lower() == 'approved'`: an exact comparison, stricter than
      the substring test of the browser scraper. */
  predicate ApprovedExactly(status: string) {
    Lower(status) == "approved"
  }

  predicate RecentYear(year: string) {
    exists y :: y in ApprovedYears && Contains(year, y)
  }

  /** One table row: at least six cells, status exactly approved, and a
      year containing 2024 or 2025. Missing keys of the record are "". */
  function ParseRow(cols: seq<string>): (r: Option<Mapping>)
    ensures r.Some? <==> |cols| >= 6 && ApprovedExactly(cols[4]) && RecentYear(cols[5])
    ensures r.Some? ==> r.value.ntuModule == cols[0] && r.value.partnerCode == cols[1]
                        && r.value.university == Some(cols[3]) && r.value.approvalYear == cols[5]
    ensures r.Some? ==> PortalScraper.Approved(r.value.status) && PortalScraper.Recent(r.value.approvalYear, ApprovedYears)
  {
    if |cols| >= 6 && ApprovedExactly(cols[4]) && RecentYear(cols[5]) then
      assert StartsWith(Lower(cols[4]), "approved");
      Some(Mapping(cols[0], "", "", cols[1], cols[2], "", cols[4], cols[5], "", Some(cols[3]), None))
    else None
  }

  /** `search_module_mapping`: the accepted rows after the header, or []
      when the request raised or the page has no table. */
  function SearchModuleMapping(resp: Response): seq<Mapping>
  {
    match resp
    case Raised => []
    case Page(None) => []
    case Page(Some(rows)) => if |rows| == 0 then [] else Collect(rows[1..], ParseRow)
  }

  /** A mapping is returned exactly when some row after the header is
      accepted and yields it; a raised request or a missing table returns
      nothing. */
  lemma SearchModuleMappingMember(resp: Response, m: Mapping)
    ensures m in SearchModuleMapping(resp) <==>
              resp.Page? && resp.table.Some? &&
              exists k :: 1 <= k < |resp.table.value| && ParseRow(resp.table.value[k]) == Some(m)
  {
    if resp.Page? && resp.table.Some? && |resp.table.value| > 0 {
      var rows := resp.table.value;
      CollectMember(rows[1..], ParseRow, m);
      assert forall k :: 1 <= k < |rows| ==> rows[1..][k - 1] == rows[k];
      if m in SearchModuleMapping(resp) {
        var k :| 0 <= k < |rows[1..]| && ParseRow(rows[1..][k]) == Some(m);
        assert ParseRow(rows[k + 1]) == Some(m);
      }
    }
  }

  /** `retry_search`: since the search swallows every exception, the first
      attempt's result is returned, with no pause. With no attempt allowed
      the loop never runs and the method falls off its end, so the result
      is None rather than an empty list. */
  method RetrySearch(responses: nat -> Response, maxRetries: nat) returns (r: Option<seq<Mapping>>, pauses: seq<nat>)
    ensures maxRetries > 0 ==> r == Some(SearchModuleMapping(responses(0))) && pauses == []
    ensures maxRetries == 0 ==> r.None? && pauses == []
  {
    var attempt := (a: nat) => Some(Some(SearchModuleMapping(responses(a))));
    r, pauses := Backoff.Retry(attempt, maxRetries, None);
  }

  /** One university's module dictionary: each module, as given, mapped to
      its search result; a repeated module is searched again and keeps its
      first position. */
  function ModuleResults(name: string, modules: seq<string>, search: (string, string) -> seq<Mapping>): (r: ODict<string, seq<Mapping>>)
  {
    FromPairs(seq(|modules|, i requires 0 <= i < |modules| => (modules[i], search(modules[i], name))))
  }

  /** Every module has an entry holding its search result, and nothing
      else has one. */
  lemma ModuleResultsGet(name: string, modules: seq<string>, search: (string, string) -> seq<Mapping>, m: string)
    ensures Get(ModuleResults(name, modules, search), m).Some? <==> m in modules
    ensures m in modules ==> Get(ModuleResults(name, modules, search), m) == Some(search(m, name))
  {
    var ps := seq(|modules|, i requires 0 <= i < |modules| => (modules[i], search(modules[i], name)));
    FromPairsGet(ps, m);
    if m in modules {
      var i :| 0 <= i < |modules| && modules[i] == m;
      assert ps[i].0 == m;
    }
  }

  lemma ProductZero(a: nat, b: nat)
    ensures a * b == 0 <==> a == 0 || b == 0
  {
  }

  lemma SnocKeeps<T>(xs: seq<T>, x: T)
    ensures |xs + [x]| == |xs| + 1 && (xs + [x])[|xs|] == x
    ensures forall j :: 0 <= j < |xs| ==> (xs + [x])[j] == xs[j]
  {
  }

  /** `scrape_all_mappings`: every university gets a module dictionary
      with a list for every module, and |universities| × |modules| searches
      are made. The closing summary divides by that number, so with no
      university or no module the call raises `ZeroDivisionError` after the
      (empty) loop instead of returning. */
  method ScrapeAllMappings(unis: ODict<string, Uni>, modules: seq<string>, search: (string, string) -> seq<Mapping>)
    returns (r: Result<ODict<string, ODict<string, seq<Mapping>>>, string>, searches: nat)
    requires Valid(unis)
    ensures searches == |unis| * |modules|
    ensures r.Failure? <==> |unis| == 0 || |modules| == 0
    ensures r.Success? ==> Keys(r.value) == Keys(unis)
    ensures r.Success? ==> forall i :: 0 <= i < |unis| ==> r.value[i].1 == ModuleResults(unis[i].1.name, modules, search)
  {
    var data;
    data, searches := SearchAll(unis, modules, search);
    if searches == 0 {
      ProductZero(|unis|, |modules|);
      r := Failure("ZeroDivisionError: division by zero");
    } else {
      r := Success(data);
    }
  }

  /** The loop of `scrape_all_mappings`. */
  method SearchAll(unis: ODict<string, Uni>, modules: seq<string>, search: (string, string) -> seq<Mapping>)
    returns (data: ODict<string, ODict<string, seq<Mapping>>>, searches: nat)
    requires Valid(unis)
    ensures Keys(data) == Keys(unis)
    ensures forall i :: 0 <= i < |unis| ==> data[i].1 == ModuleResults(unis[i].1.name, modules, search)
    ensures searches == |unis| * |modules|
  {
    searches := |unis| * |modules|;
    data := [];
    for i := 0 to |unis|
      invariant |data| == i
      invariant forall j :: 0 <= j < i ==> data[j] == (unis[j].0, ModuleResults(unis[j].1.name, modules, search))
    {
      var id := unis[i].0;
      var inner := ModuleResults(unis[i].1.name, modules, search);
      assert id !in Keys(data) by {
        forall j | 0 <= j < i ensures Keys(data)[j] != id {
          assert unis[j].0 != unis[i].0;
        }
      }
      // `data[id] = inner` for an id not yet present appends it.
      assert Put(data, id, inner) == data + [(id, inner)] by { PutNew(data, id, inner); }
      SnocKeeps(data, (id, inner));
      data := data + [(id, inner)];
    }
    KeysPointwise(data, unis);
  }
}
