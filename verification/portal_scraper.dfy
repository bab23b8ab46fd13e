/** The course-matching portal crawl driven through a browser. The browser
    is an oracle: the option lists it shows, the result rows it renders,
    and whether a step fails, are inputs. What is modelled is what the
    scraper decides from those answers: which rows are approved mappings,
    which dropdown option is chosen, how results are grouped by module, and
    how the crawl resumes from its checkpoint. */
module PortalScraper {
  import opened Wrappers
  import opened Text
  import opened ODicts
  import opened Seqs
  import opened Records
  import Backoff

  // ---------------------------------------------------------------------
  // Session

  /** Whether a browser is attached and whether the scraper believes it is
      logged in. */
  datatype Session = Session(driver: bool, authenticated: bool)

  /** The session check made before every search: a session believed to be
      logged in is trusted without looking at the page; otherwise the
      outcome of a fresh login (`loginOk`) decides, and is remembered. */
  function CheckSession(s: Session, loginOk: bool): (r: (bool, Session))
    ensures s.authenticated ==> r.0 && r.1 == s
    ensures !s.authenticated ==> r.0 == loginOk && r.1 == s.(authenticated := loginOk)
    ensures r.1.authenticated == r.0 && r.1.driver == s.driver
  {
    if !s.authenticated then (loginOk, s.(authenticated := loginOk)) else (true, s)
  }

  /** Closing quits an attached browser and forgets the login, so the next
      session check has to log in again; without a browser nothing happens. */
  function Close(s: Session): (r: Session)
    ensures !r.driver
    ensures s.driver ==> !r.authenticated && forall ok :: CheckSession(r, ok).0 == ok
    ensures !s.driver ==> r == s
  {
    if s.driver then Session(false, false) else s
  }

  // ---------------------------------------------------------------------
  // Result rows

  /** A table cell as the browser reports it: its text, with surrounding
      whitespace already stripped as the scraper does with every cell, and
      its `colspan` attribute, if any. */
  datatype Cell = Cell(text: string, colspan: Option<string>)

  /** The nine stripped text fields of a result row, in column order: module code,
      module name, module type, partner code, partner name, academic units,
      status, approval year and semester. */
  datatype Fields = Fields(
    code: string, name: string, kind: string,
    partnerCode: string, partnerName: string, au: string,
    status: string, year: string, sem: string)

  /** `'approved' in status.lower()`: a substring test, not an equality. */
  predicate Approved(status: string) {
    Contains(Lower(status), "approved")
  }

  /** Some configured approval year occurs in the year cell. */
  predicate Recent(year: string, years: seq<string>) {
    exists y :: y in years && Contains(year, y)
  }

  /** The mapping a row's stripped fields describe, kept only when its
      status is approved and its year recent. Both the table reading and
      the page-source fallback go through this one test. */
  function Accept(f: Fields, years: seq<string>): (r: Option<Mapping>)
    ensures r.Some? <==> Approved(f.status) && Recent(f.year, years)
    ensures r.Some? ==> r.value.ntuModule == (f.code) && r.value.partnerCode == (f.partnerCode)
                        && r.value.status == (f.status) && r.value.approvalYear == (f.year)
  {
    var g := f;
    if Approved(g.status) && Recent(g.year, years) then
      Some(Mapping(g.code, g.name, g.kind, g.partnerCode, g.partnerName, g.au, g.status, g.year, g.sem, None, None))
    else None
  }

  /** The text of cell `i`, or "" past the end of the row. */
  function CellText(cols: seq<Cell>, i: nat): string {
    if i < |cols| then cols[i].text else ""
  }

  function RowFields(cols: seq<Cell>): Fields {
    Fields(CellText(cols, 0), CellText(cols, 1), CellText(cols, 2), CellText(cols, 3), CellText(cols, 4),
           CellText(cols, 5), CellText(cols, 6), CellText(cols, 7), CellText(cols, 8))
  }

  /** One rendered row: a data row has at least eight cells and a first
      cell spanning two columns; it yields a mapping when approved and
      recent. */
  function ParseRow(cols: seq<Cell>, years: seq<string>): (r: Option<Mapping>)
    ensures r.Some? <==> |cols| >= 8 && cols[0].colspan == Some("2")
                         && Approved(cols[6].text) && Recent(cols[7].text, years)
    ensures r.Some? ==> r.value.ntuModule == (cols[0].text) && r.value.status == (cols[6].text)
                        && r.value.approvalYear == (cols[7].text)
                        && r.value.semester == (if |cols| > 8 then (cols[8].text) else "")
  {
    if |cols| < 8 || cols[0].colspan != Some("2") then None
    else Accept(RowFields(cols), years)
  }

  /** A results page as the browser yields it: the rows read before reading
      stopped, whether it stopped on an error, and in that case the
      nine-field matches the page-source pattern finds (`None` when the
      page source cannot be read either). */
  datatype Listing = Listing(rows: seq<seq<Cell>>, interrupted: bool, source: Option<seq<Fields>>)

  function RowParser(years: seq<string>): seq<Cell> -> Option<Mapping> {
    cols => ParseRow(cols, years)
  }

  function FieldParser(years: seq<string>): Fields -> Option<Mapping> {
    f => Accept(f, years)
  }

  /** The matches of the page-source fallback, when the table scan was interrupted. */
  function Fallback(l: Listing): seq<Fields> {
    if l.interrupted && l.source.Some? then l.source.value else []
  }

  /** All mappings on a results page: the accepted rows read before an
      error, followed by the accepted fallback matches. */
  function ParseResults(l: Listing, years: seq<string>): seq<Mapping> {
    Collect(l.rows, RowParser(years)) + Collect(Fallback(l), FieldParser(years))
  }

  /** Every parsed mapping comes from an accepted row or an accepted
      fallback match, and so is approved and of a recent year. */
  lemma ParseResultsMember(l: Listing, years: seq<string>, m: Mapping)
    ensures m in ParseResults(l, years) <==>
              (exists k :: 0 <= k < |l.rows| && ParseRow(l.rows[k], years) == Some(m)) ||
              (exists k :: 0 <= k < |Fallback(l)| && Accept(Fallback(l)[k], years) == Some(m))
    ensures m in ParseResults(l, years) ==> Approved(m.status) && Recent(m.approvalYear, years)
  {
    CollectMember(l.rows, RowParser(years), m);
    CollectMember(Fallback(l), FieldParser(years), m);
  }

  // ---------------------------------------------------------------------
  // Grouping by module

  function ModuleKey(m: Mapping): string {
    Upper(m.ntuModule)
  }

  /** Results grouped under the upper-cased module code, in order; a
      mapping whose code is empty is dropped. */
  function GroupModules(ms: seq<Mapping>): ModuleGroups
  {
    if |ms| == 0 then []
    else
      var g := GroupModules(ms[..|ms| - 1]);
      var m := ms[|ms| - 1];
      if ModuleKey(m) != "" then Append(g, ModuleKey(m), m) else g
  }

  /** A module key is present iff it is non-empty and some mapping has it;
      its list is exactly those mappings, in result order. */
  lemma {:induction false} GroupModulesGet(ms: seq<Mapping>, k: string)
    ensures Get(GroupModules(ms), k).Some? <==> k != "" && Having(ms, ModuleKey, k) != []
    ensures k != "" && Having(ms, ModuleKey, k) != [] ==> Get(GroupModules(ms), k) == Some(Having(ms, ModuleKey, k))
  {
    if |ms| > 0 {
      var init := ms[..|ms| - 1];
      var m := ms[|ms| - 1];
      var g := GroupModules(init);
      GroupModulesGet(init, k);
      if ModuleKey(m) != "" {
        if ModuleKey(m) == k {
          AppendSame(g, k, m, Having(init, ModuleKey, k));
        } else {
          AppendOther(g, ModuleKey(m), m, k);
        }
      }
    }
  }

  lemma {:induction false} GroupModulesValid(ms: seq<Mapping>)
    ensures Valid(GroupModules(ms))
  {
    if |ms| > 0 {
      var init := ms[..|ms| - 1];
      var m := ms[|ms| - 1];
      GroupModulesValid(init);
      if ModuleKey(m) != "" {
        PutValid(GroupModules(init), ModuleKey(m), Get(GroupModules(init), ModuleKey(m)).GetOr([]) + [m]);
      }
    }
  }

  // ---------------------------------------------------------------------
  // Dropdown choices

  /** An option of the country dropdown. Option texts, here and in the
      university dropdown, are taken with surrounding whitespace already
      stripped, as the scraper reads them. */
  datatype CountryOption = CountryOption(value: string, text: string)

  predicate HasValue(o: CountryOption, v: string) {
    o.value == v
  }

  predicate TextMentions(o: CountryOption, country: string) {
    Contains(Lower(o.text), Lower(country))
  }

  /** The country option selected: the one whose value is the upper-cased
      country, else the first whose text mentions the country, else none
      (the search goes on with whatever the dropdown shows). */
  function SelectCountry(options: seq<CountryOption>, country: string): (r: Option<CountryOption>)
    ensures r.Some? ==> r.value in options
    ensures (exists i :: 0 <= i < |options| && HasValue(options[i], Upper(country))) ==>
              r.Some? && r.value.value == Upper(country)
    ensures r.None? <==> forall i :: 0 <= i < |options| ==> !HasValue(options[i], Upper(country)) && !TextMentions(options[i], country)
  {
    match FirstIndex(options, o => HasValue(o, Upper(country)))
    case Some(i) => Some(options[i])
    case None =>
      match FirstIndex(options, o => TextMentions(o, country))
      case Some(i) => Some(options[i])
      case None => None
  }

  /** The target name occurs in the option text, ignoring case. */
  predicate NameMatch(text: string, name: string) {
    Contains(Lower(text), Lower(name))
  }

  /** The first two words of the lower-cased target name. */
  function LeadWords(name: string): (ws: seq<string>)
    ensures |ws| <= 2
  {
    var ws := Words(Lower(name));
    if |ws| <= 2 then ws else ws[..2]
  }

  /** Each of the first two words of the target occurs in the option text,
      ignoring case. */
  predicate WordsMatch(text: string, name: string) {
    forall w :: w in LeadWords(name) ==> Contains(Lower(text), w)
  }

  /** The university option chosen for a search, as its text:
      the first option mentioning the whole name, else the first mentioning
      both of its first two words, else none. The placeholder option takes
      part like any other. */
  function ChooseUniversity(options: seq<string>, name: string): (r: Option<string>)
  {
    match FirstIndex(options, o => NameMatch(o, name))
    case Some(i) => Some(options[i])
    case None =>
      match FirstIndex(options, o => WordsMatch(o, name))
      case Some(i) => Some(options[i])
      case None => None
  }

  /** The choice is the first whole-name match when there is one, the
      first two-word match otherwise, and no choice at all exactly when no
      option matches either way. */
  lemma ChooseUniversitySpec(options: seq<string>, name: string)
    ensures ChooseUniversity(options, name).None? <==>
              forall i :: 0 <= i < |options| ==> !NameMatch(options[i], name) && !WordsMatch(options[i], name)
    ensures forall i :: 0 <= i < |options| && NameMatch(options[i], name) &&
                        (forall j :: 0 <= j < i ==> !NameMatch(options[j], name)) ==>
              ChooseUniversity(options, name) == Some(options[i])
    ensures ChooseUniversity(options, name).Some? ==>
              exists i :: 0 <= i < |options| && ChooseUniversity(options, name) == Some(options[i]) &&
                          (NameMatch(options[i], name) || WordsMatch(options[i], name))
  {
    var p := (o: string) => NameMatch(o, name);
    var first := FirstIndex(options, p);
    forall i | 0 <= i < |options| && NameMatch(options[i], name) &&
               (forall j :: 0 <= j < i ==> !NameMatch(options[j], name))
      ensures ChooseUniversity(options, name) == Some(options[i])
    {
      assert p(options[i]);
      assert first.Some?;
      assert p(options[first.value]);
      assert first.value == i;
    }
  }

  // ---------------------------------------------------------------------
  // One university search

  /** The browser's answers during one university search: the country
      dropdown (`None` when it never appears), the university dropdown shown
      after a country choice (`None` when it cannot be read), and the
      results page rendered for a chosen university (`None` when navigating,
      submitting or waiting fails). */
  datatype SearchPage = SearchPage(
    countryOptions: Option<seq<CountryOption>>,
    universityOptions: Option<CountryOption> -> Option<seq<string>>,
    results: string -> Option<Listing>)

  /** All mappings of one university grouped by module code. Every failure
      (an invalid session, a missing dropdown, no matching university, a
      failing results page) yields the empty grouping: the search never
      raises. */
  function SearchUniversity(sessionOk: bool, page: SearchPage, name: string, country: string, years: seq<string>): (r: ModuleGroups)
    ensures Valid(r)
    ensures r != [] ==> sessionOk && page.countryOptions.Some?
  {
    if !sessionOk then []
    else match page.countryOptions
    case None => []
    case Some(countries) =>
      match page.universityOptions(SelectCountry(countries, country))
      case None => []
      case Some(unis) =>
        match ChooseUniversity(unis, name)
        case None => []
        case Some(uni) =>
          match page.results(uni)
          case None => []
          case Some(listing) =>
            var ms := ParseResults(listing, years);
            GroupModulesValid(ms);
            GroupModules(ms)
  }

  /** A found module group holds only approved, recent mappings whose
      upper-cased code is the key, and the key is never empty. */
  lemma SearchUniversityGroups(sessionOk: bool, page: SearchPage, name: string, country: string, years: seq<string>, k: string, ms: seq<Mapping>)
    requires Get(SearchUniversity(sessionOk, page, name, country, years), k) == Some(ms)
    ensures k != "" && ms != []
    ensures forall m :: m in ms ==> ModuleKey(m) == k && Approved(m.status) && Recent(m.approvalYear, years)
  {
    var countries := page.countryOptions.value;
    var unis := page.universityOptions(SelectCountry(countries, country)).value;
    var uni := ChooseUniversity(unis, name).value;
    var listing := page.results(uni).value;
    var all := ParseResults(listing, years);
    GroupModulesGet(all, k);
    forall m | m in ms
      ensures ModuleKey(m) == k && Approved(m.status) && Recent(m.approvalYear, years)
    {
      ParseResultsMember(listing, years, m);
    }
  }

  /** `search_module_mapping`: one module's list out of the university-wide
      search, or [] when the module has none. */
  function SearchModule(sessionOk: bool, page: SearchPage, code: string, name: string, country: string, years: seq<string>): (r: seq<Mapping>)
    ensures forall m :: m in r ==> ModuleKey(m) == Upper(code)
  {
    var groups := SearchUniversity(sessionOk, page, name, country, years);
    match Get(groups, Upper(code))
    case None => []
    case Some(ms) =>
      SearchUniversityGroups(sessionOk, page, name, country, years, Upper(code), ms);
      ms
  }

  /** `_retry_university_search`: the search itself never raises, so the
      retry loop returns the first attempt's grouping without pausing; with
      no attempt allowed it returns the empty grouping. `loginOk(a)` and
      `pages(a)` are the browser's answers on attempt `a`. */
  method RetryUniversitySearch(loginOk: nat -> bool, pages: nat -> SearchPage, s: Session, name: string, country: string,
                               years: seq<string>, maxRetries: nat)
    returns (r: ModuleGroups, pauses: seq<nat>)
    ensures maxRetries > 0 ==> r == SearchUniversity(CheckSession(s, loginOk(0)).0, pages(0), name, country, years) && pauses == []
    ensures maxRetries == 0 ==> r == [] && pauses == []
  {
    var attempt := (a: nat) => Some(SearchUniversity(CheckSession(s, loginOk(a)).0, pages(a), name, country, years));
    r, pauses := Backoff.Retry(attempt, maxRetries, []);
  }

  // ---------------------------------------------------------------------
  // Enumerating countries and universities

  function CountryEntry(o: CountryOption): Option<(string, string)> {
    if o.value != "" then Some((o.value, o.text)) else None
  }

  /** The countries offered, as (value, text): the placeholder
      first option is skipped, and so is any option with an empty value. */
  function CountryEntries(options: seq<CountryOption>): (r: seq<(string, string)>)
    ensures forall e :: e in r <==> exists i :: 1 <= i < |options| && options[i].value != "" && e == (options[i].value, (options[i].text))
  {
    if |options| == 0 then [] else
    var r := Collect(options[1..], CountryEntry);
    forall e ensures e in r <==> exists i :: 1 <= i < |options| && options[i].value != "" && e == (options[i].value, (options[i].text)) {
      CollectMember(options[1..], CountryEntry, e);
      assert forall i :: 1 <= i < |options| ==> options[1..][i - 1] == options[i];
      if e in r {
        var k :| 0 <= k < |options[1..]| && CountryEntry(options[1..][k]) == Some(e);
        assert options[k + 1] == options[1..][k];
      }
    }
    r
  }

  function UniversityEntry(t: string): Option<string> {
    if t != "" then Some(t) else None
  }

  /** The universities offered: the placeholder first option is
      skipped, and so is any option whose text is blank; every other
      option is listed. */
  function UniversityNames(options: seq<string>): (r: seq<string>)
    ensures forall n :: n in r ==> n != "" && exists i :: 1 <= i < |options| && n == (options[i])
    ensures forall i :: 1 <= i < |options| && options[i] != "" ==> options[i] in r
  {
    if |options| == 0 then [] else
    var r := Collect(options[1..], UniversityEntry);
    forall n | n in r ensures n != "" && exists i :: 1 <= i < |options| && n == (options[i]) {
      CollectMember(options[1..], UniversityEntry, n);
      var k :| 0 <= k < |options[1..]| && UniversityEntry(options[1..][k]) == Some(n);
      assert options[k + 1] == options[1..][k];
    }
    forall i | 1 <= i < |options| && options[i] != "" ensures options[i] in r {
      CollectMember(options[1..], UniversityEntry, options[i]);
      assert UniversityEntry(options[1..][i - 1]) == Some(options[i]);
    }
    r
  }

  predicate NonBlank(t: string) {
    t != ""
  }

  /** In order: the names are the non-blank options after the placeholder,
      as a filter keeps them. */
  lemma UniversityNamesInOrder(options: seq<string>)
    requires |options| > 0
    ensures UniversityNames(options) == Filter(options[1..], NonBlank)
  {
    CollectIsFilter(options[1..], UniversityEntry, NonBlank);
  }

  lemma {:induction false} CollectIsFilter(xs: seq<string>, f: string -> Option<string>, p: string -> bool)
    requires forall x :: f(x) == if p(x) then Some(x) else None
    ensures Collect(xs, f) == Filter(xs, p)
  {
    if |xs| > 0 {
      CollectIsFilter(xs[..|xs| - 1], f, p);
    }
  }

  /** The universities listed for one country: the names offered, or []
      when the university dropdown cannot be read. */
  function Listed(answer: Option<seq<string>>): seq<string> {
    match answer
    case Some(options) => UniversityNames(options)
    case None => []
  }

  function CountryPairs(entries: seq<(string, string)>, universityOptions: string -> Option<seq<string>>): (ps: seq<(string, seq<string>)>)
    ensures |ps| == |entries| && forall i :: 0 <= i < |entries| ==> ps[i] == (entries[i].1, Listed(universityOptions(entries[i].0)))
  {
    seq(|entries|, i requires 0 <= i < |entries| => (entries[i].1, Listed(universityOptions(entries[i].0))))
  }

  /** Why enumeration gives up. */
  datatype EnumerationError = SessionInvalid | DropdownMissing

  /** `scrape_countries_and_universities`: country text -> university names,
      a later country with the same text overwriting an earlier one. Unlike
      the search, this raises when the session is invalid or the country
      dropdown does not appear. */
  function ScrapeCountriesAndUniversities(sessionOk: bool, countryOptions: Option<seq<CountryOption>>,
                                          universityOptions: string -> Option<seq<string>>): (r: Result<ODict<string, seq<string>>, EnumerationError>)
    ensures r.Failure? <==> !sessionOk || countryOptions.None?
    ensures !sessionOk ==> r == Failure(SessionInvalid)
    ensures r.Success? ==> Valid(r.value)
  {
    if !sessionOk then Failure(SessionInvalid)
    else match countryOptions
    case None => Failure(DropdownMissing)
    case Some(options) =>
      var ps := CountryPairs(CountryEntries(options), universityOptions);
      FromPairsValid(ps);
      Success(FromPairs(ps))
  }

  /** A country option that the enumeration reads under text `c`. */
  predicate Usable(o: CountryOption, c: string) {
    o.value != "" && o.text == c
  }

  /** The position of the last usable option with text `c`, if any. */
  function LastUsable(xs: seq<CountryOption>, c: string): (r: Option<nat>)
    ensures r.Some? ==> r.value < |xs| && Usable(xs[r.value], c) && forall j :: r.value < j < |xs| ==> !Usable(xs[j], c)
    ensures r.None? ==> forall i :: 0 <= i < |xs| ==> !Usable(xs[i], c)
  {
    if |xs| == 0 then None
    else if Usable(xs[|xs| - 1], c) then Some(|xs| - 1)
    else
      var init := xs[..|xs| - 1];
      assert forall i :: 0 <= i < |init| ==> init[i] == xs[i];
      LastUsable(init, c)
  }

  /** The university list of the last usable option with text `c`. */
  function LastListed(xs: seq<CountryOption>, c: string, universityOptions: string -> Option<seq<string>>): Option<seq<string>> {
    var last := LastUsable(xs, c);
    if last.Some? then Some(Listed(universityOptions(xs[last.value].value))) else None
  }

  /** Appending an option changes the answer only when it is usable. */
  lemma LastListedSnoc(xs: seq<CountryOption>, c: string, universityOptions: string -> Option<seq<string>>)
    requires |xs| > 0
    ensures var x := xs[|xs| - 1];
            LastListed(xs, c, universityOptions) ==
              if Usable(x, c) then Some(Listed(universityOptions(x.value)))
              else LastListed(xs[..|xs| - 1], c, universityOptions)
  {
    var init := xs[..|xs| - 1];
    if !Usable(xs[|xs| - 1], c) {
      var last := LastUsable(init, c);
      assert last == LastUsable(xs, c);
      assert last.Some? ==> xs[last.value] == init[last.value];
    }
  }

  /** The built dictionary holds, for each text, the list of the last
      usable option with that text. */
  lemma {:induction false} CountryLookup(xs: seq<CountryOption>, universityOptions: string -> Option<seq<string>>, c: string)
    ensures Get(FromPairs(CountryPairs(Collect(xs, CountryEntry), universityOptions)), c) == LastListed(xs, c, universityOptions)
  {
    if |xs| > 0 {
      var init := xs[..|xs| - 1];
      CountryLookup(init, universityOptions, c);
      LastListedSnoc(xs, c, universityOptions);
      var es := Collect(init, CountryEntry);
      var ps := CountryPairs(es, universityOptions);
      var x := xs[|xs| - 1];
      if x.value == "" {
        assert Collect(xs, CountryEntry) == es;
      } else {
        var e := (x.value, x.text);
        assert Collect(xs, CountryEntry) == es + [e];
        SnocPairs(es, e, universityOptions);
        PutGet(FromPairs(ps), e.1, Listed(universityOptions(e.0)), c);
      }
    }
  }

  lemma SnocPairs(es: seq<(string, string)>, e: (string, string), universityOptions: string -> Option<seq<string>>)
    ensures FromPairs(CountryPairs(es + [e], universityOptions)) ==
              Put(FromPairs(CountryPairs(es, universityOptions)), e.1, Listed(universityOptions(e.0)))
  {
    var ps' := CountryPairs(es + [e], universityOptions);
    assert ps'[..|ps'| - 1] == CountryPairs(es, universityOptions);
  }

  /** The enumeration lists a country exactly when some non-placeholder
      option with a non-empty value has that text, and every university
      name it lists is non-blank. */
  lemma ScrapeCountriesSpec(sessionOk: bool, options: seq<CountryOption>, universityOptions: string -> Option<seq<string>>, c: string)
    requires sessionOk
    ensures var r := ScrapeCountriesAndUniversities(sessionOk, Some(options), universityOptions).value;
            Get(r, c).Some? <==> exists i :: 1 <= i < |options| && options[i].value != "" && (options[i].text) == c
    ensures var r := ScrapeCountriesAndUniversities(sessionOk, Some(options), universityOptions).value;
            Get(r, c).Some? ==> forall n :: n in Get(r, c).value ==> n != ""
    ensures var r := ScrapeCountriesAndUniversities(sessionOk, Some(options), universityOptions).value;
            Get(r, c).Some? ==>
              exists i :: 1 <= i < |options| && options[i].value != "" && options[i].text == c &&
                Get(r, c).value == Listed(universityOptions(options[i].value)) &&
                forall j :: i < j < |options| ==> options[j].value == "" || options[j].text != c
  {
    if |options| > 0 {
      CountryValue(options, universityOptions, c);
    }
    var entries := CountryEntries(options);
    var ps := CountryPairs(entries, universityOptions);
    FromPairsGet(ps, c);
    if Get(FromPairs(ps), c).Some? {
      var k :| 0 <= k < |ps| && ps[k] == (c, Get(FromPairs(ps), c).value);
      assert entries[k] in entries;
    }
    if exists i :: 1 <= i < |options| && options[i].value != "" && (options[i].text) == c {
      var i :| 1 <= i < |options| && options[i].value != "" && (options[i].text) == c;
      assert (options[i].value, c) in entries;
      var k :| 0 <= k < |entries| && entries[k] == (options[i].value, c);
      assert ps[k].0 == c;
    }
  }

  lemma CountryValue(options: seq<CountryOption>, universityOptions: string -> Option<seq<string>>, c: string)
    requires |options| > 0
    ensures var r := ScrapeCountriesAndUniversities(true, Some(options), universityOptions).value;
            Get(r, c).Some? ==>
              exists i :: 1 <= i < |options| && options[i].value != "" && options[i].text == c &&
                Get(r, c).value == Listed(universityOptions(options[i].value)) &&
                forall j :: i < j < |options| ==> options[j].value == "" || options[j].text != c
  {
    var xs := options[1..];
    CountryLookup(xs, universityOptions, c);
    var last := LastUsable(xs, c);
    if last.Some? {
      var k := last.value;
      assert options[k + 1] == xs[k];
      forall j | k + 1 < j < |options| ensures options[j].value == "" || options[j].text != c {
        assert options[j] == xs[j - 1];
        assert !Usable(xs[j - 1], c);
      }
    }
  }

  // ---------------------------------------------------------------------
  // Checkpoint

  /** The checkpoint file's contents: unreadable, or the two stored keys,
      each possibly absent. The completed ids are stored as a list; only
      their set matters on reading. */
  datatype CheckpointFile = Garbled | Stored(mappingData: Option<MappingData>, completed: Option<set<string>>)

  /** `_load_checkpoint`: the stored state, with an absent file, an
      unreadable file or an absent key read as empty. */
  function LoadCheckpoint(file: Option<CheckpointFile>): (r: (MappingData, set<string>))
    ensures file.None? || file == Some(Garbled) ==> r == ([], {})
  {
    match file
    case Some(Stored(d, c)) => (d.GetOr([]), c.GetOr({}))
    case _ => ([], {})
  }

  /** `_save_checkpoint`: writing the state so that loading reads it back. */
  function SaveCheckpoint(data: MappingData, completed: set<string>): (r: Option<CheckpointFile>)
    ensures LoadCheckpoint(r) == (data, completed)
  {
    Some(Stored(Some(data), Some(completed)))
  }

  /** `clear_checkpoint`: the file is gone, so the next crawl starts over. */
  function ClearCheckpoint(file: Option<CheckpointFile>): (r: Option<CheckpointFile>)
    ensures LoadCheckpoint(r) == ([], {})
  {
    None
  }

  // ---------------------------------------------------------------------
  // The incremental crawl

  function IdsOf(d: ODict<string, Uni>): (r: set<string>)
    ensures forall k :: k in r <==> k in Keys(d)
  {
    set k | k in Keys(d)
  }

  /** The universities still to search: those not yet completed, in their
      dictionary order. */
  function Remaining(unis: ODict<string, Uni>, done: set<string>): (r: ODict<string, Uni>)
    ensures forall e :: e in r <==> e in unis && e.0 !in done
    ensures Valid(unis) ==> Valid(r)
  {
    if |unis| == 0 then []
    else
      var rest := Remaining(unis[..|unis| - 1], done);
      var e := unis[|unis| - 1];
      assert forall x :: x in unis <==> x in unis[..|unis| - 1] || x == e;
      if e.0 !in done then
        assert Valid(unis) ==> forall x :: x in rest ==> x.0 != e.0 by {
          if Valid(unis) {
            forall x | x in rest ensures x.0 != e.0 {
              var i :| 0 <= i < |unis[..|unis| - 1]| && unis[..|unis| - 1][i] == x;
              assert unis[i] == x;
            }
          }
        }
        rest + [e]
      else rest
  }

  /** The target modules, upper-cased and without repeats. Python keeps
      them in a set whose order is unspecified; the model fixes
      first-occurrence order. */
  function TargetModules(modules: seq<string>): (r: seq<string>)
    ensures forall m :: m in r <==> exists i :: 0 <= i < |modules| && Upper(modules[i]) == m
  {
    var ups := seq(|modules|, i requires 0 <= i < |modules| => Upper(modules[i]));
    assert forall m :: m in ups <==> exists i :: 0 <= i < |modules| && Upper(modules[i]) == m by {
      forall m | m in ups ensures exists i :: 0 <= i < |modules| && Upper(modules[i]) == m {
        var i :| 0 <= i < |ups| && ups[i] == m;
      }
      forall i | 0 <= i < |modules| ensures Upper(modules[i]) in ups {
        assert ups[i] == Upper(modules[i]);
      }
    }
    Dedup(ups)
  }

  /** One university's module dictionary after the crawl writes every
      target module's list into it, target by target. */
  function WriteModules(inner: ModuleGroups, targets: seq<string>, found: ModuleGroups): ModuleGroups
    decreases |targets|
  {
    if |targets| == 0 then inner
    else WriteModules(Put(inner, targets[0], Get(found, targets[0]).GetOr([])), targets[1..], found)
  }

  /** A target module reads the search's list for it, or [] when the search
      found none; every other module keeps what it had. */
  lemma {:induction false} WriteModulesGet(inner: ModuleGroups, targets: seq<string>, found: ModuleGroups, m: string)
    ensures m in targets ==> Get(WriteModules(inner, targets, found), m) == Some(Get(found, m).GetOr([]))
    ensures m !in targets ==> Get(WriteModules(inner, targets, found), m) == Get(inner, m)
    decreases |targets|
  {
    if |targets| > 0 {
      var t := targets[0];
      var next := Put(inner, t, Get(found, t).GetOr([]));
      WriteModulesGet(next, targets[1..], found, m);
      PutGet(inner, t, Get(found, t).GetOr([]), m);
      assert m in targets <==> m == t || m in targets[1..] by {
        if m in targets && m != t {
          var i :| 0 <= i < |targets| && targets[i] == m;
          assert targets[1..][i - 1] == m;
        }
      }
    }
  }

  /** What a processed university holds after the crawl: for every target
      module, the search's list for it or []. */
  predicate Processed(data: MappingData, id: string, info: Uni, targets: seq<string>, search: (string, string) -> ModuleGroups) {
    Get(data, id).Some? &&
    forall m :: m in targets ==> Get(Get(data, id).value, m) == Some(Get(search(info.name, info.country), m).GetOr([]))
  }

  /** One university's step: make sure it has a dictionary, then write the
      target modules into it. */
  function Step(data: MappingData, id: string, info: Uni, targets: seq<string>, search: (string, string) -> ModuleGroups): (r: MappingData)
    ensures Processed(r, id, info, targets, search)
    ensures forall other :: other != id ==> Get(r, other) == Get(data, other)
  {
    var d := if Get(data, id).None? then Put(data, id, []) else data;
    assert Get(d, id).Some? by { PutGet(data, id, [], id); }
    var r := Put(d, id, WriteModules(Get(d, id).value, targets, search(info.name, info.country)));
    assert Get(r, id) == Some(WriteModules(Get(d, id).value, targets, search(info.name, info.country))) by {
      PutGet(d, id, WriteModules(Get(d, id).value, targets, search(info.name, info.country)), id);
    }
    forall m | m in targets
      ensures Get(Get(r, id).value, m) == Some(Get(search(info.name, info.country), m).GetOr([]))
    {
      WriteModulesGet(Get(d, id).value, targets, search(info.name, info.country), m);
    }
    forall other | other != id ensures Get(r, other) == Get(data, other) {
      PutGet(d, id, WriteModules(Get(d, id).value, targets, search(info.name, info.country)), other);
      PutGet(data, id, [], other);
    }
    r
  }

  /** The first `n` universities of `rem` are processed in `data`. */
  predicate ProcessedUpTo(data: MappingData, rem: ODict<string, Uni>, n: nat, targets: seq<string>, search: (string, string) -> ModuleGroups)
    requires n <= |rem|
  {
    forall j :: 0 <= j < n ==> Processed(data, rem[j].0, rem[j].1, targets, search)
  }

  /** A university stays processed while its entry is left alone. */
  lemma ProcessedKept(data: MappingData, next: MappingData, id: string, info: Uni, targets: seq<string>, search: (string, string) -> ModuleGroups)
    requires Processed(data, id, info, targets, search)
    requires Get(next, id) == Get(data, id)
    ensures Processed(next, id, info, targets, search)
  {
  }

  /** Processing the next university keeps the earlier ones processed, as
      their ids differ from its id. */
  lemma StepExtends(data: MappingData, rem: ODict<string, Uni>, i: nat, targets: seq<string>, search: (string, string) -> ModuleGroups)
    requires Valid(rem) && i < |rem|
    requires ProcessedUpTo(data, rem, i, targets, search)
    ensures ProcessedUpTo(Step(data, rem[i].0, rem[i].1, targets, search), rem, i + 1, targets, search)
  {
    var next := Step(data, rem[i].0, rem[i].1, targets, search);
    assert Processed(next, rem[i].0, rem[i].1, targets, search);
    forall j | 0 <= j < i ensures Processed(next, rem[j].0, rem[j].1, targets, search) {
      assert rem[j].0 != rem[i].0;
      assert Processed(data, rem[j].0, rem[j].1, targets, search);
      ProcessedKept(data, next, rem[j].0, rem[j].1, targets, search);
    }
  }

  lemma IdsOfSnoc(d: ODict<string, Uni>, i: nat)
    requires i < |d|
    ensures IdsOf(d[..i + 1]) == IdsOf(d[..i]) + {d[i].0}
  {
    assert d[..i + 1] == d[..i] + [d[i]];
    KeysSnoc(d[..i], d[i]);
  }

  /** Every university is either completed at the start or still to do. */
  lemma RemainingCovers(unis: ODict<string, Uni>, done: set<string>, id: string)
    requires id in Keys(unis)
    ensures id in done || id in IdsOf(Remaining(unis, done))
  {
    var k :| 0 <= k < |unis| && unis[k].0 == id;
    if id !in done {
      assert unis[k] in Remaining(unis, done);
      assert Keys(Remaining(unis, done))[IndexOf(Remaining(unis, done), unis[k])] == id;
    }
  }

  function IndexOf(d: ODict<string, Uni>, e: (string, Uni)): (k: nat)
    requires e in d
    ensures k < |d| && d[k] == e
  {
    if d[0] == e then 0 else 1 + IndexOf(d[1..], e)
  }

  /** One more university processed adds a save exactly at multiples of five. */
  lemma SaveCount(i: nat)
    ensures (i + 1) / 5 == i / 5 + (if (i + 1) % 5 == 0 then 1 else 0)
  {
  }

  /** The crawl's running state: the mapping data, the completed ids and
      the checkpoints written so far. */
  datatype Crawl = Crawl(data: MappingData, completed: set<string>, saves: seq<(MappingData, set<string>)>)

  /** The `i`-th remaining university is searched and written; after every
      fifth one it is marked completed and the state is checkpointed, and
      then it is marked completed in any case. */
  function Advance(st: Crawl, rem: ODict<string, Uni>, i: nat, targets: seq<string>, search: (string, string) -> ModuleGroups): Crawl
    requires i < |rem|
  {
    var id := rem[i].0;
    var data := Step(st.data, id, rem[i].1, targets, search);
    var saves := if (i + 1) % 5 == 0 then st.saves + [(data, st.completed + {id})] else st.saves;
    Crawl(data, st.completed + {id}, saves)
  }

  /** What holds after the first `i` remaining universities. */
  ghost predicate CrawlInv(st: Crawl, data0: MappingData, done0: set<string>, rem: ODict<string, Uni>, i: nat,
                     targets: seq<string>, search: (string, string) -> ModuleGroups)
    requires i <= |rem|
  {
    && st.completed == done0 + IdsOf(rem[..i])
    && ProcessedUpTo(st.data, rem, i, targets, search)
    && (forall id :: id !in IdsOf(rem[..i]) ==> Get(st.data, id) == Get(data0, id))
    && |st.saves| == i / 5
  }

  lemma AdvanceKeeps(st: Crawl, data0: MappingData, done0: set<string>, rem: ODict<string, Uni>, i: nat,
                     targets: seq<string>, search: (string, string) -> ModuleGroups)
    requires Valid(rem) && i < |rem|
    requires CrawlInv(st, data0, done0, rem, i, targets, search)
    ensures CrawlInv(Advance(st, rem, i, targets, search), data0, done0, rem, i + 1, targets, search)
  {
    var st' := Advance(st, rem, i, targets, search);
    var id := rem[i].0;
    StepExtends(st.data, rem, i, targets, search);
    IdsOfSnoc(rem, i);
    assert st'.completed == done0 + IdsOf(rem[..i + 1]);
    forall x | x !in IdsOf(rem[..i + 1]) ensures Get(st'.data, x) == Get(data0, x) {
      assert x != id && x !in IdsOf(rem[..i]);
    }
    SaveCount(i);
    assert |st'.saves| == (i + 1) / 5;
  }

  /** `scrape_all_mappings`: resume from the checkpoint, search every
      university not yet completed, write its target modules, and return
      the mapping data. The state is checkpointed after every fifth
      university searched and once at the end; `search` stands for the
      retried university search. */
  method ScrapeAllMappings(unis: ODict<string, Uni>, modules: seq<string>, checkpoint: Option<CheckpointFile>,
                           search: (string, string) -> ModuleGroups)
    returns (data: MappingData, completed: set<string>, saves: seq<(MappingData, set<string>)>)
    requires Valid(unis)
    ensures completed == LoadCheckpoint(checkpoint).1 + IdsOf(Remaining(unis, LoadCheckpoint(checkpoint).1))
    ensures forall id :: id in Keys(unis) ==> id in completed
    ensures forall e :: e in unis && e.0 !in LoadCheckpoint(checkpoint).1 ==>
              Processed(data, e.0, e.1, TargetModules(modules), search)
    ensures forall id :: id !in IdsOf(Remaining(unis, LoadCheckpoint(checkpoint).1)) ==>
              Get(data, id) == Get(LoadCheckpoint(checkpoint).0, id)
    ensures |saves| == |Remaining(unis, LoadCheckpoint(checkpoint).1)| / 5 + 1
    ensures saves[|saves| - 1] == (data, completed)
  {
    var data0 := LoadCheckpoint(checkpoint).0;
    var done0 := LoadCheckpoint(checkpoint).1;
    var targets := TargetModules(modules);
    var rem := Remaining(unis, done0);
    var st := Crawl(data0, done0, []);
    for i := 0 to |rem|
      invariant CrawlInv(st, data0, done0, rem, i, targets, search)
    {
      AdvanceKeeps(st, data0, done0, rem, i, targets, search);
      st := Advance(st, rem, i, targets, search);
    }
    assert rem[..|rem|] == rem;
    data, completed := st.data, st.completed;
    saves := st.saves + [(data, completed)];
    forall id | id in Keys(unis) ensures id in completed {
      RemainingCovers(unis, done0, id);
    }
    forall e | e in unis && e.0 !in done0 ensures Processed(data, e.0, e.1, targets, search) {
      var k := IndexOf(rem, e);
    }
  }
}
