/** The search pipeline behind the API: the university list (from the
    cache or the vacancy PDF), the module mappings (from the cache or the
    course-matching portal), then grouping, joining, filtering and ranking.
    The PDF, the browser and the clock are the inputs of `World`; the cache
    directory and the scraper's checkpoint file are the `Engine` state a
    search leaves behind. */
module Recommendation {
  import opened Wrappers
  import opened ODicts
  import opened Records
  import Cache
  import PdfExtractor
  import PortalScraper
  import DataCleaner
  import Matcher
  import Ranker

  /** The configuration-file values the search reads. */
  datatype Config = Config(targetCountries: seq<string>, targetModules: seq<string>, studentCollege: string, pdfFile: string)

  /** One search request; `None` stands for an omitted list. */
  datatype Request = Request(
    username: string,
    countries: Option<seq<string>>,
    modules: Option<seq<string>>,
    minMappable: int,
    useCache: bool)

  /** Everything outside the process: whether the PDF exists and its
      tables, whether the browser starts and the login succeeds, the
      retried university search, the SHA-256 digest and the clock. */
  datatype World = World(
    pdfExists: bool,
    pages: seq<seq<PdfExtractor.Table>>,
    browserStarts: bool,
    loginOk: bool,
    search: (string, string) -> ModuleGroups,
    digest: string -> string,
    now: int)

  /** The state a search reads and leaves: the cache directory and the
      scraper's checkpoint file. */
  datatype Engine = Engine(cache: Cache.Store, checkpoint: Option<PortalScraper.CheckpointFile>)

  datatype SearchError = FileNotFound(path: string) | RuntimeError(message: string)

  const BrowserFailed := "Failed to start Chrome browser"
  const LoginFailed := "Login failed - please check your credentials.\nEnsure username, password, and domain are correct."

  /** `value or default` on a list: an omitted or empty list falls back. */
  function OrDefault(given: Option<seq<string>>, default: seq<string>): (r: seq<string>)
    ensures given.Some? && |given.value| > 0 ==> r == given.value
    ensures given.None? || given.value == [] ==> r == default
  {
    if given.Some? && |given.value| > 0 then given.value else default
  }

  /** The cache configuration the university list is tied to. */
  function UniConfigOf(countries: seq<string>, cfg: Config): Cache.UniConfig
  {
    Cache.UniConfig(Some(countries), Some(cfg.studentCollege))
  }

  // ---------------------------------------------------------- step 1

  /** The university list, whether it came from the cache with its time,
      the cache afterwards, and whether the PDF was read. */
  datatype UniStep = UniStep(unis: ODict<string, Uni>, hit: bool, time: Option<int>, cache: Cache.Store, pdfRead: bool)

  /** `_get_universities`: a cache hit is returned as is; otherwise the PDF
      must exist, is extracted and filtered, and the result is cached when
      caching is on. */
  function GetUniversities(cache: Cache.Store, cfg: Config, countries: seq<string>, useCache: bool, w: World): (r: Result<UniStep, SearchError>)
    requires Cache.Wf(cache)
    ensures var cached := Cache.GetUniversities(cache, UniConfigOf(countries, cfg), w.now);
            && (r.Failure? <==> !(useCache && cached.Some?) && !w.pdfExists)
            && (r.Failure? ==> r.error == FileNotFound(cfg.pdfFile))
            && (r.Success? ==> (r.value.hit <==> useCache && cached.Some?))
            && (r.Success? && r.value.hit ==>
                  r.value.unis == cached.value.0 && r.value.time == Some(cached.value.1) &&
                  r.value.cache == cache && !r.value.pdfRead)
            && (r.Success? && !r.value.hit ==>
                  r.value.unis == PdfExtractor.ExtractAndFilter(w.pages, PdfExtractor.FilterConfig(countries, cfg.studentCollege)) &&
                  r.value.time.None? && r.value.pdfRead &&
                  r.value.cache == if useCache then Cache.SaveUniversities(cache, r.value.unis, UniConfigOf(countries, cfg), w.now) else cache)
    ensures r.Success? ==> Valid(r.value.unis) && Cache.Wf(r.value.cache)
    ensures r.Success? ==> r.value.cache.mappings == cache.mappings
    ensures r.Success? ==> UnisOfStep(r.value.unis, cache, cfg, countries, useCache, w)
  {
    var config := UniConfigOf(countries, cfg);
    var cached := if useCache then Cache.GetUniversities(cache, config, w.now) else None;
    if cached.Some? then
      Success(UniStep(cached.value.0, true, Some(cached.value.1), cache, false))
    else if !w.pdfExists then
      Failure(FileNotFound(cfg.pdfFile))
    else
      var filter := PdfExtractor.FilterConfig(countries, cfg.studentCollege);
      var unis := PdfExtractor.ExtractAndFilter(w.pages, filter);
      assert Valid(unis) by { PdfExtractor.FilterTargetsValid(PdfExtractor.ExtractRows(w.pages), filter); }
      var cache' := if useCache then Cache.SaveUniversities(cache, unis, config, w.now) else cache;
      Success(UniStep(unis, false, None, cache', true))
  }

  // ---------------------------------------------------------- step 2

  /** The scrape as written: it resumes from whatever checkpoint the last
      scrape left, and leaves its own final checkpoint behind. */
  method ScrapeResuming(checkpoint: Option<PortalScraper.CheckpointFile>, unis: ODict<string, Uni>, modules: seq<string>,
                        search: (string, string) -> ModuleGroups)
    returns (data: MappingData, checkpoint': Option<PortalScraper.CheckpointFile>)
    requires Valid(unis)
    ensures var saved := PortalScraper.LoadCheckpoint(checkpoint);
            forall id :: id in saved.1 ==> Get(data, id) == Get(saved.0, id)
    ensures PortalScraper.LoadCheckpoint(checkpoint').0 == data
  {
    var completed, saves;
    data, completed, saves := PortalScraper.ScrapeAllMappings(unis, modules, checkpoint, search);
    checkpoint' := PortalScraper.SaveCheckpoint(data, completed);
  }

  /** A second search for a different module over the same university,
      after a first search completed it: the checkpoint marks the
      university done, so it is not searched again and its entry still
      holds only the first search's module. */
  method StaleResumeExample() returns (data: MappingData)
    ensures Get(data, "U1") == Some([("SC1007", [])])
    ensures Get(Get(data, "U1").value, "SC2001").None?
  {
    var u := Uni("Uni One", "Sweden", "U1", "", 1, 0.0, true, "", None);
    var first: MappingData := [("U1", [("SC1007", [])])];
    var checkpoint := PortalScraper.SaveCheckpoint(first, {"U1"});
    var search := (name: string, country: string) => [("SC2001", [])];
    var checkpoint';
    data, checkpoint' := ScrapeResuming(checkpoint, [("U1", u)], ["SC2001"], search);
  }

  /** The scrape as intended: the leftover checkpoint is cleared first, so
      every university is searched for the current modules and no
      university of an earlier search leaks into the result. */
  method ScrapeFresh(checkpoint: Option<PortalScraper.CheckpointFile>, unis: ODict<string, Uni>, modules: seq<string>,
                     search: (string, string) -> ModuleGroups)
    returns (data: MappingData, checkpoint': Option<PortalScraper.CheckpointFile>)
    requires Valid(unis)
    ensures forall e :: e in unis ==> PortalScraper.Processed(data, e.0, e.1, PortalScraper.TargetModules(modules), search)
    ensures forall id :: id !in Keys(unis) ==> Get(data, id).None?
  {
    var cleared := PortalScraper.ClearCheckpoint(checkpoint);
    var completed, saves;
    data, completed, saves := PortalScraper.ScrapeAllMappings(unis, modules, cleared, search);
    checkpoint' := PortalScraper.SaveCheckpoint(data, completed);
    forall id | id !in Keys(unis) ensures Get(data, id).None? {
      assert id !in PortalScraper.IdsOf(PortalScraper.Remaining(unis, {}));
    }
  }

  /** The browser's fate in step 2: whether a scraper was started, and
      whether it was closed. */
  datatype Browser = Browser(started: bool, closed: bool)

  /** The mapping data, whether it came from the cache with its time, and
      the state afterwards. */
  datatype MapStep = MapStep(data: MappingData, hit: bool, time: Option<int>, engine: Engine)

  /** `_get_mappings`: a cache hit is returned without a browser; otherwise
      the browser must start and log in, every university is scraped, and
      the result is cached when caching is on. The browser is closed on
      every path that opened it. */
  method GetMappings(eng: Engine, unis: ODict<string, Uni>, modules: seq<string>, countries: seq<string>,
                     username: string, useCache: bool, w: World)
    returns (r: Result<MapStep, SearchError>, browser: Browser)
    requires Valid(unis)
    ensures var cached := Cache.GetMappings(eng.cache, w.digest, countries, modules, username, w.now);
            && (browser.started <==> !(useCache && cached.Some?))
            && browser.closed == browser.started
            && (r.Failure? <==> browser.started && !(w.browserStarts && w.loginOk))
            && (r.Failure? ==> r.error == RuntimeError(if w.browserStarts then LoginFailed else BrowserFailed))
            && (r.Success? ==> (r.value.hit <==> !browser.started))
            && (r.Success? && r.value.hit ==>
                  r.value.data == cached.value.0 && r.value.time == Some(cached.value.1) && r.value.engine == eng)
    ensures r.Success? && !r.value.hit ==>
              && r.value.time.None?
              && (forall e :: e in unis ==>
                    PortalScraper.Processed(r.value.data, e.0, e.1, PortalScraper.TargetModules(modules), w.search))
              && (forall id :: id !in Keys(unis) ==> Get(r.value.data, id).None?)
              && r.value.engine.cache == (if useCache then Cache.SaveMappings(eng.cache, w.digest, r.value.data, countries, modules, username, w.now)
                                          else eng.cache)
    ensures r.Success? ==> DataOfStep(r.value.data, unis, eng.cache, countries, modules, username, useCache, w)
  {
    var cached := if useCache then Cache.GetMappings(eng.cache, w.digest, countries, modules, username, w.now) else None;
    if cached.Some? {
      return Success(MapStep(cached.value.0, true, Some(cached.value.1), eng)), Browser(false, false);
    }
    if !w.browserStarts {
      return Failure(RuntimeError(BrowserFailed)), Browser(true, true);
    }
    if !w.loginOk {
      return Failure(RuntimeError(LoginFailed)), Browser(true, true);
    }
    var data, checkpoint := ScrapeFresh(eng.checkpoint, unis, modules, w.search);
    var cache := if useCache then Cache.SaveMappings(eng.cache, w.digest, data, countries, modules, username, w.now) else eng.cache;
    r := Success(MapStep(data, false, None, Engine(cache, checkpoint)));
    browser := Browser(true, true);
  }

  // ---------------------------------------------------------- step 3

  /** `_process_and_rank`: group campus variations, normalise the
      mappings, join the two, and keep and rank the universities with at
      least `minMappable` mappable modules. */
  function ProcessAndRank(unis: ODict<string, Uni>, data: MappingData, minMappable: int): (r: seq<Ranker.Entry>)
    ensures var joined := Matcher.MatchPdfToMappings(DataCleaner.GroupVariations(unis), DataCleaner.NormalizeMappingData(data));
            forall e :: e in r <==> e in joined && e.1.mappableCount >= minMappable
    ensures forall i, j :: 0 <= i < j < |r| ==> Ranker.RankBefore(r[i].1, r[j].1)
  {
    var grouped := DataCleaner.GroupVariations(unis);
    var normalized := DataCleaner.NormalizeMappingData(data);
    Ranker.FilterAndRank(Matcher.MatchPdfToMappings(grouped, normalized), minMappable)
  }

  /** Every ranked university is one of the grouped universities, joined
      with exactly its own normalised mappings. */
  lemma ProcessAndRankJoins(unis: ODict<string, Uni>, data: MappingData, minMappable: int, e: Ranker.Entry)
    requires e in ProcessAndRank(unis, data, minMappable)
    ensures var grouped := DataCleaner.GroupVariations(unis);
            exists i :: 0 <= i < |grouped| && e.0 == grouped[i].0 &&
              e.1 == Matcher.JoinOne(grouped[i].1, Get(DataCleaner.NormalizeMappingData(data), grouped[i].0).GetOr([]))
    ensures e.1.mappableCount >= minMappable
  {
    var grouped := DataCleaner.GroupVariations(unis);
    var joined := Matcher.MatchPdfToMappings(grouped, DataCleaner.NormalizeMappingData(data));
    var i :| 0 <= i < |joined| && joined[i] == e;
    assert Keys(joined)[i] == Keys(grouped)[i];
  }

  // ------------------------------------------------------------- search

  datatype SearchResult = SearchResult(ranked: seq<Ranker.Entry>, cacheUsed: bool, cacheTimestamp: Option<int>)

  /** The visible effects of one search. */
  datatype Outcome = Outcome(result: Result<SearchResult, SearchError>, engine: Engine, pdfRead: bool, browser: Browser)

  /** The universities step 1 settles on: the cached list on a hit, else
      the filtered extraction of the PDF. */
  ghost predicate UnisOfStep(unis: ODict<string, Uni>, cache: Cache.Store, cfg: Config, countries: seq<string>, useCache: bool, w: World) {
    var cached := Cache.GetUniversities(cache, UniConfigOf(countries, cfg), w.now);
    unis == (if useCache && cached.Some? then cached.value.0
             else PdfExtractor.ExtractAndFilter(w.pages, PdfExtractor.FilterConfig(countries, cfg.studentCollege)))
  }

  /** The mapping data step 2 settles on: the cached data on a hit, else a
      scrape of exactly those universities for the target modules. */
  ghost predicate DataOfStep(data: MappingData, unis: ODict<string, Uni>, cache: Cache.Store, countries: seq<string>, modules: seq<string>,
                             username: string, useCache: bool, w: World) {
    var cached := Cache.GetMappings(cache, w.digest, countries, modules, username, w.now);
    && (useCache && cached.Some? ==> data == cached.value.0)
    && (!(useCache && cached.Some?) ==>
          (forall e :: e in unis ==> PortalScraper.Processed(data, e.0, e.1, PortalScraper.TargetModules(modules), w.search)) &&
          (forall id :: id !in Keys(unis) ==> Get(data, id).None?))
  }

  /** A ranking is step 3 applied to what steps 1 and 2 settle on. */
  ghost predicate RankedFromSteps(ranked: seq<Ranker.Entry>, cache: Cache.Store, cfg: Config, countries: seq<string>, modules: seq<string>,
                                  req: Request, w: World) {
    exists unis, data ::
      && ranked == ProcessAndRank(unis, data, req.minMappable)
      && UnisOfStep(unis, cache, cfg, countries, req.useCache, w)
      && DataOfStep(data, unis, cache, countries, modules, req.username, req.useCache, w)
  }

  /** `search_universities`: fall back to the configured countries and
      modules, run the three steps, and report the cache as used only when
      both lookups hit, with the mapping cache's time. */
  method SearchUniversities(eng: Engine, cfg: Config, req: Request, w: World) returns (out: Outcome)
    requires Cache.Wf(eng.cache)
    ensures var countries := OrDefault(req.countries, cfg.targetCountries);
            var modules := OrDefault(req.modules, cfg.targetModules);
            var uniHit := req.useCache && Cache.GetUniversities(eng.cache, UniConfigOf(countries, cfg), w.now).Some?;
            var mapHit := req.useCache && Cache.GetMappings(eng.cache, w.digest, countries, modules, req.username, w.now).Some?;
            && (out.result == Failure(FileNotFound(cfg.pdfFile)) <==> !uniHit && !w.pdfExists)
            && (out.result.Failure? <==>
                  (!uniHit && !w.pdfExists) || ((uniHit || w.pdfExists) && !mapHit && !(w.browserStarts && w.loginOk)))
            && ((uniHit || w.pdfExists) && !mapHit && !w.browserStarts ==> out.result == Failure(RuntimeError(BrowserFailed)))
            && ((uniHit || w.pdfExists) && !mapHit && w.browserStarts && !w.loginOk ==> out.result == Failure(RuntimeError(LoginFailed)))
            && (out.pdfRead <==> !uniHit && w.pdfExists)
            && (out.browser.started <==> (uniHit || w.pdfExists) && !mapHit)
            && out.browser.closed == out.browser.started
            && (out.result.Success? ==> out.result.value.cacheUsed == (uniHit && mapHit))
            && (out.result.Success? ==>
                  out.result.value.cacheTimestamp ==
                    if uniHit && mapHit
                    then Some(Cache.GetMappings(eng.cache, w.digest, countries, modules, req.username, w.now).value.1)
                    else None)
    ensures out.result.Success? ==> forall e :: e in out.result.value.ranked ==> e.1.mappableCount >= req.minMappable
    ensures out.result.Success? ==>
              RankedFromSteps(out.result.value.ranked, eng.cache, cfg, OrDefault(req.countries, cfg.targetCountries),
                              OrDefault(req.modules, cfg.targetModules), req, w)
    ensures !req.useCache ==> out.engine.cache == eng.cache
    ensures out.result.Failure? && !out.browser.started ==> out.engine == eng
  {
    var countries := OrDefault(req.countries, cfg.targetCountries);
    var modules := OrDefault(req.modules, cfg.targetModules);
    var step1 := GetUniversities(eng.cache, cfg, countries, req.useCache, w);
    if step1.Failure? {
      return Outcome(Failure(step1.error), eng, false, Browser(false, false));
    }
    var u := step1.value;
    var eng1 := Engine(u.cache, eng.checkpoint);
    assert Cache.GetMappings(eng1.cache, w.digest, countries, modules, req.username, w.now) ==
           Cache.GetMappings(eng.cache, w.digest, countries, modules, req.username, w.now);
    var step2, browser := GetMappings(eng1, u.unis, modules, countries, req.username, req.useCache, w);
    if step2.Failure? {
      return Outcome(Failure(step2.error), eng1, u.pdfRead, browser);
    }
    var m := step2.value;
    var ranked := ProcessAndRank(u.unis, m.data, req.minMappable);
    assert DataOfStep(m.data, u.unis, eng.cache, countries, modules, req.username, req.useCache, w);
    assert RankedFromSteps(ranked, eng.cache, cfg, countries, modules, req, w);
    var cacheUsed := u.hit && m.hit;
    var stamp := if cacheUsed then m.time else None;
    out := Outcome(Success(SearchResult(ranked, cacheUsed, stamp)), m.engine, u.pdfRead, browser);
  }
}
