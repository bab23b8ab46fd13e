# exchange-finder in Dafny

A model of the data pipeline behind exchange-finder. The service helps an NTU student pick exchange universities. It combines two sources:

- the vacancy list published as a PDF: partner universities, semester-1 places, minimum CGPA;
- the course-matching portal: the approved mappings from NTU module codes to partner modules.

From these it builds a ranked shortlist. The model covers the pure core and the stateful pieces around it:

- **`NameNormalizer`, `NameVariants`, `DataCleaner`**: university-name normalisation, grouping of campus variations, merging of a group and clean-up of module names. The regular-expression steps are modelled on `Patterns`, a small leftmost-match substitution engine.
- **`PdfExtractor`**: the number and CGPA parsers, the row parser, the row-skipping extraction loop and the target filter.
- **`Matcher`, `Ranker`**: the join of PDF records with mappings, coverage, the statistics, the minimum filter, the orderings, the country summaries and the scores.
- **`PdfService`**: name and country normalisation, the fuzzy match and the enrichment defaults.
- **`PortalScraper`**: the course-matching portal.
  - The row predicate and result parsing.
  - Grouping by module.
  - Country and university option choice.
  - Country and university enumeration.
  - The checkpointed crawl.
  - Retry, session check and close.
- **`NtuMapper`**: the same portal through plain HTTP. It covers the row filter, the university-by-module grid and retry.
- **`Backoff`**: the generic retry with its `(attempt+1)*2`-second pauses.
- **`Database`**: the SQLite store, modelled as tables in a record with per-table id counters.
  - Upserts and bulk insert.
  - The module query with its grouping.
  - The scrape-job life cycle and stale-job cancellation.
  - `clear_all_data` and the statistics.
- **`BulkScrape`**: the full-portal crawl, with its cancellation points, error paths and counters.
- **`Cache`**: the JSON cache directory. It covers key derivation, TTL validity, get/save round trips and the clear operations.
- **`Recommendation`**: the search pipeline. It ties the cache, the PDF, the portal, the cleaner, the matcher and the ranker together.
- **`Admin`**: the start/cancel guards of the bulk scrape and the database search.
- **`ApiModels`**: the request and message validators.

The browser, the PDF library, the HTTP client, the clock and the SHA-256 digest are not modelled as code. Each is an input: an oracle function or a record field such as `World`, `Env` or `Response`.

Integers are unbounded and CGPA, coverage and scores are exact reals. Python's insertion-ordered dict is a sequence of key/value pairs (`ODicts`), and `sorted` is a stable sort on Python-style tuple keys (`Sorting`).

## Model

| member | source | states |
|---|---|---|
| NameNormalizer.Normalize | processors/data_cleaner.py:37-72 | the empty name normalises to ""; the result has no upper-case letter and no '-' |
| NameVariants.BaseNameMergesVariants | processors/data_cleaner.py:74-90 | the grouping key is blind to a leading "The" and to a trailing parenthesised qualifier, so these spellings of one university share one base name |
| NameNormalizer.NoUpperThroughSteps | processors/data_cleaner.py:51-70 | lower-casing first and lower-case replacements keep every later regex step free of capitals |
| NameNormalizer.DashesRemoved | processors/data_cleaner.py:67-70 | after the dash rewrite no '-' remains |
| NameVariants.ArticleIgnored | processors/data_cleaner.py:54 | a leading "The " does not change the normalised name |
| NameVariants.QualifierIgnored | processors/data_cleaner.py:30-58 | a trailing parenthesised qualifier does not change the normalised name |
| NameVariants.QueenslandVariantsMerge | processors/data_cleaner.py:283-285 | "The University of Queensland" and "University of Queensland (St Lucia)" normalise equal |
| DataCleaner.MergedName | processors/data_cleaner.py:161 | the merged name is the first shortest name of the group |
| DataCleaner.MergedCgpa | processors/data_cleaner.py:167-169 | the merged CGPA is the least positive CGPA, or 0.0 when none is positive |
| DataCleaner.FirstCode | processors/data_cleaner.py:171-173 | the merged code is the first non-empty code, or "" when all are empty |
| DataCleaner.JoinedRemarks | processors/data_cleaner.py:181-183 | the merged remarks are the distinct non-empty remarks, each exactly once, joined by a vertical bar between spaces, with nothing else; the order is left open, as a Python set fixes none; empty exactly when every remark is empty |
| DataCleaner.MergeVariations | processors/data_cleaner.py:146-189 | country and CCDS flag come from the first variation; spots are summed; name, CGPA and codes follow the merge rules; remarks are the distinct non-empty remarks joined by a vertical bar between spaces; all codes, the sub-code set, the variation count and the merged ids are recorded |
| DataCleaner.NameToIdsSpec | processors/data_cleaner.py:110-118 | the name table maps each normalised name to the ids carrying it, in input order, and to nothing else |
| DataCleaner.GroupOfSpec | processors/data_cleaner.py:110-118 | an id lies in its own group, and every id of that group shares its normalised name |
| DataCleaner.GroupVariationsSpec | processors/data_cleaner.py:99-144 | one entry per distinct normalised name, keyed by the first id and holding the merged group; every input id falls in exactly the group of its name |
| DataCleaner.MergeFromAll | processors/data_cleaner.py:120-142 | the loop with its processed-id set yields exactly one entry per group |
| DataCleaner.CleanModuleName | processors/data_cleaner.py:229-249 | whitespace is collapsed and stripped; the name is then cut at the leftmost position from which optional whitespace, "(" and a run ending in ")" reach the end of the name (so "A (b) C (d)" becomes "A"); nothing before that position could start such a match; the empty name stays empty |
| DataCleaner.NormalizeMapping | processors/data_cleaner.py:203-225 | only university_normalized and the partner module name change |
| DataCleaner.NormalizeMappingData | processors/data_cleaner.py:191-227 | every university key, module key and list length is preserved, and every mapping is normalised in place |
| PdfExtractor.ParseNumber | scrapers/pdf_extractor.py:120-130 | a missing cell or one without digits gives 0; never fails |
| PdfExtractor.ParseNumberOfString | scrapers/pdf_extractor.py:120-130 | the printed form of n parses back to n |
| PdfExtractor.ParseNumberIgnores | scrapers/pdf_extractor.py:120-130 | non-digit characters do not change the parsed number |
| PdfExtractor.ParseFloat | scrapers/pdf_extractor.py:132-142 | a missing cell gives 0.0, and the result is never negative |
| PdfExtractor.ParseFloatOfStrings | scrapers/pdf_extractor.py:132-142 | "a.b" parses to a + b/10^digits(b) |
| PdfExtractor.ParseFloatTwoPoints | scrapers/pdf_extractor.py:132-142 | a value with two decimal points is unreadable and gives 0.0 |
| PdfExtractor.ParseRow | scrapers/pdf_extractor.py:60-118 | a row is parsed iff it has at least 11 cells, a name other than "", "University" or "University Name", and a country; the fields come from their columns; remarks are "" with exactly 11 cells |
| PdfExtractor.ExtractRowsMember | scrapers/pdf_extractor.py:41-47 | extracted rows are exactly the parsed non-header rows of tables with at least two rows |
| PdfExtractor.UniKeyInjective | scrapers/pdf_extractor.py:179-185 | two rows get the same dictionary key exactly when they have the same code and sub-code, as long as no code contains the joining underscore |
| PdfExtractor.LastKept | scrapers/pdf_extractor.py:162-185 | finds the last accepted row with a given key |
| PdfExtractor.FilterTargetsGet | scrapers/pdf_extractor.py:144-205 | the record under a key comes from the last row with that key that passes the country, college and spots tests |
| PdfExtractor.FilterTargetsKept | scrapers/pdf_extractor.py:162-173 | every kept university is in a target country, has places in semester 1 and accepts CCDS |
| PdfExtractor.FilterTargetsAsWritten | scrapers/pdf_extractor.py:144-205 | as written: the filter over a non-empty extraction; on an empty one the DataFrame has no 'country' column and fails |
| PdfExtractor.EmptyExtractionFails | scrapers/pdf_extractor.py:57-162 | the as-written filter fails on an empty extraction, where the corrected filter returns no universities |
| PdfExtractor.ExtractAndFilter | scrapers/pdf_extractor.py:207-221 | corrected: agrees with the as-written filter whenever rows were found, gives no universities otherwise, and keeps only target universities with places |
| Matcher.SplitModules | processors/matcher.py:54-62 | every module key goes to exactly one side: mappable with a non-empty list, unmappable with an empty one |
| Matcher.Coverage | processors/matcher.py:61-63 | coverage is mappable/total*100, lies in [0,100], and is 0.0 for an empty group |
| Matcher.JoinOne | processors/matcher.py:46-85 | PDF fields are copied; mappable count equals the mappable keys; mappable + unmappable = group size; missing merge info defaults to one variation and [code] |
| Matcher.MatchPdfToMappings | processors/matcher.py:15-87 | the output keys are the PDF keys, each joined with its mapping group or with none |
| Matcher.UnscrapedHasNoModules | processors/matcher.py:48-63 | a university that was never scraped has no modules and coverage 0.0 |
| Matcher.MappingSummarySpec | processors/matcher.py:89-119 | "No mappings found" for none; otherwise one part per distinct partner code, named by its first mapping |
| Matcher.SummaryOfRepeats | processors/matcher.py:99-119 | a repeated mapping is listed once |
| Matcher.BucketCounts | processors/matcher.py:214-224 | the five coverage buckets partition the universities |
| Matcher.ModuleAvailability | processors/matcher.py:207-212 | for every module, available + not available = number of universities |
| Matcher.ByCountryGet | processors/matcher.py:196-205 | a country is listed iff it has universities, with their count and spots |
| Matcher.ModuleStatistics | processors/matcher.py:152-243 | totals, buckets, availability, the per-country keys and mean mappable count |
| Matcher.ModuleStatisticsByCountry | processors/matcher.py:196-240 | a country is listed iff it has universities, with their count and spots; its avg_mappable is the mappable total of the universities whose country is "" over that count, as written |
| Matcher.AverageByGet | processors/matcher.py:228-240 | the per-country pass keeps count and spots and sets avg_mappable to the given total over the count |
| Matcher.ModuleStatisticsAvgZero | processors/matcher.py:228-240 | as written, when no university's country is "", every country's avg_mappable is 0 |
| Matcher.ModuleStatisticsAvgExample | processors/matcher.py:233-240 | one university in "Japan" with three mappable modules gets avg_mappable 0.0 as written and 3.0 as intended |
| Matcher.CountryAveragesGet | processors/matcher.py:196-240 | corrected: each country's avg_mappable is the mean mappable count of its own universities |
| Ranker.FilterMinimum | processors/ranker.py:22-38 | keeps exactly the entries with mappable_count >= min, unchanged |
| Ranker.FilterMinimumIsHaving | processors/ranker.py:34-38 | the filter preserves input order |
| Ranker.RankKeyLe | processors/ranker.py:61-69 | the tuple key orders by country ascending, mappable descending, spots descending, CGPA ascending |
| Ranker.Rank | processors/ranker.py:40-71 | the output is a permutation, sorted by the rank order, with equal keys kept in input order |
| Ranker.FilterAndRank | processors/ranker.py:233-247 | the filtered entries, as a permutation, in rank order |
| Ranker.TopKeyLe | processors/ranker.py:85-94 | the top order is mappable descending, spots descending, CGPA ascending |
| Ranker.TopUniversities | processors/ranker.py:73-94 | a sub-multiset of the input of Python-slice length, sorted, no left-out entry beats a kept one, and among entries tied on the key the earliest in the input are kept |
| Ranker.GroupByCountrySpec | processors/ranker.py:96-116 | each country maps to exactly its entries, in input order |
| Ranker.AccOfLo | processors/ranker.py:144-152 | the running minimum is the least positive CGPA, if any |
| Ranker.AccOfHi | processors/ranker.py:144-152 | the running maximum is the greatest CGPA, or 0.0 |
| Ranker.CountrySummaryGet | processors/ranker.py:118-182 | one summary per country present, built from that country's universities |
| Ranker.FinalizeSpec | processors/ranker.py:175-180 | count, spots, mean mappable count, sorted university names, and CGPA range bounding every positive CGPA |
| Ranker.FinalizeAvgCgpa | processors/ranker.py:164-172 | avg_cgpa is the mean of the country's positive CGPAs, 0.0 when there are none, and otherwise lies between the reported min and max CGPA |
| Ranker.CgpaScore | processors/ranker.py:216-218 | 30 when the CGPA is not positive, else 30 - 6*CGPA, below 30 |
| Ranker.Scaled | processors/ranker.py:212-214 | value/max*weight, within [0, weight] when value <= max, 0 when max is 0 |
| Ranker.CalculateScores | processors/ranker.py:184-231 | every entry is kept unchanged with its scores attached |
| Ranker.ScoreBounds | processors/ranker.py:202-228 | mappable score <= 40, spots score <= 30, CGPA score 30 for no minimum, total is the sum |
| PdfService.NormalizeName | backend/services/pdf_service.py:115-134 | the key is lower case with only word characters and spaces, prefixed by lower(country)+"_" when a country is given |
| PdfService.NormalizeCountry | backend/services/pdf_service.py:165-171 | the variants hold lower(country) and at most its alias |
| PdfService.Keywords | backend/services/pdf_service.py:185-186 | keywords are the words longer than three characters |
| PdfService.Score | backend/services/pdf_service.py:198-207 | keyword hits plus 3 when one name contains the other |
| PdfService.BestOfSpec | backend/services/pdf_service.py:188-214 | picks the first candidate with the maximal score when that score is at least 2 |
| PdfService.FuzzyMatch | backend/services/pdf_service.py:179-180 | an empty table matches nothing |
| PdfService.FuzzyMatchNone | backend/services/pdf_service.py:173-214 | no match iff every candidate in the country scores below 2 |
| PdfService.FuzzyMatchSome | backend/services/pdf_service.py:173-214 | a match is the first maximal-scoring candidate in the country, with score at least 2 |
| PdfService.FuzzyMatchRespectsCountry | backend/services/pdf_service.py:192-196 | with a country given, a match's key contains one of its variants |
| PdfService.GetUniversityDataFromTable | backend/services/pdf_service.py:136-163 | the lookup only ever returns a record of the table (the exact-key entry or the fuzzy match's entry), and nothing from an empty table |
| PdfService.EnrichFromTable | backend/services/pdf_service.py:242-259 | the enrichment is the defaults (0, 0.0, "") or the spots, CGPA and remarks of one table record, so it is never negative when the table's CGPAs are not |
| PdfService.EmptyTableDefaults | backend/services/pdf_service.py:253-259 | an empty table of PDF records gives every university the defaults |
| PdfService.EnrichAsWritten | backend/services/pdf_service.py:58-113 | as written: the lookup raises AttributeError exactly when no PDF file was found; a failed extraction gives the defaults; a loaded table gives the defaults or one record's fields |
| PdfService.MissingPdfRaises | backend/services/pdf_service.py:64-67 | with no PDF file, every lookup raises as written and gets the defaults as corrected |
| PdfService.Enrich | backend/services/pdf_service.py:58-113 | corrected: the lookup always answers, with the defaults when no data was loaded |
| PdfService.EnrichAgrees | backend/services/pdf_service.py:58-113 | the corrected lookup equals the code as written on every load that found a PDF file |
| PortalScraper.CheckSession | scrapers/selenium_scraper.py:409-416 | logs in only when not authenticated |
| PortalScraper.Close | scrapers/selenium_scraper.py:976-985 | quits the driver and resets the authenticated flag |
| PortalScraper.Accept | scrapers/selenium_scraper.py:787-799 | a fallback record is kept iff its status contains "approved" and its year contains a target year |
| PortalScraper.ParseRow | scrapers/selenium_scraper.py:725-758 | a row is kept iff it has at least 8 cells, spans two columns in its first cell, and is approved and recent |
| PortalScraper.ParseResultsMember | scrapers/selenium_scraper.py:700-804 | results are exactly the accepted rows plus, after an interrupted scan, the accepted fallback records |
| PortalScraper.GroupModulesGet | scrapers/selenium_scraper.py:580-588 | mappings are grouped under the upper-cased module code; empty codes are dropped |
| PortalScraper.SelectCountry | scrapers/selenium_scraper.py:490-510 | selects by upper-cased value, else by the first option text containing the country |
| PortalScraper.ChooseUniversitySpec | scrapers/selenium_scraper.py:520-542 | the first option containing the name, else the first containing its first two words, else none |
| PortalScraper.SearchUniversity | scrapers/selenium_scraper.py:452-592 | never fails: every failure path gives no groups |
| PortalScraper.SearchUniversityGroups | scrapers/selenium_scraper.py:580-588 | every mapping in group k has upper-cased module k and is approved and recent |
| PortalScraper.SearchModule | scrapers/selenium_scraper.py:682-698 | the module search returns only mappings of the requested module |
| PortalScraper.RetryUniversitySearch | scrapers/selenium_scraper.py:900-919 | the search swallows its own errors, so the first attempt's result is returned without pauses |
| PortalScraper.CountryEntries | scrapers/selenium_scraper.py:636-640 | the placeholder option and options with an empty value are skipped |
| PortalScraper.UniversityNames | scrapers/selenium_scraper.py:659-668 | the placeholder option and blank names are skipped, and every other option is listed |
| PortalScraper.UniversityNamesInOrder | scrapers/selenium_scraper.py:659-668 | the names are exactly the non-blank options after the placeholder, in dropdown order |
| PortalScraper.ScrapeCountriesAndUniversities | scrapers/selenium_scraper.py:594-680 | fails exactly on an invalid session (SessionInvalid) or a missing dropdown, and otherwise builds a dictionary with distinct keys; its contents are stated by PortalScraper.ScrapeCountriesSpec |
| PortalScraper.ScrapeCountriesSpec | scrapers/selenium_scraper.py:636-668 | a country text is listed iff a non-placeholder option with a value has it; its value is the university list of the last such option, all non-blank names, and [] when that country's dropdown cannot be read |
| PortalScraper.LoadCheckpoint | scrapers/selenium_scraper.py:942-955 | a missing or unreadable checkpoint loads as no data and no completed universities |
| PortalScraper.SaveCheckpoint | scrapers/selenium_scraper.py:957-968 | loading a saved checkpoint gives back what was saved |
| PortalScraper.ClearCheckpoint | scrapers/selenium_scraper.py:970-974 | after clearing, the checkpoint loads as empty |
| PortalScraper.Remaining | scrapers/selenium_scraper.py:833 | the universities still to do are exactly those not completed |
| PortalScraper.TargetModules | scrapers/selenium_scraper.py:825 | the targets are the upper-cased requested modules |
| PortalScraper.WriteModulesGet | scrapers/selenium_scraper.py:857-860 | every target module gets the found list or [], and other keys are kept |
| PortalScraper.Step | scrapers/selenium_scraper.py:846-884 | the university becomes processed and no other university changes |
| PortalScraper.ScrapeAllMappings | scrapers/selenium_scraper.py:806-898 | every university ends up completed, and every remaining one is processed; checkpointed data is kept for the rest; one save per five universities and one at the end, the last holding the result |
| NtuMapper.ParseRow | scrapers/ntu_mapper.py:67-87 | a row is kept iff it has at least 6 cells, status exactly "approved" (any case) and a recent year |
| NtuMapper.SearchModuleMappingMember | scrapers/ntu_mapper.py:30-96 | results are the accepted rows after the header; any failure gives [] |
| NtuMapper.RetrySearch | scrapers/ntu_mapper.py:149-172 | the first attempt's result, with no pauses, since the search swallows its errors; with zero attempts allowed nothing is returned (None), as the loop falls off the end of the function |
| NtuMapper.ModuleResultsGet | scrapers/ntu_mapper.py:118-126 | one list per requested module |
| NtuMapper.ScrapeAllMappings | scrapers/ntu_mapper.py:98-147 | a key for every university, each with a list for every module; universities x modules searches; fails with ZeroDivisionError iff there is no university or no module |
| Backoff.FirstSuccess | scrapers/selenium_scraper.py:902-919 | finds the first attempt that does not raise |
| Backoff.Retry | scrapers/selenium_scraper.py:900-919 | returns the first successful attempt after pauses of (attempt+1)*2 seconds, or the fallback after max_retries failures |
| Database.CountryId | backend/services/database.py:169-177 | a country's id is found iff a row with that name exists |
| Database.InsertCountry | backend/services/database.py:140-160 | idempotent: an existing name returns its id and leaves the tables as they were, a new name gets a fresh id; the university, mapping and job tables are unchanged |
| Database.UniversityId | backend/services/database.py:217-230 | a university's id is found iff a row with that country and name exists |
| Database.InsertUniversity | backend/services/database.py:179-202 | unique per (country, name); a repeated insert returns the existing id |
| Database.InsertMappingsBulk | backend/services/database.py:267-308 | inserts one row per mapping after the existing rows, with consecutive fresh ids, the university id, and the code taken from ntu_module, else ntu_module_code, else ""; returns their number, 0 for none |
| Database.QueryMember | backend/services/database.py:324-348 | the query returns joined rows whose upper-cased code was requested and, when countries are given, whose country is listed |
| Database.UniGroup | backend/services/database.py:350-366 | results are grouped under "country_university" |
| Database.CodeGroup | backend/services/database.py:363-379 | within a university, mappings are grouped under the upper-cased code |
| Database.GetMappingsByModulesComplete | backend/services/database.py:310-381 | every selected row appears under its university and code |
| Database.GetMappingsByModulesSound | backend/services/database.py:310-381 | every returned mapping comes from a selected row with that university and code |
| Database.GetMappingsByModulesNames | backend/services/database.py:352-361 | a result's key is its country and university joined by "_" |
| Database.CreateJob | backend/services/database.py:405-413 | a new job with a fresh id, status "running" and a start time |
| Database.GetJob | backend/services/database.py:469-477 | the job with a given id, if any |
| Database.ApplyUpdate | backend/services/database.py:415-467 | only the given fields change; completed_at is set exactly for a terminal status; the prior status is not consulted |
| Database.UpdateJob | backend/services/database.py:415-467 | only the job with that id changes; an unknown id changes nothing |
| Database.UpdateThenGet | backend/services/database.py:415-477 | reading a job back after an update gives the updated job |
| Database.LatestJob | backend/services/database.py:479-490 | the job with the greatest id, if any |
| Database.RunningJob | backend/services/database.py:492-504 | the running job with the greatest id, or none when no job runs |
| Database.ForceCancelStale | backend/services/database.py:506-525 | every running job becomes cancelled with the stale message and a completion time; others are unchanged; returns the count |
| Database.ForceCancelStaleTwice | backend/services/database.py:516-523 | a second pass finds nothing to cancel |
| Database.ClearAllData | backend/services/database.py:569-576 | mappings, universities and countries are emptied; the jobs are kept |
| Database.DatabaseStats | backend/services/database.py:527-565 | populated iff a mapping exists; last_scrape is set only when the latest job completed |
| BulkScrape.VisitUniversity | backend/services/bulk_scraper.py:173-235 | a university visit counts it, adds its mappings and emits start then complete, or error when the search failed |
| BulkScrape.UniversityLoop | backend/services/bulk_scraper.py:165-242 | "ALL" entries are skipped and not counted; a finished loop counts every other university and its mappings |
| BulkScrape.CountryLoop | backend/services/bulk_scraper.py:140-251 | cancellation is checked before each country; a finished loop counts all countries, universities and mappings |
| BulkScrape.CountryLoopDb | backend/services/bulk_scraper.py:144-242 | the crawl only adds mappings and never alters a job's status |
| BulkScrape.Crawl | backend/services/bulk_scraper.py:109-269 | never fails; the browser is closed; completion reports every country and the summed inserted counts |
| BulkScrape.ScrapeAll | backend/services/bulk_scraper.py:74-304 | fails iff the browser, the login or discovery fails; the browser is closed on every path; the first event is "started" |
| BulkScrape.ScrapeAllJob | backend/services/bulk_scraper.py:81-86 | a job is created only when none was given |
| BulkScrape.ScrapeAllFailed | backend/services/bulk_scraper.py:282-300 | a failure marks the job "failed" with its message and emits an error event last |
| BulkScrape.ScrapeAllCancelled | backend/services/bulk_scraper.py:306-312 | a cancelled run writes neither "failed" nor "completed" |
| BulkScrape.ScrapeAllCompleted | backend/services/bulk_scraper.py:257-269 | completion marks the job "completed" with all countries and universities done, and the mappings stored equal the reported total |
| BulkScrape.Cancel | backend/services/bulk_scraper.py:64-72 | sets the flag and, when a job id is set, marks the job cancelled by the user |
| Cache.MappingKeyPermutation | backend/services/cache_manager.py:46-72 | the mapping key depends only on the sorted countries, the sorted modules and the username |
| Cache.ValidityWindow | backend/services/cache_manager.py:74-105 | a file is valid iff it is readable, has a timestamp and is younger than the TTL; validity only expires |
| Cache.GetUniversities | backend/services/cache_manager.py:107-136 | a hit needs a valid file with the same configuration |
| Cache.SaveUniversities | backend/services/cache_manager.py:138-156 | only the universities file changes |
| Cache.UniversitiesRoundTrip | backend/services/cache_manager.py:120-156 | saved universities are read back with their timestamp within 365 days |
| Cache.UniversitiesConfigMismatch | backend/services/cache_manager.py:129-132 | a different configuration misses |
| Cache.ClearUniversities | backend/services/cache_manager.py:232-242 | true iff the file existed; afterwards it is absent |
| Cache.GetMappings | backend/services/cache_manager.py:158-184 | a hit needs a valid file under the derived key |
| Cache.SaveMappings | backend/services/cache_manager.py:186-209 | only the mapping files change |
| Cache.MappingsRoundTrip | backend/services/cache_manager.py:172-209 | saved mappings are read back, for any permutation of countries and modules, within 30 days |
| Cache.SaveMappingsKeepsOthers | backend/services/cache_manager.py:186-209 | saving under one key leaves every other key's entry unchanged |
| Cache.ClearMappings | backend/services/cache_manager.py:244-255 | returns the number of mapping files; none remain |
| Cache.SaveDirectory | backend/services/cache_manager.py:280-297 | stores the directory with its country and university totals |
| Cache.GetDirectory | backend/services/cache_manager.py:257-278 | a hit needs a valid file |
| Cache.DirectoryRoundTrip | backend/services/cache_manager.py:269 | the directory is read back within the 30-day mapping TTL and not after |
| Cache.ClearDirectory | backend/services/cache_manager.py:299-311 | true iff the file existed; afterwards it is absent |
| Cache.ClearAll | backend/services/cache_manager.py:211-230 | removes universities.json and every mapping file and lists them; the directory file is kept |
| Cache.ClearAllMisses | backend/services/cache_manager.py:211-230 | after clear_all, universities and mappings miss and the directory is unaffected |
| Recommendation.GetUniversities | backend/services/recommendation_engine.py:137-180 | corrected (the filter returns no universities on an empty extraction): a cache hit reads no PDF; a miss without the PDF is FileNotFound; a miss extracts and filters, and saves only when caching is on; the result is the cached list or the filtered extraction |
| Recommendation.ScrapeResuming | scrapers/selenium_scraper.py:822-891 | as written: a search resumes from the checkpoint left by the previous one |
| Recommendation.StaleResumeExample | backend/services/recommendation_engine.py:237 | as written: a second search for another module returns the first search's stale module list |
| Recommendation.ScrapeFresh | backend/services/recommendation_engine.py:182-250 | corrected: every university is scraped for the requested modules, and nothing else is returned |
| Recommendation.GetMappings | backend/services/recommendation_engine.py:182-250 | corrected (the scrape starts from a cleared checkpoint): a cache hit starts no browser; a start or login failure is a RuntimeError; the browser is always closed; fresh data holds exactly the universities, each scraped for the target modules, and is saved only when caching is on |
| Recommendation.ProcessAndRank | backend/services/recommendation_engine.py:252-284 | the output is the joined, grouped and normalised data with at least min mappable modules, in rank order |
| Recommendation.ProcessAndRankJoins | backend/services/recommendation_engine.py:272-284 | each output entry is a grouped university joined with its normalised mappings |
| Recommendation.SearchUniversities | backend/services/recommendation_engine.py:64-135 | corrected (through its two steps): cache_used is the university hit and the mapping hit; the timestamp is the mapping time only then; hits skip the PDF and the browser; the ranking is step 3 applied to the universities and mapping data of steps 1 and 2; no cache is written without use_cache; it fails iff the PDF is needed and missing (FileNotFoundError) or the portal is needed and the browser does not start or the login fails (RuntimeError with the browser or login message) |
| Admin.StartScrape | backend/api/admin.py:99-162 | refuses (409) while a job runs; otherwise creates a running job before the crawl is registered |
| Admin.StartTwiceRefused | backend/api/admin.py:101-107 | a second start right after a first is refused |
| Admin.CancelScrape | backend/api/admin.py:214-233 | 404 for an unknown job, 400 for one not running, and nothing changes then; a registered running job is cancelled and unregistered |
| Admin.MappableOf | backend/api/admin.py:336-364 | the modules with at least one mapping |
| Admin.UnmappableAsWritten | backend/api/admin.py:367 | as written: requested modules missing from the mappable keys by exact string |
| Admin.LowerCaseReportedUnmappable | backend/api/admin.py:366-367 | as written, a lower-case request is reported unmappable even when it was found |
| Admin.LowerCaseExample | backend/api/admin.py:366-367 | as written, "sc1007" with a stored SC1007 row is both mappable and unmappable |
| Admin.Unmappable | backend/api/admin.py:367 | corrected: requested modules whose upper-cased code has no mapping |
| Admin.UnmappableAgreeOnUpper | backend/api/admin.py:367 | for upper-case requests the corrected list equals the as-written one |
| Admin.UnmappableIff | backend/api/admin.py:366-367 | corrected: a module is unmappable iff it was requested and the query found nothing under its upper case |
| Admin.UnmappableMeansNoRow | backend/api/admin.py:366-367 | corrected: a module with a selected row is never reported unmappable |
| Admin.DbCoverage | backend/api/admin.py:377 | coverage times the number of targets is the mappable count times 100 |
| Admin.ResultFor | backend/api/admin.py:349-382 | corrected (through Admin.Unmappable): name, country, key and mappable modules come from the query; PDF fields default; unmappable is the corrected list |
| Admin.QueryEntriesRequested | backend/services/database.py:337-367 | every module key of a query result is an upper-cased requested code with a non-empty list |
| Admin.NoTargetsNoResults | backend/services/database.py:326-339 | no requested modules selects no row |
| Admin.CoverageBounded | backend/api/admin.py:342-377 | the mappable count is at most the number of targets, and coverage lies in [0,100] |
| Admin.BuildMember | backend/api/admin.py:336-382 | an entry is built exactly for each university with at least min mappable modules |
| Admin.RankResults | backend/api/admin.py:385-389 | sorted by (mappable desc, country, name), ranks reassigned 1..n, same entries |
| Admin.SearchDatabase | backend/api/admin.py:314-389 | corrected (through Admin.ResultFor): 400 when not populated; otherwise the entries meeting the minimum, sorted and ranked 1..n |
| ApiModels.Capitalize | backend/api/models.py:23 | first character upper, the rest lower, same letters |
| ApiModels.ValidateDomain | backend/api/models.py:18-23 | accepted iff the upper case is STUDENT or STAFF, returned as "Student" or "Staff"; otherwise the fixed error message |
| ApiModels.ValidateDomainIdempotent | backend/api/models.py:18-23 | validating an accepted domain again changes nothing |
| ApiModels.NewCredentials | backend/api/models.py:14-23 | username and password need at least one character; domain defaults to Student and is validated |
| ApiModels.CredentialsRoundTrip | backend/api/models.py:14-23 | a validated record validates to itself |
| ApiModels.MinMappable | backend/api/models.py:78-82 | defaults to 2, an explicit null stays null, values below 1 are rejected |
| ApiModels.MinMappableRoundTrip | backend/api/models.py:78-82 | an accepted value is accepted again unchanged |
| ApiModels.ProgressRoundTrip | backend/api/models.py:253-258 | every message with a step in [1,3], whatever its type, is accepted and rebuilt unchanged from its own fields; other steps are rejected by ApiModels.NewProgress, whose type defaults to "progress" |

## Left out

- The Selenium browser is not modelled: driver setup, SSO login, alerts, waits and the 2FA loop. It is an oracle: option lists, table rows, a search function, or flags for start, login and session.
- Sleeps and the random jitter are not modelled. Retry pauses are returned as a list of seconds.
- The HTTP client and HTML parsing in scrapers/ntu_mapper.py are not modelled. A response is a status or a table of cell texts.
- pdfplumber and pandas are not modelled. Pages are a sequence of tables of optional cell strings.
  - The regex `str.contains` on the college is modelled as a substring test.
- SQLite is in-memory tables with AUTOINCREMENT counters. Connections, transactions and SQL text are not modelled.
- JSON serialisation of cache and checkpoint files is the identity. A file is present, absent or unreadable.
- The clock is an integer count of seconds. A TTL day is 86400 seconds, and ISO timestamps are those integers.
- The cache key's SHA-256 is an uninterpreted function `digest` of the canonical key string. The SHA-256 standard (FIPS 180-4) itself is not modelled.
- `round(…, 2)` and float formatting are not modelled. CGPA, coverage, averages and scores are exact reals.
- Case mapping, `\w`, `\d` and the digits accepted by `int()` and `float()` are ASCII.
  - Python also counts other Unicode digits, such as '٣', as `\d` in the spots and CGPA cells of scrapers/pdf_extractor.py (lines 127-128 and 139-140). `int()` and `float()` convert them too. The model's `IsDigit` drops them, so such a cell parses differently here.
  - Python's `str.upper` also maps other letters, for example 'ſ' to 'S'. So `ApiModels.ValidateDomain` rejects "ſtudent" where Python accepts it.
- Matcher.ModuleStatistics: the per-country avg_mappable is modelled as written, so it is not each country's own mean. It compares each university's country with the entry's missing 'country' key, which reads as "". So it stays 0 unless some university's country is the empty string, which extraction never produces. See "## Findings"; Matcher.CountryAverages is the corrected form.
- Async code is left out, because concurrency is outside this model:
  - FastAPI routing and the WebSocket registry;
  - `AsyncBulkScraper` with its queue and thread pool;
  - the background task of `start_scrape`.
- Progress callbacks are modelled as an event list.
- These files are not part of this model: utils/crypto.py, processors/output_generator.py, main.py, run_api.py, backend/api/main.py and the live HTTP test scripts.
- The PDF service's singleton construction and lazy glob loading are not modelled. The outcome of the load (no file, a failed extraction, or a table of records) is a parameter. A missing PDF file makes the lookup raise AttributeError; see "## Findings".
- `DatabaseSearchRequest` and `AdminScrapeRequest` are not defined in backend/api/models.py. Their fields are taken as given, with no bounds.
- The cache key's `str(list)` (`Cache.ListRepr`) puts every string in single quotes and escapes nothing. Python switches to double quotes for a string holding a single quote and escapes backslashes. So two module lists that Python keys apart can share a key here, for example ["a', 'b"] and ["a", "b"].
- The optional `details` dictionary of a progress message is not modelled.
- The request models report only the first failing field. Pydantic collects every validation error of a request.
- Database.InsertCountry / Database.InsertUniversity: an ignored `INSERT OR IGNORE` leaves the counter alone here. SQLite may take the new id before the UNIQUE check and so advance its AUTOINCREMENT counter anyway. Later ids can then differ from the model's by gaps. The ids stay unique and increasing either way.
- Query rows that tie on country, university and module code keep their insertion order here. SQLite's ORDER BY leaves the order of such ties unspecified.
- Option texts of the portal's dropdowns are taken as already stripped (`.strip()` in scrapers/selenium_scraper.py).
- Python's set iteration order is unspecified. The merged remarks and the target-module order use first-occurrence order.
- Admin.ResultFor: the rank counter of the building loop is not modelled. It is overwritten by the 1..n reassignment after the sort.
- Admin.CancelScrape: the cancelled status is promised only for job ids other than 0. `BulkScrape.Cancel` tests the id for truth as the source does, and the model does not carry the fact that SQLite ids start at 1.
- BulkScrape.Cancel: the same condition on id 0 applies.
- NameNormalizer.Normalize: idempotence and the "Univ." expansion are not claimed. `\buniv\.\b` cannot match before a space, and a trailing " -" leaves a trailing space.
- PortalScraper.RetryUniversitySearch: the retry loop reduces to one attempt, because the search never raises. The backoff itself is proved in `Backoff.Retry`.
- NtuMapper.RetrySearch: the same reduction to one attempt applies.
- Recommendation.GetUniversities: models the corrected filter. On an empty extraction the code as written raises KeyError (see `PdfExtractor.FilterTargetsAsWritten`). Here the step succeeds with no universities.
- Recommendation.GetMappings: models the corrected scrape, which starts from a cleared checkpoint. The code as written resumes from checkpoint.json and can return another search's stale module lists (see `Recommendation.ScrapeResuming`). The step does not promise that behaviour.
- Recommendation.SearchUniversities: inherits both corrections from its steps. It does not model the KeyError or the stale resume of the code as written.
- Admin.ResultFor: uses the corrected `Admin.Unmappable`. The code as written also lists a lower-case request such as "sc1007" as unmappable when its upper-cased code has rows (see `Admin.UnmappableAsWritten`).
- Admin.SearchDatabase: inherits the corrected unmappable list from `Admin.ResultFor`.

## Findings

| source | as written | input that shows it | evidently intended | confidence | as-written member | corrected member |
|---|---|---|---|---|---|---|
| scrapers/pdf_extractor.py:57-58, 162 | an extraction with no rows builds a DataFrame without columns, and filtering on its 'country' column raises KeyError | a PDF whose tables all have fewer than two rows | no target universities | not executed | PdfExtractor.FilterTargetsAsWritten (PdfExtractor.EmptyExtractionFails) | PdfExtractor.ExtractAndFilter |
| scrapers/selenium_scraper.py:822, 833, 891; backend/services/recommendation_engine.py:237 | the API path never clears checkpoint.json. A second cache-miss search resumes from it, skips universities it marks completed, and returns their old module lists | a search for SC1007 over U1, then a search for SC2001 over U1 | every search scrapes its own modules | not executed | Recommendation.StaleResumeExample (Recommendation.ScrapeResuming) | Recommendation.ScrapeFresh |
| backend/api/admin.py:322-325, 367 | unmappable compares the requested codes by exact string against keys the query upper-cases | request "sc1007" with a stored SC1007 row: the module is listed both as mappable and as unmappable | compare the upper-cased code | not executed | Admin.UnmappableAsWritten (Admin.LowerCaseReportedUnmappable, Admin.LowerCaseExample) | Admin.Unmappable (Admin.UnmappableIff, Admin.UnmappableMeansNoRow) |
| processors/matcher.py:233-240 | the per-country sum of mappable counts compares each university's country with `country_stats.get('country', '')`, and the entry has no 'country' key, so every country averages the universities whose country is "" | one university in "Japan" with three mappable modules: avg_mappable 0.0 | each country's mean over its own universities | not executed | Matcher.ModuleStatistics (Matcher.ModuleStatisticsAvgZero, Matcher.ModuleStatisticsAvgExample) | Matcher.CountryAverages (Matcher.CountryAveragesGet) |
| backend/services/pdf_service.py:64-67, 150 | with no PDF file the loader sets only `_pdf_data` and returns; `_name_to_data` is not a class attribute, so `get_university_data` raises AttributeError | any lookup when no file matches `*GEM_Explorer*Vacancy*.pdf` | the defaults (0, 0.0, ""), as after a failed extraction | not executed | PdfService.EnrichAsWritten (PdfService.MissingPdfRaises) | PdfService.Enrich (PdfService.EnrichAgrees) |
