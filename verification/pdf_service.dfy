/** `PDFDataService` (backend/services/pdf_service.py): looking up a
    university's vacancy data by name and country, first by a normalised
    key and then by a keyword/substring score. The table of vacancy records
    by normalised key is a parameter; loading it from the PDF is outside
    this model. */
module PdfService {
  import opened Wrappers
  import opened Text
  import opened ODicts
  import opened Seqs
  import opened Patterns

  /** One vacancy record as the service stores it. */
  datatype PdfRecord = PdfRecord(
    universityName: string,
    country: string,
    code: string,
    sem1Spots: nat,
    sem2Spots: nat,
    fullYearSpots: nat,
    minCgpa: real,
    statusFor: string,
    remarks: string)

  // ---------------------------------------------------------------------
  // Keys
  // ---------------------------------------------------------------------

  /** `re.sub(r'[^\w\s]', '', s)`: only word characters and whitespace stay. */
  function KeepWordOrSpace(s: string): (r: string)
    ensures forall c :: c in r <==> c in s && (IsWordChar(c) || IsSpace(c))
  {
    if |s| == 0 then ""
    else
      var rest := KeepWordOrSpace(s[..|s| - 1]);
      var c := s[|s| - 1];
      assert forall x :: x in s <==> x in s[..|s| - 1] || x == c;
      if IsWordChar(c) || IsSpace(c) then rest + [c] else rest
  }

  /** The name part of the key: lower case, whitespace runs collapsed,
      punctuation dropped, then "the ", " university" and "university of "
      deleted and " of " turned into a space, in that order. */
  function NameCore(name: string): (r: string)
    ensures forall c :: c in r ==> (IsWordChar(c) || c == ' ') && !IsUpper(c)
  {
    var t1 := Lower(name);
    var t2 := Sub(Spaces, t1, " ");
    var t3 := KeepWordOrSpace(t2);
    var t4 := ReplaceAll(t3, "the ", "");
    var t5 := ReplaceAll(t4, " university", "");
    var t6 := ReplaceAll(t5, "university of ", "");
    var t7 := ReplaceAll(t6, " of ", " ");
    SubChars(Spaces, t1, " ");
    forall c | IsSpace(c) && c != ' ' ensures c !in t2 {
      SubFromRemoves(Spaces, t1, 0, " ", c);
    }
    ReplaceAllChars(t3, "the ", "");
    ReplaceAllChars(t4, " university", "");
    ReplaceAllChars(t5, "university of ", "");
    ReplaceAllChars(t6, " of ", " ");
    t7
  }

  /** `_normalize_name(name, country)`: the name part, prefixed with the
      lower-cased country and '_' when a country is given, then stripped. */
  function NormalizeName(name: string, country: string): (r: string)
    ensures NoUpper(r)
    ensures country == "" ==> forall c :: c in r ==> IsWordChar(c) || c == ' '
    ensures country != "" && !IsSpace(country[0]) ==> StartsWith(r, Lower(country) + "_")
  {
    var core := NameCore(name);
    var t := if country != "" then Lower(country) + "_" + core else core;
    assert NoUpper(t) by {
      LowerIsLowercase(country);
    }
    StripChars(t);
    assert country != "" && !IsSpace(country[0]) ==> StartsWith(Strip(t), Lower(country) + "_") by {
      if country != "" && !IsSpace(country[0]) {
        assert t[..|country| + 1] == Lower(country) + "_";
        StripKeepsPrefix(t, |country| + 1);
      }
    }
    Strip(t)
  }

  /** A prefix that starts and ends with non-whitespace survives a strip. */
  lemma StripKeepsPrefix(t: string, n: nat)
    requires 0 < n <= |t| && !IsSpace(t[0]) && !IsSpace(t[n - 1])
    ensures StartsWith(Strip(t), t[..n])
  {
    assert LStrip(t) == t;
    var r := RStrip(t);
    assert |r| >= n;
  }

  /** `COUNTRY_ALIASES` */
  const CountryAliases: map<string, string> := map[
    "uk" := "united kingdom",
    "united kingdom" := "uk",
    "usa" := "united states",
    "united states" := "usa",
    "united states of america" := "usa",
    "turkiye" := "turkey",
    "turkey" := "turkiye",
    "south korea" := "korea",
    "korea" := "south korea",
    "republic of korea" := "korea",
    "czech republic" := "czechia",
    "czechia" := "czech republic",
    "hong kong sar" := "hong kong",
    "hong kong" := "hong kong sar"]

  /** `_normalize_country`: the lower-cased name and its alias, if it has one. */
  function NormalizeCountry(country: string): (r: set<string>)
    ensures Lower(country) in r && |r| <= 2
    ensures forall v :: v in r ==> v == Lower(country) || (Lower(country) in CountryAliases && v == CountryAliases[Lower(country)])
    ensures Lower(country) in CountryAliases ==> CountryAliases[Lower(country)] in r
  {
    var l := Lower(country);
    if l in CountryAliases then {l, CountryAliases[l]} else {l}
  }

  /** The aliases come in pairs: every alias of a name is itself a name
      whose alias leads back, except the two long forms that only point to
      a short one. */
  lemma AliasesPaired(c: string)
    requires c in CountryAliases && c != "united states of america" && c != "republic of korea"
    ensures CountryAliases[c] in CountryAliases && CountryAliases[CountryAliases[c]] == c
  {
  }

  // ---------------------------------------------------------------------
  // Fuzzy match
  // ---------------------------------------------------------------------

  /** The words of the name longer than three characters. */
  function Keywords(ws: seq<string>): (r: seq<string>)
    ensures forall w :: w in r <==> w in ws && |w| > 3
  {
    if |ws| == 0 then []
    else
      var rest := Keywords(ws[..|ws| - 1]);
      var w := ws[|ws| - 1];
      assert forall x :: x in ws <==> x in ws[..|ws| - 1] || x == w;
      if |w| > 3 then rest + [w] else rest
  }

  /** A stored key is considered when no country is given, or when one of
      the country's variants occurs in it. */
  predicate CountryMatches(key: string, variants: set<string>)
  {
    variants == {} || exists v :: v in variants && Contains(key, v)
  }

  /** One point per keyword found in the stored name, three more when
      either name contains the other. */
  function Score(stored: string, uniLower: string, keywords: seq<string>): (n: nat)
    ensures n <= |keywords| + 3
    ensures Contains(uniLower, stored) || Contains(stored, uniLower) ==> n >= 3
    ensures !(Contains(uniLower, stored) || Contains(stored, uniLower)) ==> n <= |keywords|
  {
    CountIf(keywords, (k: string) => Contains(stored, k)) + (if Contains(uniLower, stored) || Contains(stored, uniLower) then 3 else 0)
  }

  /** The score of each table entry, or `None` for one the country rules out. */
  function Candidates(table: ODict<string, PdfRecord>, uniLower: string, variants: set<string>, keywords: seq<string>): (sc: seq<Option<nat>>)
    ensures |sc| == |table|
    ensures forall i :: 0 <= i < |table| ==>
              (sc[i].Some? <==> CountryMatches(table[i].0, variants)) &&
              (sc[i].Some? ==> sc[i].value == Score(Lower(table[i].1.universityName), uniLower, keywords))
  {
    seq(|table|, i requires 0 <= i < |table| =>
      if CountryMatches(table[i].0, variants) then Some(Score(Lower(table[i].1.universityName), uniLower, keywords)) else None)
  }

  /** The loop keeping the best score seen: a candidate replaces the best
      only with a strictly higher score of at least 2. */
  function BestOf(sc: seq<Option<nat>>): (r: (nat, Option<nat>))
    ensures r.1.Some? ==> r.1.value < |sc|
  {
    if |sc| == 0 then (0, None)
    else
      var b := BestOf(sc[..|sc| - 1]);
      var s := sc[|sc| - 1];
      if s.Some? && s.value > b.0 && s.value >= 2 then (s.value, Some(|sc| - 1)) else b
  }

  /** The loop finds nothing iff every candidate scores below 2; otherwise
      it finds the first candidate with the highest score. */
  lemma {:induction false} BestOfSpec(sc: seq<Option<nat>>)
    ensures BestOf(sc).1.None? <==> forall j :: 0 <= j < |sc| && sc[j].Some? ==> sc[j].value < 2
    ensures BestOf(sc).1.None? ==> BestOf(sc).0 == 0
    ensures BestOf(sc).1.Some? ==>
              var i := BestOf(sc).1.value;
              var best := BestOf(sc).0;
              i < |sc| && sc[i] == Some(best) && best >= 2 &&
              (forall j :: 0 <= j < |sc| && sc[j].Some? ==> sc[j].value <= best) &&
              (forall j :: 0 <= j < i && sc[j].Some? ==> sc[j].value < best)
  {
    if |sc| > 0 {
      var init := sc[..|sc| - 1];
      BestOfSpec(init);
      assert forall j :: 0 <= j < |init| ==> init[j] == sc[j];
    }
  }

  /** `_fuzzy_match` */
  function FuzzyMatch(table: ODict<string, PdfRecord>, name: string, country: string): (r: Option<PdfRecord>)
    ensures |table| == 0 ==> r.None?
  {
    if |table| == 0 then None
    else
      var uniLower := Lower(name);
      var sc := Candidates(table, uniLower, Variants(country), Keywords(Words(uniLower)));
      match BestOf(sc).1
      case Some(i) => Some(table[i].1)
      case None => None
  }

  /** The search parameters `_fuzzy_match` derives from the request. */
  function Variants(country: string): set<string>
  {
    if country != "" then NormalizeCountry(country) else {}
  }

  function EntryScore(table: ODict<string, PdfRecord>, i: nat, name: string): nat
    requires i < |table|
  {
    Score(Lower(table[i].1.universityName), Lower(name), Keywords(Words(Lower(name))))
  }

  /** The fuzzy match finds nothing iff no entry the country allows scores
      at least 2. */
  lemma FuzzyMatchNone(table: ODict<string, PdfRecord>, name: string, country: string)
    ensures FuzzyMatch(table, name, country).None? <==>
              forall j :: 0 <= j < |table| && CountryMatches(table[j].0, Variants(country)) ==> EntryScore(table, j, name) < 2
  {
    if |table| > 0 {
      var sc := Candidates(table, Lower(name), Variants(country), Keywords(Words(Lower(name))));
      CandidatesNone(table, name, country, sc);
      assert FuzzyMatch(table, name, country).None? <==> BestOf(sc).1.None?;
    }
  }

  lemma CandidatesNone(table: ODict<string, PdfRecord>, name: string, country: string, sc: seq<Option<nat>>)
    requires sc == Candidates(table, Lower(name), Variants(country), Keywords(Words(Lower(name))))
    ensures BestOf(sc).1.None? <==>
              forall j :: 0 <= j < |table| && CountryMatches(table[j].0, Variants(country)) ==> EntryScore(table, j, name) < 2
  {
    BestOfSpec(sc);
  }

  /** The best candidate of the scores, read back as an entry of the
      table. */
  lemma BestEntry(table: ODict<string, PdfRecord>, name: string, country: string, sc: seq<Option<nat>>, i: nat, best: nat)
    requires sc == Candidates(table, Lower(name), Variants(country), Keywords(Words(Lower(name))))
    requires i < |sc| && sc[i] == Some(best) && best >= 2
    requires forall j :: 0 <= j < |sc| && sc[j].Some? ==> sc[j].value <= best
    requires forall j :: 0 <= j < i && sc[j].Some? ==> sc[j].value < best
    ensures CountryMatches(table[i].0, Variants(country)) && EntryScore(table, i, name) == best
    ensures forall j :: 0 <= j < |table| && CountryMatches(table[j].0, Variants(country)) ==> EntryScore(table, j, name) <= best
    ensures forall j :: 0 <= j < i && CountryMatches(table[j].0, Variants(country)) ==> EntryScore(table, j, name) < best
  {
    forall j | 0 <= j < |table| && CountryMatches(table[j].0, Variants(country))
      ensures EntryScore(table, j, name) <= best && (j < i ==> EntryScore(table, j, name) < best)
    {
      assert sc[j].Some? && sc[j].value == EntryScore(table, j, name);
    }
  }

  /** A fuzzy match is the table entry at the index the loop kept. */
  lemma FuzzyMatchAt(table: ODict<string, PdfRecord>, name: string, country: string, d: PdfRecord)
    requires FuzzyMatch(table, name, country) == Some(d)
    ensures var sc := Candidates(table, Lower(name), Variants(country), Keywords(Words(Lower(name))));
            BestOf(sc).1.Some? && table[BestOf(sc).1.value].1 == d
  {
  }

  /** What the fuzzy match returns is the first entry, in table order, with
      the highest score among those the country allows. */
  lemma FuzzyMatchSome(table: ODict<string, PdfRecord>, name: string, country: string, d: PdfRecord)
    requires FuzzyMatch(table, name, country) == Some(d)
    ensures exists i :: 0 <= i < |table| && table[i].1 == d && CountryMatches(table[i].0, Variants(country)) &&
              EntryScore(table, i, name) >= 2 &&
              (forall j :: 0 <= j < |table| && CountryMatches(table[j].0, Variants(country)) ==> EntryScore(table, j, name) <= EntryScore(table, i, name)) &&
              (forall j :: 0 <= j < i && CountryMatches(table[j].0, Variants(country)) ==> EntryScore(table, j, name) < EntryScore(table, i, name))
  {
    var sc := Candidates(table, Lower(name), Variants(country), Keywords(Words(Lower(name))));
    FuzzyMatchAt(table, name, country, d);
    BestOfSpec(sc);
    var i := BestOf(sc).1.value;
    BestEntry(table, name, country, sc, i, BestOf(sc).0);
  }

  /** With a country given, an entry whose key holds neither the country
      nor its alias is never returned. */
  lemma FuzzyMatchRespectsCountry(table: ODict<string, PdfRecord>, name: string, country: string, d: PdfRecord)
    requires country != "" && FuzzyMatch(table, name, country) == Some(d)
    ensures exists i :: 0 <= i < |table| && table[i].1 == d &&
              exists v :: v in NormalizeCountry(country) && Contains(table[i].0, v)
  {
    FuzzyMatchSome(table, name, country, d);
  }

  // ---------------------------------------------------------------------
  // Lookup
  // ---------------------------------------------------------------------

  /** `get_university_data`: the record under the exact normalised key,
      else the fuzzy match; `None` stands for the default record
      (no spots, CGPA 0.0, no remarks). */
  function GetUniversityData(table: ODict<string, PdfRecord>, name: string, country: string): (r: Option<PdfRecord>)
    ensures Get(table, NormalizeName(name, country)).Some? ==> r == Get(table, NormalizeName(name, country))
    ensures Get(table, NormalizeName(name, country)).None? ==> r == FuzzyMatch(table, name, country)
  {
    match Get(table, NormalizeName(name, country))
    case Some(d) => Some(d)
    case None => FuzzyMatch(table, name, country)
  }

  /** `enrich_with_pdf_data`: spots, CGPA and remarks of the record found,
      or 0, 0.0 and "". */
  function EnrichWithPdfData(table: ODict<string, PdfRecord>, name: string, country: string): (r: (nat, real, string))
    ensures GetUniversityData(table, name, country).None? ==> r == (0, 0.0, "")
    ensures forall d :: GetUniversityData(table, name, country) == Some(d) ==> r == (d.sem1Spots, d.minCgpa, d.remarks)
  {
    match GetUniversityData(table, name, country)
    case Some(d) => (d.sem1Spots, d.minCgpa, d.remarks)
    case None => (0, 0.0, "")
  }

  /** Whatever the lookup finds is a record of the table: the exact hit
      under its key, or the fuzzy match's entry. An empty table finds
      nothing. */
  lemma GetUniversityDataFromTable(table: ODict<string, PdfRecord>, name: string, country: string)
    ensures var r := GetUniversityData(table, name, country);
            r.Some? ==> exists i :: 0 <= i < |table| && table[i].1 == r.value
    ensures |table| == 0 ==> GetUniversityData(table, name, country).None?
  {
    var r := GetUniversityData(table, name, country);
    if r.Some? {
      var key := NormalizeName(name, country);
      if Get(table, key).Some? {
        var i :| 0 <= i < |table| && table[i] == (key, r.value);
        assert table[i].1 == r.value;
      } else {
        FuzzyMatchSome(table, name, country, r.value);
      }
    }
  }

  /** The enrichment is either the defaults or the spots, CGPA and remarks
      of one record of the table; so when every record's CGPA is
      non-negative, so is the enriched one. */
  lemma EnrichFromTable(table: ODict<string, PdfRecord>, name: string, country: string)
    ensures var r := EnrichWithPdfData(table, name, country);
            r == (0, 0.0, "") ||
            exists i :: 0 <= i < |table| && r == (table[i].1.sem1Spots, table[i].1.minCgpa, table[i].1.remarks)
    ensures (forall i :: 0 <= i < |table| ==> table[i].1.minCgpa >= 0.0) ==>
              EnrichWithPdfData(table, name, country).1 >= 0.0
  {
    GetUniversityDataFromTable(table, name, country);
    var g := GetUniversityData(table, name, country);
    if g.Some? {
      var i :| 0 <= i < |table| && table[i].1 == g.value;
      assert EnrichWithPdfData(table, name, country) == (table[i].1.sem1Spots, table[i].1.minCgpa, table[i].1.remarks);
    }
  }

  /** An empty table always yields the defaults. */
  lemma EmptyTableDefaults(name: string, country: string)
    ensures EnrichWithPdfData([], name, country) == (0, 0.0, "")
  {
  }

  // ---------------------------------------------------------------------
  // Loading
  // ---------------------------------------------------------------------

  /** How `_load_pdf_data` ended: no file matched the glob, the extraction
      raised, or the table of records by normalised key was built. */
  datatype LoadOutcome = NoPdfFile | LoadFailed | Loaded(table: ODict<string, PdfRecord>)

  const MissingTable := "AttributeError: 'PDFDataService' object has no attribute '_name_to_data'"

  /** `enrich_with_pdf_data` after the load as written. With no PDF file the
      loader sets only `_pdf_data` and returns, so `_name_to_data` was never
      assigned and the lookup raises; a failed extraction resets both
      dictionaries, so every university gets the defaults. */
  function EnrichAsWritten(o: LoadOutcome, name: string, country: string): (r: Result<(nat, real, string), string>)
    ensures r.Failure? <==> o.NoPdfFile?
    ensures r.Failure? ==> r.error == MissingTable
    ensures o.LoadFailed? ==> r == Success((0, 0.0, ""))
    ensures o.Loaded? ==> r.Success?
    ensures o.Loaded? ==> (r.value == (0, 0.0, "") ||
              exists i :: 0 <= i < |o.table| && r.value == (o.table[i].1.sem1Spots, o.table[i].1.minCgpa, o.table[i].1.remarks))
  {
    match o
    case NoPdfFile => Failure(MissingTable)
    case LoadFailed => Success(EnrichWithPdfData([], name, country))
    case Loaded(table) =>
      EnrichFromTable(table, name, country);
      Success(EnrichWithPdfData(table, name, country))
  }

  /** Any university, with no PDF file present, makes the lookup raise
      instead of returning the defaults. */
  lemma MissingPdfRaises(name: string, country: string)
    ensures EnrichAsWritten(NoPdfFile, name, country) == Failure(MissingTable)
    ensures Enrich(NoPdfFile, name, country) == (0, 0.0, "")
  {
  }

  /** The table a load leaves, as intended: no file and a failed
      extraction both leave an empty table. */
  function TableOf(o: LoadOutcome): ODict<string, PdfRecord>
  {
    if o.Loaded? then o.table else []
  }

  /** The enrichment as intended: whatever the load did, the lookup
      answers, with the defaults when no data was loaded. */
  function Enrich(o: LoadOutcome, name: string, country: string): (r: (nat, real, string))
    ensures !o.Loaded? ==> r == (0, 0.0, "")
    ensures o.Loaded? ==> (r == (0, 0.0, "") ||
              exists i :: 0 <= i < |o.table| && r == (o.table[i].1.sem1Spots, o.table[i].1.minCgpa, o.table[i].1.remarks))
  {
    EnrichFromTable(TableOf(o), name, country);
    EnrichWithPdfData(TableOf(o), name, country)
  }

  /** The corrected enrichment never fails, and agrees with the code as
      written on every load that has a PDF file. */
  lemma EnrichAgrees(o: LoadOutcome, name: string, country: string)
    ensures !o.NoPdfFile? ==> EnrichAsWritten(o, name, country) == Success(Enrich(o, name, country))
    ensures o.NoPdfFile? ==> EnrichAsWritten(o, name, country).Failure? && Enrich(o, name, country) == (0, 0.0, "")
  {
  }
}
