/** `PDFExtractor` (scrapers/pdf_extractor.py): rows of the vacancy PDF's
    tables are parsed into vacancy rows, and the rows a student can apply to
    are filtered into a dictionary keyed by university code. The PDF library
    is left out: a page is given as the list of tables it yields, a table as
    its rows, and a cell is a string or absent (`None`). */
module PdfExtractor {
  import opened Wrappers
  import opened Text
  import opened Numbers
  import opened ODicts
  import opened Seqs
  import opened Records

  type Cell = Option<string>
  type Table = seq<seq<Cell>>

  /** One parsed row of the vacancy list. */
  datatype Row = Row(
    continent: string,
    country: string,
    code: string,
    subCode: string,
    name: string,
    status: string,
    statusFor: string,
    fullYearSpots: nat,
    sem1Spots: nat,
    sem2Spots: nat,
    minCgpa: real,
    remarks: string)

  /** `str(cell or "").strip()` */
  function CellText(c: Cell): string
  {
    match c
    case None => ""
    case Some(s) => Strip(s)
  }

  // ---------------------------------------------------------------------
  // Numbers
  // ---------------------------------------------------------------------

  /** `_parse_number`: the digits of the cell read as a decimal integer, 0
      when the cell is absent or holds no digit. Stripping is not modelled
      separately because the digit filter drops whitespace anyway. */
  function ParseNumber(v: Cell): (r: nat)
    ensures v.None? ==> r == 0
    ensures v.Some? && (forall c :: c in v.value ==> !IsDigit(c)) ==> r == 0
  {
    match v
    case None => 0
    case Some(s) =>
      var t := KeepDigits(s);
      if t == "" then 0
      else NatValue(t)
  }

  /** `_parse_number(str(n)) == n`. */
  lemma ParseNumberOfString(n: nat)
    ensures ParseNumber(Some(NatToString(n))) == n
  {
    var s := NatToString(n);
    NatValueOfString(n);
    assert KeepDigits(s) == s by { KeepDigitsOfDigits(s); }
  }

  lemma {:induction false} KeepDigitsOfDigits(s: string)
    requires AllDigits(s)
    ensures KeepDigits(s) == s
  {
    if |s| > 0 {
      KeepDigitsOfDigits(s[..|s| - 1]);
      assert s[..|s| - 1] + [s[|s| - 1]] == s;
    }
  }

  /** A non-digit character anywhere in the cell does not change the number. */
  lemma ParseNumberIgnores(a: string, c: char, b: string)
    requires !IsDigit(c)
    ensures ParseNumber(Some(a + [c] + b)) == ParseNumber(Some(a + b))
  {
    KeepDigitsConcat(a + [c], b);
    KeepDigitsConcat(a, [c]);
    KeepDigitsConcat(a, b);
    assert KeepDigits([c]) == "" by {
      assert [c][..0] == [];
    }
    assert KeepDigits(a) + "" == KeepDigits(a);
  }

  /** `_parse_float`: the digits and points of the cell read as a decimal,
      0.0 when the cell is absent, holds neither, or does not read as one
      number (two points, or a lone point). */
  function ParseFloat(v: Cell): (r: real)
    ensures r >= 0.0
    ensures v.None? ==> r == 0.0
  {
    match v
    case None => 0.0
    case Some(s) =>
      var t := KeepDecimal(s);
      if t == "" then 0.0
      else ReadDecimal(t).GetOr(0.0)
  }

  /** A cell holding `a.b` (both written by `str`) reads as that decimal. */
  lemma ParseFloatOfStrings(a: nat, b: nat)
    ensures ParseFloat(Some(NatToString(a) + "." + NatToString(b))) == a as real + b as real / Pow10(|NatToString(b)|) as real
  {
    var t := NatToString(a) + "." + NatToString(b);
    ReadDecimalOfStrings(a, b);
    KeepDecimalOfDecimal(t);
  }

  lemma {:induction false} KeepDecimalOfDecimal(s: string)
    requires DigitsOrPoints(s)
    ensures KeepDecimal(s) == s
  {
    if |s| > 0 {
      KeepDecimalOfDecimal(s[..|s| - 1]);
      assert s[..|s| - 1] + [s[|s| - 1]] == s;
    }
  }

  /** A cell with two points, such as "3.5.1", reads as 0.0. */
  lemma ParseFloatTwoPoints(a: string, b: string, c: string)
    requires AllDigits(a) && AllDigits(b) && AllDigits(c)
    ensures ParseFloat(Some(a + "." + b + "." + c)) == 0.0
  {
    var t := a + "." + b + "." + c;
    assert DigitsOrPoints(t);
    KeepDecimalOfDecimal(t);
    assert '.' !in a by {
      assert forall k :: 0 <= k < |a| ==> IsDigit(a[k]);
    }
    TwoPointsUnreadable(a, b, c);
  }

  // ---------------------------------------------------------------------
  // Rows
  // ---------------------------------------------------------------------

  /** A university-name cell that is a repeated header. */
  predicate IsHeaderName(name: string) {
    name == "University" || name == "University Name"
  }

  /** `_parse_row`: a row needs cells 0 to 10 (a shorter row raises
      `IndexError`, which is caught); it is dropped when the university name
      is empty or a header, or the country is empty. Cell 11, when present,
      holds the remarks. */
  function ParseRow(cells: seq<Cell>): (r: Option<Row>)
    ensures r.Some? <==> |cells| >= 11 && CellText(cells[4]) != "" && !IsHeaderName(CellText(cells[4])) && CellText(cells[1]) != ""
    ensures r.Some? ==>
              r.value.continent == CellText(cells[0]) && r.value.country == CellText(cells[1]) &&
              r.value.code == CellText(cells[2]) && r.value.subCode == CellText(cells[3]) &&
              r.value.name == CellText(cells[4]) && r.value.status == CellText(cells[5]) &&
              r.value.statusFor == CellText(cells[6])
    ensures r.Some? ==>
              r.value.fullYearSpots == ParseNumber(cells[7]) && r.value.sem1Spots == ParseNumber(cells[8]) &&
              r.value.sem2Spots == ParseNumber(cells[9]) && r.value.minCgpa == ParseFloat(cells[10])
    ensures r.Some? ==> r.value.remarks == if |cells| > 11 then CellText(cells[11]) else ""
  {
    if |cells| < 11 then None
    else
      var name := CellText(cells[4]);
      var country := CellText(cells[1]);
      if name == "" || IsHeaderName(name) then None
      else if country == "" then None
      else Some(Row(
        CellText(cells[0]), country, CellText(cells[2]), CellText(cells[3]), name,
        CellText(cells[5]), CellText(cells[6]),
        ParseNumber(cells[7]), ParseNumber(cells[8]), ParseNumber(cells[9]), ParseFloat(cells[10]),
        if |cells| > 11 then CellText(cells[11]) else ""))
  }

  /** The per-row step of the extraction loop: rows with at least 8 cells
      are parsed, shorter ones skipped. */
  function ScanRow(cells: seq<Cell>): (r: Option<Row>)
    ensures r == ParseRow(cells)
  {
    if |cells| >= 8 then ParseRow(cells) else None
  }

  /** The rows `extract_universities_from_pdf` collects, page after page and
      table after table: the header row of each table is skipped, as are
      tables of fewer than two rows. */
  function ExtractRows(pages: seq<seq<Table>>): seq<Row>
  {
    CollectTables(pages, ScanRow)
  }

  /** A row is extracted iff it is the parse of a non-header row (index 1 or
      more) of some table on some page. */
  lemma ExtractRowsMember(pages: seq<seq<Table>>, x: Row)
    ensures x in ExtractRows(pages) <==>
              exists p, t, k :: 0 <= p < |pages| && 0 <= t < |pages[p]| && 1 <= k < |pages[p][t]| &&
                                ParseRow(pages[p][t][k]) == Some(x)
  {
    CollectTablesMember(pages, ScanRow, x);
  }

  // ---------------------------------------------------------------------
  // Filtering
  // ---------------------------------------------------------------------

  /** The two configuration values the filter reads. */
  datatype FilterConfig = FilterConfig(targetCountries: seq<string>, studentCollege: string)

  /** The three filters: a target country, open to the student's college or
      to all (case-insensitive substring), and at least one semester-1 spot. */
  predicate Accepts(x: Row, cfg: FilterConfig) {
    x.country in cfg.targetCountries &&
    (Contains(Lower(x.statusFor), Lower(cfg.studentCollege)) || Contains(Lower(x.statusFor), "all")) &&
    x.sem1Spots > 0
  }

  /** `code_sub` when the sub-code is set, else the code. */
  function UniKey(x: Row): (k: string)
    ensures x.subCode == "" ==> k == x.code
    ensures x.subCode != "" ==> k == x.code + "_" + x.subCode
  {
    if x.subCode != "" then x.code + "_" + x.subCode else x.code
  }

  /** Two rows share a key exactly when they share code and sub-code,
      provided the codes hold no underscore (the joining character). */
  lemma UniKeyInjective(a: Row, b: Row)
    requires '_' !in a.code && '_' !in b.code
    ensures UniKey(a) == UniKey(b) <==> a.code == b.code && a.subCode == b.subCode
  {
    if UniKey(a) == UniKey(b) && a.subCode != "" && b.subCode != "" {
      UnderscoreJoinSplits(a.code, a.subCode, b.code, b.subCode);
    }
  }

  lemma UnderscoreJoinSplits(c1: string, s1: string, c2: string, s2: string)
    requires '_' !in c1 && '_' !in c2
    requires c1 + "_" + s1 == c2 + "_" + s2
    ensures c1 == c2 && s1 == s2
  {
    var k := c1 + "_" + s1;
    JoinedAt(c1, s1, |c2|);
    JoinedAt(c2, s2, |c1|);
    if |c1| == |c2| {
      assert c1 == k[..|c1|] == c2;
      assert s1 == k[|c1| + 1..] == s2;
    }
  }

  /** Where the joining underscore sits in `c + "_" + s`. */
  lemma JoinedAt(c: string, s: string, i: nat)
    ensures (c + "_" + s)[|c|] == '_'
    ensures i < |c| ==> (c + "_" + s)[i] == c[i]
  {
  }

  /** The university record written for a kept row. */
  function ToUni(x: Row): (u: Uni)
    ensures u.acceptsCcds && u.merged.None?
    ensures u.name == x.name && u.country == x.country && u.code == x.code && u.subCode == x.subCode
    ensures u.sem1Spots == x.sem1Spots && u.minCgpa == x.minCgpa && u.remarks == x.remarks
  {
    Uni(x.name, x.country, x.code, x.subCode, x.sem1Spots, x.minCgpa, true, x.remarks, None)
  }

  /** The dictionary built by the final loop of `filter_target_universities`
      over the kept rows; a later row with the same key overwrites. */
  function FilterTargets(rows: seq<Row>, cfg: FilterConfig): ODict<string, Uni>
  {
    if |rows| == 0 then []
    else
      var d := FilterTargets(rows[..|rows| - 1], cfg);
      var x := rows[|rows| - 1];
      if Accepts(x, cfg) then Put(d, UniKey(x), ToUni(x)) else d
  }

  /** The last kept row with key `k`. */
  function LastKept(rows: seq<Row>, cfg: FilterConfig, k: string): (r: Option<nat>)
    ensures r.Some? ==> r.value < |rows| && Accepts(rows[r.value], cfg) && UniKey(rows[r.value]) == k
    ensures r.Some? ==> forall j :: r.value < j < |rows| ==> !(Accepts(rows[j], cfg) && UniKey(rows[j]) == k)
    ensures r.None? ==> forall j :: 0 <= j < |rows| ==> !(Accepts(rows[j], cfg) && UniKey(rows[j]) == k)
  {
    if |rows| == 0 then None
    else if Accepts(rows[|rows| - 1], cfg) && UniKey(rows[|rows| - 1]) == k then Some(|rows| - 1)
    else
      var r := LastKept(rows[..|rows| - 1], cfg, k);
      assert forall j :: 0 <= j < |rows| - 1 ==> rows[..|rows| - 1][j] == rows[j];
      r
  }

  /** `filter_target_universities` keeps exactly the rows passing all three
      filters: key `k` is present iff some such row has that key, and it
      holds the record of the last such row. */
  lemma {:induction false} FilterTargetsGet(rows: seq<Row>, cfg: FilterConfig, k: string)
    ensures var r := LastKept(rows, cfg, k);
            Get(FilterTargets(rows, cfg), k) == if r.Some? then Some(ToUni(rows[r.value])) else None
  {
    if |rows| > 0 {
      var init := rows[..|rows| - 1];
      var x := rows[|rows| - 1];
      FilterTargetsGet(init, cfg, k);
      var d := FilterTargets(init, cfg);
      if Accepts(x, cfg) {
        PutGet(d, UniKey(x), ToUni(x), k);
      }
      assert forall j :: 0 <= j < |init| ==> init[j] == rows[j];
    }
  }

  lemma {:induction false} FilterTargetsValid(rows: seq<Row>, cfg: FilterConfig)
    ensures Valid(FilterTargets(rows, cfg))
  {
    if |rows| > 0 {
      FilterTargetsValid(rows[..|rows| - 1], cfg);
      var x := rows[|rows| - 1];
      if Accepts(x, cfg) {
        PutValid(FilterTargets(rows[..|rows| - 1], cfg), UniKey(x), ToUni(x));
      }
    }
  }

  /** Every record in the result comes from a kept row: it is in a target
      country, has spots, and is marked as accepting the college. */
  lemma FilterTargetsKept(rows: seq<Row>, cfg: FilterConfig, k: string)
    requires k in Keys(FilterTargets(rows, cfg))
    ensures var u := Get(FilterTargets(rows, cfg), k).value;
            u.country in cfg.targetCountries && u.sem1Spots > 0 && u.acceptsCcds
  {
    FilterTargetsGet(rows, cfg, k);
  }

  /** As written, `filter_target_universities` indexes the `country` column
      of the frame built from the extracted rows; when no row was extracted
      that frame has no columns and the lookup raises `KeyError`. */
  function FilterTargetsAsWritten(rows: seq<Row>, cfg: FilterConfig): (r: Result<ODict<string, Uni>, string>)
    ensures |rows| > 0 ==> r == Success(FilterTargets(rows, cfg))
  {
    if |rows| == 0 then Failure("KeyError: 'country'") else Success(FilterTargets(rows, cfg))
  }

  /** An empty extraction makes the filter fail instead of yielding no
      universities. */
  lemma EmptyExtractionFails(cfg: FilterConfig)
    ensures FilterTargetsAsWritten([], cfg).Failure?
    ensures FilterTargets([], cfg) == []
  {
  }

  /** `extract_and_filter_universities`, with the filter as intended: an
      empty extraction yields an empty dictionary. */
  function ExtractAndFilter(pages: seq<seq<Table>>, cfg: FilterConfig): (r: ODict<string, Uni>)
    ensures ExtractRows(pages) == [] ==> r == []
    ensures ExtractRows(pages) != [] ==> FilterTargetsAsWritten(ExtractRows(pages), cfg) == Success(r)
    ensures Valid(r)
    ensures forall i :: 0 <= i < |r| ==> r[i].1.country in cfg.targetCountries && r[i].1.sem1Spots > 0 && r[i].1.acceptsCcds
  {
    var rows := ExtractRows(pages);
    var r := FilterTargets(rows, cfg);
    FilterTargetsValid(rows, cfg);
    forall i | 0 <= i < |r| ensures r[i].1.country in cfg.targetCountries && r[i].1.sem1Spots > 0 && r[i].1.acceptsCcds {
      assert Keys(r)[i] == r[i].0;
      FilterTargetsKept(rows, cfg, r[i].0);
      GetAt(r, i);
    }
    r
  }
}
