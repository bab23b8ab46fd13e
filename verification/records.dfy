/** The records that flow through the pipeline. Python dictionaries with a
    fixed set of keys become datatypes; a key the source reads with a
    default of `''` is an empty string here, and a key whose presence the
    source tests is an `Option`. */
module Records {
  import opened Wrappers
  import opened ODicts

  /** One approved module mapping, as scraped from the course-matching portal. */
  datatype Mapping = Mapping(
    ntuModule: string,
    ntuModuleName: string,
    ntuModuleType: string,
    partnerCode: string,
    partnerName: string,
    academicUnits: string,
    status: string,
    approvalYear: string,
    semester: string,
    university: Option<string>,
    universityNormalized: Option<string>)

  /** The extra keys a merged university carries. */
  datatype Merged = Merged(
    allCodes: set<string>,
    allSubCodes: set<string>,
    variationCount: nat,
    mergedIds: seq<string>)

  /** A partner university with its vacancy data, as filtered out of the
      vacancy PDF and, after grouping, possibly merged from campus variants. */
  datatype Uni = Uni(
    name: string,
    country: string,
    code: string,
    subCode: string,
    sem1Spots: nat,
    minCgpa: real,
    acceptsCcds: bool,
    remarks: string,
    merged: Option<Merged>)

  /** Mappings of one university grouped by module code. */
  type ModuleGroups = ODict<string, seq<Mapping>>

  /** Mappings of every university: university id -> module code -> mappings. */
  type MappingData = ODict<string, ModuleGroups>

  /** A university with its vacancy data and the module mappings found for
      it, as combined by the matcher and consumed by the ranker. */
  datatype Integrated = Integrated(
    name: string,
    country: string,
    sem1Spots: nat,
    minCgpa: real,
    code: string,
    subCode: string,
    remarks: string,
    mappable: ModuleGroups,
    mappableCount: nat,
    unmappable: seq<string>,
    coverage: real,
    allCodes: set<string>,
    variationCount: nat)
}
