/** The file cache in front of the two slow sources: the vacancy list
    extracted from the PDF (kept a year) and the scraped module mappings
    (kept 30 days, one file per search), plus the country/university
    directory of the portal (also 30 days). The cache directory is a value:
    the universities file, the `mappings/` directory as an ordered listing
    of its `.json` files, and the countries/universities file. The clock is
    an integer count of seconds, and SHA-256 is the parameter `digest`. */
module Cache {
  import opened Wrappers
  import opened Text
  import opened ODicts
  import opened Seqs
  import opened Sorting
  import opened Records

  const DaySeconds: nat := 86400

  /** Lifetime of the universities file, in days. */
  const UniversitiesTtl: nat := 365

  /** Lifetime of a mappings file and of the countries/universities file,
      in days. */
  const MappingsTtl: nat := 30

  /** A cache file as read back. `Malformed` is a file that is not valid
      JSON. Otherwise `cachedAt` is `None` when the timestamp is missing,
      empty or not an ISO timestamp. `info` is whatever else the writer
      stored beside the data, and `data` is `None` when that key is
      missing. */
  datatype File<C, D> = Malformed | Stored(cachedAt: Option<int>, info: C, data: Option<D>)

  /** The two settings the universities file is tied to. A key missing from
      the stored or the requested configuration reads as `None`. */
  datatype UniConfig = UniConfig(targetCountries: Option<seq<string>>, studentCollege: Option<string>)

  /** What a mappings file records beside its data: the sorted inputs of
      its key. Nothing reads these back. */
  datatype SearchInputs = SearchInputs(countries: seq<string>, modules: seq<string>, username: string)

  /** The totals the countries/universities file records. Nothing reads
      these back. */
  datatype Totals = Totals(countries: nat, universities: nat)

  type UniFile = File<UniConfig, ODict<string, Uni>>
  type MapFile = File<SearchInputs, MappingData>
  type DirectoryFile = File<Totals, ODict<string, seq<string>>>

  /** The cache directory. `mappings` lists the `.json` files of
      `mappings/` by file name, in directory order. */
  datatype Store = Store(
    universities: Option<UniFile>,
    mappings: ODict<string, MapFile>,
    directory: Option<DirectoryFile>)

  const EmptyStore: Store := Store(None, [], None)

  /** A stored universities dictionary came from a JSON object, so its
      keys are distinct. */
  predicate Wf(st: Store) {
    st.universities.Some? && st.universities.value.Stored? && st.universities.value.data.Some? ==>
      Valid(st.universities.value.data.value)
  }

  // ---------------------------------------------------------------- keys

  /** Python's `str(list)` of a list of strings, without the escaping of
      quotes and backslashes. */
  function ListRepr(xs: seq<string>): string
  {
    "[" + Join(seq(|xs|, i requires 0 <= i < |xs| => "'" + xs[i] + "'"), ", ") + "]"
  }

  /** The string the mapping key hashes: the sorted countries, the sorted
      modules and the user name, joined by `_`. */
  function KeyString(countries: seq<string>, modules: seq<string>, username: string): string
  {
    ListRepr(SortStrings(countries)) + "_" + ListRepr(SortStrings(modules)) + "_" + username
  }

  function MappingKey(digest: string -> string, countries: seq<string>, modules: seq<string>, username: string): string
  {
    digest(KeyString(countries, modules, username))
  }

  function MappingFileName(digest: string -> string, countries: seq<string>, modules: seq<string>, username: string): string
  {
    MappingKey(digest, countries, modules, username) + ".json"
  }

  /** The key depends on the lists only through their contents: reordering
      the countries or the modules gives the same key, whatever the hash. */
  lemma MappingKeyPermutation(digest: string -> string, cs: seq<string>, cs': seq<string>,
                              ms: seq<string>, ms': seq<string>, username: string)
    requires multiset(cs) == multiset(cs') && multiset(ms) == multiset(ms')
    ensures MappingKey(digest, cs, ms, username) == MappingKey(digest, cs', ms', username)
  {
    SortStringsPermutation(cs, cs');
    SortStringsPermutation(ms, ms');
  }

  // ------------------------------------------------------------ validity

  /** `_is_cache_valid`: a file that exists, parses, and carries a
      timestamp less than `ttlDays` days before `now` (strictly). */
  predicate IsValid<C, D>(f: Option<File<C, D>>, ttlDays: nat, now: int)
  {
    match f
    case None => false
    case Some(Malformed) => false
    case Some(Stored(None, _, _)) => false
    case Some(Stored(Some(t), _, _)) => now < t + ttlDays * DaySeconds
  }

  /** Validity is exactly "stored with a timestamp, and not yet expired";
      once expired a file stays invalid, and a file valid now was valid at
      every earlier time. */
  lemma ValidityWindow<C, D>(f: Option<File<C, D>>, ttlDays: nat, now: int, later: int)
    requires now <= later
    ensures IsValid(f, ttlDays, now) <==>
              f.Some? && f.value.Stored? && f.value.cachedAt.Some? &&
              now - f.value.cachedAt.value < ttlDays * DaySeconds
    ensures IsValid(f, ttlDays, later) ==> IsValid(f, ttlDays, now)
    ensures f.Some? && f.value.Stored? && f.value.cachedAt.Some? && !IsValid(f, ttlDays, now) ==>
              !IsValid(f, ttlDays, later)
  {
  }

  // -------------------------------------------------------- universities

  /** `get_universities`: the stored list and its timestamp, provided the
      file is valid for a year, was written for the same target countries
      (as an ordered list) and the same college, and holds data. */
  function GetUniversities(st: Store, config: UniConfig, now: int): (r: Option<(ODict<string, Uni>, int)>)
    ensures r.Some? <==> IsValid(st.universities, UniversitiesTtl, now) &&
                         st.universities.value.info == config && st.universities.value.data.Some?
    ensures r.Some? ==> r.value == (st.universities.value.data.value, st.universities.value.cachedAt.value)
  {
    if !IsValid(st.universities, UniversitiesTtl, now) then None
    else
      var f := st.universities.value;
      if f.info.targetCountries != config.targetCountries || f.info.studentCollege != config.studentCollege then None
      else if f.data.None? then None
      else Some((f.data.value, f.cachedAt.value))
  }

  /** `save_universities`: overwrites the universities file; nothing else
      in the directory changes. */
  function SaveUniversities(st: Store, unis: ODict<string, Uni>, config: UniConfig, now: int): (r: Store)
    ensures r.mappings == st.mappings && r.directory == st.directory
    ensures Valid(unis) ==> Wf(r)
  {
    st.(universities := Some(Stored(Some(now), config, Some(unis))))
  }

  /** Saving and then reading with the same configuration within a year
      returns the saved list and the time it was saved. */
  lemma UniversitiesRoundTrip(st: Store, unis: ODict<string, Uni>, config: UniConfig, now: int, later: int)
    requires later < now + UniversitiesTtl * DaySeconds
    ensures GetUniversities(SaveUniversities(st, unis, config, now), config, later) == Some((unis, now))
  {
  }

  /** A different target-country list (even the same countries in another
      order) or a different college misses, however fresh the file. */
  lemma UniversitiesConfigMismatch(st: Store, unis: ODict<string, Uni>, config: UniConfig, config': UniConfig, now: int, later: int)
    requires config' != config
    ensures GetUniversities(SaveUniversities(st, unis, config, now), config', later).None?
  {
  }

  /** `clear_universities`: reports whether the file existed; afterwards it
      does not, and nothing else changes. */
  function ClearUniversities(st: Store): (r: (bool, Store))
    ensures r.0 <==> st.universities.Some?
    ensures r.1.universities.None? && r.1.mappings == st.mappings && r.1.directory == st.directory
  {
    (st.universities.Some?, st.(universities := None))
  }

  // ------------------------------------------------------------ mappings

  /** `get_mappings`: the data and timestamp of the file named after the
      key, provided it is valid for 30 days and holds data. */
  function GetMappings(st: Store, digest: string -> string, countries: seq<string>, modules: seq<string>,
                       username: string, now: int): (r: Option<(MappingData, int)>)
    ensures var f := Get(st.mappings, MappingFileName(digest, countries, modules, username));
            (r.Some? <==> IsValid(f, MappingsTtl, now) && f.value.data.Some?) &&
            (r.Some? ==> r.value == (f.value.data.value, f.value.cachedAt.value))
  {
    var f := Get(st.mappings, MappingFileName(digest, countries, modules, username));
    if !IsValid(f, MappingsTtl, now) then None
    else if f.value.data.None? then None
    else Some((f.value.data.value, f.value.cachedAt.value))
  }

  /** `save_mappings`: writes the file named after the key, recording the
      sorted inputs beside the data. */
  function SaveMappings(st: Store, digest: string -> string, data: MappingData, countries: seq<string>,
                        modules: seq<string>, username: string, now: int): (r: Store)
    ensures r.universities == st.universities && r.directory == st.directory
  {
    var name := MappingFileName(digest, countries, modules, username);
    var inputs := SearchInputs(SortStrings(countries), SortStrings(modules), username);
    st.(mappings := Put(st.mappings, name, Stored(Some(now), inputs, Some(data))))
  }

  /** Saving and then reading within 30 days, with the same user and the
      same countries and modules in any order, returns the saved data. */
  lemma MappingsRoundTrip(st: Store, digest: string -> string, data: MappingData,
                          cs: seq<string>, ms: seq<string>, cs': seq<string>, ms': seq<string>,
                          username: string, now: int, later: int)
    requires multiset(cs) == multiset(cs') && multiset(ms) == multiset(ms')
    requires later < now + MappingsTtl * DaySeconds
    ensures GetMappings(SaveMappings(st, digest, data, cs, ms, username, now), digest, cs', ms', username, later) == Some((data, now))
  {
    MappingKeyPermutation(digest, cs, cs', ms, ms', username);
    var name := MappingFileName(digest, cs, ms, username);
    PutGet(st.mappings, name, Stored(Some(now), SearchInputs(SortStrings(cs), SortStrings(ms), username), Some(data)), name);
  }

  /** Saving one search leaves the cached result of every search whose
      file name differs as it was. */
  lemma SaveMappingsKeepsOthers(st: Store, digest: string -> string, data: MappingData,
                                cs: seq<string>, ms: seq<string>, cs': seq<string>, ms': seq<string>,
                                username: string, username': string, now: int, later: int)
    requires MappingFileName(digest, cs', ms', username') != MappingFileName(digest, cs, ms, username)
    ensures GetMappings(SaveMappings(st, digest, data, cs, ms, username, now), digest, cs', ms', username', later) ==
            GetMappings(st, digest, cs', ms', username', later)
  {
    var name := MappingFileName(digest, cs, ms, username);
    PutGet(st.mappings, name, Stored(Some(now), SearchInputs(SortStrings(cs), SortStrings(ms), username), Some(data)),
           MappingFileName(digest, cs', ms', username'));
  }

  /** `clear_mappings`: removes every `.json` file of `mappings/` and
      counts them; nothing else changes. */
  function ClearMappings(st: Store): (r: (nat, Store))
    ensures r.0 == |st.mappings| && r.1.mappings == []
    ensures r.1.universities == st.universities && r.1.directory == st.directory
  {
    (|st.mappings|, st.(mappings := []))
  }

  // ---------------------------------------------------------- directory

  /** `save_countries_universities`: the directory with its totals. */
  function SaveDirectory(st: Store, dir: ODict<string, seq<string>>, now: int): (r: Store)
    ensures r.universities == st.universities && r.mappings == st.mappings
    ensures r.directory.Some? && r.directory.value.Stored?
    ensures r.directory.value.info.countries == |dir|
    ensures r.directory.value.info.universities == |Flatten(Values(dir))|
  {
    FlattenLength(Values(dir));
    st.(directory := Some(Stored(Some(now), Totals(|dir|, SumLengths(Values(dir))), Some(dir))))
  }

  /** `get_countries_universities`: under the 30-day lifetime of the
      mappings. */
  function GetDirectory(st: Store, now: int): (r: Option<(ODict<string, seq<string>>, int)>)
    ensures r.Some? <==> IsValid(st.directory, MappingsTtl, now) && st.directory.value.data.Some?
    ensures r.Some? ==> r.value == (st.directory.value.data.value, st.directory.value.cachedAt.value)
  {
    if !IsValid(st.directory, MappingsTtl, now) then None
    else if st.directory.value.data.None? then None
    else Some((st.directory.value.data.value, st.directory.value.cachedAt.value))
  }

  /** The directory round-trips within 30 days and is gone after that. */
  lemma DirectoryRoundTrip(st: Store, dir: ODict<string, seq<string>>, now: int, later: int)
    ensures GetDirectory(SaveDirectory(st, dir, now), later) ==
            if later < now + MappingsTtl * DaySeconds then Some((dir, now)) else None
  {
  }

  /** `clear_countries_universities`. */
  function ClearDirectory(st: Store): (r: (bool, Store))
    ensures r.0 <==> st.directory.Some?
    ensures r.1.directory.None? && r.1.universities == st.universities && r.1.mappings == st.mappings
  {
    (st.directory.Some?, st.(directory := None))
  }

  // -------------------------------------------------------------- clear

  /** The names `clear_all` reports for the mapping files. */
  function MappingPaths(names: seq<string>): (r: seq<string>)
    ensures |r| == |names|
    ensures forall i :: 0 <= i < |names| ==> r[i] == "mappings/" + names[i]
  {
    seq(|names|, i requires 0 <= i < |names| => "mappings/" + names[i])
  }

  /** `clear_all`: removes the universities file and every mapping file,
      listing them in that order, and keeps the countries/universities
      file. */
  function ClearAll(st: Store): (r: (seq<string>, Store))
    ensures r.1 == Store(None, [], st.directory)
    ensures |r.0| == (if st.universities.Some? then 1 else 0) + |st.mappings|
    ensures st.universities.Some? <==> "universities.json" in r.0
    ensures forall n :: n in Keys(st.mappings) ==> "mappings/" + n in r.0
  {
    var head := if st.universities.Some? then ["universities.json"] else [];
    var paths := MappingPaths(Keys(st.mappings));
    assert "universities.json" !in paths by {
      forall i | 0 <= i < |paths| ensures paths[i] != "universities.json" {
        assert paths[i][0] == 'm';
      }
    }
    forall n | n in Keys(st.mappings) ensures "mappings/" + n in head + paths {
      var i :| 0 <= i < |Keys(st.mappings)| && Keys(st.mappings)[i] == n;
      assert paths[i] == "mappings/" + n;
      assert (head + paths)[|head| + i] == paths[i];
    }
    (head + paths, Store(None, [], st.directory))
  }

  /** After `clear_all` every university and mapping lookup misses, while
      the countries/universities lookup answers as before. */
  lemma ClearAllMisses(st: Store, config: UniConfig, digest: string -> string,
                       cs: seq<string>, ms: seq<string>, username: string, now: int)
    ensures GetUniversities(ClearAll(st).1, config, now).None?
    ensures GetMappings(ClearAll(st).1, digest, cs, ms, username, now).None?
    ensures GetDirectory(ClearAll(st).1, now) == GetDirectory(st, now)
  {
  }
}
