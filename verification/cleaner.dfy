/** `UniversityDataCleaner` (processors/data_cleaner.py): campus variants
    that normalise to one name are merged into a single entry, and scraped
    mapping data is tidied. */
module DataCleaner {
  import opened Wrappers
  import opened Text
  import opened ODicts
  import opened Seqs
  import opened Patterns
  import opened Records
  import opened NameNormalizer

  // ---------------------------------------------------------------------
  // Merging the variations of one university
  // ---------------------------------------------------------------------

  /** `min(names, key=len)`: the first name of least length. */
  function ShortestName(names: seq<string>): (r: string)
    requires |names| > 0
    ensures exists i :: 0 <= i < |names| && names[i] == r && forall j :: 0 <= j < i ==> |names[j]| > |r|
    ensures forall j :: 0 <= j < |names| ==> |r| <= |names[j]|
  {
    if |names| == 1 then names[0]
    else
      var rest := ShortestName(names[1..]);
      if |names[0]| <= |rest| then names[0]
      else
        var i :| 0 <= i < |names[1..]| && names[1..][i] == rest && forall j :: 0 <= j < i ==> |names[1..][j]| > |rest|;
        assert names[i + 1] == rest;
        assert forall j :: 1 <= j < i + 1 ==> |names[j]| > |rest| by {
          forall j | 1 <= j < i + 1 ensures |names[j]| > |rest| {
            assert names[j] == names[1..][j - 1];
          }
        }
        rest
  }

  /** `sum(v['sem1_spots'] for v in vs)` */
  function SumSpots(vs: seq<Uni>): nat {
    if |vs| == 0 then 0 else vs[0].sem1Spots + SumSpots(vs[1..])
  }

  /** The least positive value of `xs`, or 0.0 when none is positive. */
  function MinPositive(xs: seq<real>): (r: real)
    ensures (exists i :: 0 <= i < |xs| && xs[i] > 0.0) ==>
              r > 0.0 && (exists i :: 0 <= i < |xs| && xs[i] == r)
    ensures forall i :: 0 <= i < |xs| && xs[i] > 0.0 ==> r <= xs[i]
    ensures (forall i :: 0 <= i < |xs| ==> xs[i] <= 0.0) ==> r == 0.0
  {
    if |xs| == 0 then 0.0
    else
      var rest := MinPositive(xs[1..]);
      assert forall i :: 1 <= i < |xs| ==> xs[i] == xs[1..][i - 1];
      if xs[0] > 0.0 && (rest == 0.0 || xs[0] <= rest) then xs[0] else rest
  }

  function Names(vs: seq<Uni>): (r: seq<string>)
    ensures |r| == |vs| && forall i :: 0 <= i < |vs| ==> r[i] == vs[i].name
  {
    seq(|vs|, i requires 0 <= i < |vs| => vs[i].name)
  }

  function Cgpas(vs: seq<Uni>): (r: seq<real>)
    ensures |r| == |vs| && forall i :: 0 <= i < |vs| ==> r[i] == vs[i].minCgpa
  {
    seq(|vs|, i requires 0 <= i < |vs| => vs[i].minCgpa)
  }

  /** The non-empty strings of `xs`, in order. */
  function NonEmpty(xs: seq<string>): (r: seq<string>)
    ensures forall x :: x in r <==> x in xs && x != ""
    ensures |r| > 0 ==> r[0] != "" && exists i :: 0 <= i < |xs| && xs[i] == r[0] && forall j :: 0 <= j < i ==> xs[j] == ""
    ensures |r| == 0 <==> forall i :: 0 <= i < |xs| ==> xs[i] == ""
  {
    if |xs| == 0 then []
    else
      var rest := NonEmpty(xs[1..]);
      assert forall i :: 1 <= i < |xs| ==> xs[i] == xs[1..][i - 1];
      if xs[0] != "" then [xs[0]] + rest
      else
        assert |rest| > 0 ==> exists i :: 0 <= i < |xs| && xs[i] == rest[0] && forall j :: 0 <= j < i ==> xs[j] == "" by {
          if |rest| > 0 {
            var i :| 0 <= i < |xs[1..]| && xs[1..][i] == rest[0] && forall j :: 0 <= j < i ==> xs[1..][j] == "";
            assert xs[i + 1] == rest[0];
            forall j | 0 <= j < i + 1 ensures xs[j] == "" {
              if j > 0 { assert xs[j] == xs[1..][j - 1]; }
            }
          }
        }
        rest
  }

  function Codes(vs: seq<Uni>): (r: seq<string>)
    ensures |r| == |vs| && forall i :: 0 <= i < |vs| ==> r[i] == vs[i].code
  {
    seq(|vs|, i requires 0 <= i < |vs| => vs[i].code)
  }

  function SubCodes(vs: seq<Uni>): (r: seq<string>)
    ensures |r| == |vs| && forall i :: 0 <= i < |vs| ==> r[i] == vs[i].subCode
  {
    seq(|vs|, i requires 0 <= i < |vs| => vs[i].subCode)
  }

  function Remarks(vs: seq<Uni>): (r: seq<string>)
    ensures |r| == |vs| && forall i :: 0 <= i < |vs| ==> r[i] == vs[i].remarks
  {
    seq(|vs|, i requires 0 <= i < |vs| => vs[i].remarks)
  }

  /** `xs[0] if xs else ''` */
  function FirstOrEmpty(xs: seq<string>): string {
    if |xs| > 0 then xs[0] else ""
  }

  /** `university_code` of a merge: the first non-empty code, or ''. */
  function FirstCode(vs: seq<Uni>): (c: string)
    ensures c == "" <==> forall i :: 0 <= i < |vs| ==> vs[i].code == ""
    ensures c != "" ==> exists i :: 0 <= i < |vs| && vs[i].code == c && forall j :: 0 <= j < i ==> vs[j].code == ""
  {
    FirstOrEmpty(NonEmpty(Codes(vs)))
  }

  /** `university_sub_code` of a merge: the first non-empty sub-code, or ''. */
  function FirstSubCode(vs: seq<Uni>): (c: string)
    ensures c == "" <==> forall i :: 0 <= i < |vs| ==> vs[i].subCode == ""
    ensures c != "" ==> exists i :: 0 <= i < |vs| && vs[i].subCode == c && forall j :: 0 <= j < i ==> vs[j].subCode == ""
  {
    FirstOrEmpty(NonEmpty(SubCodes(vs)))
  }

  /** `r` consists of the distinct non-empty remarks of `vs`, each exactly
      once, joined by " | ", and nothing else. The order is left open:
      Python's `set` fixes none. */
  ghost predicate JoinsDistinctRemarks(r: string, vs: seq<Uni>) {
    exists ds: seq<string> ::
      && r == Join(ds, " | ")
      && (forall i, j :: 0 <= i < j < |ds| ==> ds[i] != ds[j])
      && (forall x :: x in ds <==> x != "" && exists i :: 0 <= i < |vs| && vs[i].remarks == x)
  }

  /** `remarks` of a merge: the distinct non-empty remarks joined by " | ". */
  function JoinedRemarks(vs: seq<Uni>): (r: string)
    ensures JoinsDistinctRemarks(r, vs)
    ensures r == "" <==> forall i :: 0 <= i < |vs| ==> vs[i].remarks == ""
  {
    var remarks := Dedup(NonEmpty(Remarks(vs)));
    RemarksMember(vs);
    assert JoinsDistinctRemarks(Join(remarks, " | "), vs);
    if |remarks| > 0 then
      assert remarks[0] in NonEmpty(Remarks(vs));
      JoinNonEmpty(remarks, " | ");
      Join(remarks, " | ")
    else
      assert forall i :: 0 <= i < |vs| ==> vs[i].remarks == "" by {
        forall i | 0 <= i < |vs| ensures vs[i].remarks == "" {
          assert Remarks(vs)[i] in Remarks(vs);
        }
      }
      ""
  }

  lemma RemarksMember(vs: seq<Uni>)
    ensures forall x :: x in Remarks(vs) <==> exists i :: 0 <= i < |vs| && vs[i].remarks == x
  {
    forall x ensures x in Remarks(vs) <==> exists i :: 0 <= i < |vs| && vs[i].remarks == x {
      if exists i :: 0 <= i < |vs| && vs[i].remarks == x {
        var i :| 0 <= i < |vs| && vs[i].remarks == x;
        assert Remarks(vs)[i] == x;
      }
    }
  }

  /** `name` of a merge: the first of the shortest names. */
  function MergedName(vs: seq<Uni>): (n: string)
    requires |vs| > 0
    ensures exists i :: 0 <= i < |vs| && vs[i].name == n && forall j :: 0 <= j < i ==> |vs[j].name| > |n|
    ensures forall j :: 0 <= j < |vs| ==> |n| <= |vs[j].name|
  {
    var names := Names(vs);
    var n := ShortestName(names);
    var i :| 0 <= i < |names| && names[i] == n && forall j :: 0 <= j < i ==> |names[j]| > |n|;
    assert vs[i].name == n;
    n
  }

  /** `min_cgpa` of a merge: the lowest positive bar, or 0.0 if none. */
  function MergedCgpa(vs: seq<Uni>): (c: real)
    ensures (exists i :: 0 <= i < |vs| && vs[i].minCgpa > 0.0) ==>
              c > 0.0 && (exists i :: 0 <= i < |vs| && vs[i].minCgpa == c)
    ensures forall i :: 0 <= i < |vs| && vs[i].minCgpa > 0.0 ==> c <= vs[i].minCgpa
    ensures (forall i :: 0 <= i < |vs| ==> vs[i].minCgpa <= 0.0) ==> c == 0.0
  {
    var cgpas := Cgpas(vs);
    var c := MinPositive(cgpas);
    assert (exists i :: 0 <= i < |vs| && vs[i].minCgpa > 0.0) ==> exists i :: 0 <= i < |vs| && vs[i].minCgpa == c by {
      if exists i :: 0 <= i < |vs| && vs[i].minCgpa > 0.0 {
        var k :| 0 <= k < |vs| && vs[k].minCgpa > 0.0;
        assert cgpas[k] > 0.0;
        var i :| 0 <= i < |cgpas| && cgpas[i] == c;
        assert vs[i].minCgpa == c;
      }
    }
    c
  }

  /** `_merge_variations(variations, uni_ids)`: one entry standing for all
      the variations. It starts as a copy of the first variation; the name
      is the first shortest one, spots are summed, the CGPA bar is the
      lowest positive one, codes and sub-codes are the first non-empty ones
      and the set of all of them, remarks are the distinct non-empty ones
      joined by " | ", and the variation count and ids are recorded. */
  function MergeVariations(vs: seq<Uni>, ids: seq<string>): (m: Uni)
    requires |vs| > 0
    ensures m.country == vs[0].country && m.acceptsCcds == vs[0].acceptsCcds
    ensures exists i :: 0 <= i < |vs| && vs[i].name == m.name && forall j :: 0 <= j < i ==> |vs[j].name| > |m.name|
    ensures forall j :: 0 <= j < |vs| ==> |m.name| <= |vs[j].name|
    ensures m.sem1Spots == SumSpots(vs)
    ensures (exists i :: 0 <= i < |vs| && vs[i].minCgpa > 0.0) ==>
              m.minCgpa > 0.0 && (exists i :: 0 <= i < |vs| && vs[i].minCgpa == m.minCgpa)
    ensures forall i :: 0 <= i < |vs| && vs[i].minCgpa > 0.0 ==> m.minCgpa <= vs[i].minCgpa
    ensures (forall i :: 0 <= i < |vs| ==> vs[i].minCgpa <= 0.0) ==> m.minCgpa == 0.0
    ensures m.code == "" <==> forall i :: 0 <= i < |vs| ==> vs[i].code == ""
    ensures m.code != "" ==> exists i :: 0 <= i < |vs| && vs[i].code == m.code && forall j :: 0 <= j < i ==> vs[j].code == ""
    ensures m.subCode == "" <==> forall i :: 0 <= i < |vs| ==> vs[i].subCode == ""
    ensures m.subCode != "" ==> exists i :: 0 <= i < |vs| && vs[i].subCode == m.subCode && forall j :: 0 <= j < i ==> vs[j].subCode == ""
    ensures m.remarks == "" <==> forall i :: 0 <= i < |vs| ==> vs[i].remarks == ""
    ensures JoinsDistinctRemarks(m.remarks, vs)
    ensures m.merged.Some?
    ensures m.merged.value.allCodes == set i | 0 <= i < |vs| && vs[i].code != "" :: vs[i].code
    ensures m.merged.value.allSubCodes == set i | 0 <= i < |vs| && vs[i].subCode != "" :: vs[i].subCode
    ensures m.merged.value.variationCount == |vs|
    ensures m.merged.value.mergedIds == ids
  {
    var name := MergedName(vs);
    var cgpa := MergedCgpa(vs);
    var code := FirstCode(vs);
    var subCode := FirstSubCode(vs);
    var remarks := JoinedRemarks(vs);
    vs[0].(
      name := name,
      sem1Spots := SumSpots(vs),
      minCgpa := cgpa,
      code := code,
      subCode := subCode,
      remarks := remarks,
      merged := Some(MergeInfo(vs, ids)))
  }

  /** The bookkeeping a merged entry carries: every non-empty code and
      sub-code of the group, its size and its ids. */
  function MergeInfo(vs: seq<Uni>, ids: seq<string>): (r: Merged)
    ensures r.allCodes == set i | 0 <= i < |vs| && vs[i].code != "" :: vs[i].code
    ensures r.allSubCodes == set i | 0 <= i < |vs| && vs[i].subCode != "" :: vs[i].subCode
    ensures r.variationCount == |vs| && r.mergedIds == ids
  {
    Merged(
      set i | 0 <= i < |vs| && vs[i].code != "" :: vs[i].code,
      set i | 0 <= i < |vs| && vs[i].subCode != "" :: vs[i].subCode,
      |vs|, ids)
  }

  /** Joining a list whose first part is non-empty gives a non-empty text. */
  lemma JoinNonEmpty(parts: seq<string>, sep: string)
    requires |parts| > 0 && parts[0] != ""
    ensures Join(parts, sep) != ""
  {
    if |parts| > 1 {
      assert |Join(parts, sep)| >= |parts[0]|;
    }
  }

  // ---------------------------------------------------------------------
  // Grouping variations by normal form
  // ---------------------------------------------------------------------

  /** The ids (in input order) whose university name normalises to `n`. */
  function IdsNamed(unis: ODict<string, Uni>, norm: string -> string, n: string): (r: seq<string>)
    ensures forall id :: id in r ==> id in Keys(unis)
    decreases |unis|
  {
    if |unis| == 0 then []
    else
      var init := unis[..|unis| - 1];
      assert Keys(unis) == Keys(init) + [unis[|unis| - 1].0] by {
        KeysSnoc(init, unis[|unis| - 1]);
        assert init + [unis[|unis| - 1]] == unis;
      }
      IdsNamed(init, norm, n) + (if norm(unis[|unis| - 1].1.name) == n then [unis[|unis| - 1].0] else [])
  }

  /** First loop of `group_university_variations`: normal form -> ids, in
      order of first appearance. */
  function NameToIds(unis: ODict<string, Uni>, norm: string -> string): ODict<string, seq<string>>
    decreases |unis|
  {
    if |unis| == 0 then []
    else
      var g := NameToIds(unis[..|unis| - 1], norm);
      var n := norm(unis[|unis| - 1].1.name);
      Put(g, n, Get(g, n).GetOr([]) + [unis[|unis| - 1].0])
  }

  lemma IdsNamedSnoc(init: ODict<string, Uni>, e: (string, Uni), norm: string -> string, n: string)
    ensures IdsNamed(init + [e], norm, n) == IdsNamed(init, norm, n) + (if norm(e.1.name) == n then [e.0] else [])
  {
    assert (init + [e])[..|init|] == init;
  }

  lemma NameToIdsSnoc(init: ODict<string, Uni>, e: (string, Uni), norm: string -> string)
    ensures var g := NameToIds(init, norm);
            var n := norm(e.1.name);
            NameToIds(init + [e], norm) == Put(g, n, Get(g, n).GetOr([]) + [e.0])
  {
    assert (init + [e])[..|init|] == init;
  }

  /** One step of the first loop appends `id` to the list under `n`... */
  lemma AppendGetSame(g: ODict<string, seq<string>>, n: string, id: string, ids: seq<string>)
    requires Get(g, n) == if ids == [] then None else Some(ids)
    ensures Get(Put(g, n, Get(g, n).GetOr([]) + [id]), n) == Some(ids + [id])
  {
    var v := Get(g, n).GetOr([]) + [id];
    PutGet(g, n, v, n);
    assert Get(g, n).GetOr([]) == ids;
  }

  /** ... and leaves every other list alone. */
  lemma AppendGetOther(g: ODict<string, seq<string>>, n: string, id: string, n': string)
    requires n != n'
    ensures Get(Put(g, n, Get(g, n).GetOr([]) + [id]), n') == Get(g, n')
  {
    PutGet(g, n, Get(g, n).GetOr([]) + [id], n');
  }

  lemma AppendGet(g: ODict<string, seq<string>>, n: string, id: string, n': string, ids: seq<string>, idsN: seq<string>)
    requires Get(g, n') == if ids == [] then None else Some(ids)
    requires Get(g, n) == if idsN == [] then None else Some(idsN)
    ensures var r := ids + (if n == n' then [id] else []);
            Get(Put(g, n, Get(g, n).GetOr([]) + [id]), n') == if r == [] then None else Some(r)
  {
    if n == n' {
      AppendGetSame(g, n, id, ids);
      assert |ids + [id]| > 0;
    } else {
      AppendGetOther(g, n, id, n');
      assert ids + [] == ids;
    }
  }

  /** Each normal form present maps to exactly the ids carrying it. */
  lemma {:induction false} NameToIdsGet(unis: ODict<string, Uni>, norm: string -> string, n': string)
    ensures Get(NameToIds(unis, norm), n') == if IdsNamed(unis, norm, n') == [] then None else Some(IdsNamed(unis, norm, n'))
    decreases |unis|
  {
    if |unis| > 0 {
      var init := unis[..|unis| - 1];
      var e := unis[|unis| - 1];
      var n := norm(e.1.name);
      NameToIdsGet(init, norm, n');
      NameToIdsGet(init, norm, n);
      AppendGet(NameToIds(init, norm), n, e.0, n', IdsNamed(init, norm, n'), IdsNamed(init, norm, n));
    }
  }

  /** The normal forms are distinct keys. */
  lemma {:induction false} NameToIdsValid(unis: ODict<string, Uni>, norm: string -> string)
    ensures Valid(NameToIds(unis, norm))
    decreases |unis|
  {
    if |unis| > 0 {
      var init := unis[..|unis| - 1];
      NameToIdsValid(init, norm);
      var g := NameToIds(init, norm);
      var n := norm(unis[|unis| - 1].1.name);
      PutValid(g, n, Get(g, n).GetOr([]) + [unis[|unis| - 1].0]);
    }
  }

  lemma NameToIdsSpec(unis: ODict<string, Uni>, norm: string -> string)
    ensures Valid(NameToIds(unis, norm))
    ensures forall n :: Get(NameToIds(unis, norm), n) == if IdsNamed(unis, norm, n) == [] then None else Some(IdsNamed(unis, norm, n))
  {
    NameToIdsValid(unis, norm);
    forall n ensures Get(NameToIds(unis, norm), n) == if IdsNamed(unis, norm, n) == [] then None else Some(IdsNamed(unis, norm, n)) {
      NameToIdsGet(unis, norm, n);
    }
  }

  /** The position of `id` names an entry whose normal form is `n`. */
  lemma {:induction false} IdsNamedMember(unis: ODict<string, Uni>, norm: string -> string, n: string, id: string)
    requires id in IdsNamed(unis, norm, n)
    ensures exists i :: 0 <= i < |unis| && unis[i].0 == id && norm(unis[i].1.name) == n
    decreases |unis|
  {
    var init := unis[..|unis| - 1];
    if id in IdsNamed(init, norm, n) {
      IdsNamedMember(init, norm, n, id);
      var i :| 0 <= i < |init| && init[i].0 == id && norm(init[i].1.name) == n;
      assert unis[i] == init[i];
    }
  }

  /** Every id is in the group of its own normal form. */
  lemma {:induction false} IdsNamedComplete(unis: ODict<string, Uni>, norm: string -> string, i: nat)
    requires i < |unis|
    ensures unis[i].0 in IdsNamed(unis, norm, norm(unis[i].1.name))
    decreases |unis|
  {
    if i < |unis| - 1 {
      var init := unis[..|unis| - 1];
      assert init[i] == unis[i];
      IdsNamedComplete(init, norm, i);
    }
  }

  /** The normal form of the university stored under `id`. */
  function NormName(unis: ODict<string, Uni>, norm: string -> string, id: string): string
    requires id in Keys(unis)
  {
    var u := Get(unis, id);
    norm(u.value.name)
  }

  /** The ids sharing `id`'s normal form, in input order. */
  function GroupOf(unis: ODict<string, Uni>, norm: string -> string, id: string): seq<string>
    requires id in Keys(unis)
  {
    IdsNamed(unis, norm, NormName(unis, norm, id))
  }

  /** In a dictionary, an id's group consists of the ids whose normal form
      equals its own, and contains the id itself. */
  lemma GroupOfSpec(unis: ODict<string, Uni>, norm: string -> string, id: string)
    requires Valid(unis) && id in Keys(unis)
    ensures id in GroupOf(unis, norm, id)
    ensures forall id' :: id' in GroupOf(unis, norm, id) ==> id' in Keys(unis) && NormName(unis, norm, id') == NormName(unis, norm, id)
  {
    var i :| 0 <= i < |unis| && unis[i].0 == id;
    GetAt(unis, i);
    IdsNamedComplete(unis, norm, i);
    forall id' | id' in GroupOf(unis, norm, id) ensures id' in Keys(unis) && NormName(unis, norm, id') == NormName(unis, norm, id) {
      IdsNamedMember(unis, norm, NormName(unis, norm, id), id');
      var j :| 0 <= j < |unis| && unis[j].0 == id' && norm(unis[j].1.name) == NormName(unis, norm, id);
      GetAt(unis, j);
    }
  }

  /** The universities stored under `ids`, in that order. */
  function Lookup(unis: ODict<string, Uni>, ids: seq<string>): (vs: seq<Uni>)
    requires forall id :: id in ids ==> id in Keys(unis)
    ensures |vs| == |ids|
  {
    seq(|ids|, i requires 0 <= i < |ids| => Get(unis, ids[i]).value)
  }

  /** The entry written for one group: a lone id is copied, several ids are
      merged. */
  function GroupEntry(unis: ODict<string, Uni>, ids: seq<string>): Uni
    requires |ids| > 0 && forall id :: id in ids ==> id in Keys(unis)
  {
    if |ids| == 1 then Get(unis, ids[0]).value
    else MergeVariations(Lookup(unis, ids), ids)
  }

  /** Every group is non-empty and names existing ids. */
  predicate GroupsWellFormed(unis: ODict<string, Uni>, groups: ODict<string, seq<string>>) {
    forall j :: 0 <= j < |groups| ==> |groups[j].1| > 0 && forall id :: id in groups[j].1 ==> id in Keys(unis)
  }

  /** The ids of a group, as the set the loop marks processed. */
  function IdSet(ids: seq<string>): (r: set<string>)
    ensures forall id :: id in r <==> id in ids
  {
    set id | id in ids
  }

  /** Second loop of `group_university_variations`, from group `k` on, with
      the set of ids already merged and the entries written so far. */
  function MergeFrom(unis: ODict<string, Uni>, groups: ODict<string, seq<string>>, k: nat,
                     processed: set<string>, acc: ODict<string, Uni>): ODict<string, Uni>
    requires k <= |groups| && GroupsWellFormed(unis, groups)
    decreases |groups| - k
  {
    if k == |groups| then acc
    else
      var ids := groups[k].1;
      if ids[0] in processed then MergeFrom(unis, groups, k + 1, processed, acc)
      else MergeFrom(unis, groups, k + 1, processed + IdSet(ids), Put(acc, ids[0], GroupEntry(unis, ids)))
  }

  lemma NameToIdsWellFormed(unis: ODict<string, Uni>, norm: string -> string)
    ensures GroupsWellFormed(unis, NameToIds(unis, norm))
  {
    var g := NameToIds(unis, norm);
    NameToIdsSpec(unis, norm);
    forall j | 0 <= j < |g| ensures |g[j].1| > 0 && forall id :: id in g[j].1 ==> id in Keys(unis) {
      GetAt(g, j);
    }
  }

  /** `group_university_variations(universities)` */
  function GroupVariations(unis: ODict<string, Uni>): ODict<string, Uni>
  {
    NameToIdsWellFormed(unis, Normalize);
    MergeFrom(unis, NameToIds(unis, Normalize), 0, {}, [])
  }

  /** No group's first id occurs in another group. */
  predicate PrimariesApart(groups: ODict<string, seq<string>>) {
    forall a, b :: 0 <= a < |groups| && 0 <= b < |groups| && a != b && |groups[a].1| > 0 ==> groups[a].1[0] !in groups[b].1
  }

  /** The reference result: one entry per group, keyed by its first id. */
  function Entries(unis: ODict<string, Uni>, groups: ODict<string, seq<string>>, k: nat): (r: ODict<string, Uni>)
    requires k <= |groups| && GroupsWellFormed(unis, groups)
    ensures |r| == |groups| - k
  {
    seq(|groups| - k, j requires 0 <= j < |groups| - k => (groups[k + j].1[0], GroupEntry(unis, groups[k + j].1)))
  }

  lemma EntriesCons(unis: ODict<string, Uni>, groups: ODict<string, seq<string>>, k: nat)
    requires k < |groups| && GroupsWellFormed(unis, groups)
    ensures Entries(unis, groups, k) == [(groups[k].1[0], GroupEntry(unis, groups[k].1))] + Entries(unis, groups, k + 1)
  {
    var l := Entries(unis, groups, k);
    var r := [(groups[k].1[0], GroupEntry(unis, groups[k].1))] + Entries(unis, groups, k + 1);
    forall j | 0 <= j < |l| ensures l[j] == r[j] {
      if j > 0 {
        assert r[j] == Entries(unis, groups, k + 1)[j - 1];
      }
    }
  }

  /** A group whose first id is new appends its entry `e`, which is also the
      first entry of the reference result. */
  lemma MergeFromStep(unis: ODict<string, Uni>, groups: ODict<string, seq<string>>, k: nat,
                      processed: set<string>, acc: ODict<string, Uni>) returns (e: (string, Uni))
    requires k < |groups| && GroupsWellFormed(unis, groups)
    requires groups[k].1[0] !in processed && groups[k].1[0] !in Keys(acc)
    ensures e.0 == groups[k].1[0]
    ensures MergeFrom(unis, groups, k, processed, acc) ==
              MergeFrom(unis, groups, k + 1, processed + IdSet(groups[k].1), acc + [e])
    ensures Entries(unis, groups, k) == [e] + Entries(unis, groups, k + 1)
  {
    e := (groups[k].1[0], GroupEntry(unis, groups[k].1));
    PutNew(acc, e.0, e.1);
    EntriesCons(unis, groups, k);
  }

  /** After group `k` is merged, the first ids of later groups are still
      neither processed nor keys. */
  lemma LaterPrimariesNew(unis: ODict<string, Uni>, groups: ODict<string, seq<string>>, k: nat,
                          processed: set<string>, acc: ODict<string, Uni>, e: (string, Uni))
    requires k < |groups| && GroupsWellFormed(unis, groups) && PrimariesApart(groups)
    requires forall a :: k <= a < |groups| ==> groups[a].1[0] !in processed && groups[a].1[0] !in Keys(acc)
    requires e.0 == groups[k].1[0]
    ensures forall a :: k + 1 <= a < |groups| ==>
              groups[a].1[0] !in processed + IdSet(groups[k].1) && groups[a].1[0] !in Keys(acc + [e])
  {
    KeysSnoc(acc, e);
    forall a | k + 1 <= a < |groups|
      ensures groups[a].1[0] !in processed + IdSet(groups[k].1) && groups[a].1[0] !in Keys(acc + [e])
    {
      assert groups[a].1[0] !in groups[k].1;
    }
  }

  /** Appending one entry and then the rest is appending the rest prefixed
      by that entry. */
  lemma Regroup<T>(m: seq<T>, acc: seq<T>, e: T, rest: seq<T>, l: seq<T>)
    requires m == acc + [e] + rest && l == [e] + rest
    ensures m == acc + l
  {
  }

  /** When first ids are apart, the processed-ids guard never skips a group
      and every group adds one new entry. */
  lemma {:induction false} MergeFromAll(unis: ODict<string, Uni>, groups: ODict<string, seq<string>>, k: nat,
                                        processed: set<string>, acc: ODict<string, Uni>)
    requires k <= |groups| && GroupsWellFormed(unis, groups) && PrimariesApart(groups)
    requires forall a :: k <= a < |groups| ==> groups[a].1[0] !in processed && groups[a].1[0] !in Keys(acc)
    ensures MergeFrom(unis, groups, k, processed, acc) == acc + Entries(unis, groups, k)
    decreases |groups| - k
  {
    if k < |groups| {
      var e := MergeFromStep(unis, groups, k, processed, acc);
      var processed' := processed + IdSet(groups[k].1);
      LaterPrimariesNew(unis, groups, k, processed, acc, e);
      MergeFromAll(unis, groups, k + 1, processed', acc + [e]);
      Regroup(MergeFrom(unis, groups, k, processed, acc), acc, e, Entries(unis, groups, k + 1),
              Entries(unis, groups, k));
    }
  }

  /** Within a dictionary an id belongs to the group of exactly one normal
      form: its own. */
  lemma IdsNamedIff(unis: ODict<string, Uni>, norm: string -> string, i: nat, n: string)
    requires Valid(unis) && i < |unis|
    ensures unis[i].0 in IdsNamed(unis, norm, n) <==> norm(unis[i].1.name) == n
  {
    if unis[i].0 in IdsNamed(unis, norm, n) {
      IdsNamedMember(unis, norm, n, unis[i].0);
      var j :| 0 <= j < |unis| && unis[j].0 == unis[i].0 && norm(unis[j].1.name) == n;
      assert i == j;
    }
    if norm(unis[i].1.name) == n {
      IdsNamedComplete(unis, norm, i);
    }
  }

  /** The groups built by the first loop: entry `j` holds exactly the ids
      whose normal form is its key. */
  lemma NameToIdsAt(unis: ODict<string, Uni>, norm: string -> string, j: nat)
    requires j < |NameToIds(unis, norm)|
    ensures var g := NameToIds(unis, norm); g[j].1 == IdsNamed(unis, norm, g[j].0) && |g[j].1| > 0
  {
    var g := NameToIds(unis, norm);
    NameToIdsSpec(unis, norm);
    GetAt(g, j);
  }

  lemma NameToIdsApart(unis: ODict<string, Uni>, norm: string -> string)
    requires Valid(unis)
    ensures PrimariesApart(NameToIds(unis, norm))
  {
    var g := NameToIds(unis, norm);
    NameToIdsValid(unis, norm);
    forall a, b | 0 <= a < |g| && 0 <= b < |g| && a != b && |g[a].1| > 0 ensures g[a].1[0] !in g[b].1 {
      NameToIdsAt(unis, norm, a);
      NameToIdsAt(unis, norm, b);
      var id := g[a].1[0];
      IdsNamedMember(unis, norm, g[a].0, id);
      var i :| 0 <= i < |unis| && unis[i].0 == id && norm(unis[i].1.name) == g[a].0;
      IdsNamedIff(unis, norm, i, g[b].0);
    }
  }

  /** `group_university_variations` writes one entry per distinct normal
      form, in order of first appearance: the entry for normal form `n` is
      keyed by the first id named `n` and holds the group's merge (a lone id
      is copied unchanged). Every normal form of the input has its entry,
      and every input id lies in the group of exactly one entry. */
  lemma GroupVariationsSpec(unis: ODict<string, Uni>)
    requires Valid(unis)
    ensures var g := NameToIds(unis, Normalize);
            var r := GroupVariations(unis);
            |r| == |g| && Valid(g) &&
            (forall j :: 0 <= j < |r| ==>
               g[j].1 == IdsNamed(unis, Normalize, g[j].0) && |g[j].1| > 0 &&
               r[j].0 == g[j].1[0] &&
               r[j].1 == GroupEntry(unis, g[j].1))
    ensures var g := NameToIds(unis, Normalize);
            forall i :: 0 <= i < |unis| ==> Normalize(unis[i].1.name) in Keys(g)
    ensures var g := NameToIds(unis, Normalize);
            forall i, j :: 0 <= i < |unis| && 0 <= j < |g| ==>
              (unis[i].0 in g[j].1 <==> Normalize(unis[i].1.name) == g[j].0)
  {
    GroupVariationsEntries(unis);
    GroupsCoverNames(unis);
    GroupsPartition(unis);
  }

  /** One entry per group, keyed by its first id and holding its merge. */
  lemma GroupVariationsEntries(unis: ODict<string, Uni>)
    requires Valid(unis)
    ensures var g := NameToIds(unis, Normalize);
            var r := GroupVariations(unis);
            |r| == |g| && Valid(g) &&
            (forall j :: 0 <= j < |r| ==>
               g[j].1 == IdsNamed(unis, Normalize, g[j].0) && |g[j].1| > 0 &&
               r[j].0 == g[j].1[0] &&
               r[j].1 == GroupEntry(unis, g[j].1))
  {
    var g := NameToIds(unis, Normalize);
    NameToIdsWellFormed(unis, Normalize);
    NameToIdsSpec(unis, Normalize);
    NameToIdsApart(unis, Normalize);
    MergeFromAll(unis, g, 0, {}, []);
    var r := GroupVariations(unis);
    var es := Entries(unis, g, 0);
    assert r == es;
    forall j | 0 <= j < |r|
      ensures g[j].1 == IdsNamed(unis, Normalize, g[j].0) && |g[j].1| > 0
      ensures r[j].0 == g[j].1[0] && r[j].1 == GroupEntry(unis, g[j].1)
    {
      NameToIdsAt(unis, Normalize, j);
      assert r[j] == es[j];
    }
  }

  /** Every normal form of the input has a group. */
  lemma GroupsCoverNames(unis: ODict<string, Uni>)
    requires Valid(unis)
    ensures var g := NameToIds(unis, Normalize);
            forall i :: 0 <= i < |unis| ==> Normalize(unis[i].1.name) in Keys(g)
  {
    forall i | 0 <= i < |unis| ensures Normalize(unis[i].1.name) in Keys(NameToIds(unis, Normalize)) {
      NameHasGroup(unis, Normalize, i);
    }
  }

  /** The normal form of every stored university keys a group. */
  lemma NameHasGroup(unis: ODict<string, Uni>, norm: string -> string, i: nat)
    requires i < |unis|
    ensures norm(unis[i].1.name) in Keys(NameToIds(unis, norm))
  {
    var n := norm(unis[i].1.name);
    IdsNamedComplete(unis, norm, i);
    NameToIdsGet(unis, norm, n);
  }

  /** Every id lies in the group of its own normal form and no other. */
  lemma GroupsPartition(unis: ODict<string, Uni>)
    requires Valid(unis)
    ensures var g := NameToIds(unis, Normalize);
            forall i, j :: 0 <= i < |unis| && 0 <= j < |g| ==>
              (unis[i].0 in g[j].1 <==> Normalize(unis[i].1.name) == g[j].0)
  {
    var g := NameToIds(unis, Normalize);
    NameToIdsSpec(unis, Normalize);
    forall i, j | 0 <= i < |unis| && 0 <= j < |g| ensures unis[i].0 in g[j].1 <==> Normalize(unis[i].1.name) == g[j].0 {
      NameToIdsAt(unis, Normalize, j);
      IdsNamedIff(unis, Normalize, i, g[j].0);
    }
  }


  // ---------------------------------------------------------------------
  // Tidying scraped mapping data
  // ---------------------------------------------------------------------

  /** Where `re.sub(r'\s*\(.*?\)\s*$', '', s)` first matches at or after
      `i` (`|s|` if nowhere). The caller guarantees that position `i - 1`
      did not match. */
  function TrailStart(s: string, i: nat): (m: nat)
    requires i <= |s|
    requires i == 0 || MatchEnd(TrailingParen, s, i - 1).None?
    ensures i <= m <= |s|
    ensures forall k :: i <= k < m ==> MatchEnd(TrailingParen, s, k).None?
    ensures m < |s| ==> MatchEnd(TrailingParen, s, m) == Some(|s|)
    ensures 0 < m < |s| ==> !IsSpace(s[m - 1])
    decreases |s| - i
  {
    if i == |s| then i
    else if MatchEnd(TrailingParen, s, i).Some? then i
    else TrailStart(s, i + 1)
  }

  /** The match of the trailing-parenthesis pattern runs to the end of the
      text, so `re.sub` keeps exactly the part before the first match. */
  lemma {:induction false} SubTrailing(s: string, i: nat)
    requires i <= |s|
    requires i == 0 || MatchEnd(TrailingParen, s, i - 1).None?
    ensures SubFrom(TrailingParen, s, i, "") == s[i..TrailStart(s, i)]
    decreases |s| - i
  {
    if i < |s| && MatchEnd(TrailingParen, s, i).None? {
      SubTrailing(s, i + 1);
      TrailCopy(s, i);
    } else if i < |s| {
      TrailCut(s, i);
    }
  }

  /** One step of `SubTrailing` where position `i` does not match. */
  lemma TrailCopy(s: string, i: nat)
    requires i < |s| && (i == 0 || MatchEnd(TrailingParen, s, i - 1).None?)
    requires MatchEnd(TrailingParen, s, i).None?
    requires SubFrom(TrailingParen, s, i + 1, "") == s[i + 1..TrailStart(s, i + 1)]
    ensures SubFrom(TrailingParen, s, i, "") == s[i..TrailStart(s, i)]
  {
    var m := TrailStart(s, i + 1);
    assert TrailStart(s, i) == m;
    SubFromCopyOne(TrailingParen, s, i, "");
    SliceCons(s, i, m);
  }

  /** `SubTrailing` where position `i` matches: nothing is kept. */
  lemma TrailCut(s: string, i: nat)
    requires i < |s| && (i == 0 || MatchEnd(TrailingParen, s, i - 1).None?)
    requires MatchEnd(TrailingParen, s, i).Some?
    ensures SubFrom(TrailingParen, s, i, "") == s[i..TrailStart(s, i)]
  {
    assert TrailStart(s, i) == i;
    assert MatchEnd(TrailingParen, s, i) == Some(|s|);
  }

  /** `UniversityDataCleaner._clean_module_name`: runs of whitespace become
      one space, then everything from the leftmost position where
      whitespace, "(" and a run ending in ")" at the end of the name begins
      is cut off. The lazy `.*?` can span other parentheses, so "A (b) C (d)"
      becomes "A". */
  function CleanModuleName(name: string): (r: string)
    ensures name == "" ==> r == ""
    ensures var t := Sub(Spaces, Strip(name), " ");
            var m := TrailStart(t, 0);
            r == t[..m] &&
            (forall k :: 0 <= k < m ==> MatchEnd(TrailingParen, t, k).None?) &&
            (m < |t| ==> MatchEnd(TrailingParen, t, m) == Some(|t|) && (m > 0 ==> !IsSpace(t[m - 1])))
    ensures forall c :: c in r && IsSpace(c) ==> c == ' '
  {
    if name == "" then ""
    else
      var t := Sub(Spaces, Strip(name), " ");
      OnlyPlainSpaces(name);
      TrailingCut(t);
      Sub(TrailingParen, t, "")
  }

  /** After the whitespace pass the only whitespace left is ' '. */
  lemma OnlyPlainSpaces(name: string)
    ensures forall c :: IsSpace(c) && c != ' ' ==> c !in Sub(Spaces, Strip(name), " ")
  {
    forall c | IsSpace(c) && c != ' ' ensures c !in Sub(Spaces, Strip(name), " ") {
      SubFromRemoves(Spaces, Strip(name), 0, " ", c);
    }
  }

  /** The trailing-parenthesis pass keeps the part before its first match. */
  lemma TrailingCut(t: string)
    ensures Sub(TrailingParen, t, "") == t[..TrailStart(t, 0)]
    ensures forall c :: c in Sub(TrailingParen, t, "") ==> c in t
  {
    SubTrailing(t, 0);
  }

  /** What `normalize_mapping_data` does to one mapping. */
  function NormalizeMapping(m: Mapping): (r: Mapping)
    ensures r.university == m.university
    ensures r.university.Some? ==> r.universityNormalized == Some(Normalize(m.university.value))
    ensures r.university.None? ==> r.universityNormalized == m.universityNormalized
    ensures r.partnerName == CleanModuleName(m.partnerName)
    ensures r.(universityNormalized := m.universityNormalized, partnerName := m.partnerName) == m
  {
    var n := if m.university.Some? then Some(Normalize(m.university.value)) else m.universityNormalized;
    m.(universityNormalized := n, partnerName := CleanModuleName(m.partnerName))
  }

  /** `UniversityDataCleaner.normalize_mapping_data`: the university ids,
      their module codes and the lengths and order of the mapping lists are
      kept; only the normalised university name and the cleaned partner
      module name change in each mapping. */
  function NormalizeMappingData(data: MappingData): (r: MappingData)
    ensures Keys(r) == Keys(data)
    ensures forall i :: 0 <= i < |r| ==> |r[i].1| == |data[i].1| && Keys(r[i].1) == Keys(data[i].1)
    ensures forall i, j :: 0 <= i < |r| && 0 <= j < |r[i].1| ==>
              |r[i].1[j].1| == |data[i].1[j].1| &&
              forall k :: 0 <= k < |r[i].1[j].1| ==> r[i].1[j].1[k] == NormalizeMapping(data[i].1[j].1[k])
  {
    var r := seq(|data|, i requires 0 <= i < |data| => (data[i].0, NormalizeGroups(data[i].1)));
    assert forall i :: 0 <= i < |r| ==> Keys(r[i].1) == Keys(data[i].1);
    KeysPointwise(r, data);
    r
  }

  function NormalizeGroups(groups: ModuleGroups): (r: ModuleGroups)
    ensures |r| == |groups|
    ensures Keys(r) == Keys(groups)
    ensures forall j :: 0 <= j < |r| ==>
              |r[j].1| == |groups[j].1| && forall k :: 0 <= k < |r[j].1| ==> r[j].1[k] == NormalizeMapping(groups[j].1[k])
  {
    var r := seq(|groups|, j requires 0 <= j < |groups| => (groups[j].0, NormalizeList(groups[j].1)));
    KeysPointwise(r, groups);
    r
  }

  function NormalizeList(ms: seq<Mapping>): (r: seq<Mapping>)
    ensures |r| == |ms| && forall k :: 0 <= k < |ms| ==> r[k] == NormalizeMapping(ms[k])
  {
    seq(|ms|, k requires 0 <= k < |ms| => NormalizeMapping(ms[k]))
  }
}
