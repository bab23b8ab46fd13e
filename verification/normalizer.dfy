/** `UniversityNameNormalizer` (processors/data_cleaner.py): the canonical
    form under which name variants of one university ("The University of
    Queensland", "University of Queensland (St Lucia)") are grouped. */
module NameNormalizer {
  import opened Text
  import opened Patterns

  /** The abbreviation table, in the order the dictionary lists it (the
      order in which the substitutions are applied). */
  const Abbreviations: seq<(string, string)> := [
    ("univ.", "university"), ("univ", "university"),
    ("coll.", "college"), ("coll", "college"),
    ("inst.", "institute"), ("inst", "institute"),
    ("tech.", "technology"), ("tech", "technology"),
    ("u.", "university"), ("uc", "university college"),
    ("uit", "university")
  ]

  /** No abbreviation contains whitespace, and none is empty. */
  predicate AbbreviationsWellFormed() {
    forall k :: 0 <= k < |Abbreviations| ==> IsWord(Abbreviations[k].0)
  }

  /** Step 1: lower-case, then strip. */
  function Cased(name: string): string {
    Strip(Lower(name))
  }

  /** Step 2: a leading "the" and the whitespace after it go. */
  function WithoutArticle(s: string): string {
    Sub(ThePrefix, s, "")
  }

  /** Step 3: the four removal patterns, in order. */
  function WithoutQualifiers(s: string): string {
    Sub(DashAnyCampus, Sub(DashMainCampus, Sub(AnyParen, Sub(CampusParen, s, ""), ""), ""), "")
  }

  /** Step 4: abbreviations `k..` expanded as whole words, in table order. */
  function Expanded(s: string, k: nat): string
    decreases |Abbreviations| - k
  {
    if k >= |Abbreviations| then s
    else Expanded(Sub(Word(Abbreviations[k].0), s, Abbreviations[k].1), k + 1)
  }

  /** Step 5: every whitespace run becomes one space, then strip. */
  function Collapsed(s: string): string {
    Strip(Sub(Spaces, s, " "))
  }

  /** Step 6: a dash and the whitespace around it become one space. */
  function Undashed(s: string): string {
    Sub(Dash, s, " ")
  }

  /** `normalize(name)`: empty for an empty name; otherwise the six steps.
      The result has no upper-case letter and no dash. */
  function Normalize(name: string): (r: string)
    ensures name == "" ==> r == ""
    ensures NoUpper(r)
    ensures '-' !in r
  {
    if name == "" then ""
    else
      var s := Collapsed(Expanded(WithoutQualifiers(WithoutArticle(Cased(name))), 0));
      NoUpperThroughSteps(name);
      DashesRemoved(s);
      Undashed(s)
  }

  /** `get_base_name(name)`: the grouping key, which is the normal form. */
  function BaseName(name: string): (r: string)
    ensures r == Normalize(name)
  {
    Normalize(name)
  }

  lemma SubNoUpper(p: Pattern, s: string, repl: string)
    requires NoUpper(s) && NoUpper(repl)
    ensures NoUpper(Sub(p, s, repl))
  {
    SubChars(p, s, repl);
  }

  /** Every expansion is written in lower case. */
  lemma ExpansionLower(k: nat)
    requires k < |Abbreviations|
    ensures NoUpper(Abbreviations[k].1)
  {
    var e := Abbreviations[k].1;
    assert e == "university" || e == "college" || e == "institute" || e == "technology" || e == "university college";
  }

  lemma {:induction false} ExpandedNoUpper(s: string, k: nat)
    requires NoUpper(s)
    ensures NoUpper(Expanded(s, k))
    decreases |Abbreviations| - k
  {
    if k < |Abbreviations| {
      ExpansionLower(k);
      SubNoUpper(Word(Abbreviations[k].0), s, Abbreviations[k].1);
      ExpandedNoUpper(Sub(Word(Abbreviations[k].0), s, Abbreviations[k].1), k + 1);
    }
  }

  lemma NoUpperThroughSteps(name: string)
    ensures NoUpper(Undashed(Collapsed(Expanded(WithoutQualifiers(WithoutArticle(Cased(name))), 0))))
  {
    LowerIsLowercase(name);
    StripChars(Lower(name));
    var s0 := Cased(name);
    SubNoUpper(ThePrefix, s0, "");
    var s1 := WithoutArticle(s0);
    SubNoUpper(CampusParen, s1, "");
    SubNoUpper(AnyParen, Sub(CampusParen, s1, ""), "");
    SubNoUpper(DashMainCampus, Sub(AnyParen, Sub(CampusParen, s1, ""), ""), "");
    SubNoUpper(DashAnyCampus, Sub(DashMainCampus, Sub(AnyParen, Sub(CampusParen, s1, ""), ""), ""), "");
    var s2 := WithoutQualifiers(s1);
    ExpandedNoUpper(s2, 0);
    var s3 := Expanded(s2, 0);
    SubNoUpper(Spaces, s3, " ");
    StripChars(Sub(Spaces, s3, " "));
    SubNoUpper(Dash, Collapsed(s3), " ");
  }

  /** The dash pattern matches at every dash, so none survives step 6. */
  lemma DashesRemoved(s: string)
    ensures '-' !in Undashed(s)
  {
    forall k | 0 <= k < |s| && s[k] == '-' ensures MatchEnd(Dash, s, k).Some? {
      assert SkipWs(s, k) == k;
    }
    SubFromRemoves(Dash, s, 0, " ", '-');
  }
}

/** How the normal form treats the variations it exists to merge: a leading
    article and a trailing parenthesised qualifier. */
module NameVariants {
  import opened Wrappers
  import opened Text
  import opened Patterns
  import opened NameNormalizer

  /** Whether `^the\s+` matches `s`. */
  predicate HasArticle(s: string) {
    MatchEnd(ThePrefix, s, 0).Some?
  }

  /** A leading "The " changes nothing, for a name that is already stripped
      and does not itself begin with the article. */
  lemma ArticleIgnored(x: string)
    requires x != [] && !IsSpace(x[0]) && !IsSpace(x[|x| - 1])
    requires !HasArticle(Lower(x))
    ensures Normalize("The " + x) == Normalize(x)
  {
    ArticleStripped(x);
    var t := WithoutArticle(Cased(x));
    assert Normalize("The " + x) == Undashed(Collapsed(Expanded(WithoutQualifiers(t), 0)));
    assert Normalize(x) == Undashed(Collapsed(Expanded(WithoutQualifiers(t), 0)));
  }

  /** The first two steps already agree on the two spellings. */
  lemma ArticleStripped(x: string)
    requires x != [] && !IsSpace(x[0]) && !IsSpace(x[|x| - 1])
    requires !HasArticle(Lower(x))
    ensures WithoutArticle(Cased("The " + x)) == WithoutArticle(Cased(x))
  {
    var L := Lower(x);
    LowerConcat("The ", x);
    assert Lower("The ") == "the ";
    var s := "the " + L;
    StripOfTrimmed(s);
    StripOfTrimmed(L);
    assert SkipWs(s, 4) == 4;
    assert MatchEnd(ThePrefix, s, 0) == Some(4);
    SubFromNoMatch(ThePrefix, s, 4, "");
    assert s[4..] == L;
    SubFromNoMatch(ThePrefix, L, 0, "");
    assert L[0..] == L;
  }

  /** Appending text that starts with " (" never creates an article match
      and leaves an existing one as it was. */
  lemma ArticleAppend(l: string, t: string)
    requires l != [] && !IsSpace(l[|l| - 1]) && l != "the"
    requires |t| >= 2 && t[0] == ' ' && t[1] == '('
    ensures WithoutArticle(l + t) == WithoutArticle(l) + t
  {
    var s := l + t;
    if |l| > 3 {
      assert s[..3] == l[..3] && s[3] == l[3];
    } else {
      ShortNoArticle(l, t);
    }
    if HasArticle(s) {
      var e := SkipWs(l, 3);
      SkipWsPrefix(l, t, 3);
      SubFromNoMatch(ThePrefix, s, e, "");
      SubFromNoMatch(ThePrefix, l, e, "");
      assert s[e..] == l[e..] + t;
    } else {
      SubFromNoMatch(ThePrefix, s, 0, "");
      SubFromNoMatch(ThePrefix, l, 0, "");
      assert s[0..] == s && l[0..] == l;
    }
  }

  /** A name of at most three characters other than "the" cannot acquire
      the article by having " (" appended. */
  lemma ShortNoArticle(l: string, t: string)
    requires 0 < |l| <= 3 && l != "the"
    requires |t| >= 2 && t[0] == ' ' && t[1] == '('
    ensures !HasArticle(l + t)
  {
    var s := l + t;
    if |l| == 3 {
      assert s[..3] == l;
    } else if |l| == 2 {
      assert s[2] == ' ';
    } else {
      assert s[1] == ' ';
    }
  }

  /** A whitespace run that ends inside `l` ends at the same place in `l + t`. */
  lemma {:induction false} SkipWsPrefix(l: string, t: string, k: nat)
    requires k <= |l| && SkipWs(l, k) < |l|
    ensures SkipWs(l + t, k) == SkipWs(l, k)
    decreases |l| - k
  {
    if IsSpace(l[k]) {
      SkipWsPrefix(l, t, k + 1);
    }
  }

  /** The layout of `y (qq)`: the only `(` sits right after `y` and a
      space, and the first `)` after it is the last character. */
  lemma ParenShape(y: string, qq: string)
    requires '(' !in y && '(' !in qq && ')' !in qq
    ensures var s := y + " (" + qq + ")"; var o := |y| + 1;
            s[o] == '(' && s[..o] == y + " " && s[o + 1..|s| - 1] == qq
            && FindFrom(s, ')', o + 1) == Some(|s| - 1)
            && (forall j :: 0 <= j < |s| && j != o ==> s[j] != '(')
  {
    var s := y + " (" + qq + ")";
    var o := |y| + 1;
    assert forall j :: o < j < |s| - 1 ==> s[j] == qq[j - o - 1];
    assert s[o + 1..|s| - 1] == qq;
    assert s[|s| - 1] == ')';
    assert s[..o] == y + " ";
  }

  /** Without an opening parenthesis neither parenthesis pattern matches. */
  lemma NoOpenNoParen(s: string)
    requires '(' !in s
    ensures Sub(CampusParen, s, "") == s && Sub(AnyParen, s, "") == s
  {
    SubFromNoMatch(CampusParen, s, 0, "");
    SubFromNoMatch(AnyParen, s, 0, "");
    assert s[0..] == s;
  }

  /** `(qq)` after `y` is removed by the any-parenthesis pattern. */
  lemma AnyParenRemoved(y: string, qq: string)
    requires '(' !in y && '(' !in qq && ')' !in qq
    ensures Sub(AnyParen, y + " (" + qq + ")", "") == y + " "
  {
    var s := y + " (" + qq + ")";
    var o := |y| + 1;
    ParenShape(y, qq);
    SubFromCopy(AnyParen, s, 0, o, "");
    assert MatchEnd(AnyParen, s, o) == Some(|s|);
  }

  /** `(qq)` after `y` is removed by the campus pattern exactly when `qq`
      mentions campus. */
  lemma CampusParenRemoved(y: string, qq: string)
    requires '(' !in y && '(' !in qq && ')' !in qq
    ensures var s := y + " (" + qq + ")";
            Sub(CampusParen, s, "") == if Contains(qq, "campus") then y + " " else s
  {
    var s := y + " (" + qq + ")";
    var o := |y| + 1;
    ParenShape(y, qq);
    SubFromCopy(CampusParen, s, 0, o, "");
    if Contains(qq, "campus") {
      assert MatchEnd(CampusParen, s, o) == Some(|s|);
    } else {
      assert MatchEnd(CampusParen, s, o).None?;
      SubFromNoMatch(CampusParen, s, o, "");
      assert s[0..o] + s[o..] == s;
    }
  }

  /** Removing qualifiers from `y (qq)`, where neither part has parentheses
      of its own, leaves `y` and a space; `y` alone is left as it is. */
  lemma ParenRemoved(y: string, qq: string)
    requires '(' !in y && '(' !in qq && ')' !in qq
    ensures Sub(AnyParen, Sub(CampusParen, y + " (" + qq + ")", ""), "") == y + " "
    ensures Sub(AnyParen, Sub(CampusParen, y, ""), "") == y
    ensures Sub(AnyParen, y + " ", "") == y + " "
  {
    AnyParenRemoved(y, qq);
    CampusParenRemoved(y, qq);
    NoOpenNoParen(y);
    NoOpenNoParen(y + " ");
  }

  /** A whole-word substitution of a literal without whitespace treats a
      trailing space as the end of the text. */
  lemma WordAppendSpace(lit: string, v: string, repl: string)
    requires IsWord(lit)
    ensures Sub(Word(lit), v + " ", repl) == Sub(Word(lit), v, repl) + " "
  {
    WordFromAppendSpace(lit, v, 0, repl);
  }

  lemma {:induction false} WordFromAppendSpace(lit: string, v: string, i: nat, repl: string)
    requires IsWord(lit) && i <= |v|
    ensures SubFrom(Word(lit), v + " ", i, repl) == SubFrom(Word(lit), v, i, repl) + " "
    decreases |v| - i
  {
    var s := v + " ";
    if i == |v| {
      if |lit| == 1 {
        assert s[i..i + |lit|][0] == s[i];
      }
      assert MatchEnd(Word(lit), s, i).None?;
    } else {
      assert OccursAt(s, lit, i) <==> OccursAt(v, lit, i) by {
        if i + |lit| <= |v| {
          assert s[i..i + |lit|] == v[i..i + |lit|];
        } else if i + |lit| == |s| {
          assert s[i..i + |lit|][|v| - i] == s[|v|];
        }
      }
      assert MatchEnd(Word(lit), s, i) == MatchEnd(Word(lit), v, i);
      match MatchEnd(Word(lit), v, i)
      case Some(e) => WordFromAppendSpace(lit, v, e, repl);
      case None => WordFromAppendSpace(lit, v, i + 1, repl);
    }
  }

  lemma {:induction false} ExpandedAppendSpace(v: string, k: nat)
    ensures Expanded(v + " ", k) == Expanded(v, k) + " "
    decreases |Abbreviations| - k
  {
    if k < |Abbreviations| {
      var (abbr, full) := Abbreviations[k];
      assert IsWord(abbr);
      WordAppendSpace(abbr, v, full);
      ExpandedAppendSpace(Sub(Word(abbr), v, full), k + 1);
    }
  }

  /** Collapsing whitespace in `v + " "` yields the collapse of `v`, with at
      most one extra trailing space. */
  lemma {:induction false} SpacesFromAppend(v: string, i: nat)
    requires i <= |v|
    ensures var a := SubFrom(Spaces, v + " ", i, " ");
            var b := SubFrom(Spaces, v, i, " ");
            a == b + " " || (a == b && b != [] && b[|b| - 1] == ' ')
    decreases |v| - i
  {
    var s := v + " ";
    if i == |v| {
      assert SkipWs(s, |v|) == |v| + 1;
    } else if IsSpace(v[i]) {
      var e := SkipWs(v, i);
      if e < |v| {
        SkipWsPrefix(v, " ", i);
        SpacesFromAppend(v, e);
      } else {
        SkipWsToEnd(v, i);
      }
    } else {
      SpacesFromAppend(v, i + 1);
    }
  }

  lemma {:induction false} SkipWsToEnd(v: string, k: nat)
    requires k <= |v| && SkipWs(v, k) == |v|
    ensures SkipWs(v + " ", k) == |v| + 1
    decreases |v| - k
  {
    if k < |v| {
      SkipWsToEnd(v, k + 1);
    }
  }

  lemma CollapsedAppendSpace(v: string)
    ensures Collapsed(v + " ") == Collapsed(v)
  {
    SpacesFromAppend(v, 0);
    var b := Sub(Spaces, v, " ");
    if Sub(Spaces, v + " ", " ") == b + " " {
      StripAppendSpace(b, ' ');
    }
  }

  /** A trailing parenthesised qualifier changes nothing, for a stripped
      name without parentheses or dashes that is not just "the". */
  lemma QualifierIgnored(x: string, q: string)
    requires x != [] && !IsSpace(x[0]) && !IsSpace(x[|x| - 1])
    requires '(' !in x && ')' !in x && '-' !in x
    requires '(' !in q && ')' !in q
    requires Lower(x) != "the"
    ensures Normalize(x + " (" + q + ")") == Normalize(x)
  {
    var w := QualifierStripped(x, q);
    ExpandedAppendSpace(w, 0);
    CollapsedAppendSpace(Expanded(w, 0));
    assert Normalize(x + " (" + q + ")") == Undashed(Collapsed(Expanded(w + " ", 0)));
    assert Normalize(x) == Undashed(Collapsed(Expanded(w, 0)));
  }

  /** The first three steps leave only a trailing space of the qualifier. */
  lemma QualifierStripped(x: string, q: string) returns (w: string)
    requires x != [] && !IsSpace(x[0]) && !IsSpace(x[|x| - 1])
    requires '(' !in x && ')' !in x && '-' !in x
    requires '(' !in q && ')' !in q
    requires Lower(x) != "the"
    ensures w == WithoutQualifiers(WithoutArticle(Cased(x)))
    ensures WithoutQualifiers(WithoutArticle(Cased(x + " (" + q + ")"))) == w + " "
  {
    var l := Lower(x);
    var qq := Lower(q);
    var t := " (" + qq + ")";
    LowerConcat(x, " (" + q);
    LowerConcat(x + " (" + q, ")");
    LowerConcat(" (", q);
    assert Lower(" (") == " (" && Lower(")") == ")";
    assert Lower(x + " (" + q + ")") == l + t;
    StripOfTrimmed(l + t);
    StripOfTrimmed(l);
    ArticleAppend(l, t);
    var y := WithoutArticle(l);
    LowerKeepsNonLetter(x, '(');
    LowerKeepsNonLetter(x, '-');
    LowerKeepsNonLetter(q, '(');
    LowerKeepsNonLetter(q, ')');
    SubChars(ThePrefix, l, "");
    assert y + t == y + " (" + qq + ")";
    ParenRemoved(y, qq);
    SubChars(CampusParen, y, "");
    SubChars(AnyParen, Sub(CampusParen, y, ""), "");
    NoDashNoMatch(y + " ");
    NoDashNoMatch(y);
    assert WithoutQualifiers(y + t) == y + " ";
    assert WithoutQualifiers(y) == y;
    w := y;
  }

  /** The example from the normaliser's own sample data. */
  const ExampleName: string := "University of Queensland"
  const ExampleCampus: string := "St Lucia"

  lemma ExampleNameShape()
    ensures ExampleName[0] == 'U' && ExampleName[|ExampleName| - 1] == 'd'
    ensures '(' !in ExampleName && ')' !in ExampleName && '-' !in ExampleName
    ensures '(' !in ExampleCampus && ')' !in ExampleCampus
  {
    Absent(ExampleName, '(');
    Absent(ExampleName, ')');
    Absent(ExampleName, '-');
    Absent(ExampleCampus, '(');
    Absent(ExampleCampus, ')');
  }

  /** A character other than every letter and space of `s` is not in `s`. */
  lemma Absent(s: string, c: char)
    requires c != ' ' && !('a' <= c <= 'z') && !('A' <= c <= 'Z')
    requires forall i :: 0 <= i < |s| ==> s[i] == ' ' || 'a' <= s[i] <= 'z' || 'A' <= s[i] <= 'Z'
    ensures c !in s
  {
  }

  lemma ExampleNameNoArticle()
    ensures Lower(ExampleName) != "the" && !HasArticle(Lower(ExampleName))
  {
    assert Lower(ExampleName)[0] == 'u';
  }

  lemma ExampleSpellings()
    ensures "The " + ExampleName == "The University of Queensland"
    ensures ExampleName + " (" + ExampleCampus + ")" == "University of Queensland (St Lucia)"
  {
  }

  /** "The University of Queensland" and "University of Queensland
      (St Lucia)" share one normal form, so they are grouped together. */
  lemma QueenslandVariantsMerge()
    ensures Normalize("The University of Queensland") == Normalize("University of Queensland (St Lucia)")
  {
    ExampleNameShape();
    ExampleNameNoArticle();
    ExampleSpellings();
    ArticleIgnored(ExampleName);
    QualifierIgnored(ExampleName, ExampleCampus);
  }

  /** The grouping key ignores a leading "The" and a trailing
      parenthesised qualifier: the three spellings of one university share
      one base name. */
  lemma BaseNameMergesVariants(x: string, q: string)
    requires x != [] && !IsSpace(x[0]) && !IsSpace(x[|x| - 1])
    requires !HasArticle(Lower(x)) && Lower(x) != "the"
    requires '(' !in x && ')' !in x && '-' !in x
    requires '(' !in q && ')' !in q
    ensures BaseName("The " + x) == BaseName(x)
    ensures BaseName(x + " (" + q + ")") == BaseName(x)
  {
    ArticleIgnored(x);
    QualifierIgnored(x, q);
  }
}
