/** The regular expressions the system applies with Python's `re.sub`, each
    given as a matcher over the searched string, and `re.sub` itself: scan
    left to right, at each position try the pattern, replace a match and
    resume after it, otherwise keep the character. None of these patterns
    matches the empty string, so the scan always makes progress. */
module Patterns {
  import opened Wrappers
  import opened Text

  /** First index at or after `k` that is not whitespace (`|s|` if none). */
  function SkipWs(s: string, k: nat): (j: nat)
    requires k <= |s|
    ensures k <= j <= |s|
    ensures forall m :: k <= m < j ==> IsSpace(s[m])
    ensures j == |s| || !IsSpace(s[j])
    decreases |s| - k
  {
    if k < |s| && IsSpace(s[k]) then SkipWs(s, k + 1) else k
  }

  /** First index at or after `k` holding a newline (`|s|` if none): where
      the regex `.` stops. */
  function LineEnd(s: string, k: nat): (j: nat)
    requires k <= |s|
    ensures k <= j <= |s|
    ensures forall m :: k <= m < j ==> s[m] != '\n'
    ensures j == |s| || s[j] == '\n'
    decreases |s| - k
  {
    if k < |s| && s[k] != '\n' then LineEnd(s, k + 1) else k
  }

  /** First index at or after `k` holding `c`. */
  function FindFrom(s: string, c: char, k: nat): (r: Option<nat>)
    requires k <= |s|
    ensures r.Some? ==> k <= r.value < |s| && s[r.value] == c
    ensures forall m :: k <= m < |s| && (r.None? || m < r.value) ==> s[m] != c
    decreases |s| - k
  {
    if k == |s| then None
    else if s[k] == c then Some(k)
    else FindFrom(s, c, k + 1)
  }

  /** Whether `s[k]` exists and is a word character. */
  predicate WordAt(s: string, k: int) {
    0 <= k < |s| && IsWordChar(s[k])
  }

  /** The regex `\b`: a word character on exactly one side of position `k`. */
  predicate Boundary(s: string, k: int) {
    WordAt(s, k - 1) != WordAt(s, k)
  }

  /** The patterns the system uses. */
  datatype Pattern =
    | ThePrefix          // ^the\s+
    | CampusParen        // \([^)]*campus[^)]*\)
    | AnyParen           // \([^)]*\)
    | DashMainCampus     // \s*-\s*main\s*campus
    | DashAnyCampus      // \s*-\s*.*\s*campus
    | Word(lit: string)  // \b<lit>\b, with <lit> escaped
    | Spaces             // \s+
    | Dash               // \s*-\s*
    | TrailingParen      // \s*\(.*?\)\s*$

  /** "campus" occurs at `k`. */
  predicate CampusAt(s: string, k: nat) {
    OccursAt(s, "campus", k)
  }

  /** For `.*\s*campus` tried from the end of the line backwards: the end of
      the match for the largest `e` in `[lo, e0]` such that "campus" follows
      the whitespace run at `e`. */
  function LastCampus(s: string, lo: nat, e: nat): (r: Option<nat>)
    requires lo <= e <= |s|
    ensures r.Some? ==> lo + 6 <= r.value <= |s|
    decreases e - lo
  {
    var c := SkipWs(s, e);
    if CampusAt(s, c) then Some(c + 6)
    else if e == lo then None
    else LastCampus(s, lo, e - 1)
  }

  /** Where a match of `p` that starts at `i` ends, if there is one. */
  function MatchEnd(p: Pattern, s: string, i: nat): (r: Option<nat>)
    requires i <= |s|
    ensures r.Some? ==> i < r.value <= |s|
  {
    match p
    case ThePrefix =>
      if i == 0 && StartsWith(s, "the") && |s| > 3 && IsSpace(s[3]) then Some(SkipWs(s, 3)) else None
    case CampusParen =>
      if i < |s| && s[i] == '(' then
        match FindFrom(s, ')', i + 1)
        case Some(j) => if Contains(s[i + 1..j], "campus") then Some(j + 1) else None
        case None => None
      else None
    case AnyParen =>
      if i < |s| && s[i] == '(' then
        match FindFrom(s, ')', i + 1)
        case Some(j) => Some(j + 1)
        case None => None
      else None
    case DashMainCampus =>
      var d := SkipWs(s, i);
      if d < |s| && s[d] == '-' then
        var m := SkipWs(s, d + 1);
        if OccursAt(s, "main", m) then
          var c := SkipWs(s, m + 4);
          if CampusAt(s, c) then Some(c + 6) else None
        else None
      else None
    case DashAnyCampus =>
      var d := SkipWs(s, i);
      if d < |s| && s[d] == '-' then
        var w := SkipWs(s, d + 1);
        LastCampus(s, w, LineEnd(s, w))
      else None
    case Word(lit) =>
      if |lit| > 0 && Boundary(s, i) && OccursAt(s, lit, i) && Boundary(s, i + |lit|) then Some(i + |lit|) else None
    case Spaces =>
      if i < |s| && IsSpace(s[i]) then Some(SkipWs(s, i)) else None
    case Dash =>
      var d := SkipWs(s, i);
      if d < |s| && s[d] == '-' then Some(SkipWs(s, d + 1)) else None
    case TrailingParen =>
      var d := SkipWs(s, i);
      if d < |s| && s[d] == '(' && ClosesAtEnd(s, d + 1) then Some(|s|) else None
  }

  /** From `k` on, before any newline, some `)` is followed by nothing but
      whitespace: the tail `.*?\)\s*$` can match. */
  predicate ClosesAtEnd(s: string, k: nat)
    requires k <= |s|
    decreases |s| - k
  {
    k < |s| && s[k] != '\n' &&
    ((s[k] == ')' && SkipWs(s, k + 1) == |s|) || ClosesAtEnd(s, k + 1))
  }

  /** `re.sub(p, repl, s[i..])` continued from position `i` of `s`; matchers
      still see all of `s`, as `\b` and `^` look behind the position. */
  function SubFrom(p: Pattern, s: string, i: nat, repl: string): string
    requires i <= |s|
    decreases |s| - i
  {
    if i == |s| then ""
    else
      match MatchEnd(p, s, i)
      case Some(e) => repl + SubFrom(p, s, e, repl)
      case None => [s[i]] + SubFrom(p, s, i + 1, repl)
  }

  /** `re.sub(p, repl, s)` */
  function Sub(p: Pattern, s: string, repl: string): string
  {
    SubFrom(p, s, 0, repl)
  }

  /** Every character of the result was in the input or in the replacement. */
  lemma {:induction false} SubFromChars(p: Pattern, s: string, i: nat, repl: string, c: char)
    requires i <= |s|
    requires c in SubFrom(p, s, i, repl)
    ensures c in s[i..] || c in repl
    decreases |s| - i
  {
    if i < |s| {
      match MatchEnd(p, s, i)
      case Some(e) =>
        if c !in repl {
          SubFromChars(p, s, e, repl, c);
          assert s[e..] == s[i..][e - i..];
        }
      case None =>
        if c != s[i] {
          SubFromChars(p, s, i + 1, repl, c);
          assert s[i + 1..] == s[i..][1..];
        }
    }
  }

  lemma SubChars(p: Pattern, s: string, repl: string)
    ensures forall c :: c in Sub(p, s, repl) ==> c in s || c in repl
  {
    forall c | c in Sub(p, s, repl) ensures c in s || c in repl {
      SubFromChars(p, s, 0, repl, c);
      assert s[0..] == s;
    }
  }

  /** A character the pattern matches wherever it occurs, and that the
      replacement does not contain, is gone from the result. */
  lemma {:induction false} SubFromRemoves(p: Pattern, s: string, i: nat, repl: string, c: char)
    requires i <= |s|
    requires forall k :: i <= k < |s| && s[k] == c ==> MatchEnd(p, s, k).Some?
    requires c !in repl
    ensures c !in SubFrom(p, s, i, repl)
    decreases |s| - i
  {
    if i < |s| {
      match MatchEnd(p, s, i)
      case Some(e) => SubFromRemoves(p, s, e, repl, c);
      case None => SubFromRemoves(p, s, i + 1, repl, c);
    }
  }

  /** Where the pattern matches nowhere, the text is unchanged. */
  lemma {:induction false} SubFromNoMatch(p: Pattern, s: string, i: nat, repl: string)
    requires i <= |s|
    requires forall k :: i <= k < |s| ==> MatchEnd(p, s, k).None?
    ensures SubFrom(p, s, i, repl) == s[i..]
    decreases |s| - i
  {
    if i < |s| {
      SubFromNoMatch(p, s, i + 1, repl);
      assert s[i..] == [s[i]] + s[i + 1..];
    }
  }

  /** Where the pattern does not match, one character is copied. */
  lemma SubFromCopyOne(p: Pattern, s: string, i: nat, repl: string)
    requires i < |s| && MatchEnd(p, s, i).None?
    ensures SubFrom(p, s, i, repl) == [s[i]] + SubFrom(p, s, i + 1, repl)
  {
  }

  /** A stretch with no match is copied as it is. */
  lemma {:induction false} SubFromCopy(p: Pattern, s: string, i: nat, k: nat, repl: string)
    requires i <= k <= |s|
    requires forall j :: i <= j < k ==> MatchEnd(p, s, j).None?
    ensures SubFrom(p, s, i, repl) == s[i..k] + SubFrom(p, s, k, repl)
    decreases k - i
  {
    if i < k {
      SubFromCopyOne(p, s, i, repl);
      SubFromCopy(p, s, i + 1, k, repl);
      CopyStep(s, i, k, SubFrom(p, s, k, repl), SubFrom(p, s, i, repl));
    }
  }

  /** One copied character followed by the rest of a copied stretch is the
      whole stretch. */
  lemma CopyStep(s: string, i: nat, k: nat, rest: string, whole: string)
    requires i < k <= |s| && whole == [s[i]] + (s[i + 1..k] + rest)
    ensures whole == s[i..k] + rest
  {
    assert s[i..k] == [s[i]] + s[i + 1..k];
  }

  /** Patterns that need a dash find nothing in a dash-free text. */
  lemma NoDashNoMatch(s: string)
    requires '-' !in s
    ensures Sub(DashMainCampus, s, "") == s
    ensures Sub(DashAnyCampus, s, "") == s
  {
    SubFromNoMatch(DashMainCampus, s, 0, "");
    SubFromNoMatch(DashAnyCampus, s, 0, "");
  }
}
