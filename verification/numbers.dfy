/** Decimal numerals: reading `int(...)` and `float(...)` of a string made of
    ASCII digits (and at most one point), and writing a natural number the
    way `str(n)` does. Floating point is modelled by exact reals. */
module Numbers {
  import opened Wrappers
  import opened Text

  function DigitValue(c: char): (d: nat)
    requires IsDigit(c)
    ensures d < 10
  {
    (c as int - '0' as int) as nat
  }

  function DigitChar(d: nat): (c: char)
    requires d < 10
    ensures IsDigit(c) && DigitValue(c) == d
  {
    ('0' as int + d) as char
  }

  predicate AllDigits(s: string) {
    forall i :: 0 <= i < |s| ==> IsDigit(s[i])
  }

  /** The value of a digit string read most significant digit first; the
      empty string reads as 0. */
  function NatValue(s: string): nat
    requires AllDigits(s)
  {
    if |s| == 0 then 0 else NatValue(s[..|s| - 1]) * 10 + DigitValue(s[|s| - 1])
  }

  /** `str(n)` for a natural number. */
  function NatToString(n: nat): (s: string)
    ensures |s| > 0 && AllDigits(s)
    decreases n
  {
    if n < 10 then [DigitChar(n)] else NatToString(n / 10) + [DigitChar(n % 10)]
  }

  /** Reading back what `str(n)` wrote gives `n`. */
  lemma {:induction false} NatValueOfString(n: nat)
    ensures NatValue(NatToString(n)) == n
    decreases n
  {
    var s := NatToString(n);
    if n >= 10 {
      NatValueOfString(n / 10);
      assert s[..|s| - 1] == NatToString(n / 10);
    }
  }

  /** Appending a digit multiplies by ten and adds it. */
  lemma NatValueSnoc(s: string, c: char)
    requires AllDigits(s) && IsDigit(c)
    ensures AllDigits(s + [c]) && NatValue(s + [c]) == NatValue(s) * 10 + DigitValue(c)
  {
    assert (s + [c])[..|s|] == s;
  }

  /** `10 ** k` */
  function Pow10(k: nat): (p: nat)
    ensures p >= 1
  {
    if k == 0 then 1 else 10 * Pow10(k - 1)
  }

  /** The characters of `s` that are digits, in order: `re.sub(r'[^\d]', '', s)`. */
  function KeepDigits(s: string): (r: string)
    ensures AllDigits(r) && |r| <= |s|
    ensures forall c :: c in r <==> c in s && IsDigit(c)
  {
    if |s| == 0 then ""
    else
      var rest := KeepDigits(s[..|s| - 1]);
      assert forall c :: c in s <==> c in s[..|s| - 1] || c == s[|s| - 1];
      if IsDigit(s[|s| - 1]) then rest + [s[|s| - 1]] else rest
  }

  lemma KeepDigitsConcat(a: string, b: string)
    ensures KeepDigits(a + b) == KeepDigits(a) + KeepDigits(b)
    decreases |b|
  {
    if |b| > 0 {
      var b', c := b[..|b| - 1], b[|b| - 1];
      var tail := if IsDigit(c) then [c] else [];
      assert (a + b)[..|a + b| - 1] == a + b' && (a + b)[|a + b| - 1] == c;
      assert KeepDigits(a + b) == KeepDigits(a + b') + tail;
      assert KeepDigits(b) == KeepDigits(b') + tail;
      KeepDigitsConcat(a, b');
      assert KeepDigits(a + b') + tail == KeepDigits(a) + (KeepDigits(b') + tail);
    } else {
      assert a + b == a;
    }
  }

  /** The characters of `s` that are digits or '.': `re.sub(r'[^\d.]', '', s)`. */
  function KeepDecimal(s: string): (r: string)
    ensures |r| <= |s|
    ensures forall i :: 0 <= i < |r| ==> IsDigit(r[i]) || r[i] == '.'
    ensures forall c :: c in r <==> c in s && (IsDigit(c) || c == '.')
  {
    if |s| == 0 then ""
    else
      var rest := KeepDecimal(s[..|s| - 1]);
      assert forall c :: c in s <==> c in s[..|s| - 1] || c == s[|s| - 1];
      if IsDigit(s[|s| - 1]) || s[|s| - 1] == '.' then rest + [s[|s| - 1]] else rest
  }

  /** Index of the first point of `t`. */
  function FirstPoint(t: string): (i: nat)
    requires '.' in t
    ensures i < |t| && t[i] == '.'
    ensures forall j :: 0 <= j < i ==> t[j] != '.'
  {
    if t[0] == '.' then 0 else FirstPoint(t[1..]) + 1
  }

  /** The value of `whole.frac`. */
  function DecimalValue(whole: string, frac: string): real
    requires AllDigits(whole) && AllDigits(frac)
  {
    NatValue(whole) as real + NatValue(frac) as real / Pow10(|frac|) as real
  }

  predicate DigitsOrPoints(t: string) {
    forall i :: 0 <= i < |t| ==> IsDigit(t[i]) || t[i] == '.'
  }

  lemma DigitsBetween(t: string, lo: nat, hi: nat)
    requires DigitsOrPoints(t) && lo <= hi <= |t| && '.' !in t[lo..hi]
    ensures AllDigits(t[lo..hi])
  {
    forall j | 0 <= j < hi - lo ensures IsDigit(t[lo..hi][j]) {
      assert t[lo..hi][j] == t[lo + j];
    }
  }

  /** `float(t)` for a string of digits and points: a value exactly when
      there is at most one point and at least one digit; otherwise Python
      raises `ValueError`, which is `None` here. */
  function ReadDecimal(t: string): (r: Option<real>)
    requires DigitsOrPoints(t)
    ensures t == "" || t == "." ==> r.None?
    ensures '.' !in t && t != "" ==> r == Some(NatValue(t) as real)
    ensures r.Some? ==> r.value >= 0.0
  {
    if '.' !in t then
      if t == "" then None
      else
        DigitsBetween(t, 0, |t|);
        assert t[0..|t|] == t;
        Some(NatValue(t) as real)
    else
      var i := FirstPoint(t);
      if '.' in t[i + 1..] || (i == 0 && i + 1 == |t|) then None
      else
        DigitsBetween(t, 0, i);
        DigitsBetween(t, i + 1, |t|);
        Some(DecimalValue(t[..i], t[i + 1..]))
  }

  /** Two points make the numeral unreadable. */
  lemma TwoPointsUnreadable(a: string, b: string, c: string)
    requires '.' !in a && DigitsOrPoints(a + "." + b + "." + c)
    ensures ReadDecimal(a + "." + b + "." + c).None?
  {
    var t := a + "." + b + "." + c;
    assert t[|a|] == '.';
    assert forall j :: 0 <= j < |a| ==> t[j] == a[j];
    assert FirstPoint(t) == |a|;
    assert t[|a| + 1..][|b|] == '.';
  }

  /** `float(w + "." + f)` for digit strings `w` (non-empty) and `f`. */
  lemma ReadDecimalSplit(w: string, f: string)
    requires AllDigits(w) && AllDigits(f) && |w| > 0
    ensures DigitsOrPoints(w + "." + f) && ReadDecimal(w + "." + f) == Some(DecimalValue(w, f))
  {
    var t := w + "." + f;
    assert t[|w|] == '.';
    assert forall j :: 0 <= j < |w| ==> t[j] == w[j];
    assert FirstPoint(t) == |w|;
    assert t[..|w|] == w && t[|w| + 1..] == f;
    assert '.' !in f by {
      assert forall k :: 0 <= k < |f| ==> IsDigit(f[k]);
    }
  }

  /** `float(str(a) + "." + str(b))` is `a` plus `b` shifted right by the
      number of digits of `b`. */
  lemma ReadDecimalOfStrings(a: nat, b: nat)
    ensures var t := NatToString(a) + "." + NatToString(b);
            DigitsOrPoints(t) && ReadDecimal(t) == Some(a as real + b as real / Pow10(|NatToString(b)|) as real)
  {
    NatValueOfString(a);
    NatValueOfString(b);
    ReadDecimalSplit(NatToString(a), NatToString(b));
  }
}
