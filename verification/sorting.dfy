/** Python's `sorted(xs, key=...)` with tuple keys: a stable sort whose keys
    are compared lexicographically, strings by code point and numbers by
    value. Every ordering in the system (ranking, top-N, search results,
    sorted name lists) is an instance of `SortBy`. */
module Sorting {

  /** One component of a Python sort-key tuple. */
  datatype KeyPart = Str(s: string) | Num(x: real)

  /** A sort-key tuple. */
  type Key = seq<KeyPart>

  /** Python `<` on `str`: lexicographic by code point, a proper prefix first. */
  predicate StrLess(a: string, b: string)
    decreases |a|
  {
    |b| > 0 && (|a| == 0 || a[0] < b[0] || (a[0] == b[0] && StrLess(a[1..], b[1..])))
  }

  /** `<` on one tuple component. The system never compares a string with a
      number; strings are put first only to make the order total. */
  predicate PartLess(a: KeyPart, b: KeyPart) {
    match (a, b)
    case (Str(x), Str(y)) => StrLess(x, y)
    case (Num(x), Num(y)) => x < y
    case (Str(_), Num(_)) => true
    case (Num(_), Str(_)) => false
  }

  /** Python `<` on tuples: the first differing component decides, a proper
      prefix comes first. */
  predicate KeyLess(a: Key, b: Key)
    decreases |a|
  {
    |b| > 0 && (|a| == 0 || PartLess(a[0], b[0]) || (a[0] == b[0] && KeyLess(a[1..], b[1..])))
  }

  /** One step of the tuple comparison on non-empty keys. */
  lemma KeyLessUnfold(a: Key, b: Key)
    requires |a| > 0 && |b| > 0
    ensures KeyLess(a, b) <==> PartLess(a[0], b[0]) || (a[0] == b[0] && KeyLess(a[1..], b[1..]))
  {
  }

  /** `a` may precede `b` in a sorted list: `not (b < a)`. */
  predicate KeyLe(a: Key, b: Key) {
    !KeyLess(b, a)
  }

  lemma {:induction false} StrLessIrrefl(a: string)
    ensures !StrLess(a, a)
    decreases |a|
  {
    if |a| > 0 {
      StrLessIrrefl(a[1..]);
    }
  }

  lemma {:induction false} StrLessTrans(a: string, b: string, c: string)
    requires StrLess(a, b) && StrLess(b, c)
    ensures StrLess(a, c)
    decreases |a|
  {
    if |a| > 0 && a[0] == b[0] && b[0] == c[0] {
      StrLessTrans(a[1..], b[1..], c[1..]);
    }
  }

  lemma {:induction false} StrLessTotal(a: string, b: string)
    ensures a == b || StrLess(a, b) || StrLess(b, a)
    decreases |a|
  {
    if |a| > 0 && |b| > 0 && a[0] == b[0] {
      StrLessTotal(a[1..], b[1..]);
      if a[1..] == b[1..] {
        assert a == [a[0]] + a[1..] && b == [b[0]] + b[1..];
      }
    }
  }

  lemma StrLessStrict(a: string, b: string, c: string)
    ensures !StrLess(a, a)
    ensures StrLess(a, b) && StrLess(b, c) ==> StrLess(a, c)
    ensures a == b || StrLess(a, b) || StrLess(b, a)
  {
    StrLessIrrefl(a);
    if StrLess(a, b) && StrLess(b, c) {
      StrLessTrans(a, b, c);
    }
    StrLessTotal(a, b);
  }

  lemma PartLessStrict(a: KeyPart, b: KeyPart, c: KeyPart)
    ensures !PartLess(a, a)
    ensures PartLess(a, b) && PartLess(b, c) ==> PartLess(a, c)
    ensures a == b || PartLess(a, b) || PartLess(b, a)
  {
    match (a, b, c)
    case (Str(x), Str(y), Str(z)) => StrLessStrict(x, y, z);
    case (Str(x), Str(y), _) => StrLessStrict(x, y, y);
    case (Str(x), _, _) => StrLessStrict(x, x, x);
    case (Num(_), Str(y), Str(z)) => StrLessStrict(y, z, z);
    case (_, _, _) =>
  }

  lemma {:induction false} KeyLessIrrefl(a: Key)
    ensures !KeyLess(a, a)
    decreases |a|
  {
    if |a| > 0 {
      PartLessStrict(a[0], a[0], a[0]);
      KeyLessIrrefl(a[1..]);
    }
  }

  lemma {:induction false} KeyLessTrans(a: Key, b: Key, c: Key)
    requires KeyLess(a, b) && KeyLess(b, c)
    ensures KeyLess(a, c)
    decreases |a|
  {
    if |a| > 0 {
      PartLessStrict(a[0], b[0], c[0]);
      if a[0] == b[0] && b[0] == c[0] {
        KeyLessTrans(a[1..], b[1..], c[1..]);
      }
    }
  }

  lemma {:induction false} KeyLessTotal(a: Key, b: Key)
    ensures a == b || KeyLess(a, b) || KeyLess(b, a)
    decreases |a|
  {
    if |a| > 0 && |b| > 0 {
      PartLessStrict(a[0], b[0], b[0]);
      if a[0] == b[0] {
        KeyLessTotal(a[1..], b[1..]);
        if a[1..] == b[1..] {
          assert a == [a[0]] + a[1..] && b == [b[0]] + b[1..];
        }
      }
    }
  }

  /** `<` on keys is a strict total order. */
  lemma KeyLessStrict(a: Key, b: Key, c: Key)
    ensures !KeyLess(a, a)
    ensures KeyLess(a, b) && KeyLess(b, c) ==> KeyLess(a, c)
    ensures a == b || KeyLess(a, b) || KeyLess(b, a)
  {
    KeyLessIrrefl(a);
    if KeyLess(a, b) && KeyLess(b, c) {
      KeyLessTrans(a, b, c);
    }
    KeyLessTotal(a, b);
  }

  lemma KeyLeTrans(a: Key, b: Key, c: Key)
    requires KeyLe(a, b) && KeyLe(b, c)
    ensures KeyLe(a, c)
  {
    KeyLessStrict(a, b, c);
    KeyLessStrict(c, b, a);
    KeyLessStrict(c, a, b);
    KeyLessStrict(b, c, a);
  }

  /** Every earlier element's key is at most every later element's key. */
  predicate Sorted<T>(s: seq<T>, key: T -> Key) {
    forall i, j :: 0 <= i < j < |s| ==> KeyLe(key(s[i]), key(s[j]))
  }

  /** The elements of `s` whose key is `k`, in their order in `s`. */
  function WithKey<T>(s: seq<T>, key: T -> Key, k: Key): seq<T>
  {
    if |s| == 0 then []
    else if key(s[0]) == k then [s[0]] + WithKey(s[1..], key, k)
    else WithKey(s[1..], key, k)
  }

  /** Puts `x` before the first element whose key is not below its own. */
  function Insert<T>(x: T, s: seq<T>, key: T -> Key): (r: seq<T>)
    ensures multiset(r) == multiset(s) + multiset{x}
  {
    if |s| == 0 then [x]
    else if KeyLe(key(x), key(s[0])) then [x] + s
    else
      assert s == [s[0]] + s[1..];
      [s[0]] + Insert(x, s[1..], key)
  }

  lemma SortedTail<T>(s: seq<T>, key: T -> Key)
    requires Sorted(s, key) && |s| > 0
    ensures Sorted(s[1..], key)
  {
    forall i, j | 0 <= i < j < |s[1..]| ensures KeyLe(key(s[1..][i]), key(s[1..][j])) {
      assert s[1..][i] == s[i + 1] && s[1..][j] == s[j + 1];
    }
  }

  lemma SortedCons<T>(x: T, s: seq<T>, key: T -> Key)
    requires Sorted(s, key)
    requires forall j :: 0 <= j < |s| ==> KeyLe(key(x), key(s[j]))
    ensures Sorted([x] + s, key)
  {
    var r := [x] + s;
    forall i, j | 0 <= i < j < |r| ensures KeyLe(key(r[i]), key(r[j])) {
      if i == 0 {
        assert r[j] == s[j - 1];
      } else {
        assert r[i] == s[i - 1] && r[j] == s[j - 1];
      }
    }
  }

  /** Inserting into a sorted list keeps it sorted. */
  lemma {:induction false} InsertSorted<T>(x: T, s: seq<T>, key: T -> Key)
    requires Sorted(s, key)
    ensures Sorted(Insert(x, s, key), key)
  {
    if |s| == 0 {
    } else if KeyLe(key(x), key(s[0])) {
      forall j | 0 <= j < |s| ensures KeyLe(key(x), key(s[j])) {
        if j > 0 {
          KeyLeTrans(key(x), key(s[0]), key(s[j]));
        }
      }
      SortedCons(x, s, key);
    } else {
      var rest := Insert(x, s[1..], key);
      SortedTail(s, key);
      InsertSorted(x, s[1..], key);
      KeyLessStrict(key(s[0]), key(x), key(s[0]));
      forall j | 0 <= j < |rest| ensures KeyLe(key(s[0]), key(rest[j])) {
        assert rest[j] in multiset(rest);
        assert rest[j] == x || rest[j] in multiset(s[1..]);
        if rest[j] != x {
          var m :| 0 <= m < |s[1..]| && s[1..][m] == rest[j];
          assert s[m + 1] == rest[j];
        }
      }
      SortedCons(s[0], rest, key);
    }
  }

  /** `x` lands ahead of every element with the same key. */
  lemma {:induction false} InsertWithKey<T>(x: T, s: seq<T>, key: T -> Key, k: Key)
    ensures WithKey(Insert(x, s, key), key, k) == if key(x) == k then [x] + WithKey(s, key, k) else WithKey(s, key, k)
  {
    if |s| == 0 {
    } else if KeyLe(key(x), key(s[0])) {
      assert ([x] + s)[1..] == s;
    } else {
      KeyLessStrict(key(x), key(s[0]), key(s[0]));
      InsertWithKey(x, s[1..], key, k);
      assert ([s[0]] + Insert(x, s[1..], key))[1..] == Insert(x, s[1..], key);
    }
  }

  /** The elements with key `k` of `[x] + s`. */
  lemma WithKeyCons<T>(x: T, s: seq<T>, key: T -> Key, k: Key)
    ensures WithKey([x] + s, key, k) == if key(x) == k then [x] + WithKey(s, key, k) else WithKey(s, key, k)
  {
    assert ([x] + s)[1..] == s;
  }

  /** The elements with key `k` of a prefix are a prefix of those of the
      whole list: a cut keeps the earlier ones of every key. */
  lemma {:induction false} WithKeyPrefix<T>(s: seq<T>, n: nat, key: T -> Key, k: Key)
    requires n <= |s|
    ensures WithKey(s[..n], key, k) <= WithKey(s, key, k)
  {
    if n > 0 {
      WithKeyPrefix(s[1..], n - 1, key, k);
      assert s[..n] == [s[0]] + s[1..][..n - 1];
      WithKeyCons(s[0], s[1..][..n - 1], key, k);
    }
  }

  /** Inserting the head into the sorted tail sorts the whole list. */
  lemma InsertStep<T>(x: T, s: seq<T>, rest: seq<T>, key: T -> Key)
    requires multiset(rest) == multiset(s) && Sorted(rest, key)
    requires forall k :: WithKey(rest, key, k) == WithKey(s, key, k)
    ensures multiset(Insert(x, rest, key)) == multiset([x] + s)
    ensures Sorted(Insert(x, rest, key), key)
    ensures forall k :: WithKey(Insert(x, rest, key), key, k) == WithKey([x] + s, key, k)
  {
    InsertSorted(x, rest, key);
    forall k ensures WithKey(Insert(x, rest, key), key, k) == WithKey([x] + s, key, k) {
      InsertWithKey(x, rest, key, k);
      WithKeyCons(x, s, key, k);
    }
  }

  /** `sorted(s, key=key)`: a permutation of `s`, ordered by key, in which
      elements with equal keys keep their relative order (stability). */
  function SortBy<T>(s: seq<T>, key: T -> Key): (r: seq<T>)
    ensures multiset(r) == multiset(s)
    ensures Sorted(r, key)
    ensures forall k :: WithKey(r, key, k) == WithKey(s, key, k)
  {
    if |s| == 0 then []
    else
      var rest := SortBy(s[1..], key);
      InsertStep(s[0], s[1..], rest, key);
      assert s == [s[0]] + s[1..];
      Insert(s[0], rest, key)
  }

  /** Two lists ordered by a key that tells elements apart and holding the
      same elements start with the same element: both start with the least. */
  lemma SortedHeads<T>(a: seq<T>, b: seq<T>, key: T -> Key)
    requires Sorted(a, key) && Sorted(b, key)
    requires multiset(a) == multiset(b) && |a| > 0
    requires forall x, y :: key(x) == key(y) ==> x == y
    ensures |b| > 0 && a[0] == b[0]
  {
    assert a[0] in multiset(b);
    var j :| 0 <= j < |b| && b[j] == a[0];
    assert b[0] in multiset(a);
    var i :| 0 <= i < |a| && a[i] == b[0];
    if a[0] != b[0] {
      assert KeyLe(key(b[0]), key(a[0])) by { assert j > 0; }
      assert KeyLe(key(a[0]), key(b[0])) by { assert i > 0; }
      KeyLessTotal(key(a[0]), key(b[0]));
      assert false;
    }
  }

  lemma MultisetTails<T>(a: seq<T>, b: seq<T>)
    requires |a| > 0 && |b| > 0 && a[0] == b[0]
    requires multiset(a) == multiset(b)
    ensures multiset(a[1..]) == multiset(b[1..])
  {
    assert a == [a[0]] + a[1..] && b == [b[0]] + b[1..];
    assert multiset(a[1..]) == multiset(a) - multiset{a[0]};
    assert multiset(b[1..]) == multiset(b) - multiset{b[0]};
  }

  /** Two lists ordered by a key that tells elements apart and holding the
      same elements are equal. */
  lemma {:induction false} SortedUnique<T>(a: seq<T>, b: seq<T>, key: T -> Key)
    requires Sorted(a, key) && Sorted(b, key)
    requires multiset(a) == multiset(b)
    requires forall x, y :: key(x) == key(y) ==> x == y
    ensures a == b
    decreases |a|
  {
    assert |a| == |multiset(a)| == |multiset(b)| == |b|;
    if |a| > 0 {
      SortedHeads(a, b, key);
      MultisetTails(a, b);
      SortedTail(a, key);
      SortedTail(b, key);
      SortedUnique(a[1..], b[1..], key);
      assert a == [a[0]] + a[1..] && b == [b[0]] + b[1..];
    }
  }

  /** A string as a one-component sort key. */
  function StrKey(s: string): Key
  {
    [Str(s)]
  }

  /** `sorted(ns)` on strings: a permutation of `ns` in code-point order. */
  function SortStrings(ns: seq<string>): (r: seq<string>)
    ensures multiset(r) == multiset(ns)
    ensures forall i, j :: 0 <= i < j < |r| ==> !StrLess(r[j], r[i])
  {
    var r := SortBy(ns, StrKey);
    forall i, j | 0 <= i < j < |r| ensures !StrLess(r[j], r[i]) {
      KeyLessUnfold(StrKey(r[j]), StrKey(r[i]));
      assert StrKey(r[j])[1..] == [];
    }
    r
  }

  /** Sorting forgets the input order: any two orderings of the same
      strings sort to the same list. */
  lemma SortStringsPermutation(a: seq<string>, b: seq<string>)
    requires multiset(a) == multiset(b)
    ensures SortStrings(a) == SortStrings(b)
  {
    assert forall x, y :: StrKey(x) == StrKey(y) ==> x == y by {
      forall x, y | StrKey(x) == StrKey(y) ensures x == y {
        assert StrKey(x)[0] == StrKey(y)[0];
      }
    }
    SortedUnique(SortBy(a, StrKey), SortBy(b, StrKey), StrKey);
  }
}
