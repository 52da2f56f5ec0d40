/**
 * Go's string order, and the two library routines `main` relies on:
 * `sort.SearchStrings`, a binary search, and sorting by a string key.
 * Go compares strings byte by byte; for UTF-8 text that is the order of
 * code points, which is the order of Dafny's characters.
 */
module Order {

  /** Go's `a < b` on strings: lexicographic, a proper prefix first. */
  predicate StrLess(a: string, b: string)
    decreases |a|
  {
    if a == [] then b != []
    else if b == [] then false
    else if a[0] != b[0] then a[0] < b[0]
    else StrLess(a[1..], b[1..])
  }

  /** Go's `a <= b` on strings. */
  predicate StrLe(a: string, b: string) {
    !StrLess(b, a)
  }

  lemma {:induction false} StrLessIrreflexive(a: string)
    ensures !StrLess(a, a)
    decreases |a|
  {
    if a != [] {
      StrLessIrreflexive(a[1..]);
    }
  }

  lemma {:induction false} StrLessTransitive(a: string, b: string, c: string)
    requires StrLess(a, b) && StrLess(b, c)
    ensures StrLess(a, c)
    decreases |a|
  {
    if a != [] && b != [] && c != [] && a[0] == b[0] == c[0] {
      StrLessTransitive(a[1..], b[1..], c[1..]);
    }
  }

  /** Two different strings are ordered one way or the other, never both. */
  lemma {:induction false} StrLessTrichotomy(a: string, b: string)
    ensures a == b || StrLess(a, b) || StrLess(b, a)
    ensures !(StrLess(a, b) && StrLess(b, a))
    decreases |a|
  {
    if a != [] && b != [] && a[0] == b[0] {
      StrLessTrichotomy(a[1..], b[1..]);
      if a[1..] == b[1..] {
        assert a == [a[0]] + a[1..] && b == [b[0]] + b[1..];
      }
    }
  }

  /** `StrLe` is a total order. */
  lemma StrLeTotalOrder(a: string, b: string, c: string)
    ensures StrLe(a, a)
    ensures StrLe(a, b) || StrLe(b, a)
    ensures StrLe(a, b) && StrLe(b, a) ==> a == b
    ensures StrLe(a, b) && StrLe(b, c) ==> StrLe(a, c)
    ensures StrLe(a, b) && StrLess(b, c) ==> StrLess(a, c)
  {
    StrLessIrreflexive(a);
    StrLessTrichotomy(a, b);
    StrLessTrichotomy(b, c);
    StrLessTrichotomy(a, c);
    if StrLess(c, a) && StrLess(a, b) {
      StrLessTransitive(c, a, b);
    }
    if StrLess(c, a) && StrLess(b, c) {
      StrLessTransitive(b, c, a);
    }
    if StrLess(a, b) && StrLess(b, c) {
      StrLessTransitive(a, b, c);
    }
  }

  /** `s` is in ascending order of `key`. */
  ghost predicate SortedBy<T>(s: seq<T>, key: T -> string) {
    forall i, j | 0 <= i < j < |s| :: StrLe(key(s[i]), key(s[j]))
  }

  function Id(s: string): string { s }

  ghost predicate Sorted(s: seq<string>) {
    SortedBy(s, Id)
  }

  /** The keys of `s`, in order. */
  function KeysOf<T>(s: seq<T>, key: T -> string): (r: seq<string>)
    ensures |r| == |s|
  {
    if s == [] then [] else [key(s[0])] + KeysOf(s[1..], key)
  }

  lemma {:induction false} KeysOfAppend<T>(a: seq<T>, b: seq<T>, key: T -> string)
    ensures KeysOf(a + b, key) == KeysOf(a, key) + KeysOf(b, key)
  {
    if a != [] {
      assert (a + b)[1..] == a[1..] + b;
      KeysOfAppend(a[1..], b, key);
    } else {
      assert a + b == b;
    }
  }

  lemma {:induction false} KeysOfIds(s: seq<string>)
    ensures KeysOf(s, Id) == s
  {
    if s != [] {
      KeysOfIds(s[1..]);
    }
  }

  /** Inserts `x` before the first element whose key is not below its own. */
  function InsertBy<T>(x: T, s: seq<T>, key: T -> string): seq<T> {
    if s == [] then [x]
    else if StrLe(key(x), key(s[0])) then [x] + s
    else [s[0]] + InsertBy(x, s[1..], key)
  }

  lemma {:induction false} InsertByPermutes<T>(x: T, s: seq<T>, key: T -> string)
    ensures multiset(InsertBy(x, s, key)) == multiset{x} + multiset(s)
  {
    if s != [] && !StrLe(key(x), key(s[0])) {
      InsertByPermutes(x, s[1..], key);
      assert s == [s[0]] + s[1..];
    }
  }

  lemma {:induction false} InsertByPermutesKeys<T>(x: T, s: seq<T>, key: T -> string)
    ensures multiset(KeysOf(InsertBy(x, s, key), key)) == multiset{key(x)} + multiset(KeysOf(s, key))
  {
    if s == [] {
    } else if StrLe(key(x), key(s[0])) {
      assert ([x] + s)[1..] == s;
    } else {
      var tail := InsertBy(x, s[1..], key);
      InsertByPermutesKeys(x, s[1..], key);
      assert ([s[0]] + tail)[1..] == tail;
    }
  }

  /** No key in `s` is below `lo`. */
  ghost predicate LowerBound<T>(lo: string, s: seq<T>, key: T -> string) {
    forall i | 0 <= i < |s| :: StrLe(lo, key(s[i]))
  }

  lemma {:induction false} InsertByBound<T>(lo: string, x: T, s: seq<T>, key: T -> string)
    requires LowerBound(lo, s, key) && StrLe(lo, key(x))
    ensures LowerBound(lo, InsertBy(x, s, key), key)
  {
    if s != [] && !StrLe(key(x), key(s[0])) {
      InsertByBound(lo, x, s[1..], key);
      var r := InsertBy(x, s, key);
      forall i | 0 <= i < |r| ensures StrLe(lo, key(r[i])) {
        if i > 0 {
          assert r[i] == InsertBy(x, s[1..], key)[i - 1];
        }
      }
    }
  }

  lemma SortedCons<T>(a: T, t: seq<T>, key: T -> string)
    requires SortedBy(t, key) && LowerBound(key(a), t, key)
    ensures SortedBy([a] + t, key)
  {
    var r := [a] + t;
    forall i, j | 0 <= i < j < |r| ensures StrLe(key(r[i]), key(r[j])) {
      assert r[j] == t[j - 1];
      if i > 0 {
        assert r[i] == t[i - 1];
      }
    }
  }

  lemma {:induction false} InsertBySorted<T>(x: T, s: seq<T>, key: T -> string)
    requires SortedBy(s, key)
    ensures SortedBy(InsertBy(x, s, key), key)
  {
    if s == [] {
    } else if StrLe(key(x), key(s[0])) {
      forall i | 0 <= i < |s| ensures StrLe(key(x), key(s[i])) {
        StrLeTotalOrder(key(x), key(s[0]), key(s[i]));
      }
      SortedCons(x, s, key);
    } else {
      var tail := InsertBy(x, s[1..], key);
      assert SortedBy(s[1..], key) by {
        forall i, j | 0 <= i < j < |s[1..]| ensures StrLe(key(s[1..][i]), key(s[1..][j])) {
          assert s[1..][i] == s[i + 1] && s[1..][j] == s[j + 1];
        }
      }
      InsertBySorted(x, s[1..], key);
      StrLeTotalOrder(key(x), key(s[0]), key(s[0]));
      assert LowerBound(key(s[0]), s[1..], key) by {
        forall i | 0 <= i < |s[1..]| ensures StrLe(key(s[0]), key(s[1..][i])) {
          assert s[1..][i] == s[i + 1];
        }
      }
      InsertByBound(key(s[0]), x, s[1..], key);
      SortedCons(s[0], tail, key);
    }
  }

  /** Sorting by a key: the order `sort.Strings` and `sort.Slice` establish. */
  function SortBy<T>(s: seq<T>, key: T -> string): seq<T> {
    if s == [] then [] else InsertBy(s[0], SortBy(s[1..], key), key)
  }

  /** The sort is ascending and rearranges the elements (and so the keys) without loss. */
  lemma SortBySorts<T>(s: seq<T>, key: T -> string)
    ensures SortedBy(SortBy(s, key), key)
    ensures multiset(SortBy(s, key)) == multiset(s)
    ensures multiset(KeysOf(SortBy(s, key), key)) == multiset(KeysOf(s, key))
  {
    SortBySorted(s, key);
    SortByPermutes(s, key);
    SortByPermutesKeys(s, key);
  }

  lemma {:induction false} SortBySorted<T>(s: seq<T>, key: T -> string)
    ensures SortedBy(SortBy(s, key), key)
  {
    if s != [] {
      SortBySorted(s[1..], key);
      InsertBySorted(s[0], SortBy(s[1..], key), key);
    }
  }

  lemma {:induction false} SortByPermutes<T>(s: seq<T>, key: T -> string)
    ensures multiset(SortBy(s, key)) == multiset(s)
  {
    if s != [] {
      var tail := SortBy(s[1..], key);
      SortByPermutes(s[1..], key);
      InsertByPermutes(s[0], tail, key);
      assert SortBy(s, key) == InsertBy(s[0], tail, key);
      assert s == [s[0]] + s[1..];
      assert multiset(s) == multiset{s[0]} + multiset(s[1..]);
    }
  }

  lemma {:induction false} SortByPermutesKeys<T>(s: seq<T>, key: T -> string)
    ensures multiset(KeysOf(SortBy(s, key), key)) == multiset(KeysOf(s, key))
  {
    if s != [] {
      var tail := SortBy(s[1..], key);
      SortByPermutesKeys(s[1..], key);
      InsertByPermutesKeys(s[0], tail, key);
      assert SortBy(s, key) == InsertBy(s[0], tail, key);
      assert KeysOf(s, key) == [key(s[0])] + KeysOf(s[1..], key);
    }
  }

  /**
   * `sort.SearchStrings`: the binary search of `sort.Search` for the
   * first position whose element is not below `x`.  Whatever `a` is, the
   * position it returns has every element before it below `x` as far as
   * the last probe is concerned; `SearchFinds` turns that into the full
   * answer for a sorted `a`.
   */
  method SearchStrings(a: seq<string>, x: string) returns (pos: nat)
    ensures pos <= |a|
    ensures pos > 0 ==> StrLess(a[pos - 1], x)
    ensures pos < |a| ==> !StrLess(a[pos], x)
  {
    var i, j := 0, |a|;
    while i < j
      invariant 0 <= i <= j <= |a|
      invariant i > 0 ==> StrLess(a[i - 1], x)
      invariant j < |a| ==> !StrLess(a[j], x)
      decreases j - i
    {
      var h := (i + j) / 2;
      if StrLess(a[h], x) {
        i := h + 1;
      } else {
        j := h;
      }
    }
    pos := i;
  }

  /**
   * In a sorted sequence the search lands on `x` exactly when `x` occurs,
   * and then on its first occurrence.
   */
  lemma SearchFinds(a: seq<string>, x: string, pos: nat)
    requires Sorted(a) && pos <= |a|
    requires pos > 0 ==> StrLess(a[pos - 1], x)
    requires pos < |a| ==> !StrLess(a[pos], x)
    ensures x in a <==> pos < |a| && a[pos] == x
    ensures forall k | 0 <= k < pos :: a[k] != x
  {
    forall k | 0 <= k < pos ensures StrLess(a[k], x) {
      StrLeTotalOrder(a[k], a[pos - 1], x);
    }
    forall k | 0 <= k < pos ensures a[k] != x {
      StrLessIrreflexive(x);
    }
    if x in a && !(pos < |a| && a[pos] == x) {
      var k :| 0 <= k < |a| && a[k] == x;
      if k >= pos {
        StrLeTotalOrder(a[pos], a[k], x);
        StrLeTotalOrder(x, a[pos], a[pos]);
      }
    }
  }

  /** Removes the first occurrence of `x`. */
  function RemoveFirst(s: seq<string>, x: string): seq<string> {
    if s == [] then []
    else if s[0] == x then s[1..]
    else [s[0]] + RemoveFirst(s[1..], x)
  }

  lemma {:induction false} RemoveFirstCount(s: seq<string>, x: string)
    ensures x in s ==> multiset(RemoveFirst(s, x)) + multiset{x} == multiset(s)
    ensures x !in s ==> RemoveFirst(s, x) == s
  {
    if s != [] {
      RemoveFirstCount(s[1..], x);
      assert s == [s[0]] + s[1..];
    }
  }

  /** Cutting out the first occurrence at `pos` is `RemoveFirst`. */
  lemma {:induction false} CutIsRemoveFirst(s: seq<string>, x: string, pos: nat)
    requires pos < |s| && s[pos] == x && forall k | 0 <= k < pos :: s[k] != x
    ensures s[..pos] + s[pos + 1..] == RemoveFirst(s, x)
  {
    if pos > 0 {
      CutIsRemoveFirst(s[1..], x, pos - 1);
      assert s[1..][..pos - 1] + s[1..][pos..] == s[1..pos] + s[pos + 1..];
      assert s[..pos] + s[pos + 1..] == [s[0]] + (s[1..pos] + s[pos + 1..]);
    }
  }

  /** Cutting an element out of a sorted sequence leaves it sorted. */
  lemma CutSorted(s: seq<string>, pos: nat)
    requires pos < |s| && Sorted(s)
    ensures Sorted(s[..pos] + s[pos + 1..])
  {
    var r := s[..pos] + s[pos + 1..];
    forall i, j | 0 <= i < j < |r| ensures StrLe(Id(r[i]), Id(r[j])) {
      var i', j' := if i < pos then i else i + 1, if j < pos then j else j + 1;
      assert r[i] == s[i'] && r[j] == s[j'];
    }
  }
}
