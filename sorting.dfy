/**
 * Python's `list.sort(key=...)`: a stable sort by a numeric key.  It is specified by
 * insertion sort, and proved sorted, a permutation, and stable (for every key value the
 * elements carrying it keep their relative order).
 */
module Sorting {

  predicate SortedBy<T>(s: seq<T>, key: T -> real) {
    forall i, j :: 0 <= i < j < |s| ==> key(s[i]) <= key(s[j])
  }

  /** Inserts `x` after every element whose key is at most `key(x)`. */
  function Insert<T>(s: seq<T>, x: T, key: T -> real): seq<T>
    decreases |s|
  {
    if s == [] then [x]
    else if key(x) < key(s[0]) then [x] + s
    else [s[0]] + Insert(s[1..], x, key)
  }

  /** The result of `sorted(s, key=key)`. */
  function SortBy<T>(s: seq<T>, key: T -> real): seq<T>
    decreases |s|
  {
    if s == [] then []
    else Insert(SortBy(s[..|s| - 1], key), s[|s| - 1], key)
  }

  /** The elements of `s` whose key equals `k`, in their order in `s`. */
  function WithKey<T>(s: seq<T>, key: T -> real, k: real): seq<T>
    decreases |s|
  {
    if s == [] then []
    else (if key(s[0]) == k then [s[0]] else []) + WithKey(s[1..], key, k)
  }

  lemma {:induction false} WithKeyAppend<T>(a: seq<T>, b: seq<T>, key: T -> real, k: real)
    ensures WithKey(a + b, key, k) == WithKey(a, key, k) + WithKey(b, key, k)
    decreases |a|
  {
    if a == [] {
      assert a + b == b;
    } else {
      var head := if key(a[0]) == k then [a[0]] else [];
      assert (a + b)[0] == a[0];
      assert (a + b)[1..] == a[1..] + b;
      assert WithKey(a + b, key, k) == head + WithKey(a[1..] + b, key, k);
      WithKeyAppend(a[1..], b, key, k);
      assert WithKey(a, key, k) == head + WithKey(a[1..], key, k);
    }
  }

  lemma {:induction false} WithKeyAbsent<T>(s: seq<T>, key: T -> real, k: real)
    requires forall i :: 0 <= i < |s| ==> key(s[i]) != k
    ensures WithKey(s, key, k) == []
    decreases |s|
  {
    if s != [] {
      WithKeyAbsent(s[1..], key, k);
    }
  }

  /** Insertion adds exactly `x`. */
  lemma {:induction false} InsertPermutes<T>(s: seq<T>, x: T, key: T -> real)
    ensures multiset(Insert(s, x, key)) == multiset(s) + multiset{x}
    decreases |s|
  {
    if s != [] && key(s[0]) <= key(x) {
      InsertPermutes(s[1..], x, key);
      assert s == [s[0]] + s[1..];
    }
  }

  /** A lower bound of `s` and of `x` is a lower bound of the insertion. */
  lemma {:induction false} InsertLowerBound<T>(s: seq<T>, x: T, key: T -> real, c: real)
    requires forall i :: 0 <= i < |s| ==> c <= key(s[i])
    requires c <= key(x)
    ensures forall i :: 0 <= i < |Insert(s, x, key)| ==> c <= key(Insert(s, x, key)[i])
    decreases |s|
  {
    if s != [] && key(s[0]) <= key(x) {
      InsertLowerBound(s[1..], x, key, c);
    }
  }

  /** Inserting into a sorted sequence keeps it sorted. */
  lemma {:induction false} InsertSorted<T>(s: seq<T>, x: T, key: T -> real)
    requires SortedBy(s, key)
    ensures SortedBy(Insert(s, x, key), key)
    decreases |s|
  {
    if s != [] && key(s[0]) <= key(x) {
      var t := s[1..];
      InsertSorted(t, x, key);
      InsertLowerBound(t, x, key, key(s[0]));
      var rt := Insert(t, x, key);
      var r := Insert(s, x, key);
      assert r == [s[0]] + rt;
      forall i, j | 0 <= i < j < |r| ensures key(r[i]) <= key(r[j]) {
        assert r[j] == rt[j - 1];
        if i > 0 {
          assert r[i] == rt[i - 1];
        }
      }
    }
  }

  /** In a sorted sequence, `x` is inserted after every element with its key. */
  lemma {:induction false} InsertStable<T>(s: seq<T>, x: T, key: T -> real, k: real)
    requires SortedBy(s, key)
    ensures WithKey(Insert(s, x, key), key, k) == WithKey(s, key, k) + (if key(x) == k then [x] else [])
    decreases |s|
  {
    var r := Insert(s, x, key);
    if s == [] {
    } else if key(x) < key(s[0]) {
      assert r[0] == x && r[1..] == s;
      if key(x) == k {
        WithKeyAbsent(s, key, k);
      }
    } else {
      assert SortedBy(s[1..], key);
      InsertStable(s[1..], x, key, k);
      var head := if key(s[0]) == k then [s[0]] else [];
      assert r[0] == s[0] && r[1..] == Insert(s[1..], x, key);
      assert WithKey(r, key, k) == head + WithKey(Insert(s[1..], x, key), key, k);
      assert WithKey(s, key, k) == head + WithKey(s[1..], key, k);
    }
  }

  /** `SortBy` sorts, permutes, and is stable. */
  lemma {:induction false} SortByCorrect<T>(s: seq<T>, key: T -> real)
    ensures SortedBy(SortBy(s, key), key)
    ensures multiset(SortBy(s, key)) == multiset(s)
    ensures |SortBy(s, key)| == |s|
    ensures forall k :: WithKey(SortBy(s, key), key, k) == WithKey(s, key, k)
    decreases |s|
  {
    if s != [] {
      var p := s[..|s| - 1];
      var x := s[|s| - 1];
      SortByCorrect(p, key);
      InsertPermutes(SortBy(p, key), x, key);
      InsertSorted(SortBy(p, key), x, key);
      assert s == p + [x];
      forall k ensures WithKey(SortBy(s, key), key, k) == WithKey(s, key, k) {
        InsertStable(SortBy(p, key), x, key, k);
        WithKeyAppend(p, [x], key, k);
      }
      assert |multiset(SortBy(s, key))| == |multiset(s)|;
    }
  }
}
