/**
 * Group-by in first-appearance order: what a Python dict of lists, filled by one pass
 * over the input that appends each element to its key's list (creating the list with
 * `if key not in d: d[key] = []`, or through a `defaultdict(list)`), holds afterwards.  Both
 * processors group reports by transponder id this way.
 */
module Grouping {

  import opened Wrappers

  /** The distinct keys of `s` in the order they first appear (the dict's key order). */
  function Keys<T, K(==)>(s: seq<T>, key: T -> K): seq<K>
    decreases |s|
  {
    if s == [] then []
    else
      var prior := Keys(s[..|s| - 1], key);
      var k := key(s[|s| - 1]);
      if k in prior then prior else prior + [k]
  }

  /** The elements of `s` whose key is `k`, in their order in `s` (the dict's list for `k`). */
  function GroupOf<T, K(==)>(s: seq<T>, key: T -> K, k: K): seq<T>
    decreases |s|
  {
    if s == [] then []
    else
      var prior := GroupOf(s[..|s| - 1], key, k);
      if key(s[|s| - 1]) == k then prior + [s[|s| - 1]] else prior
  }

  /** The groups of the keys `ks`, one after another. */
  function Regrouped<T, K(==)>(s: seq<T>, key: T -> K, ks: seq<K>): seq<T>
    decreases |ks|
  {
    if ks == [] then []
    else Regrouped(s, key, ks[..|ks| - 1]) + GroupOf(s, key, ks[|ks| - 1])
  }

  predicate Distinct<K(==)>(ks: seq<K>) {
    forall i, j :: 0 <= i < j < |ks| ==> ks[i] != ks[j]
  }

  /** Each key is listed once, and exactly the keys that occur in `s` are listed. */
  lemma {:induction false} KeysExact<T, K>(s: seq<T>, key: T -> K)
    ensures Distinct(Keys(s, key))
    ensures forall k :: k in Keys(s, key) ==> exists i :: 0 <= i < |s| && key(s[i]) == k
    ensures forall i :: 0 <= i < |s| ==> key(s[i]) in Keys(s, key)
    decreases |s|
  {
    if s != [] {
      var p := s[..|s| - 1];
      KeysExact(p, key);
      forall k | k in Keys(s, key) ensures exists i :: 0 <= i < |s| && key(s[i]) == k {
        if k in Keys(p, key) {
          var i :| 0 <= i < |p| && key(p[i]) == k;
          assert s[i] == p[i];
        } else {
          assert key(s[|s| - 1]) == k;
        }
      }
      forall i | 0 <= i < |s| ensures key(s[i]) in Keys(s, key) {
        if i < |p| {
          assert p[i] == s[i];
        }
      }
    }
  }

  /**
   * Keys are listed in the order of first appearance: every element carrying the key
   * listed at position `j` is preceded by an element carrying each earlier-listed key.
   */
  lemma {:induction false} KeysInFirstAppearanceOrder<T, K>(s: seq<T>, key: T -> K, i: nat, j: nat, q: nat)
    requires i < j < |Keys(s, key)|
    requires q < |s| && key(s[q]) == Keys(s, key)[j]
    ensures exists p :: 0 <= p < q && key(s[p]) == Keys(s, key)[i]
    decreases |s|
  {
    var p := s[..|s| - 1];
    var ks := Keys(s, key);
    KeysExact(p, key);
    KeysExact(s, key);
    if key(s[|s| - 1]) in Keys(p, key) {
      assert ks == Keys(p, key);
      if q < |p| {
        assert key(p[q]) == ks[j];
        KeysInFirstAppearanceOrder(p, key, i, j, q);
        var w :| 0 <= w < q && key(p[w]) == ks[i];
        assert s[w] == p[w];
      } else {
        assert ks[j] in Keys(p, key);
        var q' :| 0 <= q' < |p| && key(p[q']) == ks[j];
        KeysInFirstAppearanceOrder(p, key, i, j, q');
        var w :| 0 <= w < q' && key(p[w]) == ks[i];
        assert s[w] == p[w];
      }
    } else {
      assert ks == Keys(p, key) + [key(s[|s| - 1])];
      if q < |p| {
        assert 0 <= q < |p| && key(p[q]) == ks[j];
        assert ks[j] in Keys(p, key);
        KeysInFirstAppearanceOrder(p, key, i, j, q);
        var w :| 0 <= w < q && key(p[w]) == ks[i];
        assert s[w] == p[w];
      } else {
        assert ks[i] == Keys(p, key)[i];
        assert ks[i] in Keys(p, key);
        var w :| 0 <= w < |p| && key(p[w]) == ks[i];
        assert s[w] == p[w];
      }
    }
  }

  /** A group holds exactly the elements of `s` with its key, and is empty for an absent key. */
  lemma {:induction false} GroupOfExact<T, K>(s: seq<T>, key: T -> K, k: K)
    ensures forall x :: x in GroupOf(s, key, k) <==> x in s && key(x) == k
    ensures |GroupOf(s, key, k)| <= |s|
    ensures GroupOf(s, key, k) == [] <==> k !in Keys(s, key)
    decreases |s|
  {
    KeysExact(s, key);
    if s != [] {
      var p := s[..|s| - 1];
      GroupOfExact(p, key, k);
      KeysExact(p, key);
      assert s == p + [s[|s| - 1]];
      if k in Keys(s, key) {
        var i :| 0 <= i < |s| && key(s[i]) == k;
        assert s[i] in GroupOf(s, key, k) by {
          if i < |p| {
            assert p[i] == s[i];
          }
        }
      }
    }
  }

  /** Grouping keeps relative order: the group of a concatenation is the concatenation of groups. */
  lemma {:induction false} GroupOfAppend<T, K>(a: seq<T>, b: seq<T>, key: T -> K, k: K)
    ensures GroupOf(a + b, key, k) == GroupOf(a, key, k) + GroupOf(b, key, k)
    decreases |b|
  {
    if b == [] {
      assert a + b == a;
    } else {
      var b' := b[..|b| - 1];
      GroupOfAppend(a, b', key, k);
      assert (a + b)[..|a + b| - 1] == a + b';
    }
  }

  /**
   * One step of filling the dict: if `order` and `d` are the key order and the lists for
   * `s`, then after `d[key(x)].append(x)` on a `defaultdict(list)` they are those for `s + [x]`.
   */
  lemma DictAppendStep<T, K>(s: seq<T>, x: T, key: T -> K, order: seq<K>, d: map<K, seq<T>>,
                            order': seq<K>, d': map<K, seq<T>>)
    requires order == Keys(s, key)
    requires forall k :: k in d <==> k in order
    requires forall k :: k in d ==> d[k] == GroupOf(s, key, k)
    requires order' == if key(x) in d then order else order + [key(x)]
    requires d' == d[key(x) := (if key(x) in d then d[key(x)] else []) + [x]]
    ensures order' == Keys(s + [x], key)
    ensures forall k :: k in d' <==> k in order'
    ensures forall k :: k in d' ==> d'[k] == GroupOf(s + [x], key, k)
  {
    assert (s + [x])[..|s|] == s;
    if key(x) !in d {
      GroupOfExact(s, key, key(x));
    }
  }

  /** Appending one element to `s` adds it to the concatenated groups of any distinct keys that include its key. */
  lemma {:induction false} RegroupedSnoc<T, K>(s: seq<T>, x: T, key: T -> K, ks: seq<K>)
    requires Distinct(ks)
    ensures multiset(Regrouped(s + [x], key, ks))
         == multiset(Regrouped(s, key, ks)) + (if key(x) in ks then multiset{x} else multiset{})
    decreases |ks|
  {
    if ks != [] {
      var init := ks[..|ks| - 1];
      var last := ks[|ks| - 1];
      assert Distinct(init);
      RegroupedSnoc(s, x, key, init);
      assert (s + [x])[..|s + [x]| - 1] == s;
      assert GroupOf(s + [x], key, last) == GroupOf(s, key, last) + (if key(x) == last then [x] else []);
      assert key(x) in ks <==> key(x) in init || key(x) == last;
      assert last !in init;
    }
  }

  /** The groups partition the input: together they hold every element exactly once. */
  lemma {:induction false} GroupsPartition<T, K>(s: seq<T>, key: T -> K)
    ensures multiset(Regrouped(s, key, Keys(s, key))) == multiset(s)
    decreases |s|
  {
    if s != [] {
      var p := s[..|s| - 1];
      var x := s[|s| - 1];
      assert s == p + [x];
      GroupsPartition(p, key);
      var ks := Keys(p, key);
      assert s[..|s| - 1] == p;
      assert Distinct(ks) by {
        KeysExact(p, key);
      }
      RegroupedSnoc(p, x, key, ks);
      if key(x) in ks {
        assert Keys(s, key) == ks;
      } else {
        var k := key(x);
        assert Keys(s, key) == ks + [k];
        assert GroupOf(p, key, k) == [] by {
          GroupOfExact(p, key, k);
        }
        assert (ks + [k])[..|ks|] == ks;
        assert Regrouped(s, key, ks + [k]) == Regrouped(s, key, ks) + GroupOf(s, key, k);
      }
    }
  }

  /**
   * `f` applied to the group of each key of `ks`, in the order of `ks`, keeping only the
   * present results: a loop over a dict's items appending `f(group)` when it is truthy.
   */
  function PerGroup<T, K(==), R>(s: seq<T>, key: T -> K, ks: seq<K>, f: seq<T> -> Option<R>): seq<R>
    decreases |ks|
  {
    if ks == [] then []
    else
      var prior := PerGroup(s, key, ks[..|ks| - 1], f);
      match f(GroupOf(s, key, ks[|ks| - 1]))
      case None => prior
      case Some(x) => prior + [x]
  }

  /** `f` applied to a group yields a result that names the group's key. */
  ghost predicate NamesItsGroup<T, K(!new), R>(s: seq<T>, key: T -> K, f: seq<T> -> Option<R>, idOf: R -> K) {
    forall k :: f(GroupOf(s, key, k)).Some? ==> idOf(f(GroupOf(s, key, k)).value) == k
  }

  /** Each result belongs to one of `ks` and is what `f` gives for the group of its key. */
  lemma {:induction false} PerGroupSound<T, K(!new), R>(s: seq<T>, key: T -> K, ks: seq<K>, f: seq<T> -> Option<R>,
                                                   idOf: R -> K, r: seq<R>)
    requires NamesItsGroup(s, key, f, idOf)
    requires r == PerGroup(s, key, ks, f)
    ensures forall i :: 0 <= i < |r| ==> idOf(r[i]) in ks && f(GroupOf(s, key, idOf(r[i]))) == Some(r[i])
    decreases |ks|
  {
    if ks != [] {
      var p := ks[..|ks| - 1];
      var prior := PerGroup(s, key, p, f);
      PerGroupSound(s, key, p, f, idOf, prior);
      assert forall k :: k in p ==> k in ks;
    }
  }

  /** Every key of `ks` whose group `f` accepts has a result. */
  lemma {:induction false} PerGroupComplete<T, K(!new), R>(s: seq<T>, key: T -> K, ks: seq<K>, f: seq<T> -> Option<R>,
                                                      idOf: R -> K, r: seq<R>)
    requires NamesItsGroup(s, key, f, idOf)
    requires r == PerGroup(s, key, ks, f)
    ensures forall m :: 0 <= m < |ks| && f(GroupOf(s, key, ks[m])).Some? ==>
              exists i :: 0 <= i < |r| && idOf(r[i]) == ks[m]
    decreases |ks|
  {
    if ks != [] {
      var p := ks[..|ks| - 1];
      var prior := PerGroup(s, key, p, f);
      PerGroupComplete(s, key, p, f, idOf, prior);
      assert forall i :: 0 <= i < |prior| ==> r[i] == prior[i];
      forall m | 0 <= m < |ks| && f(GroupOf(s, key, ks[m])).Some?
        ensures exists i :: 0 <= i < |r| && idOf(r[i]) == ks[m]
      {
        if m == |ks| - 1 {
          assert r[|r| - 1] == f(GroupOf(s, key, ks[m])).value;
        } else {
          assert ks[m] == p[m];
          var i :| 0 <= i < |prior| && idOf(prior[i]) == p[m];
          assert idOf(r[i]) == ks[m];
        }
      }
    }
  }

  /** Key `a` sits at an earlier position of `ks` than key `b`. */
  predicate Precedes<K(==)>(ks: seq<K>, a: K, b: K) {
    exists m1, m2 :: 0 <= m1 < m2 < |ks| && ks[m1] == a && ks[m2] == b
  }

  /** Results follow the order of `ks`, so for distinct keys no key has two results. */
  lemma {:induction false} PerGroupOrdered<T, K(!new), R>(s: seq<T>, key: T -> K, ks: seq<K>, f: seq<T> -> Option<R>,
                                                     idOf: R -> K, r: seq<R>)
    requires NamesItsGroup(s, key, f, idOf)
    requires r == PerGroup(s, key, ks, f)
    ensures forall i, j :: 0 <= i < j < |r| ==> Precedes(ks, idOf(r[i]), idOf(r[j]))
    decreases |ks|
  {
    if ks != [] {
      var p := ks[..|ks| - 1];
      var prior := PerGroup(s, key, p, f);
      PerGroupOrdered(s, key, p, f, idOf, prior);
      PerGroupSound(s, key, p, f, idOf, prior);
      assert forall i :: 0 <= i < |prior| ==> r[i] == prior[i];
      forall i, j | 0 <= i < j < |r|
        ensures Precedes(ks, idOf(r[i]), idOf(r[j]))
      {
        if j < |prior| {
          var m1, m2 :| 0 <= m1 < m2 < |p| && p[m1] == idOf(prior[i]) && p[m2] == idOf(prior[j]);
          assert ks[m1] == idOf(r[i]) && ks[m2] == idOf(r[j]);
        } else {
          assert r[j] == f(GroupOf(s, key, ks[|ks| - 1])).value;
          assert idOf(prior[i]) in p;
          var m1 :| 0 <= m1 < |p| && p[m1] == idOf(prior[i]);
          assert ks[m1] == idOf(r[i]) && ks[|ks| - 1] == idOf(r[j]);
        }
      }
    }
  }

  /** Over distinct keys, results carry distinct keys. */
  lemma PerGroupOnePerKey<T, K(!new), R>(s: seq<T>, key: T -> K, ks: seq<K>, f: seq<T> -> Option<R>,
                                   idOf: R -> K, r: seq<R>)
    requires NamesItsGroup(s, key, f, idOf)
    requires r == PerGroup(s, key, ks, f)
    requires Distinct(ks)
    ensures forall i, j :: 0 <= i < j < |r| ==> idOf(r[i]) != idOf(r[j])
  {
    PerGroupOrdered(s, key, ks, f, idOf, r);
    forall i, j | 0 <= i < j < |r| ensures idOf(r[i]) != idOf(r[j]) {
      var m1, m2 :| 0 <= m1 < m2 < |ks| && ks[m1] == idOf(r[i]) && ks[m2] == idOf(r[j]);
    }
  }
}
