// Lexicographic order of strings (over bytes in Go, over code points in Python) and
// stable sorting by a string key. The library sorts are represented by their contract,
// IsStableSort; SortStably meets it and nothing else does.
module Sorting {
  import opened Basics

  predicate Leq(a: seq<int>, b: seq<int>) {
    a == [] || (b != [] && (a[0] < b[0] || (a[0] == b[0] && Leq(a[1..], b[1..]))))
  }

  lemma {:induction false} LeqTotal(a: seq<int>, b: seq<int>)
    ensures Leq(a, b) || Leq(b, a)
  {
    if a == [] || b == [] {
    } else {
      LeqTotal(a[1..], b[1..]);
    }
  }

  lemma {:induction false} LeqAntisymmetric(a: seq<int>, b: seq<int>)
    requires Leq(a, b) && Leq(b, a)
    ensures a == b
  {
    if a == [] || b == [] {
    } else {
      LeqAntisymmetric(a[1..], b[1..]);
      assert a == [a[0]] + a[1..];
    }
  }

  lemma {:induction false} LeqTransitive(a: seq<int>, b: seq<int>, c: seq<int>)
    requires Leq(a, b) && Leq(b, c)
    ensures Leq(a, c)
  {
    if a == [] || a[0] != b[0] || b[0] != c[0] {
    } else {
      LeqTransitive(a[1..], b[1..], c[1..]);
    }
  }

  /** Leq holds when a is a prefix of b, or a is the smaller where they first differ. */
  lemma {:induction false} LeqIsLexicographic(a: seq<int>, b: seq<int>)
    ensures Leq(a, b) <==> a <= b || exists i :: 0 <= i < |a| && i < |b| && a[..i] == b[..i] && a[i] < b[i]
  {
    if a == [] || b == [] {
    } else {
      LeqIsLexicographic(a[1..], b[1..]);
      if a[0] < b[0] {
        assert a[..0] == b[..0];
      } else if a[0] == b[0] {
        assert a == [a[0]] + a[1..] && b == [b[0]] + b[1..];
        if i :| 0 <= i < |a| - 1 && i < |b| - 1 && a[1..][..i] == b[1..][..i] && a[1..][i] < b[1..][i] {
          assert a[..i + 1] == [a[0]] + a[1..][..i] && b[..i + 1] == [b[0]] + b[1..][..i];
          assert a[i + 1] < b[i + 1];
        }
        if i :| 0 <= i < |a| && i < |b| && a[..i] == b[..i] && a[i] < b[i] {
          assert a[1..][..i - 1] == a[..i][1..] && b[1..][..i - 1] == b[..i][1..];
          assert a[1..][i - 1] < b[1..][i - 1];
        }
      } else {
        assert forall i :: 0 < i <= |a| && i <= |b| ==> a[..i][0] != b[..i][0];
      }
    }
  }

  ghost predicate Sorted(keys: seq<seq<int>>) {
    forall i, j :: 0 <= i < j < |keys| ==> Leq(keys[i], keys[j])
  }

  /** The elements of s whose key is k, in order. */
  ghost function WithKey<T>(s: seq<T>, key: T -> seq<int>, k: seq<int>): seq<T> {
    if s == [] then []
    else (if key(s[0]) == k then [s[0]] else []) + WithKey(s[1..], key, k)
  }

  /** r holds the elements of s, in key order, elements of equal key in their original order. */
  ghost predicate IsStableSort<T>(s: seq<T>, key: T -> seq<int>, r: seq<T>) {
    && Sorted(Map(key, r))
    && multiset(r) == multiset(s)
    && forall k :: WithKey(r, key, k) == WithKey(s, key, k)
  }

  /** Two ascending listings of the same strings are the same listing. */
  lemma {:induction false} SortedIsUnique(a: seq<seq<int>>, b: seq<seq<int>>)
    requires Sorted(a) && Sorted(b) && multiset(a) == multiset(b)
    ensures a == b
  {
    assert |multiset(a)| == |a| && |multiset(b)| == |b|;
    if a == [] {
    } else {
      assert a[0] in multiset(b) && |b| > 0;
      assert b[0] in multiset(a);
      LeqTotal(a[0], a[0]);
      LeqTotal(b[0], b[0]);
      LeqAntisymmetric(a[0], b[0]);
      assert a == [a[0]] + a[1..] && b == [b[0]] + b[1..];
      assert multiset(a) == multiset{a[0]} + multiset(a[1..]);
      assert multiset(b) == multiset{a[0]} + multiset(b[1..]);
      CancelElement(a[0], multiset(a[1..]), multiset(b[1..]));
      SortedIsUnique(a[1..], b[1..]);
    }
  }

  /** The contract of a stable sort determines its result. */
  lemma {:induction false} StableSortIsUnique<T>(s: seq<T>, key: T -> seq<int>, a: seq<T>, b: seq<T>)
    requires IsStableSort(s, key, a) && IsStableSort(s, key, b)
    ensures a == b
  {
    MapKeepsMultiset(key, a, b);
    SortedIsUnique(Map(key, a), Map(key, b));
    SameKeysSameGroups(key, a, b);
  }

  lemma {:induction false} SameKeysSameGroups<T>(key: T -> seq<int>, a: seq<T>, b: seq<T>)
    requires Map(key, a) == Map(key, b)
    requires forall k :: WithKey(a, key, k) == WithKey(b, key, k)
    ensures a == b
  {
    assert |a| == |Map(key, a)| == |b|;
    if a == [] {
    } else {
      var k := key(a[0]);
      assert Map(key, a)[0] == Map(key, b)[0];
      assert WithKey(a, key, k)[0] == a[0] && WithKey(b, key, k)[0] == b[0];
      assert Map(key, a[1..]) == Map(key, a)[1..] && Map(key, b[1..]) == Map(key, b)[1..];
      forall k' ensures WithKey(a[1..], key, k') == WithKey(b[1..], key, k') {
        assert WithKey(a, key, k') == WithKey(b, key, k');
        var n := if k == k' then 1 else 0;
        assert WithKey(a[1..], key, k') == WithKey(a, key, k')[n..];
        assert WithKey(b[1..], key, k') == WithKey(b, key, k')[n..];
      }
      SameKeysSameGroups(key, a[1..], b[1..]);
    }
  }

  function Insert<T>(x: T, s: seq<T>, key: T -> seq<int>): seq<T> {
    if s == [] || Leq(key(x), key(s[0])) then [x] + s else [s[0]] + Insert(x, s[1..], key)
  }

  lemma SortedCons(k: seq<int>, keys: seq<seq<int>>)
    requires Sorted(keys)
    requires forall i :: 0 <= i < |keys| ==> Leq(k, keys[i])
    ensures Sorted([k] + keys)
  {
    var r := [k] + keys;
    forall i, j | 0 <= i < j < |r| ensures Leq(r[i], r[j]) {
      assert r[j] == keys[j - 1];
      if i > 0 {
        assert r[i] == keys[i - 1];
      }
    }
  }

  lemma {:induction false} InsertKeepsElements<T>(x: T, s: seq<T>, key: T -> seq<int>)
    ensures multiset(Insert(x, s, key)) == multiset{x} + multiset(s)
  {
    if s == [] || Leq(key(x), key(s[0])) {
    } else {
      InsertKeepsElements(x, s[1..], key);
      assert s == [s[0]] + s[1..];
    }
  }

  lemma InsertKeepsBound<T>(low: seq<int>, x: T, s: seq<T>, key: T -> seq<int>)
    requires Leq(low, key(x)) && forall i :: 0 <= i < |s| ==> Leq(low, key(s[i]))
    ensures forall i :: 0 <= i < |Insert(x, s, key)| ==> Leq(low, key(Insert(x, s, key)[i]))
  {
    var r := Insert(x, s, key);
    InsertKeepsElements(x, s, key);
    forall i | 0 <= i < |r| ensures Leq(low, key(r[i])) {
      assert r[i] in multiset(r);
      assert r[i] == x || r[i] in multiset(s);
    }
  }

  lemma {:induction false} InsertKeepsOrder<T>(x: T, s: seq<T>, key: T -> seq<int>)
    requires Sorted(Map(key, s))
    ensures Sorted(Map(key, Insert(x, s, key)))
  {
    var keys := Map(key, s);
    if s == [] {
    } else if Leq(key(x), key(s[0])) {
      forall i | 0 <= i < |keys| ensures Leq(key(x), keys[i]) {
        if i > 0 {
          assert Leq(keys[0], keys[i]);
          LeqTransitive(key(x), keys[0], keys[i]);
        }
      }
      SortedCons(key(x), keys);
      assert Map(key, [x] + s) == [key(x)] + keys;
    } else {
      var tail := Insert(x, s[1..], key);
      assert Map(key, s[1..]) == keys[1..];
      InsertKeepsOrder(x, s[1..], key);
      LeqTotal(key(x), key(s[0]));
      forall i | 0 <= i < |s| - 1 ensures Leq(key(s[0]), key(s[1..][i])) {
        assert Leq(keys[0], keys[i + 1]);
      }
      InsertKeepsBound(key(s[0]), x, s[1..], key);
      SortedCons(key(s[0]), Map(key, tail));
      assert Map(key, [s[0]] + tail) == [key(s[0])] + Map(key, tail);
    }
  }

  lemma {:induction false} InsertKeepsGroups<T>(x: T, s: seq<T>, key: T -> seq<int>, k: seq<int>)
    ensures WithKey(Insert(x, s, key), key, k) == WithKey([x] + s, key, k)
  {
    if s == [] || Leq(key(x), key(s[0])) {
    } else {
      InsertKeepsGroups(x, s[1..], key, k);
      LeqTotal(key(x), key(x));
      assert ([s[0]] + Insert(x, s[1..], key))[1..] == Insert(x, s[1..], key);
      assert ([x] + s[1..])[1..] == s[1..] && ([x] + s)[1..] == s;
    }
  }

  function SortStably<T>(s: seq<T>, key: T -> seq<int>): seq<T> {
    if s == [] then s else Insert(s[0], SortStably(s[1..], key), key)
  }

  /** SortStably meets the contract of a stable sort. */
  lemma {:induction false} SortStablyIsStable<T>(s: seq<T>, key: T -> seq<int>)
    ensures IsStableSort(s, key, SortStably(s, key))
  {
    if s == [] {
    } else {
      var rest := SortStably(s[1..], key);
      SortStablyIsStable(s[1..], key);
      InsertKeepsOrder(s[0], rest, key);
      InsertKeepsElements(s[0], rest, key);
      assert s == [s[0]] + s[1..];
      forall k ensures WithKey(SortStably(s, key), key, k) == WithKey(s, key, k) {
        InsertKeepsGroups(s[0], rest, key, k);
        assert ([s[0]] + rest)[1..] == rest;
      }
    }
  }
}
