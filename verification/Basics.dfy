// Small vocabulary shared by every component: optional values, integer sums over
// sequences, and the elementwise image of a sequence.
module Basics {

  datatype Option<+T> = None | Some(value: T)

  function Min(a: int, b: int): int {
    if a <= b then a else b
  }

  /** The total of f over the elements of s. */
  ghost function Sum<T>(s: seq<T>, f: T -> int): int {
    if s == [] then 0 else f(s[0]) + Sum(s[1..], f)
  }

  // The summand of a plain total.
  ghost function Itself(): nat -> int {
    (n: nat) => n
  }

  lemma {:induction false} SumUpdate<T>(s: seq<T>, i: nat, x: T, f: T -> int)
    requires i < |s|
    ensures Sum(s[i := x], f) == Sum(s, f) - f(s[i]) + f(x)
  {
    if i == 0 {
      assert s[0 := x][1..] == s[1..];
    } else {
      assert s[i := x][1..] == s[1..][i - 1 := x];
      SumUpdate(s[1..], i - 1, x, f);
    }
  }

  lemma {:induction false} SumAppend<T>(s: seq<T>, t: seq<T>, f: T -> int)
    ensures Sum(s + t, f) == Sum(s, f) + Sum(t, f)
  {
    if s == [] {
      assert s + t == t;
    } else {
      assert (s + t)[1..] == s[1..] + t;
      SumAppend(s[1..], t, f);
    }
  }

  /** Bounds on each element that f is applied to carry over to the total. */
  lemma {:induction false} SumBetween<T>(s: seq<T>, f: T -> int, lo: int, hi: int)
    requires forall x :: x in s ==> lo <= f(x) <= hi
    ensures lo * |s| <= Sum(s, f) <= hi * |s|
  {
    if s == [] {
    } else {
      SumBetween(s[1..], f, lo, hi);
      assert lo * |s| == lo * |s[1..]| + lo && hi * |s| == hi * |s[1..]| + hi;
    }
  }

  lemma {:induction false} SumNonNegative<T>(s: seq<T>, f: T -> int)
    requires forall x :: x in s ==> 0 <= f(x)
    ensures 0 <= Sum(s, f)
  {
    if s == [] {
    } else {
      SumNonNegative(s[1..], f);
    }
  }

  /** A total of non-negative summands is at least each of them. */
  lemma {:induction false} SumAtLeast<T>(s: seq<T>, i: nat, f: T -> int)
    requires i < |s|
    requires forall x :: x in s ==> 0 <= f(x)
    ensures f(s[i]) <= Sum(s, f)
  {
    SumNonNegative(s[1..], f);
    if i == 0 {
    } else {
      SumAtLeast(s[1..], i - 1, f);
    }
  }

  /** Equal summands give equal totals. */
  lemma {:induction false} SumPointwise<A, B>(a: seq<A>, f: A -> int, b: seq<B>, g: B -> int)
    requires |a| == |b| && forall i :: 0 <= i < |a| ==> f(a[i]) == g(b[i])
    ensures Sum(a, f) == Sum(b, g)
  {
    if a == [] {
    } else {
      SumPointwise(a[1..], f, b[1..], g);
    }
  }

  /** The image of s under f. */
  function Map<A, B>(f: A -> B, s: seq<A>): (r: seq<B>)
    ensures |r| == |s|
    ensures forall i :: 0 <= i < |s| ==> r[i] == f(s[i])
  {
    seq(|s|, i requires 0 <= i < |s| => f(s[i]))
  }

  /** The pieces put together. */
  ghost function Flatten<T>(pieces: seq<seq<T>>): seq<T> {
    if pieces == [] then [] else pieces[0] + Flatten(pieces[1..])
  }

  lemma {:induction false} FlattenAppend<T>(pieces: seq<seq<T>>, last: seq<T>)
    ensures Flatten(pieces + [last]) == Flatten(pieces) + last
  {
    if pieces == [] {
    } else {
      assert (pieces + [last])[1..] == pieces[1..] + [last];
      FlattenAppend(pieces[1..], last);
    }
  }

  lemma CancelElement<T>(x: T, a: multiset<T>, b: multiset<T>)
    requires multiset{x} + a == multiset{x} + b
    ensures a == b
  {
    assert a == multiset{x} + a - multiset{x} && b == multiset{x} + b - multiset{x};
  }

  ghost function Without<T>(s: seq<T>, j: nat): seq<T>
    requires j < |s|
  {
    s[..j] + s[j + 1..]
  }

  lemma WithoutElements<T>(s: seq<T>, j: nat)
    requires j < |s|
    ensures multiset(s) == multiset{s[j]} + multiset(Without(s, j))
  {
    assert s == s[..j] + [s[j]] + s[j + 1..];
  }

  lemma MapAppend<A, B>(f: A -> B, a: seq<A>, b: seq<A>)
    ensures Map(f, a + b) == Map(f, a) + Map(f, b)
  {}

  /** Sequences with the same elements have images with the same elements. */
  lemma {:induction false} MapKeepsMultiset<A, B>(f: A -> B, a: seq<A>, b: seq<A>)
    requires multiset(a) == multiset(b)
    ensures multiset(Map(f, a)) == multiset(Map(f, b))
  {
    assert |multiset(a)| == |a| && |multiset(b)| == |b|;
    if a == [] {
    } else {
      assert a[0] in multiset(b);
      var j :| 0 <= j < |b| && b[j] == a[0];
      WithoutElements(a, 0);
      WithoutElements(b, j);
      CancelElement(a[0], multiset(Without(a, 0)), multiset(Without(b, j)));
      MapKeepsMultiset(f, Without(a, 0), Without(b, j));
      WithoutElements(Map(f, a), 0);
      WithoutElements(Map(f, b), j);
      assert Map(f, Without(a, 0)) == Without(Map(f, a), 0);
      assert Map(f, Without(b, j)) == Without(Map(f, b), j);
    }
  }

  /** An invertible f makes the converse hold too. */
  lemma MapReflectsMultiset<A, B>(f: A -> B, inverse: B -> A, a: seq<A>, b: seq<A>)
    requires forall x :: x in a || x in b ==> inverse(f(x)) == x
    ensures multiset(Map(f, a)) == multiset(Map(f, b)) <==> multiset(a) == multiset(b)
  {
    if multiset(a) == multiset(b) {
      MapKeepsMultiset(f, a, b);
    }
    if multiset(Map(f, a)) == multiset(Map(f, b)) {
      MapKeepsMultiset(inverse, Map(f, a), Map(f, b));
      assert Map(inverse, Map(f, a)) == a;
      assert Map(inverse, Map(f, b)) == b;
    }
  }

  // ---------- Pairing off ----------

  /** p is a permutation of the indices below n. */
  ghost predicate IsPermutation(p: seq<nat>, n: nat) {
    && |p| == n
    && (forall i :: 0 <= i < n ==> p[i] < n)
    && forall i, j :: 0 <= i < j < n ==> p[i] != p[j]
  }

  /** Each element of a is paired with an equal element of b, each of them used once. */
  ghost predicate PairsOff<T>(a: seq<T>, b: seq<T>, p: seq<nat>) {
    |a| == |b| && IsPermutation(p, |a|) && forall i :: 0 <= i < |a| ==> a[i] == b[p[i]]
  }

  // The index of an entry of b after entry j has been removed, and back.
  function Down(j: nat, i: nat): nat {
    if i > j then i - 1 else i
  }

  function Up(j: nat, i: nat): nat {
    if i >= j then i + 1 else i
  }

  /** Sequences have the same elements exactly when they can be paired off. */
  lemma {:induction false} SameElementsPairOff<T>(a: seq<T>, b: seq<T>)
    ensures multiset(a) == multiset(b) <==> exists p :: PairsOff(a, b, p)
  {
    if multiset(a) == multiset(b) {
      var p := FindPairing(a, b);
      assert PairsOff(a, b, p);
    }
    if p :| PairsOff(a, b, p) {
      PairingKeepsElements(a, b, p);
    }
  }

  lemma {:induction false} FindPairing<T>(a: seq<T>, b: seq<T>) returns (p: seq<nat>)
    requires multiset(a) == multiset(b)
    ensures PairsOff(a, b, p)
  {
    assert |multiset(a)| == |a| && |multiset(b)| == |b|;
    p := [];
    if a == [] {
    } else {
      assert a[0] in multiset(b);
      var j: nat :| j < |b| && b[j] == a[0];
      WithoutElements(a, 0);
      WithoutElements(b, j);
      CancelElement(a[0], multiset(Without(a, 0)), multiset(Without(b, j)));
      var rest := FindPairing(Without(a, 0), Without(b, j));
      ExtendPairing(a, b, j, rest);
      p := [j] + Map((i: nat) => Up(j, i), rest);
    }
  }

  lemma ExtendPairing<T>(a: seq<T>, b: seq<T>, j: nat, rest: seq<nat>)
    requires a != [] && j < |b| && a[0] == b[j]
    requires PairsOff(Without(a, 0), Without(b, j), rest)
    ensures PairsOff(a, b, [j] + Map((i: nat) => Up(j, i), rest))
  {
    var p := [j] + Map((i: nat) => Up(j, i), rest);
    forall i | 0 <= i < |a| ensures p[i] < |a| && a[i] == b[p[i]] && (i > 0 ==> p[i] != j) {
      if i > 0 {
        assert Without(a, 0)[i - 1] == a[i];
        assert Without(b, j)[rest[i - 1]] == b[Up(j, rest[i - 1])];
      }
    }
  }

  lemma ShrinkPairing<T>(a: seq<T>, b: seq<T>, p: seq<nat>)
    requires a != [] && PairsOff(a, b, p)
    ensures PairsOff(Without(a, 0), Without(b, p[0]), Map((i: nat) => Down(p[0], i), p[1..]))
  {
    var j, q := p[0], Map((i: nat) => Down(p[0], i), p[1..]);
    forall i | 0 <= i < |a| - 1 ensures q[i] < |a| - 1 && Without(a, 0)[i] == Without(b, j)[q[i]] {
      assert p[i + 1] != j && a[i + 1] == b[p[i + 1]];
    }
    forall i, k | 0 <= i < k < |q| ensures q[i] != q[k] {
      assert p[i + 1] != j && p[k + 1] != j && p[i + 1] != p[k + 1];
    }
  }

  lemma {:induction false} PairingKeepsElements<T>(a: seq<T>, b: seq<T>, p: seq<nat>)
    requires PairsOff(a, b, p)
    ensures multiset(a) == multiset(b)
  {
    if a == [] {
    } else {
      var j := p[0];
      WithoutElements(a, 0);
      WithoutElements(b, j);
      ShrinkPairing(a, b, p);
      hide PairsOff;
      PairingKeepsElements(Without(a, 0), Without(b, j), Map((i: nat) => Down(j, i), p[1..]));
    }
  }
}
