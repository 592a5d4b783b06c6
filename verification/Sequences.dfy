// Facts about sequences that more than one module needs.
module Sequences {

  lemma Assoc<T>(a: seq<T>, b: seq<T>, c: seq<T>)
    ensures a + b + c == a + (b + c)
  {
  }

  lemma HeadAndTail<T>(x: T, t: seq<T>)
    ensures ([x] + t)[0] == x && ([x] + t)[1..] == t
  {
  }

  lemma HeadOfConcat<T>(a: seq<T>, b: seq<T>)
    requires a != []
    ensures (a + b)[0] == a[0]
    ensures (a + b)[1..] == a[1..] + b
  {
  }

  lemma FourPartsEmpty<T>(a: seq<T>, b: seq<T>, c: seq<T>, d: seq<T>)
    ensures a + b + c + d == [] <==> a == [] && b == [] && c == [] && d == []
  {
    assert |a + b + c + d| == |a| + |b| + |c| + |d|;
  }

  /** The concatenation of f over the elements of s. */
  function FlatMap<S, T>(s: seq<S>, f: S -> seq<T>): seq<T> {
    if s == [] then [] else FlatMap(s[..|s| - 1], f) + f(s[|s| - 1])
  }

  lemma FlatMapStep<S, T>(s: seq<S>, i: nat, f: S -> seq<T>)
    requires i < |s|
    ensures FlatMap(s[..i + 1], f) == FlatMap(s[..i], f) + f(s[i])
  {
    assert s[..i + 1][..i] == s[..i];
  }

  lemma {:induction false} FlatMapConcat<S, T>(a: seq<S>, b: seq<S>, f: S -> seq<T>)
    ensures FlatMap(a + b, f) == FlatMap(a, f) + FlatMap(b, f)
  {
    if b == [] {
      assert a + b == a;
    } else {
      var n := |b| - 1;
      assert (a + b)[..|a + b| - 1] == a + b[..n];
      FlatMapConcat(a, b[..n], f);
      Assoc(FlatMap(a, f), FlatMap(b[..n], f), f(b[n]));
    }
  }

  lemma {:induction false} FlatMapIsEmptyExactly<S, T>(s: seq<S>, f: S -> seq<T>)
    ensures FlatMap(s, f) == [] <==> forall i :: 0 <= i < |s| ==> f(s[i]) == []
  {
    if s != [] {
      var n := |s| - 1;
      FlatMapIsEmptyExactly(s[..n], f);
      assert forall i :: 0 <= i < n ==> s[..n][i] == s[i];
    }
  }

  lemma {:induction false} FlatMapOfSingletons<S, T>(s: seq<S>, f: S -> seq<T>)
    requires forall i :: 0 <= i < |s| ==> |f(s[i])| == 1
    ensures |FlatMap(s, f)| == |s|
    ensures forall i :: 0 <= i < |s| ==> FlatMap(s, f)[i] == f(s[i])[0]
  {
    if s != [] {
      var n := |s| - 1;
      assert forall i :: 0 <= i < n ==> s[..n][i] == s[i];
      FlatMapOfSingletons(s[..n], f);
    }
  }

  lemma {:induction false} FlatMapKeeps<S, T>(s: seq<S>, f: S -> seq<T>, x: T)
    ensures x in FlatMap(s, f) <==> exists i :: 0 <= i < |s| && x in f(s[i])
  {
    if s != [] {
      var n := |s| - 1;
      FlatMapKeeps(s[..n], f, x);
      assert forall i :: 0 <= i < n ==> s[..n][i] == s[i];
    }
  }

  ghost predicate Distinct<T>(s: seq<T>) {
    forall i, j :: 0 <= i < j < |s| ==> s[i] != s[j]
  }

  lemma {:induction false} DistinctMultiplicity<T>(s: seq<T>, x: T)
    requires Distinct(s)
    ensures multiset(s)[x] == if x in s then 1 else 0
  {
    if s != [] {
      assert s == [s[0]] + s[1..];
      DistinctMultiplicity(s[1..], x);
    }
  }

  /** Two duplicate-free listings of the same set hold the same multiset. */
  lemma DistinctListingsAgree<T>(a: seq<T>, b: seq<T>)
    requires Distinct(a) && Distinct(b)
    requires forall x :: x in a <==> x in b
    ensures multiset(a) == multiset(b)
  {
    forall x | x in a || x in b ensures multiset(a)[x] == multiset(b)[x] {
      DistinctMultiplicity(a, x);
      DistinctMultiplicity(b, x);
    }
  }

  lemma SameMultisetSameMembers<T>(a: seq<T>, b: seq<T>, x: T)
    requires multiset(a) == multiset(b)
    ensures x in a <==> x in b
  {
    assert x in a <==> x in multiset(a);
    assert x in b <==> x in multiset(b);
  }

  /** A permutation of a duplicate-free listing has no duplicates. */
  lemma {:induction false} MultisetDistinct<T>(a: seq<T>, b: seq<T>)
    requires Distinct(a) && multiset(a) == multiset(b)
    ensures Distinct(b)
  {
    forall i, j | 0 <= i < j < |b| ensures b[i] != b[j] {
      if b[i] == b[j] {
        assert b == b[..i] + [b[i]] + b[i + 1..j] + [b[j]] + b[j + 1..];
        assert multiset(b)[b[i]] >= 2;
        DistinctMultiplicity(a, b[i]);
      }
    }
  }
}
