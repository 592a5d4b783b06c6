// JavaScript strings as sequences of UTF-16 code units, their default sort
// order, and the sorting of a key list.
module Texts {

  type CodeUnit = u: int | 0 <= u < 0x1_0000

  type Text = seq<CodeUnit>

  datatype Option<+T> = None | Some(value: T)

  /** An ASCII literal as code units. */
  function Lit(s: string): (t: Text)
    ensures |t| == |s|
  {
    seq(|s|, i requires 0 <= i < |s| => if s[i] as int < 0x80 then s[i] as int else 0xFFFD)
  }

  const QUOTE: CodeUnit := 0x22
  const BACKSLASH: CodeUnit := 0x5C
  const SLASH: CodeUnit := 0x2F
  const DOT: CodeUnit := 0x2E
  const COMMA: CodeUnit := 0x2C
  const COLON: CodeUnit := 0x3A
  const MINUS: CodeUnit := 0x2D

  predicate IsDigit(u: CodeUnit) { 0x30 <= u <= 0x39 }

  predicate StartsWith(t: Text, prefix: Text) { prefix <= t }

  /** Array.prototype.toSorted without a comparator: code-unit order, a prefix first. */
  predicate Leq(a: Text, b: Text) {
    if a == [] then true
    else if b == [] then false
    else a[0] < b[0] || (a[0] == b[0] && Leq(a[1..], b[1..]))
  }

  /** The order is decided at the first unit in which two texts differ. */
  lemma {:induction false} LeqByFirstDifference(a: Text, b: Text, k: nat)
    requires k < |a| && k < |b| && a[..k] == b[..k] && a[k] != b[k]
    ensures Leq(a, b) <==> a[k] < b[k]
  {
    if k > 0 {
      assert a[0] == a[..k][0] == b[..k][0] == b[0];
      assert a[1..][..k - 1] == a[..k][1..] == b[..k][1..] == b[1..][..k - 1];
      LeqByFirstDifference(a[1..], b[1..], k - 1);
    }
  }

  /** When they differ in none, the shorter comes first. */
  lemma {:induction false} LeqOfPrefix(a: Text, b: Text)
    requires a <= b
    ensures Leq(a, b) && (Leq(b, a) ==> a == b)
  {
    if a != [] {
      assert a[1..] <= b[1..] && a == [a[0]] + a[1..] && b == [b[0]] + b[1..];
      LeqOfPrefix(a[1..], b[1..]);
    }
  }

  lemma {:induction false} LeqTotal(a: Text, b: Text)
    ensures Leq(a, b) || Leq(b, a)
  {
    if a != [] && b != [] && a[0] == b[0] {
      LeqTotal(a[1..], b[1..]);
    }
  }

  lemma {:induction false} LeqAntisymmetric(a: Text, b: Text)
    requires Leq(a, b) && Leq(b, a)
    ensures a == b
  {
    if a != [] && b != [] {
      LeqAntisymmetric(a[1..], b[1..]);
      assert a == [a[0]] + a[1..] && b == [b[0]] + b[1..];
    }
  }

  lemma {:induction false} LeqTransitive(a: Text, b: Text, c: Text)
    requires Leq(a, b) && Leq(b, c)
    ensures Leq(a, c)
  {
    if a != [] && a[0] == b[0] == c[0] {
      LeqTransitive(a[1..], b[1..], c[1..]);
    }
  }

  ghost predicate Sorted(ks: seq<Text>) {
    forall i, j :: 0 <= i < j < |ks| ==> Leq(ks[i], ks[j])
  }

  function Insert(k: Text, ks: seq<Text>): (r: seq<Text>)
    requires Sorted(ks)
    ensures Sorted(r)
    ensures multiset(r) == multiset{k} + multiset(ks)
  {
    if ks == [] then [k]
    else if Leq(k, ks[0]) then
      assert Sorted([k] + ks) by {
        forall j | 0 <= j < |ks| ensures Leq(k, ks[j]) {
          if j > 0 { LeqTransitive(k, ks[0], ks[j]); }
        }
      }
      [k] + ks
    else
      LeqTotal(k, ks[0]);
      var rest := Insert(k, ks[1..]);
      assert ks == [ks[0]] + ks[1..];
      assert Sorted([ks[0]] + rest) by {
        forall j | 0 <= j < |rest| ensures Leq(ks[0], rest[j]) {
          assert rest[j] in multiset(rest);
          assert rest[j] == k || rest[j] in ks[1..];
        }
      }
      [ks[0]] + rest
  }

  /** The sorted key list. */
  function Sort(ks: seq<Text>): (r: seq<Text>)
    ensures Sorted(r)
    ensures multiset(r) == multiset(ks)
  {
    if ks == [] then []
    else
      assert ks == [ks[0]] + ks[1..];
      Insert(ks[0], Sort(ks[1..]))
  }

  lemma FirstIsLeast(a: seq<Text>, k: Text)
    requires Sorted(a) && k in multiset(a)
    ensures Leq(a[0], k)
  {
    var j :| 0 <= j < |a| && a[j] == k;
    if j == 0 { LeqTotal(k, k); }
  }

  /** A multiset of keys has one sorted listing. */
  lemma {:induction false} SortedListingIsUnique(a: seq<Text>, b: seq<Text>)
    requires Sorted(a) && Sorted(b) && multiset(a) == multiset(b)
    ensures a == b
  {
    assert |a| == |multiset(a)| == |multiset(b)| == |b|;
    if a != [] {
      assert a[0] == b[0] by {
        assert a[0] in multiset(a) && b[0] in multiset(b);
        FirstIsLeast(a, b[0]);
        FirstIsLeast(b, a[0]);
        LeqAntisymmetric(a[0], b[0]);
      }
      assert a == [a[0]] + a[1..] && b == [b[0]] + b[1..];
      assert multiset(a[1..]) == multiset(a) - multiset{a[0]};
      assert multiset(b[1..]) == multiset(b) - multiset{b[0]};
      SortedListingIsUnique(a[1..], b[1..]);
    }
  }
}
