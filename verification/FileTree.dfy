// The file tree an installation writes to, and the operations on it.
module FileTree {
  import opened Sequences
  import opened Texts
  import opened Utf8

  type Path = seq<Text>

  // What a symbolic link leads to is outside the tree: nothing is found below it.
  // A file that is not readable exists, but opening it to read throws.
  datatype Node = Dir | File(bytes: Bytes, mode: nat, readable: bool) | Link

  /** A file as a run writes it. */
  function Fresh(bytes: Bytes, mode: nat): Node {
    File(bytes, mode, true)
  }

  type Tree = map<Path, Node>

  function Parent(p: Path): Path
    requires p != []
  {
    p[..|p| - 1]
  }

  /** The root is a directory and every node lies in a directory. */
  ghost predicate WfTree(t: Tree) {
    && [] in t && t[[]] == Dir
    && forall p :: p in t && p != [] ==> Parent(p) in t && t[Parent(p)] == Dir
  }

  predicate IsDir(t: Tree, p: Path) { p in t && t[p] == Dir }
  predicate IsFile(t: Tree, p: Path) { p in t && t[p].File? }
  predicate IsLink(t: Tree, p: Path) { p in t && t[p] == Link }

  lemma {:induction false} AncestorsAreDirs(t: Tree, p: Path, k: nat)
    requires WfTree(t) && p in t && k < |p|
    ensures IsDir(t, p[..k])
  {
    if k < |p| - 1 {
      AncestorsAreDirs(t, Parent(p), k);
      assert Parent(p)[..k] == p[..k];
    }
  }

  lemma PrefixInTree(t: Tree, q: Path, p: Path)
    requires WfTree(t) && q in t && p <= q
    ensures p in t && (p != q ==> t[p] == Dir)
  {
    assert p == q[..|p|];
    if p == q {
    } else {
      AncestorsAreDirs(t, q, |p|);
    }
  }

  function ReadFile(t: Tree, p: Path): Option<Bytes> {
    if IsFile(t, p) && t[p].readable then Some(t[p].bytes) else None
  }

  // ----- removing directories that are empty -----

  predicate HasChild(t: Tree, d: Path) {
    exists q :: q in t && q != [] && Parent(q) == d
  }

  /** rmdir, errors ignored. */
  function RemoveIfEmpty(t: Tree, d: Path): Tree {
    if IsDir(t, d) && !HasChild(t, d) then t - {d} else t
  }

  function Prune(t: Tree, ds: seq<Path>): Tree {
    if ds == [] then t else Prune(RemoveIfEmpty(t, ds[0]), ds[1..])
  }

  /** No directory is listed before one inside it. */
  ghost predicate InnermostFirst(ds: seq<Path>) {
    && Distinct(ds)
    && (forall i, j :: 0 <= i < j < |ds| ==> !(ds[i] <= ds[j]))
    && [] !in ds
  }

  /** A directory that holds, at any depth, nothing but directories of the list. */
  ghost predicate Hollow(t: Tree, ds: seq<Path>, d: Path) {
    && d in ds && IsDir(t, d)
    && forall q :: q in t && d <= q ==> q in ds && t[q] == Dir
  }

  lemma BelowHasChild(t: Tree, d: Path, q: Path)
    requires WfTree(t) && q in t && d <= q && q != d
    ensures HasChild(t, d)
  {
    var c := q[..|d| + 1];
    assert Parent(c) == d;
    if |d| + 1 < |q| {
      AncestorsAreDirs(t, q, |d| + 1);
    } else {
      assert c == q;
    }
  }

  lemma RemoveIfEmptyKeepsWf(t: Tree, d: Path)
    requires WfTree(t) && d != []
    ensures WfTree(RemoveIfEmpty(t, d))
  {
    var r := RemoveIfEmpty(t, d);
    forall p | p in r && p != [] ensures Parent(p) in r && r[Parent(p)] == Dir {}
  }

  lemma TailInnermostFirst(ds: seq<Path>)
    requires InnermostFirst(ds) && ds != []
    ensures InnermostFirst(ds[1..])
    ensures ds[0] !in ds[1..]
    ensures forall d :: d in ds && ds[0] <= d ==> d == ds[0]
  {
    forall d | d in ds && ds[0] <= d ensures d == ds[0] {
      var j :| 0 <= j < |ds| && ds[j] == d;
      assert j == 0;
    }
  }

  // Whether a later directory is hollow does not change when the first is handled.
  lemma HollowAfterFirst(t: Tree, ds: seq<Path>, d: Path)
    requires WfTree(t) && InnermostFirst(ds) && ds != [] && d in ds[1..]
    ensures Hollow(RemoveIfEmpty(t, ds[0]), ds[1..], d) <==> Hollow(t, ds, d)
  {
    var r, first, more := RemoveIfEmpty(t, ds[0]), ds[0], ds[1..];
    TailInnermostFirst(ds);
    assert forall q :: q in ds <==> q == first || q in more;
    if IsDir(t, first) && !HasChild(t, first) {
      assert forall q :: q in r <==> q in t && q != first;
    } else if IsDir(t, first) {
      var c :| c in t && c != [] && Parent(c) == first;
      assert first <= c && c !in ds;
      if d <= first { assert d <= c; }
    }
  }

  lemma FirstRemovedExactlyWhenHollow(t: Tree, ds: seq<Path>)
    requires WfTree(t) && InnermostFirst(ds) && ds != []
    ensures Hollow(t, ds, ds[0]) <==> IsDir(t, ds[0]) && !HasChild(t, ds[0])
  {
    var first := ds[0];
    TailInnermostFirst(ds);
    if IsDir(t, first) {
      if HasChild(t, first) {
        var c :| c in t && c != [] && Parent(c) == first;
        assert first <= c && c !in ds;
      } else {
        forall q | q in t && first <= q ensures q == first {
          if q != first { BelowHasChild(t, first, q); }
        }
      }
    }
  }

  /** Pruning removes exactly the hollow directories. */
  lemma {:induction false} PruneRemovesExactlyHollow(t: Tree, ds: seq<Path>)
    requires WfTree(t) && InnermostFirst(ds)
    ensures forall p :: p in Prune(t, ds) <==> p in t && !Hollow(t, ds, p)
    ensures forall p :: p in Prune(t, ds) ==> Prune(t, ds)[p] == t[p]
    ensures WfTree(Prune(t, ds))
    decreases ds
  {
    if ds != [] {
      var r := RemoveIfEmpty(t, ds[0]);
      TailInnermostFirst(ds);
      RemoveIfEmptyKeepsWf(t, ds[0]);
      FirstRemovedExactlyWhenHollow(t, ds);
      PruneRemovesExactlyHollow(r, ds[1..]);
      forall p ensures p in Prune(t, ds) <==> p in t && !Hollow(t, ds, p) {
        if p in ds[1..] {
          HollowAfterFirst(t, ds, p);
        }
      }
    }
  }

  // ----- which directories an undo prunes, and in which order -----

  /** The proper ancestors of a relative path, outermost first. */
  function Ancestors(rel: Path): seq<Path> {
    if |rel| <= 1 then [] else Ancestors(rel[..|rel| - 1]) + [rel[..|rel| - 1]]
  }

  lemma {:induction false} AncestorsExactly(rel: Path, d: Path)
    ensures d in Ancestors(rel) <==> d != [] && d <= rel && d != rel
  {
    if |rel| > 1 {
      AncestorsExactly(rel[..|rel| - 1], d);
      if d != [] && d <= rel && d != rel && d != rel[..|rel| - 1] {
        assert d <= rel[..|rel| - 1];
      }
    } else if d != [] && d <= rel {
      assert d == rel;
    }
  }

  /** The first occurrence of each element. */
  function Dedup<T(==,!new)>(s: seq<T>): (r: seq<T>)
    ensures Distinct(r)
    ensures forall x :: x in r <==> x in s
  {
    if s == [] then []
    else
      var n := |s| - 1;
      assert s == s[..n] + [s[n]];
      Dedup(s[..n]) + if s[n] in s[..n] then [] else [s[n]]
  }

  /** The length of the path written with slashes. */
  function WrittenLength(p: Path): nat {
    if p == [] then 0 else WrittenLength(p[..|p| - 1]) + |p[|p| - 1]| + 1
  }

  lemma {:induction false} LongerWhenDeeper(p: Path, q: Path)
    requires p <= q && p != q
    ensures WrittenLength(p) < WrittenLength(q)
  {
    if p != q[..|q| - 1] {
      assert p <= q[..|q| - 1];
      LongerWhenDeeper(p, q[..|q| - 1]);
    }
  }

  ghost predicate LongestFirst(ds: seq<Path>) {
    ds == [] ||
    ((forall x :: x in ds[1..] ==> WrittenLength(ds[0]) >= WrittenLength(x)) && LongestFirst(ds[1..]))
  }

  lemma {:induction false} LongestFirstPairs(ds: seq<Path>, i: nat, j: nat)
    requires LongestFirst(ds) && i < j < |ds|
    ensures WrittenLength(ds[i]) >= WrittenLength(ds[j])
  {
    assert ds[j] == ds[1..][j - 1];
    if i > 0 { LongestFirstPairs(ds[1..], i - 1, j - 1); }
  }

  function InsertByLength(d: Path, ds: seq<Path>): (r: seq<Path>)
    requires LongestFirst(ds)
    ensures LongestFirst(r)
    ensures multiset(r) == multiset{d} + multiset(ds)
  {
    if ds == [] then [d]
    else
      assert ds == [ds[0]] + ds[1..];
      if WrittenLength(ds[0]) <= WrittenLength(d) then
        HeadAndTail(d, ds);
        [d] + ds
      else
        var rest := InsertByLength(d, ds[1..]);
        HeadAndTail(ds[0], rest);
        InsertedMembers(d, ds[1..], rest);
        [ds[0]] + rest
  }

  lemma InsertedMembers(d: Path, ds: seq<Path>, r: seq<Path>)
    requires multiset(r) == multiset{d} + multiset(ds)
    ensures forall x :: x in r ==> x == d || x in ds
  {
    forall x | x in r ensures x == d || x in ds {
      assert x in multiset(r);
    }
  }

  function SortByLength(ds: seq<Path>): (r: seq<Path>)
    ensures LongestFirst(r)
    ensures multiset(r) == multiset(ds)
  {
    if ds == [] then []
    else
      assert ds == [ds[0]] + ds[1..];
      InsertByLength(ds[0], SortByLength(ds[1..]))
  }

  /** The directories pruneEmptyDirs visits for these relative paths, in order. */
  function PruneOrder(rels: seq<Path>): seq<Path> {
    SortByLength(Dedup(FlatMap(rels, Ancestors)))
  }

  function Below(base: Path, rels: seq<Path>): (ps: seq<Path>)
    ensures |ps| == |rels| && forall i :: 0 <= i < |ps| ==> ps[i] == base + rels[i]
  {
    seq(|rels|, i requires 0 <= i < |rels| => base + rels[i])
  }

  lemma BelowExactly(base: Path, rels: seq<Path>, p: Path)
    ensures p in Below(base, rels) <==> base <= p && p[|base|..] in rels
  {
    if base <= p && p[|base|..] in rels {
      var k :| 0 <= k < |rels| && rels[k] == p[|base|..];
      assert Below(base, rels)[k] == p;
    }
  }

  lemma PruneOrderExactly(rels: seq<Path>, d: Path)
    ensures d in PruneOrder(rels) <==>
      exists i :: 0 <= i < |rels| && d != [] && d <= rels[i] && d != rels[i]
  {
    var flat := FlatMap(rels, Ancestors);
    SameMultisetSameMembers(PruneOrder(rels), Dedup(flat), d);
    FlatMapKeeps(rels, Ancestors, d);
    forall i | 0 <= i < |rels| ensures d in Ancestors(rels[i]) <==> d != [] && d <= rels[i] && d != rels[i] {
      AncestorsExactly(rels[i], d);
    }
  }

  lemma BelowKeepsInnermostFirst(base: Path, ds: seq<Path>)
    requires InnermostFirst(ds)
    ensures InnermostFirst(Below(base, ds))
  {
    var bs := Below(base, ds);
    forall i, j | 0 <= i < j < |bs| ensures bs[i] != bs[j] && !(bs[i] <= bs[j]) {
      assert ds[i] == bs[i][|base|..] && ds[j] == bs[j][|base|..];
    }
  }

  /** Longest first visits a directory only after everything inside it. */
  lemma PruneOrderIsInnermostFirst(rels: seq<Path>)
    ensures InnermostFirst(PruneOrder(rels))
  {
    var order := PruneOrder(rels);
    MultisetDistinct(Dedup(FlatMap(rels, Ancestors)), order);
    forall i, j | 0 <= i < j < |order| ensures !(order[i] <= order[j]) {
      LongestFirstPairs(order, i, j);
      if order[i] <= order[j] { LongerWhenDeeper(order[i], order[j]); }
    }
    forall i | 0 <= i < |order| ensures order[i] != [] {
      assert order[i] in order;
      PruneOrderExactly(rels, order[i]);
    }
  }
}
