// When a failed finalisation on an unmanaged destination leaves no trace.
module AllOrNothing {
  import opened Texts
  import opened Utf8
  import opened FileTree
  import opened Install

  predicate EmptyDir(t: Tree, d: Path) {
    IsDir(t, d) && !HasChild(t, d)
  }

  ghost predicate NoEmptyDirOnTheWay(t: Tree, dest: Path, items: seq<Item>) {
    forall d :: d in PruneDirs(t, dest, items) ==> !EmptyDir(t, d)
  }

  lemma {:induction false} NothingEmptyNothingPruned(t: Tree, ds: seq<Path>)
    requires forall d :: d in ds ==> !EmptyDir(t, d)
    ensures Prune(t, ds) == t
  {
    if ds != [] {
      assert ds[0] in ds && !EmptyDir(t, ds[0]);
      NothingEmptyNothingPruned(t, ds[1..]);
    }
  }

  lemma NothingEmptyNothingHollow(t: Tree, dest: Path, items: seq<Item>, p: Path)
    requires WfTree(t) && NoEmptyDirOnTheWay(t, dest, items)
    ensures !Hollow(t, PruneDirs(t, dest, items), p)
  {
    var ds := PruneDirs(t, dest, items);
    PruneOrderIsInnermostFirst(CreatedRels(t, dest, items));
    BelowKeepsInnermostFirst(dest, PruneOrder(CreatedRels(t, dest, items)));
    NothingEmptyNothingPruned(t, ds);
    PruneRemovesExactlyHollow(t, ds);
  }

  lemma EmptyDirIsHollow(t: Tree, cs: seq<Path>, ds: seq<Path>, d: Path)
    requires WfTree(t) && d in ds && EmptyDir(t, d) && d !in cs
    ensures Hollow(Without(t, cs), ds, d)
  {
    forall q | q in Without(t, cs) && d <= q ensures q == d {
      if q != d { BelowHasChild(t, d, q); }
    }
  }

  // The four ways a failed run can leave a trace do not occur.
  ghost predicate LeavesNoTrace(t: Tree, r: Tree, dest: Path, items: seq<Item>) {
    && (forall p :: p in r && p <= dest ==> p in t)
    && (forall p :: p in CreatedPaths(t, dest, items) ==> p !in t)
    && NoEmptyDirOnTheWay(t, dest, items)
    && (forall p :: p in Targets(dest, items) && p in t && p in r ==> r[p] == t[p])
  }

  /** The undo restores the initial tree exactly when no directory was made for
      the destination, nothing stood at a created path, no directory on the way
      was empty, and no file that was already there has changed. */
  lemma UndoRestoresExactly(t: Tree, r: Tree, dest: Path, items: seq<Item>, hi: nat)
    requires UndoSetting(t, r, dest, items, hi)
    requires Undo(r, dest, CreatedRels(t, dest, items)).ok
    ensures Undo(r, dest, CreatedRels(t, dest, items)).tree == t <==> LeavesNoTrace(t, r, dest, items)
  {
    var u := Undo(r, dest, CreatedRels(t, dest, items)).tree;
    UndoExactly(t, r, dest, items, hi);
    if LeavesNoTrace(t, r, dest, items) {
      NoTraceRestores(t, r, dest, items, hi, u);
    }
    if u == t {
      RestoredNoTrace(t, r, dest, items, u);
    }
  }

  lemma NoTraceDomain(t: Tree, r: Tree, dest: Path, items: seq<Item>, u: Tree, p: Path)
    requires WfTree(t) && LeavesNoTrace(t, r, dest, items)
    requires p in u <==>
      || (p in Stripped(t, dest, items) && !Hollow(Stripped(t, dest, items), PruneDirs(t, dest, items), p))
      || (p in r && p !in t && p <= dest)
    ensures p in u <==> p in t
  {
    assert Stripped(t, dest, items) == t;
    NothingEmptyNothingHollow(t, dest, items, p);
  }

  lemma NoTraceValue(t: Tree, r: Tree, dest: Path, items: seq<Item>, hi: nat, p: Path)
    requires Grown(t, r, Targets(dest, items), 0, hi) && LeavesNoTrace(t, r, dest, items) && p in t
    ensures r[p] == t[p]
  {
    KeptValue(t, r, Targets(dest, items), hi, p);
  }

  lemma NoTraceRestores(t: Tree, r: Tree, dest: Path, items: seq<Item>, hi: nat, u: Tree)
    requires UndoSetting(t, r, dest, items, hi) && LeavesNoTrace(t, r, dest, items)
    requires forall p :: p in u <==>
      || (p in Stripped(t, dest, items) && !Hollow(Stripped(t, dest, items), PruneDirs(t, dest, items), p))
      || (p in r && p !in t && p <= dest)
    requires forall p :: p in u ==> p in r && u[p] == r[p]
    ensures u == t
  {
    forall p ensures p in u <==> p in t {
      NoTraceDomain(t, r, dest, items, u, p);
    }
    forall p | p in t ensures u[p] == t[p] {
      NoTraceValue(t, r, dest, items, hi, p);
    }
  }

  lemma KeptValue(t: Tree, r: Tree, targets: seq<Path>, hi: nat, p: Path)
    requires Grown(t, r, targets, 0, hi) && p in t
    requires forall q :: q in targets && q in t && q in r ==> r[q] == t[q]
    ensures r[p] == t[p]
  {
    if WrittenAt(p, targets, 0, hi) { assert p in targets; }
  }

  lemma RestoredNoTrace(t: Tree, r: Tree, dest: Path, items: seq<Item>, u: Tree)
    requires WfTree(t) && u == t
    requires forall p :: p in u <==>
      || (p in Stripped(t, dest, items) && !Hollow(Stripped(t, dest, items), PruneDirs(t, dest, items), p))
      || (p in r && p !in t && p <= dest)
    requires forall p :: p in u ==> p in r && u[p] == r[p]
    ensures LeavesNoTrace(t, r, dest, items)
  {
    var cs, ds := CreatedPaths(t, dest, items), PruneDirs(t, dest, items);
    forall p | p in cs ensures p !in t {
      assert p !in Stripped(t, dest, items);
    }
    forall d | d in ds ensures !EmptyDir(t, d) {
      if EmptyDir(t, d) { EmptyDirIsHollow(t, cs, ds, d); }
    }
  }

  // ----- what stands in the way of one placement -----

  /** The temporary name is none of the names below the destination. */
  ghost predicate FreshName(items: seq<Item>, tmp: Text) {
    forall i :: 0 <= i < |items| ==> items[i].rel != [] && tmp !in items[i].rel
  }

  predicate LinkAbove(t: Tree, p: Path) {
    exists k :: 0 <= k < |p| && IsLink(t, p[..k])
  }

  /** A link stands above the target, or the temporary name beside it is taken. */
  predicate Blocked(t: Tree, target: Path, tmp: Text)
    requires target != []
  {
    LinkAbove(t, target) || Parent(target) + [tmp] in t
  }

  ghost predicate BlockedUpTo(t: Tree, dest: Path, items: seq<Item>, tmp: Text, n: nat)
    requires forall i :: 0 <= i < |items| ==> items[i].rel != []
  {
    exists j :: 0 <= j <= n && j < |items| && Blocked(t, Target(dest, items[j]), tmp)
  }

  /** Nothing in the tree makes this placement fail by itself. */
  ghost predicate Clear(t: Tree, target: Path, tmp: Text) {
    && target != []
    && (forall k :: 0 <= k < |target| && target[..k] in t ==> t[target[..k]] == Dir)
    && !IsDir(t, target)
    && Parent(target) + [tmp] !in t
  }

  lemma ClearExactly(t: Tree, target: Path, tmp: Text)
    requires target != []
    ensures Clear(t, target, tmp) <==> !Blocked(t, target, tmp) && !RemovalThrows(t, target)
  {
    if !Blocked(t, target, tmp) && !RemovalThrows(t, target) {
      forall k | 0 <= k < |target| && target[..k] in t ensures t[target[..k]] == Dir {
        assert !IsLink(t, target[..k]) && !IsFile(t, target[..k]);
      }
    }
  }

  lemma StaysClear(t: Tree, r: Tree, dest: Path, items: seq<Item>, tmp: Text, hi: nat, i: nat)
    requires WfTree(t) && PrefixFree(Targets(dest, items)) && FreshName(items, tmp)
    requires Grown(t, r, Targets(dest, items), 0, hi) && i < |items| && Clear(t, Target(dest, items[i]), tmp)
    ensures Clear(r, Target(dest, items[i]), tmp)
  {
    var ts := Targets(dest, items);
    var p := ts[i];
    NothingAboveTarget(ts, i);
    forall k | 0 <= k < |p| && p[..k] in r ensures r[p[..k]] == Dir {
      assert p[..k] <= p && !WrittenAt(p[..k], ts, 0, hi);
    }
    TmpIsNew(t, r, dest, items, tmp, hi, i);
  }

  lemma TmpIsNew(t: Tree, r: Tree, dest: Path, items: seq<Item>, tmp: Text, hi: nat, i: nat)
    requires FreshName(items, tmp) && Grown(t, r, Targets(dest, items), 0, hi)
    requires i < |items| && Parent(Target(dest, items[i])) + [tmp] !in t
    ensures Parent(Target(dest, items[i])) + [tmp] !in r
  {
    var ts := Targets(dest, items);
    var q := Parent(Target(dest, items[i])) + [tmp];
    var n := |q| - 1;
    forall m | 0 <= m < |ts| ensures !(q <= ts[m]) {
      if q <= ts[m] { TmpInside(dest, items[m], q, n); }
    }
  }

  lemma TmpInside(dest: Path, item: Item, q: Path, n: nat)
    requires q <= Target(dest, item) && |dest| <= n < |q|
    ensures q[n] in item.rel
  {
    assert Target(dest, item)[n] == item.rel[n - |dest|];
  }

  lemma {:induction false} WalkSucceeds(t: Tree, dir: Path, k: nat, stop: nat)
    requires k <= |dir| <= stop
    requires forall n :: 0 <= n <= |dir| && dir[..n] in t ==> t[dir[..n]] == Dir
    ensures Walk(t, dir, k, stop).error.None?
    decreases |dir| - k
  {
    if k < |dir| {
      var p := dir[..k + 1];
      if p !in t { WalkSucceeds(t[p := Dir], dir, k + 1, stop); } else { WalkSucceeds(t, dir, k + 1, stop); }
    }
  }

  ghost predicate Healthy(f: PlaceFault, target: Path) {
    f.stop >= |target| && f.leftover.None? && !f.rereadThrows
  }

  lemma ClearPlaceOne(r: Tree, target: Path, sha: Text, f: PlaceFault, tmp: Text, digest: Bytes -> Text)
    requires WfTree(r) && Clear(r, target, tmp) && Healthy(f, target)
    ensures var w := PlaceOne(r, target, sha, f, tmp, digest);
      && IsDir(w.tree, Parent(target))
      && match f.copy
         case Threw(tag) => w.error == Some(ThrownError(tag))
         case Wrote(bytes, mode) =>
           && target in w.tree && w.tree[target] == Fresh(bytes, mode)
           && w.error == if digest(bytes) == sha then None else Some(HashMismatch)
  {
    var dir := Parent(target);
    ClearWay(r, target, tmp, f.stop);
    TmpNotOnWay(target, tmp);
  }

  // The walk to a clear target succeeds, and the target and the temporary name stay clear.
  lemma ClearWay(r: Tree, target: Path, tmp: Text, stop: nat)
    requires WfTree(r) && Clear(r, target, tmp) && stop >= |target|
    ensures var w := Walk(r, Parent(target), 0, stop);
      && w.error.None? && IsDir(w.tree, Parent(target))
      && !IsDir(w.tree, target) && Parent(target) + [tmp] !in w.tree
  {
    var dir := Parent(target);
    forall n | 0 <= n <= |dir| && dir[..n] in r ensures r[dir[..n]] == Dir {
      assert dir[..n] == target[..n];
    }
    WalkSucceeds(r, dir, 0, stop);
    WalkGrows(r, dir, 0, stop);
    TmpNotOnWay(target, tmp);
  }

  lemma TmpNotOnWay(target: Path, tmp: Text)
    requires target != []
    ensures !(Parent(target) + [tmp] <= Parent(target)) && !(target <= Parent(target))
  {
  }

  // A walk over directories that are all there changes nothing, and does not get past a link.
  lemma {:induction false} WalkMeetsLink(t: Tree, dir: Path, k: nat, stop: nat, n: nat)
    requires WfTree(t) && k < n <= |dir| && IsLink(t, dir[..n])
    ensures Walk(t, dir, k, stop).tree == t
    ensures Walk(t, dir, k, stop).error in {Some(SymlinkFound), Some(Interrupted)}
    decreases |dir| - k
  {
    var p := dir[..k + 1];
    if k + 1 < n {
      assert p == dir[..n][..k + 1];
      AncestorsAreDirs(t, dir[..n], k + 1);
      WalkMeetsLink(t, dir, k + 1, stop, n);
    }
  }

  lemma {:induction false} WalkOverDirs(t: Tree, dir: Path, k: nat, stop: nat)
    requires WfTree(t) && k <= |dir| && IsDir(t, dir)
    ensures Walk(t, dir, k, stop).tree == t
    ensures Walk(t, dir, k, stop).error in {None, Some(Interrupted)}
    decreases |dir| - k
  {
    if k < |dir| {
      PrefixInTree(t, dir, dir[..k + 1]);
      assert IsDir(t, dir[..k + 1]) by {
        if k + 1 == |dir| { assert dir[..k + 1] == dir; }
      }
      WalkOverDirs(t, dir, k + 1, stop);
    }
  }

  lemma BlockedPlaceOne(r: Tree, target: Path, sha: Text, f: PlaceFault, tmp: Text, digest: Bytes -> Text)
    requires WfTree(r) && target != [] && Blocked(r, target, tmp)
    ensures PlaceOne(r, target, sha, f, tmp, digest).tree == r
    ensures PlaceOne(r, target, sha, f, tmp, digest).error in {Some(SymlinkFound), Some(Interrupted)}
  {
    var dir := Parent(target);
    if LinkAbove(r, target) {
      var k :| 0 <= k < |target| && IsLink(r, target[..k]);
      assert target[..k] == dir[..k];
      assert target[..0] == [];
      WalkMeetsLink(r, dir, 0, f.stop, k);
    } else {
      assert Parent(dir + [tmp]) == dir;
      WalkOverDirs(r, dir, 0, f.stop);
    }
  }

  lemma StaysBlocked(t: Tree, r: Tree, dest: Path, items: seq<Item>, tmp: Text, hi: nat, i: nat)
    requires WfTree(t) && PrefixFree(Targets(dest, items)) && Grown(t, r, Targets(dest, items), 0, hi)
    requires i < |items| && items[i].rel != [] && Blocked(t, Target(dest, items[i]), tmp)
    ensures Blocked(r, Target(dest, items[i]), tmp)
  {
    var ts := Targets(dest, items);
    var p := ts[i];
    NothingAboveTarget(ts, i);
    if LinkAbove(t, p) {
      var k :| 0 <= k < |p| && IsLink(t, p[..k]);
      assert p[..k] <= p && !WrittenAt(p[..k], ts, 0, hi);
      assert IsLink(r, p[..k]);
    }
  }

  /** Placement never gets past a blocked file, and leaves it and those after it alone. */
  lemma {:induction false} BlockedStops(t: Tree, r: Tree, dest: Path, items: seq<Item>, place: nat -> PlaceFault,
                                        tmp: Text, digest: Bytes -> Text, j: nat, b: nat)
    requires WfTree(t) && PrefixFree(Targets(dest, items)) && forall i :: 0 <= i < |items| ==> items[i].rel != []
    requires j <= b < |items| && Grown(t, r, Targets(dest, items), 0, j)
    requires Blocked(t, Target(dest, items[b]), tmp) && Clean(place)
    ensures var p := PlaceFrom(r, dest, items, place, tmp, digest, j);
      p.error.Some? && Reach(p) <= b
    decreases b - j
  {
    var target := Target(dest, items[j]);
    if j == b {
      StaysBlocked(t, r, dest, items, tmp, j, j);
      BlockedPlaceOne(r, target, items[j].sha256, place(j), tmp, digest);
    } else {
      var w := PlaceOne(r, target, items[j].sha256, place(j), tmp, digest);
      PlaceOneGrows(r, Targets(dest, items), j, items[j].sha256, place(j), tmp, digest);
      if w.error.None? {
        GrownTrans(t, r, w.tree, Targets(dest, items), 0, j, j + 1);
        BlockedStops(t, w.tree, dest, items, place, tmp, digest, j + 1, b);
      }
    }
  }

  // ----- schedules of copies -----

  // Every file up to position n is clear.
  ghost predicate ClearUpTo(t: Tree, dest: Path, items: seq<Item>, tmp: Text, n: nat) {
    forall i :: 0 <= i <= n && i < |items| ==> Clear(t, Target(dest, items[i]), tmp)
  }

  lemma ClearUpToExactly(t: Tree, dest: Path, items: seq<Item>, tmp: Text, n: nat)
    requires forall i :: 0 <= i < |items| ==> items[i].rel != []
    requires forall i :: 0 <= i < |items| ==> !RemovalThrows(t, Target(dest, items[i]))
    ensures ClearUpTo(t, dest, items, tmp, n) <==> !BlockedUpTo(t, dest, items, tmp, n)
  {
    forall i | 0 <= i < |items|
      ensures Clear(t, Target(dest, items[i]), tmp) <==> !Blocked(t, Target(dest, items[i]), tmp)
    {
      ClearExactly(t, Target(dest, items[i]), tmp);
    }
  }

  // Every copy before position i writes bytes with the right digest.
  ghost predicate GoodUntil(items: seq<Item>, dest: Path, place: nat -> PlaceFault, digest: Bytes -> Text, i: nat) {
    forall m :: 0 <= m < i && m < |items| ==>
      && Healthy(place(m), Target(dest, items[m]))
      && place(m).copy.Wrote? && digest(place(m).copy.bytes) == items[m].sha256
  }

  // The copy at position i throws or writes bytes with another digest.
  ghost predicate BadAt(items: seq<Item>, dest: Path, place: nat -> PlaceFault, digest: Bytes -> Text, i: nat)
    requires i < |items|
  {
    && Healthy(place(i), Target(dest, items[i]))
    && (place(i).copy.Threw? || digest(place(i).copy.bytes) != items[i].sha256)
  }

  /** While the files are clear, placement stops exactly at the first bad copy. */
  lemma {:induction false} StopsAt(t: Tree, r: Tree, dest: Path, items: seq<Item>, place: nat -> PlaceFault, tmp: Text,
                                   digest: Bytes -> Text, j: nat, i: nat)
    requires WfTree(t) && PrefixFree(Targets(dest, items)) && FreshName(items, tmp)
    requires j <= i < |items| && ClearUpTo(t, dest, items, tmp, i) && Grown(t, r, Targets(dest, items), 0, j)
    requires GoodUntil(items, dest, place, digest, i) && BadAt(items, dest, place, digest, i)
    ensures var p := PlaceFrom(r, dest, items, place, tmp, digest, j);
      && p.done == i && IsDir(p.tree, Parent(Target(dest, items[i])))
      && p.error == Some(if place(i).copy.Threw? then ThrownError(place(i).copy.tag) else HashMismatch)
      && (place(i).copy.Wrote? ==>
            IsFile(p.tree, Target(dest, items[i]))
            && p.tree[Target(dest, items[i])].bytes == place(i).copy.bytes)
    decreases i - j
  {
    var target := Target(dest, items[j]);
    var w := PlaceOne(r, target, items[j].sha256, place(j), tmp, digest);
    StaysClear(t, r, dest, items, tmp, j, j);
    ClearPlaceOne(r, target, items[j].sha256, place(j), tmp, digest);
    if j < i {
      PlaceOneGrows(r, Targets(dest, items), j, items[j].sha256, place(j), tmp, digest);
      GrownTrans(t, r, w.tree, Targets(dest, items), 0, j, j + 1);
      StopsAt(t, w.tree, dest, items, place, tmp, digest, j + 1, i);
    }
  }

  /** When every file is clear, copies that are all right place everything. */
  lemma {:induction false} GoodCopiesSucceed(t: Tree, r: Tree, dest: Path, items: seq<Item>, place: nat -> PlaceFault,
                                             tmp: Text, digest: Bytes -> Text, j: nat)
    requires WfTree(t) && PrefixFree(Targets(dest, items)) && FreshName(items, tmp)
    requires j <= |items| && ClearUpTo(t, dest, items, tmp, |items|) && Grown(t, r, Targets(dest, items), 0, j)
    requires GoodUntil(items, dest, place, digest, |items|)
    ensures PlaceFrom(r, dest, items, place, tmp, digest, j).error == None
    decreases |items| - j
  {
    if j < |items| {
      var target := Target(dest, items[j]);
      var w := PlaceOne(r, target, items[j].sha256, place(j), tmp, digest);
      StaysClear(t, r, dest, items, tmp, j, j);
      ClearPlaceOne(r, target, items[j].sha256, place(j), tmp, digest);
      PlaceOneGrows(r, Targets(dest, items), j, items[j].sha256, place(j), tmp, digest);
      GrownTrans(t, r, w.tree, Targets(dest, items), 0, j, j + 1);
      GoodCopiesSucceed(t, w.tree, dest, items, place, tmp, digest, j + 1);
    }
  }

  /** A schedule whose first copy throws. */
  function ThrowAtOnce(dest: Path, items: seq<Item>): nat -> PlaceFault {
    (n: nat) => PlaceFault(if n < |items| then |Target(dest, items[n])| else 0, Threw(Ordinary), None, false)
  }

  /** The same, and the temporary file cannot be removed. */
  function LeaveAtOnce(dest: Path, items: seq<Item>): nat -> PlaceFault {
    (n: nat) => PlaceFault(if n < |items| then |Target(dest, items[n])| else 0, Threw(Ordinary), Some([]), false)
  }

  /** A schedule that writes right bytes up to position i and wrong ones there. */
  function TamperAt(dest: Path, items: seq<Item>, good: seq<Bytes>, bad: Bytes, i: nat): nat -> PlaceFault {
    (n: nat) => PlaceFault(if n < |items| then |Target(dest, items[n])| else 0,
                           Wrote(if n < i && n < |good| then good[n] else bad, 0), None, false)
  }

  /** Finalisation under these placements and no other fault. */
  function Otherwise(items: seq<Item>, place: nat -> PlaceFault): Faults {
    Faults(place, |items|, {}, true, 0, {}, 0, {}, false, MarkerFine)
  }

  lemma ThrowAtOnceFails(t: Tree, dest: Path, items: seq<Item>, tmp: Text, digest: Bytes -> Text)
    requires items != [] && forall i :: 0 <= i < |items| ==> items[i].rel != []
    ensures PlaceFrom(t, dest, items, ThrowAtOnce(dest, items), tmp, digest, 0).error.Some?
  {
  }

  // ----- over every fault schedule -----

  predicate SomeRemovalThrows(t: Tree, dest: Path, items: seq<Item>) {
    exists i :: 0 <= i < |items| && RemovalThrows(t, Target(dest, items[i]))
  }

  /** The destination exists, or a link bars the way to it; an indexed path that
      is taken is a readable file that placement never reaches; and no directory
      on the way to a file the run would write is empty. */
  ghost predicate SafeToFail(t: Tree, dest: Path, items: seq<Item>, tmp: Text)
    requires forall i :: 0 <= i < |items| ==> items[i].rel != []
  {
    && (dest in t || LinkAbove(t, dest))
    && (forall i :: 0 <= i < |items| && Target(dest, items[i]) in t ==>
          ReadFile(t, Target(dest, items[i])).Some? && BlockedUpTo(t, dest, items, tmp, i))
    && NoEmptyDirOnTheWay(t, dest, items)
  }

  /** Every clean-up that can fail silently succeeds: no temporary file is left
      behind, and no directory that is empty refuses to go. */
  ghost predicate Tidy(f: Faults) {
    Clean(f.place) && f.stuck == {}
  }

  // A target whose removal throws held no readable file, so the undo removes it.
  lemma ThrowingTargetIsCreated(t: Tree, dest: Path, items: seq<Item>, i: nat)
    requires WfTree(t) && PrefixFree(Targets(dest, items)) && i < |items|
    requires RemovalThrows(t, Target(dest, items[i]))
    ensures Target(dest, items[i]) in CreatedPaths(t, dest, items)
  {
    var p := Target(dest, items[i]);
    assert Targets(dest, items)[i] == p;
    if IsFile(t, p) {
      forall k | 0 <= k < |p| ensures !IsFile(t, p[..k]) { AncestorsAreDirs(t, p, k); }
    }
    CreatedTargets(t, dest, items, p);
  }

  lemma SomeRemovalThrowsExactly(t: Tree, dest: Path, items: seq<Item>)
    requires WfTree(t) && PrefixFree(Targets(dest, items))
    ensures SomeRemovalThrows(t, dest, items) <==>
      exists c :: c in CreatedPaths(t, dest, items) && RemovalThrows(t, c)
  {
    if i :| 0 <= i < |items| && RemovalThrows(t, Target(dest, items[i])) {
      ThrowingTargetIsCreated(t, dest, items, i);
    }
    if c :| c in CreatedPaths(t, dest, items) && RemovalThrows(t, c) {
      CreatedTargets(t, dest, items, c);
      var i :| 0 <= i < |items| && Targets(dest, items)[i] == c;
      assert RemovalThrows(t, Target(dest, items[i]));
    }
  }

  lemma UndoEndsExactly(t: Tree, r: Tree, dest: Path, items: seq<Item>, hi: nat)
    requires UndoSetting(t, r, dest, items, hi)
    ensures Undo(r, dest, CreatedRels(t, dest, items)).ok <==> !SomeRemovalThrows(t, dest, items)
  {
    UndoExactly(t, r, dest, items, hi);
    SomeRemovalThrowsExactly(t, dest, items);
  }

  // A failed placement, its undo, and when the undo restores the tree.
  lemma FailedPlacement(t: Tree, dest: Path, items: seq<Item>, f: Faults, tmp: Text, digest: Bytes -> Text)
    requires WfTree(t) && PrefixFree(Targets(dest, items)) && forall i :: 0 <= i < |items| ==> items[i].rel != []
    requires PlaceFrom(t, dest, items, f.place, tmp, digest, 0).error.Some? && Tidy(f)
    ensures var p := PlaceFrom(t, dest, items, f.place, tmp, digest, 0);
      var x := FinalizeUnmanaged(t, dest, items, f, tmp, digest);
      && x.error == p.error
      && (x.crashed <==> SomeRemovalThrows(t, dest, items) || f.undoStop < |CreatedRels(t, dest, items)|)
      && (!x.crashed ==> (x.tree == t <==> LeavesNoTrace(t, p.tree, dest, items)))
  {
    var p := PlaceFrom(t, dest, items, f.place, tmp, digest, 0);
    var created := CreatedRels(t, dest, items);
    PlaceFromGrows(t, dest, items, f.place, tmp, digest, 0);
    UndoEndsExactly(t, p.tree, dest, items, Reach(p));
    UndoWithExactly(p.tree, dest, created, f.undoStop, f.stuck);
    if Undo(p.tree, dest, created).ok {
      UndoRestoresExactly(t, p.tree, dest, items, Reach(p));
    }
  }

  // Below a link nothing is made.
  lemma NothingBelowLink(t: Tree, r: Tree, dest: Path, items: seq<Item>, hi: nat, q: Path)
    requires WfTree(t) && Grown(t, r, Targets(dest, items), 0, hi) && LinkAbove(t, dest)
    requires q in r && q <= dest
    ensures q in t
  {
    var k :| 0 <= k < |dest| && IsLink(t, dest[..k]);
    var ts := Targets(dest, items);
    forall i | 0 <= i < |ts| ensures ts[i] != dest[..k] {
      assert |ts[i]| >= |dest|;
    }
    assert !WrittenAt(dest[..k], ts, 0, hi);
    assert q == dest[..|q|];
    if |q| <= k {
      assert q == dest[..k][..|q|];
      PrefixInTree(t, dest[..k], q);
    } else {
      assert q[..k] == dest[..k];
      AncestorsAreDirs(r, q, k);
    }
  }

  lemma UnreachedIsKept(t: Tree, r: Tree, dest: Path, items: seq<Item>, hi: nat, i: nat)
    requires PrefixFree(Targets(dest, items)) && Grown(t, r, Targets(dest, items), 0, hi)
    requires hi <= i < |items| && Target(dest, items[i]) in t
    ensures r[Target(dest, items[i])] == t[Target(dest, items[i])]
  {
    var ts := Targets(dest, items);
    assert forall m :: 0 <= m < hi ==> !(ts[m] <= ts[i]);
    assert !WrittenAt(ts[i], ts, 0, hi);
  }

  lemma SafeLeavesNoTrace(t: Tree, dest: Path, items: seq<Item>, place: nat -> PlaceFault, tmp: Text,
                          digest: Bytes -> Text)
    requires WfTree(t) && PrefixFree(Targets(dest, items)) && forall i :: 0 <= i < |items| ==> items[i].rel != []
    requires SafeToFail(t, dest, items, tmp) && Clean(place)
    ensures LeavesNoTrace(t, PlaceFrom(t, dest, items, place, tmp, digest, 0).tree, dest, items)
  {
    var p := PlaceFrom(t, dest, items, place, tmp, digest, 0);
    PlaceFromGrows(t, dest, items, place, tmp, digest, 0);
    forall q | q in p.tree && q <= dest ensures q in t {
      if dest in t { PrefixInTree(t, dest, q); } else { NothingBelowLink(t, p.tree, dest, items, Reach(p), q); }
    }
    forall q | q in CreatedPaths(t, dest, items) ensures q !in t { CreatedTargets(t, dest, items, q); }
    forall q | q in Targets(dest, items) && q in t ensures p.tree[q] == t[q] {
      var i :| 0 <= i < |items| && Targets(dest, items)[i] == q;
      assert q == Target(dest, items[i]);
      var b :| 0 <= b <= i && b < |items| && Blocked(t, Target(dest, items[b]), tmp);
      BlockedStops(t, t, dest, items, place, tmp, digest, 0, b);
      UnreachedIsKept(t, p.tree, dest, items, Reach(p), i);
    }
  }

  /** Where failing is safe, a failed finalisation whose clean-ups succeed and
      whose undo does not throw restores the tree, whatever the other faults. */
  lemma SafeFailureRestores(t: Tree, dest: Path, items: seq<Item>, f: Faults, tmp: Text, digest: Bytes -> Text)
    requires WfTree(t) && PrefixFree(Targets(dest, items)) && forall i :: 0 <= i < |items| ==> items[i].rel != []
    requires SafeToFail(t, dest, items, tmp) && Tidy(f)
    ensures var x := FinalizeUnmanaged(t, dest, items, f, tmp, digest);
      x.error.Some? && !x.crashed ==> x.tree == t
  {
    var p := PlaceFrom(t, dest, items, f.place, tmp, digest, 0);
    if p.error.Some? {
      SafeLeavesNoTrace(t, dest, items, f.place, tmp, digest);
      FailedPlacement(t, dest, items, f, tmp, digest);
    }
  }

  // What the theorem assumes: a fresh temporary name, a destination that passed
  // the check for modified files, and a digest that tells good bytes from bad ones.
  ghost predicate Setting(t: Tree, dest: Path, items: seq<Item>, tmp: Text, digest: Bytes -> Text,
                          good: seq<Bytes>, bad: seq<Bytes>) {
    && WfTree(t) && items != [] && PrefixFree(Targets(dest, items)) && FreshName(items, tmp)
    && |good| == |bad| == |items|
    && (forall i :: 0 <= i < |items| ==> digest(good[i]) == items[i].sha256 && digest(bad[i]) != items[i].sha256)
    && (forall i :: 0 <= i < |items| && ReadFile(t, Target(dest, items[i])).Some? ==>
          digest(t[Target(dest, items[i])].bytes) == items[i].sha256)
  }

  // The first file is clear when neither the destination nor a link above it is there.
  lemma FirstIsClear(t: Tree, dest: Path, items: seq<Item>, tmp: Text)
    requires WfTree(t) && items != [] && items[0].rel != []
    requires dest !in t && !LinkAbove(t, dest) && !RemovalThrows(t, Target(dest, items[0]))
    ensures Clear(t, Target(dest, items[0]), tmp)
  {
    var p := Target(dest, items[0]);
    assert dest <= Parent(p) + [tmp];
    if Parent(p) + [tmp] in t { PrefixInTree(t, Parent(p) + [tmp], dest); }
    forall k | 0 <= k < |p| && p[..k] in t ensures t[p[..k]] == Dir {
      if k < |dest| {
        assert p[..k] == dest[..k];
      } else {
        assert dest <= p[..k];
        PrefixInTree(t, p[..k], dest);
      }
    }
  }

  lemma CreatedAtMost(t: Tree, dest: Path, items: seq<Item>)
    ensures |CreatedRels(t, dest, items)| <= |items|
  {
  }

  // Under placements alone, the undo's own steps all succeed.
  lemma FailedUnder(t: Tree, dest: Path, items: seq<Item>, place: nat -> PlaceFault, tmp: Text, digest: Bytes -> Text)
    requires WfTree(t) && PrefixFree(Targets(dest, items)) && forall i :: 0 <= i < |items| ==> items[i].rel != []
    requires Clean(place) && !SomeRemovalThrows(t, dest, items)
    requires PlaceFrom(t, dest, items, place, tmp, digest, 0).error.Some?
    ensures var x := FinalizeUnmanaged(t, dest, items, Otherwise(items, place), tmp, digest);
      && x.error == PlaceFrom(t, dest, items, place, tmp, digest, 0).error && !x.crashed
      && (x.tree == t <==>
            LeavesNoTrace(t, PlaceFrom(t, dest, items, place, tmp, digest, 0).tree, dest, items))
  {
    CreatedAtMost(t, dest, items);
    FailedPlacement(t, dest, items, Otherwise(items, place), tmp, digest);
  }

  lemma ThrowingTraces(t: Tree, dest: Path, items: seq<Item>, tmp: Text, digest: Bytes -> Text)
    requires WfTree(t) && items != [] && PrefixFree(Targets(dest, items)) && FreshName(items, tmp)
    requires !SomeRemovalThrows(t, dest, items)
    ensures var x := FinalizeUnmanaged(t, dest, items, Otherwise(items, ThrowAtOnce(dest, items)), tmp, digest);
      && x.error.Some? && Ordinarily(x.error.value) && !x.crashed
      && (x.tree == t ==>
           && (dest in t || LinkAbove(t, dest))
           && (forall p :: p in CreatedPaths(t, dest, items) ==> p !in t)
           && NoEmptyDirOnTheWay(t, dest, items))
  {
    ThrowAtOnceFails(t, dest, items, tmp, digest);
    ThrowAtOnceIsOrdinary(t, dest, items, tmp, digest);
    FailedUnder(t, dest, items, ThrowAtOnce(dest, items), tmp, digest);
    if dest !in t && !LinkAbove(t, dest) {
      FirstIsClear(t, dest, items, tmp);
      DestinationIsMade(t, dest, items, tmp, digest);
    }
  }

  /** The error ends in a refusal, not in another protocol code thrown onwards. */
  predicate Ordinarily(e: PlaceError) {
    e != CodedOther
  }

  lemma ThrowAtOnceIsOrdinary(t: Tree, dest: Path, items: seq<Item>, tmp: Text, digest: Bytes -> Text)
    requires WfTree(t) && items != [] && forall i :: 0 <= i < |items| ==> items[i].rel != []
    ensures PlaceFrom(t, dest, items, ThrowAtOnce(dest, items), tmp, digest, 0).error != Some(CodedOther)
  {
    var target, f := Target(dest, items[0]), ThrowAtOnce(dest, items)(0);
    assert target[..0] == [];
    WalkGrows(t, Parent(target), 0, f.stop);
  }

  lemma DestinationIsMade(t: Tree, dest: Path, items: seq<Item>, tmp: Text, digest: Bytes -> Text)
    requires WfTree(t) && items != [] && PrefixFree(Targets(dest, items)) && FreshName(items, tmp)
    requires Clear(t, Target(dest, items[0]), tmp)
    ensures dest in PlaceFrom(t, dest, items, ThrowAtOnce(dest, items), tmp, digest, 0).tree
  {
    var place := ThrowAtOnce(dest, items);
    var p := PlaceFrom(t, dest, items, place, tmp, digest, 0);
    StopsAt(t, t, dest, items, place, tmp, digest, 0, 0);
    PlaceFromGrows(t, dest, items, place, tmp, digest, 0);
    assert dest <= Parent(Target(dest, items[0]));
    PrefixInTree(p.tree, Parent(Target(dest, items[0])), dest);
  }

  lemma TamperStops(t: Tree, dest: Path, items: seq<Item>, tmp: Text, digest: Bytes -> Text,
                    good: seq<Bytes>, bad: seq<Bytes>, i: nat)
    requires Setting(t, dest, items, tmp, digest, good, bad)
    requires i < |items| && ClearUpTo(t, dest, items, tmp, i)
    ensures var p := PlaceFrom(t, dest, items, TamperAt(dest, items, good, bad[i], i), tmp, digest, 0);
      && p.error == Some(HashMismatch)
      && IsFile(p.tree, Target(dest, items[i])) && p.tree[Target(dest, items[i])].bytes == bad[i]
  {
    StopsAt(t, t, dest, items, TamperAt(dest, items, good, bad[i], i), tmp, digest, 0, i);
  }

  lemma ChangedTargetIsTrace(t: Tree, r: Tree, dest: Path, items: seq<Item>, i: nat)
    requires i < |items| && Target(dest, items[i]) in t && Target(dest, items[i]) in r
    requires r[Target(dest, items[i])] != t[Target(dest, items[i])]
    ensures !LeavesNoTrace(t, r, dest, items)
  {
    assert Targets(dest, items)[i] == Target(dest, items[i]);
  }

  lemma TamperingTraces(t: Tree, dest: Path, items: seq<Item>, tmp: Text, digest: Bytes -> Text,
                        good: seq<Bytes>, bad: seq<Bytes>, i: nat)
    requires Setting(t, dest, items, tmp, digest, good, bad) && !SomeRemovalThrows(t, dest, items)
    requires i < |items| && ReadFile(t, Target(dest, items[i])).Some? && ClearUpTo(t, dest, items, tmp, i)
    ensures var f := Otherwise(items, TamperAt(dest, items, good, bad[i], i));
      var x := FinalizeUnmanaged(t, dest, items, f, tmp, digest);
      x.error == Some(HashMismatch) && !x.crashed && x.tree != t
  {
    var place := TamperAt(dest, items, good, bad[i], i);
    TamperStops(t, dest, items, tmp, digest, good, bad, i);
    ChangedTargetIsTrace(t, PlaceFrom(t, dest, items, place, tmp, digest, 0).tree, dest, items, i);
    FailedUnder(t, dest, items, place, tmp, digest);
  }

  // These faults end in an error that is reported, and a changed tree.
  ghost predicate LeavesTrace(t: Tree, dest: Path, items: seq<Item>, f: Faults, tmp: Text, digest: Bytes -> Text)
    requires forall i :: 0 <= i < |items| ==> items[i].rel != []
  {
    var x := FinalizeUnmanaged(t, dest, items, f, tmp, digest);
    x.error.Some? && Ordinarily(x.error.value) && !x.crashed && x.tree != t
  }

  lemma UnsafeFailureTraces(t: Tree, dest: Path, items: seq<Item>, tmp: Text, digest: Bytes -> Text,
                            good: seq<Bytes>, bad: seq<Bytes>) returns (place: nat -> PlaceFault)
    requires Setting(t, dest, items, tmp, digest, good, bad) && !SomeRemovalThrows(t, dest, items)
    requires !SafeToFail(t, dest, items, tmp)
    ensures Clean(place) && LeavesTrace(t, dest, items, Otherwise(items, place), tmp, digest)
  {
    ThrowingTraces(t, dest, items, tmp, digest);
    place := ThrowAtOnce(dest, items);
    if FinalizeUnmanaged(t, dest, items, Otherwise(items, place), tmp, digest).tree == t {
      var i :| 0 <= i < |items| && Target(dest, items[i]) in t
        && !(ReadFile(t, Target(dest, items[i])).Some? && BlockedUpTo(t, dest, items, tmp, i));
      assert Targets(dest, items)[i] == Target(dest, items[i]);
      CreatedTargets(t, dest, items, Target(dest, items[i]));
      ClearUpToExactly(t, dest, items, tmp, i);
      TamperingTraces(t, dest, items, tmp, digest, good, bad, i);
      place := TamperAt(dest, items, good, bad[i], i);
    }
  }

  /** On an unmanaged destination every failing schedule whose clean-ups succeed
      and that ends in a report leaves the tree exactly as it was if and only if
      no schedule ends in a report, because removing an indexed path would throw,
      or failing is safe. */
  lemma AllOrNothingExactly(t: Tree, dest: Path, items: seq<Item>, tmp: Text, digest: Bytes -> Text,
                            good: seq<Bytes>, bad: seq<Bytes>)
    requires Setting(t, dest, items, tmp, digest, good, bad)
    ensures (forall f :: Tidy(f) ==> !LeavesTrace(t, dest, items, f, tmp, digest)) <==>
      SomeRemovalThrows(t, dest, items) || SafeToFail(t, dest, items, tmp)
  {
    if SomeRemovalThrows(t, dest, items) {
      forall f | Tidy(f) ensures !LeavesTrace(t, dest, items, f, tmp, digest) {
        ThrowingRemovalCrashes(t, dest, items, f, tmp, digest);
      }
    } else if SafeToFail(t, dest, items, tmp) {
      forall f | Tidy(f) ensures !LeavesTrace(t, dest, items, f, tmp, digest) {
        SafeFailureRestores(t, dest, items, f, tmp, digest);
      }
    } else {
      var place := UnsafeFailureTraces(t, dest, items, tmp, digest, good, bad);
      assert Tidy(Otherwise(items, place)) && LeavesTrace(t, dest, items, Otherwise(items, place), tmp, digest);
    }
  }

  // ----- temporary files left behind -----

  /** The same placements, every temporary file removed. */
  function Cleaned(place: nat -> PlaceFault): nat -> PlaceFault {
    (n: nat) => place(n).(leftover := None)
  }

  // The name a failed placement leaves its temporary file at.
  function LeftName(dest: Path, items: seq<Item>, done: nat, tmp: Text): Path
    requires done < |items| && items[done].rel != []
  {
    Parent(Target(dest, items[done])) + [tmp]
  }

  /** Placement differs from its clean counterpart by one temporary file at most. */
  ghost predicate AsideFromTemp(p: Placing, q: Placing, dest: Path, items: seq<Item>, tmp: Text)
    requires forall i :: 0 <= i < |items| ==> items[i].rel != []
  {
    && p.error == q.error && p.done == q.done
    && (p.tree == q.tree
        || (p.error.Some? && p.done < |items| && LeftName(dest, items, p.done, tmp) !in q.tree
            && exists bytes :: p.tree == Left(q.tree, LeftName(dest, items, p.done, tmp), Some(bytes))))
  }

  lemma LeftoverOfOne(t: Tree, target: Path, sha: Text, f: PlaceFault, tmp: Text, digest: Bytes -> Text)
    requires target != []
    ensures var w := PlaceOne(t, target, sha, f, tmp, digest);
      var x := PlaceOne(t, target, sha, f.(leftover := None), tmp, digest);
      && w.error == x.error
      && (w.tree == x.tree
          || (w.error.Some? && Parent(target) + [tmp] !in x.tree && f.leftover.Some?
              && w.tree == Left(x.tree, Parent(target) + [tmp], f.leftover)))
  {
  }

  lemma {:induction false} LeftoverIsAll(t: Tree, dest: Path, items: seq<Item>, place: nat -> PlaceFault, tmp: Text,
                                         digest: Bytes -> Text, j: nat)
    requires j <= |items| && forall i :: 0 <= i < |items| ==> items[i].rel != []
    ensures AsideFromTemp(PlaceFrom(t, dest, items, place, tmp, digest, j),
                          PlaceFrom(t, dest, items, Cleaned(place), tmp, digest, j), dest, items, tmp)
    decreases |items| - j
  {
    if j < |items| {
      var target := Target(dest, items[j]);
      LeftoverOfOne(t, target, items[j].sha256, place(j), tmp, digest);
      var w := PlaceOne(t, target, items[j].sha256, place(j), tmp, digest);
      if w.error.None? {
        LeftoverIsAll(w.tree, dest, items, place, tmp, digest, j + 1);
      }
    }
  }

  /** What a placement without error has changed, and that everything is in place. */
  lemma PlacedGrows(t: Tree, dest: Path, items: seq<Item>, place: nat -> PlaceFault, tmp: Text, digest: Bytes -> Text)
    requires WfTree(t) && PrefixFree(Targets(dest, items)) && forall i :: 0 <= i < |items| ==> items[i].rel != []
    requires PlaceFrom(t, dest, items, place, tmp, digest, 0).error.None?
    ensures var r := PlaceFrom(t, dest, items, place, tmp, digest, 0).tree;
      Grown(t, r, Targets(dest, items), 0, |items|) && AllInPlace(r, dest, items, digest, 0, |items|)
  {
    LeftoverIsAll(t, dest, items, place, tmp, digest, 0);
    PlaceFromGrows(t, dest, items, Cleaned(place), tmp, digest, 0);
  }

  // ----- runs that end without a report -----

  lemma ThrowingTargetBlocks(t: Tree, r: Tree, targets: seq<Path>, hi: nat, i: nat)
    requires WfTree(t) && Grown(t, r, targets, 0, hi) && PrefixFree(targets) && i < |targets|
    requires IsFile(r, targets[i])
    ensures !RemovalThrows(t, targets[i])
  {
    var p := targets[i];
    NothingAboveTarget(targets, i);
    forall k | 0 <= k < |p| ensures !IsFile(t, p[..k]) {
      AncestorsAreDirs(r, p, k);
      assert p[..k] <= p && !WrittenAt(p[..k], targets, 0, hi);
    }
  }

  // Placement cannot succeed over a target whose removal throws.
  lemma ThrowingTargetFails(t: Tree, dest: Path, items: seq<Item>, place: nat -> PlaceFault, tmp: Text,
                            digest: Bytes -> Text)
    requires WfTree(t) && PrefixFree(Targets(dest, items)) && forall k :: 0 <= k < |items| ==> items[k].rel != []
    requires SomeRemovalThrows(t, dest, items)
    ensures PlaceFrom(t, dest, items, place, tmp, digest, 0).error.Some?
  {
    var i :| 0 <= i < |items| && RemovalThrows(t, Target(dest, items[i]));
    var p := PlaceFrom(t, dest, items, Cleaned(place), tmp, digest, 0);
    LeftoverIsAll(t, dest, items, place, tmp, digest, 0);
    PlaceFromGrows(t, dest, items, Cleaned(place), tmp, digest, 0);
    if p.error.None? {
      assert InPlace(p.tree, Target(dest, items[i]), items[i].sha256, digest);
      ThrowingTargetBlocks(t, p.tree, Targets(dest, items), Reach(p), i);
    }
  }

  // A temporary file changes nothing for the removal of indexed paths.
  lemma TempAside(r: Tree, q: Path, node: Node, c: Path)
    requires !(q <= c)
    ensures RemovalThrows(r[q := node], c) <==> RemovalThrows(r, c)
  {
    assert c[..|c|] == c;
    forall k | 0 <= k <= |c| ensures c[..k] != q { assert c[..k] <= c; }
    if k :| 0 <= k < |c| && IsFile(r, c[..k]) { assert IsFile(r[q := node], c[..k]); }
  }

  lemma TempBesideTargets(dest: Path, items: seq<Item>, tmp: Text, done: nat, c: Path)
    requires FreshName(items, tmp) && done < |items| && c in Targets(dest, items)
    ensures !(LeftName(dest, items, done, tmp) <= c)
  {
    var q := LeftName(dest, items, done, tmp);
    var i :| 0 <= i < |items| && Targets(dest, items)[i] == c;
    if q <= c { TmpInside(dest, items[i], q, |q| - 1); }
  }

  lemma UndoEndsWithTemp(t: Tree, p: Placing, q: Placing, dest: Path, items: seq<Item>, tmp: Text)
    requires WfTree(t) && PrefixFree(Targets(dest, items)) && FreshName(items, tmp)
    requires Grown(t, q.tree, Targets(dest, items), 0, Reach(q)) && AsideFromTemp(p, q, dest, items, tmp)
    ensures Undo(p.tree, dest, CreatedRels(t, dest, items)).ok <==> !SomeRemovalThrows(t, dest, items)
  {
    var cs := CreatedPaths(t, dest, items);
    UndoEndsExactly(t, q.tree, dest, items, Reach(q));
    CreatedPrefixFree(t, dest, items);
    RemoveFilesExactly(q.tree, cs);
    RemoveFilesExactly(p.tree, cs);
    if p.tree != q.tree {
      var left := LeftName(dest, items, p.done, tmp);
      forall i | 0 <= i < |cs| ensures RemovalThrows(p.tree, cs[i]) <==> RemovalThrows(q.tree, cs[i]) {
        assert cs[i] in cs;
        CreatedTargets(t, dest, items, cs[i]);
        TempBesideTargets(dest, items, tmp, p.done, cs[i]);
        TempAside(q.tree, left, p.tree[left], cs[i]);
      }
    }
  }

  /** Finalisation on an unmanaged destination ends without any report exactly
      when placement fails and the undo throws: because a directory stands at an
      indexed path or a file above one, and then placement always fails, or
      because one of its removals fails by itself. */
  lemma NoReportExactly(t: Tree, dest: Path, items: seq<Item>, f: Faults, tmp: Text, digest: Bytes -> Text)
    requires WfTree(t) && PrefixFree(Targets(dest, items)) && FreshName(items, tmp)
    ensures FinalizeUnmanaged(t, dest, items, f, tmp, digest).crashed <==>
      || SomeRemovalThrows(t, dest, items)
      || (PlaceFrom(t, dest, items, f.place, tmp, digest, 0).error.Some?
          && f.undoStop < |CreatedRels(t, dest, items)|)
  {
    var p := PlaceFrom(t, dest, items, f.place, tmp, digest, 0);
    var q := PlaceFrom(t, dest, items, Cleaned(f.place), tmp, digest, 0);
    if SomeRemovalThrows(t, dest, items) { ThrowingTargetFails(t, dest, items, f.place, tmp, digest); }
    if p.error.Some? {
      LeftoverIsAll(t, dest, items, f.place, tmp, digest, 0);
      PlaceFromGrows(t, dest, items, Cleaned(f.place), tmp, digest, 0);
      UndoEndsWithTemp(t, p, q, dest, items, tmp);
      UndoWithExactly(p.tree, dest, CreatedRels(t, dest, items), f.undoStop, f.stuck);
    }
  }

  lemma ThrowingRemovalCrashes(t: Tree, dest: Path, items: seq<Item>, f: Faults, tmp: Text, digest: Bytes -> Text)
    requires WfTree(t) && PrefixFree(Targets(dest, items)) && FreshName(items, tmp)
    requires SomeRemovalThrows(t, dest, items)
    ensures FinalizeUnmanaged(t, dest, items, f, tmp, digest).crashed
  {
    NoReportExactly(t, dest, items, f, tmp, digest);
  }

  // ----- when clean-ups may fail too -----

  lemma {:induction false} PruneKeepsFiles(t: Tree, ds: seq<Path>, p: Path)
    requires IsFile(t, p)
    ensures IsFile(Prune(t, ds), p)
  {
    if ds != [] { PruneKeepsFiles(RemoveIfEmpty(t, ds[0]), ds[1..], p); }
  }

  lemma {:induction false} RemoveUntilKeeps(t: Tree, ps: seq<Path>, stop: nat, p: Path)
    requires IsFile(t, p) && p !in ps
    ensures IsFile(RemoveUntil(t, ps, stop).tree, p)
  {
    if ps != [] && stop > 0 && !RemovalThrows(t, ps[0]) {
      RemoveUntilKeeps(t - {ps[0]}, ps[1..], stop - 1, p);
    }
  }

  /** A temporary file left behind outlives the undo. */
  lemma LeftoverSurvives(t: Tree, r: Tree, dest: Path, items: seq<Item>, done: nat, tmp: Text, stop: nat,
                         stuck: set<Path>)
    requires FreshName(items, tmp) && done < |items| && IsFile(r, LeftName(dest, items, done, tmp))
    ensures IsFile(UndoWith(r, dest, CreatedRels(t, dest, items), stop, stuck).tree, LeftName(dest, items, done, tmp))
  {
    var q, created := LeftName(dest, items, done, tmp), CreatedRels(t, dest, items);
    var cs := Below(dest, created);
    if q in cs {
      CreatedTargets(t, dest, items, q);
      assert q in Targets(dest, items);
      TempBesideTargets(dest, items, tmp, done, q);
    }
    RemoveUntilKeeps(r, cs, stop, q);
    PruneKeepsFiles(RemoveUntil(r, cs, stop).tree, Unstuck(Below(dest, PruneOrder(created)), stuck), q);
  }

  lemma {:induction false} UnstuckMembers(ds: seq<Path>, stuck: set<Path>)
    ensures forall d :: d in Unstuck(ds, stuck) ==> d in ds
  {
    if ds != [] { UnstuckMembers(ds[1..], stuck); }
  }

  lemma {:induction false} RemoveAbsent(t: Tree, ps: seq<Path>, stop: nat)
    requires forall p :: p in ps ==> p !in t
    ensures RemoveUntil(t, ps, stop).tree == t
  {
    if ps != [] && stop > 0 && !RemovalThrows(t, ps[0]) {
      assert ps[0] in ps && t - {ps[0]} == t;
      RemoveAbsent(t, ps[1..], stop - 1);
    }
  }

  /** Undoing nothing, where failing is safe, changes nothing under any fault. */
  lemma UndoOfNothing(t: Tree, dest: Path, items: seq<Item>, tmp: Text, stop: nat, stuck: set<Path>)
    requires WfTree(t) && (forall i :: 0 <= i < |items| ==> items[i].rel != []) && SafeToFail(t, dest, items, tmp)
    ensures UndoWith(t, dest, CreatedRels(t, dest, items), stop, stuck).tree == t
  {
    var created := CreatedRels(t, dest, items);
    var cs, ds := Below(dest, created), Below(dest, PruneOrder(created));
    forall c | c in cs ensures c !in t { CreatedTargets(t, dest, items, c); }
    RemoveAbsent(t, cs, stop);
    UnstuckMembers(ds, stuck);
    forall d | d in Unstuck(ds, stuck) ensures !EmptyDir(t, d) { assert d in PruneDirs(t, dest, items); }
    NothingEmptyNothingPruned(t, Unstuck(ds, stuck));
  }

  lemma FirstBlockedChangesNothing(t: Tree, dest: Path, items: seq<Item>, f: Faults, tmp: Text, digest: Bytes -> Text)
    requires WfTree(t) && items != [] && forall i :: 0 <= i < |items| ==> items[i].rel != []
    requires Blocked(t, Target(dest, items[0]), tmp)
    ensures var p := PlaceFrom(t, dest, items, f.place, tmp, digest, 0); p.error.Some? && p.tree == t
  {
    BlockedPlaceOne(t, Target(dest, items[0]), items[0].sha256, f.place(0), tmp, digest);
  }

  lemma LeavingTraces(t: Tree, dest: Path, items: seq<Item>, tmp: Text, digest: Bytes -> Text)
    requires WfTree(t) && items != [] && PrefixFree(Targets(dest, items)) && FreshName(items, tmp)
    requires !SomeRemovalThrows(t, dest, items) && !Blocked(t, Target(dest, items[0]), tmp)
    ensures LeavesTrace(t, dest, items, Otherwise(items, LeaveAtOnce(dest, items)), tmp, digest)
  {
    var place, target := LeaveAtOnce(dest, items), Target(dest, items[0]);
    var f := Otherwise(items, place);
    ClearExactly(t, target, tmp);
    ClearWay(t, target, tmp, place(0).stop);
    var p := PlaceFrom(t, dest, items, place, tmp, digest, 0);
    assert IsFile(p.tree, LeftName(dest, items, 0, tmp));
    CreatedAtMost(t, dest, items);
    NoReportExactly(t, dest, items, f, tmp, digest);
    LeftoverSurvives(t, p.tree, dest, items, 0, tmp, f.undoStop, f.stuck);
    assert LeftName(dest, items, 0, tmp) !in t;
  }

  /** Over every fault, failing clean-ups included: every failing schedule that
      ends in a report leaves the tree exactly as it was if and only if no
      schedule ends in a report, or failing is safe and already the first file is
      blocked, so that nothing is ever written. */
  lemma NothingLeftExactly(t: Tree, dest: Path, items: seq<Item>, tmp: Text, digest: Bytes -> Text,
                           good: seq<Bytes>, bad: seq<Bytes>)
    requires Setting(t, dest, items, tmp, digest, good, bad)
    ensures (forall f :: !LeavesTrace(t, dest, items, f, tmp, digest)) <==>
      || SomeRemovalThrows(t, dest, items)
      || (SafeToFail(t, dest, items, tmp) && Blocked(t, Target(dest, items[0]), tmp))
  {
    if SomeRemovalThrows(t, dest, items) {
      forall f ensures !LeavesTrace(t, dest, items, f, tmp, digest) {
        ThrowingRemovalCrashes(t, dest, items, f, tmp, digest);
      }
    } else if !Blocked(t, Target(dest, items[0]), tmp) {
      LeavingTraces(t, dest, items, tmp, digest);
    } else if !SafeToFail(t, dest, items, tmp) {
      var place := UnsafeFailureTraces(t, dest, items, tmp, digest, good, bad);
    } else {
      forall f ensures !LeavesTrace(t, dest, items, f, tmp, digest) {
        FirstBlockedChangesNothing(t, dest, items, f, tmp, digest);
        UndoOfNothing(t, dest, items, tmp, f.undoStop, f.stuck);
      }
    }
  }
}
