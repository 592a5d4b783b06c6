// Over every fault schedule: when the refusals of a run on an unmanaged
// destination leave the tree as it was, and when some run ends without a report.
module Transaction {
  import opened Texts
  import opened Utf8
  import opened FileTree
  import opened Install
  import opened AllOrNothing
  import opened InstallRun
  import opened InstallTheorems
  import opened InstallSafety
  import opened NoReport

  function StagedBytes(staged: Staged, items: seq<Item>): (good: seq<Bytes>)
    requires forall i :: 0 <= i < |items| ==> items[i].rel in staged
    ensures |good| == |items| && forall i :: 0 <= i < |items| ==> good[i] == staged[items[i].rel]
  {
    seq(|items|, i requires 0 <= i < |items| => staged[items[i].rel])
  }

  // A run that is about to write to an unmanaged destination, with a temporary
  // name that no indexed path holds; bad has other bytes for every file.
  ghost predicate AboutToPlace(input: Input, t: Tree, dest: Path, m: Machine, s: Schedule, bad: seq<Bytes>) {
    var items := PlacedItems(input.index);
    && WfTree(t) && Chosen(input, t) == Some(dest) && !IsManaged(t, dest, m)
    && ReachesFinalize(t, dest, input, m, s) && FreshName(items, input.tmp)
    && |bad| == |items| && forall i :: 0 <= i < |items| ==> m.digest(bad[i]) != items[i].sha256
  }

  // The same run under other faults while finalising.
  function With(s: Schedule, f: Faults): Schedule {
    s.(faults := f)
  }

  lemma RunIsFinalize(input: Input, t: Tree, dest: Path, m: Machine, s: Schedule, bad: seq<Bytes>, f: Faults)
    requires AboutToPlace(input, t, dest, m, s, bad)
    ensures var r := RunProtocol(input, t, m, With(s, f));
      var items := PlacedItems(input.index);
      var end := AfterUnmanaged(FinalizeUnmanaged(t, dest, items, f, input.tmp, m.digest),
                                StagingOf(input, s).staged, dest, input.tmp, m, f, |items|);
      r.tree == end.tree && r.outcome == end.outcome
  {
    RunIsMaterialize(input, t, m, With(s, f));
    MaterializeEither(t, dest, input, m, With(s, f));
  }

  lemma PlacementSetting(input: Input, t: Tree, dest: Path, m: Machine, s: Schedule, bad: seq<Bytes>)
    returns (good: seq<Bytes>)
    requires AboutToPlace(input, t, dest, m, s, bad) && PlacedItems(input.index) != []
    ensures Setting(t, dest, PlacedItems(input.index), input.tmp, m.digest, good, bad)
  {
    var items, staged := PlacedItems(input.index), StagingOf(input, s).staged;
    ReachedPrefixFree(t, dest, input, m, s);
    AllMatchExactly(staged, items, s.unreadable, m.digest, 0);
    ExistingAgree(t, dest, input, m);
    good := StagedBytes(staged, items);
  }

  lemma ExistingAgree(t: Tree, dest: Path, input: Input, m: Machine)
    requires Objection(t, dest, input, m).None? && !IsManaged(t, dest, m)
    ensures var items := PlacedItems(input.index);
      forall i :: 0 <= i < |items| && ReadFile(t, Target(dest, items[i])).Some? ==>
        m.digest(t[Target(dest, items[i])].bytes) == items[i].sha256
  {
    var items := PlacedItems(input.index);
    assert !Modified(t, dest, items, m.digest);
    forall i | 0 <= i < |items| && ReadFile(t, Target(dest, items[i])).Some?
      ensures m.digest(t[Target(dest, items[i])].bytes) == items[i].sha256
    {
      assert Agrees(ReadFile(t, Target(dest, items[i])).value, items[i], m.digest);
    }
  }

  // ----- refusals -----

  // Faults that end in an error and change the tree end the run in a refusal.
  lemma TraceIsRefused(input: Input, t: Tree, dest: Path, m: Machine, s: Schedule, bad: seq<Bytes>, f: Faults)
    requires AboutToPlace(input, t, dest, m, s, bad) && !f.clearThrows
    requires LeavesTrace(t, dest, PlacedItems(input.index), f, input.tmp, m.digest)
    ensures var r := RunProtocol(input, t, m, With(s, f)); r.outcome.RefusedRun? && r.tree != t
  {
    RunIsFinalize(input, t, dest, m, s, bad, f);
  }

  /** Where failing is not safe, some faults whose clean-ups succeed end in a
      refusal and a changed tree. */
  lemma UnsafeRefusalChangesTree(input: Input, t: Tree, dest: Path, m: Machine, s: Schedule, bad: seq<Bytes>)
    returns (f: Faults)
    requires AboutToPlace(input, t, dest, m, s, bad) && PlacedItems(input.index) != []
    requires !SomeRemovalThrows(t, dest, PlacedItems(input.index))
    requires !SafeToFail(t, dest, PlacedItems(input.index), input.tmp)
    ensures Tidy(f)
    ensures var r := RunProtocol(input, t, m, With(s, f)); r.outcome.RefusedRun? && r.tree != t
  {
    var items := PlacedItems(input.index);
    var good := PlacementSetting(input, t, dest, m, s, bad);
    var place := UnsafeFailureTraces(t, dest, items, input.tmp, m.digest, good, bad);
    f := Otherwise(items, place);
    TraceIsRefused(input, t, dest, m, s, bad, f);
  }

  /** A schedule that places everything, where nothing stands in the way. */
  lemma EverythingCanBePlaced(input: Input, t: Tree, dest: Path, m: Machine, s: Schedule, bad: seq<Bytes>)
    returns (f: Faults)
    requires AboutToPlace(input, t, dest, m, s, bad)
    requires !SomeRemovalThrows(t, dest, PlacedItems(input.index))
    requires !SomeBlocked(t, dest, PlacedItems(input.index), input.tmp)
    ensures Tidy(f) && Orderly(f, PlacedItems(input.index))
    ensures PlaceFrom(t, dest, PlacedItems(input.index), f.place, input.tmp, m.digest, 0).error == None
  {
    var items := PlacedItems(input.index);
    if items == [] {
      f := Otherwise(items, ThrowAtOnce(dest, items));
    } else {
      var good := PlacementSetting(input, t, dest, m, s, bad);
      f := Otherwise(items, TamperAt(dest, items, good, bad[0], |items|));
      ClearUpToExactly(t, dest, items, input.tmp, |items|);
      GoodCopiesSucceed(t, t, dest, items, f.place, input.tmp, m.digest, 0);
    }
  }

  lemma PlacedChangesTree(t: Tree, dest: Path, items: seq<Item>, place: nat -> PlaceFault, tmp: Text,
                          digest: Bytes -> Text)
    requires WfTree(t) && PrefixFree(Targets(dest, items)) && forall i :: 0 <= i < |items| ==> items[i].rel != []
    requires items != [] && Target(dest, items[0]) !in t
    requires PlaceFrom(t, dest, items, place, tmp, digest, 0).error == None && dest + [tmp] in t
    ensures var r := PlaceFrom(t, dest, items, place, tmp, digest, 0).tree;
      r != t && IsDir(r, dest) && dest + [tmp] in r
  {
    var r := PlaceFrom(t, dest, items, place, tmp, digest, 0).tree;
    PlacedGrows(t, dest, items, place, tmp, digest);
    assert InPlace(r, Target(dest, items[0]), items[0].sha256, digest);
    assert Parent(dest + [tmp]) == dest;
  }

  lemma FirstIsNew(t: Tree, dest: Path, items: seq<Item>, tmp: Text)
    requires items != [] && (forall i :: 0 <= i < |items| ==> items[i].rel != [])
    requires SafeToFail(t, dest, items, tmp) && !SomeBlocked(t, dest, items, tmp)
    ensures Target(dest, items[0]) !in t
  {
  }

  /** A planted temporary name lets every file be placed before the marker is refused. */
  lemma PlantedNameRefusesAfterPlacing(input: Input, t: Tree, dest: Path, m: Machine, s: Schedule, bad: seq<Bytes>)
    returns (f: Faults)
    requires AboutToPlace(input, t, dest, m, s, bad) && PlacedItems(input.index) != []
    requires !SomeRemovalThrows(t, dest, PlacedItems(input.index))
    requires SafeToFail(t, dest, PlacedItems(input.index), input.tmp)
    requires dest + [input.tmp] in t && !SomeBlocked(t, dest, PlacedItems(input.index), input.tmp)
    ensures Tidy(f)
    ensures var r := RunProtocol(input, t, m, With(s, f));
      r.outcome == RefusedRun(E_DESTINATION_SYMLINK, MATERIALIZE, false) && r.tree != t
  {
    var items := PlacedItems(input.index);
    f := EverythingCanBePlaced(input, t, dest, m, s, bad);
    ReachedPrefixFree(t, dest, input, m, s);
    FirstIsNew(t, dest, items, input.tmp);
    PlacedChangesTree(t, dest, items, f.place, input.tmp, m.digest);
    RunIsFinalize(input, t, dest, m, s, bad, f);
  }

  lemma NothingToPlace(input: Input, t: Tree, dest: Path, m: Machine, s: Schedule, bad: seq<Bytes>, f: Faults)
    requires AboutToPlace(input, t, dest, m, s, bad) && PlacedItems(input.index) == []
    ensures Keeps(input, t, m, s, f)
  {
    RunIsFinalize(input, t, dest, m, s, bad, f);
  }

  lemma ThrowingRemovalNeverRefuses(input: Input, t: Tree, dest: Path, m: Machine, s: Schedule, bad: seq<Bytes>,
                                    f: Faults)
    requires AboutToPlace(input, t, dest, m, s, bad) && SomeRemovalThrows(t, dest, PlacedItems(input.index))
    ensures RunProtocol(input, t, m, With(s, f)).outcome.Crashed?
  {
    ReachedThrowsExactly(input, t, m, With(s, f), dest);
    RunIsMaterialize(input, t, m, With(s, f));
  }

  /** Under these faults the run, if it refuses, leaves the tree as it was. */
  ghost predicate Keeps(input: Input, t: Tree, m: Machine, s: Schedule, f: Faults) {
    RunProtocol(input, t, m, With(s, f)).outcome.RefusedRun? ==> RunProtocol(input, t, m, With(s, f)).tree == t
  }

  ghost predicate RefusalsLeaveTree(input: Input, t: Tree, m: Machine, s: Schedule) {
    forall f :: Tidy(f) ==> Keeps(input, t, m, s, f)
  }

  /** A run about to write to an unmanaged destination, whatever the tree, leaves
      it exactly as it was under every fault whose clean-ups succeed and that ends
      in a refusal if and only if there is nothing to place, or no fault ends in a
      refusal because removing an indexed path would throw, or failing is safe and
      the marker's temporary name is free or never reached. */
  lemma RefusalsLeaveTreeExactly(input: Input, t: Tree, dest: Path, m: Machine, s: Schedule, bad: seq<Bytes>)
    requires AboutToPlace(input, t, dest, m, s, bad)
    ensures var items := PlacedItems(input.index);
      RefusalsLeaveTree(input, t, m, s) <==>
        || items == []
        || SomeRemovalThrows(t, dest, items)
        || (SafeToFail(t, dest, items, input.tmp)
            && (dest + [input.tmp] !in t || SomeBlocked(t, dest, items, input.tmp)))
  {
    var items := PlacedItems(input.index);
    if items == [] {
      forall f ensures Keeps(input, t, m, s, f) { NothingToPlace(input, t, dest, m, s, bad, f); }
    } else if SomeRemovalThrows(t, dest, items) {
      forall f ensures Keeps(input, t, m, s, f) { ThrowingRemovalNeverRefuses(input, t, dest, m, s, bad, f); }
    } else if !SafeToFail(t, dest, items, input.tmp) {
      var f := UnsafeRefusalChangesTree(input, t, dest, m, s, bad);
      assert !Keeps(input, t, m, s, f);
    } else if dest + [input.tmp] in t && !SomeBlocked(t, dest, items, input.tmp) {
      var f := PlantedNameRefusesAfterPlacing(input, t, dest, m, s, bad);
      assert !Keeps(input, t, m, s, f);
    } else {
      forall f | Tidy(f) ensures Keeps(input, t, m, s, f) { RefusedRunLeavesTree(input, t, m, With(s, f)); }
    }
  }

  lemma FirstBlockedUndone(t: Tree, dest: Path, items: seq<Item>, f: Faults, tmp: Text, digest: Bytes -> Text)
    requires WfTree(t) && items != [] && forall i :: 0 <= i < |items| ==> items[i].rel != []
    requires SafeToFail(t, dest, items, tmp) && Blocked(t, Target(dest, items[0]), tmp)
    ensures var x := FinalizeUnmanaged(t, dest, items, f, tmp, digest); x.error.Some? && x.tree == t
  {
    FirstBlockedChangesNothing(t, dest, items, f, tmp, digest);
    UndoOfNothing(t, dest, items, tmp, f.undoStop, f.stuck);
  }

  lemma FirstBlockedKeeps(input: Input, t: Tree, dest: Path, m: Machine, s: Schedule, bad: seq<Bytes>, f: Faults)
    requires AboutToPlace(input, t, dest, m, s, bad) && PlacedItems(input.index) != []
    requires SafeToFail(t, dest, PlacedItems(input.index), input.tmp)
    requires Blocked(t, Target(dest, PlacedItems(input.index)[0]), input.tmp)
    ensures Keeps(input, t, m, s, f)
  {
    FirstBlockedUndone(t, dest, PlacedItems(input.index), f, input.tmp, m.digest);
    RunIsFinalize(input, t, dest, m, s, bad, f);
  }

  ghost predicate AllRefusalsLeaveTree(input: Input, t: Tree, m: Machine, s: Schedule) {
    forall f :: Keeps(input, t, m, s, f)
  }

  /** Over every fault, clean-ups that fail included, the same holds if and only
      if there is nothing to place, or no fault ends in a refusal, or failing is
      safe and already the first file is blocked. */
  lemma AllRefusalsLeaveTreeExactly(input: Input, t: Tree, dest: Path, m: Machine, s: Schedule, bad: seq<Bytes>)
    requires AboutToPlace(input, t, dest, m, s, bad)
    ensures var items := PlacedItems(input.index);
      AllRefusalsLeaveTree(input, t, m, s) <==>
        || items == []
        || SomeRemovalThrows(t, dest, items)
        || (SafeToFail(t, dest, items, input.tmp) && Blocked(t, Target(dest, items[0]), input.tmp))
  {
    var items := PlacedItems(input.index);
    if items == [] {
      forall f ensures Keeps(input, t, m, s, f) { NothingToPlace(input, t, dest, m, s, bad, f); }
    } else if SomeRemovalThrows(t, dest, items) {
      forall f ensures Keeps(input, t, m, s, f) { ThrowingRemovalNeverRefuses(input, t, dest, m, s, bad, f); }
    } else if !SafeToFail(t, dest, items, input.tmp) {
      var f := UnsafeRefusalChangesTree(input, t, dest, m, s, bad);
      assert !Keeps(input, t, m, s, f);
    } else if !Blocked(t, Target(dest, items[0]), input.tmp) {
      var f := LeftoverRefused(input, t, dest, m, s, bad);
      assert !Keeps(input, t, m, s, f);
    } else {
      forall f ensures Keeps(input, t, m, s, f) { FirstBlockedKeeps(input, t, dest, m, s, bad, f); }
    }
  }

  /** A temporary file that cannot be removed is left behind by the refusal. */
  lemma LeftoverRefused(input: Input, t: Tree, dest: Path, m: Machine, s: Schedule, bad: seq<Bytes>)
    returns (f: Faults)
    requires AboutToPlace(input, t, dest, m, s, bad) && PlacedItems(input.index) != []
    requires !SomeRemovalThrows(t, dest, PlacedItems(input.index))
    requires !Blocked(t, Target(dest, PlacedItems(input.index)[0]), input.tmp)
    ensures var r := RunProtocol(input, t, m, With(s, f)); r.outcome.RefusedRun? && r.tree != t
  {
    var items := PlacedItems(input.index);
    ReachedPrefixFree(t, dest, input, m, s);
    LeavingTraces(t, dest, items, input.tmp, m.digest);
    f := Otherwise(items, LeaveAtOnce(dest, items));
    TraceIsRefused(input, t, dest, m, s, bad, f);
  }

  // ----- runs without a report -----

  /** The marker's name is a directory, or becomes one on the way to a file. */
  predicate MarkerIsDir(t: Tree, dest: Path, items: seq<Item>) {
    || IsDir(t, dest + [MARKER_NAME])
    || exists i :: 0 <= i < |items| && dest + [MARKER_NAME] <= Target(dest, items[i])
                   && dest + [MARKER_NAME] != Target(dest, items[i])
  }

  lemma {:induction false} PlannedDestination(t: Tree, p: Path, k: nat)
    requires WfTree(t) && k <= |p| && WalkProblem(t, p, k) == None && IsDir(t, p[..k]) && p in t
    ensures IsDir(t, p)
    decreases |p| - k
  {
    if k == |p| {
      assert p[..k] == p;
    } else {
      assert p[..k + 1] <= p;
      PrefixInTree(t, p, p[..k + 1]);
      PlannedDestination(t, p, k + 1);
    }
  }

  lemma ChosenIsDir(input: Input, t: Tree, m: Machine, s: Schedule, dest: Path)
    requires WfTree(t) && Chosen(input, t) == Some(dest)
    ensures dest in t <==> IsDir(t, dest)
  {
    MaterializesOnlyWhenApproved(input, t, m, s);
    if dest in t {
      assert dest[..0] == [];
      PlannedDestination(t, dest, 0);
    }
  }

  lemma PlacedTargets(t: Tree, dest: Path, items: seq<Item>, place: nat -> PlaceFault, tmp: Text, digest: Bytes -> Text)
    requires WfTree(t) && PrefixFree(Targets(dest, items)) && forall i :: 0 <= i < |items| ==> items[i].rel != []
    requires PlaceFrom(t, dest, items, place, tmp, digest, 0).error == None
    ensures var r := PlaceFrom(t, dest, items, place, tmp, digest, 0).tree;
      && Grown(t, r, Targets(dest, items), 0, |items|)
      && (forall i :: 0 <= i < |items| ==> Targets(dest, items)[i] in r)
  {
    var r := PlaceFrom(t, dest, items, place, tmp, digest, 0).tree;
    PlacedGrows(t, dest, items, place, tmp, digest);
    forall i | 0 <= i < |items| ensures Targets(dest, items)[i] in r {
      assert InPlace(r, Target(dest, items[i]), items[i].sha256, digest);
    }
  }

  // A directory at q after placing was there before, or lies on the way.
  lemma DirAfterPlacing(t: Tree, r: Tree, targets: seq<Path>, hi: nat, q: Path)
    requires Grown(t, r, targets, 0, hi) && (forall i :: 0 <= i < |targets| ==> targets[i] in r)
    ensures IsDir(r, q) <==> IsDir(t, q) || OnTheWay(q, targets)
  {
    if OnTheWay(q, targets) {
      var i :| 0 <= i < |targets| && q <= targets[i] && q != targets[i];
      PrefixInTree(r, targets[i], q);
    }
  }

  lemma PlacedMarker(t: Tree, dest: Path, items: seq<Item>, place: nat -> PlaceFault, tmp: Text, digest: Bytes -> Text)
    requires WfTree(t) && PrefixFree(Targets(dest, items)) && forall i :: 0 <= i < |items| ==> items[i].rel != []
    requires PlaceFrom(t, dest, items, place, tmp, digest, 0).error == None
    ensures var r := PlaceFrom(t, dest, items, place, tmp, digest, 0).tree;
      && (items != [] ==> IsDir(r, dest))
      && (items == [] ==> r == t)
      && (IsDir(r, dest + [MARKER_NAME]) <==> MarkerIsDir(t, dest, items))
  {
    var r := PlaceFrom(t, dest, items, place, tmp, digest, 0).tree;
    var ts := Targets(dest, items);
    PlacedTargets(t, dest, items, place, tmp, digest);
    DirAfterPlacing(t, r, ts, |items|, dest + [MARKER_NAME]);
    if items != [] { PrefixInTree(r, ts[0], dest); }
    MarkerOnTheWay(dest, items);
  }

  lemma MarkerOnTheWay(dest: Path, items: seq<Item>)
    ensures OnTheWay(dest + [MARKER_NAME], Targets(dest, items)) <==>
      exists i :: 0 <= i < |items| && dest + [MARKER_NAME] <= Target(dest, items[i])
                  && dest + [MARKER_NAME] != Target(dest, items[i])
  {
    var q, ts := dest + [MARKER_NAME], Targets(dest, items);
    if i :| 0 <= i < |items| && q <= Target(dest, items[i]) && q != Target(dest, items[i]) {
      assert ts[i] == Target(dest, items[i]);
    }
  }

  /** Apart from the walks, the copies and the re-reads of placement, every step
      succeeds, and no copy throws another protocol code. */
  ghost predicate Orderly(f: Faults, items: seq<Item>) {
    && f.undoStop >= |items| && !f.clearThrows && f.marker == MarkerFine
    && forall n :: f.place(n).copy != Threw(OtherCode)
  }

  lemma {:induction false} OrderlyNeverCoded(t: Tree, dest: Path, items: seq<Item>, f: Faults, tmp: Text,
                                             digest: Bytes -> Text, j: nat)
    requires j <= |items| && (forall i :: 0 <= i < |items| ==> items[i].rel != []) && Orderly(f, items)
    ensures PlaceFrom(t, dest, items, f.place, tmp, digest, j).error != Some(CodedOther)
    decreases |items| - j
  {
    if j < |items| {
      var w := PlaceOne(t, Target(dest, items[j]), items[j].sha256, f.place(j), tmp, digest);
      OneNeverCoded(t, Target(dest, items[j]), items[j].sha256, f.place(j), tmp, digest);
      if w.error.None? { OrderlyNeverCoded(w.tree, dest, items, f, tmp, digest, j + 1); }
    }
  }

  lemma OneNeverCoded(t: Tree, target: Path, sha: Text, f: PlaceFault, tmp: Text, digest: Bytes -> Text)
    requires target != [] && f.copy != Threw(OtherCode)
    ensures PlaceOne(t, target, sha, f, tmp, digest).error != Some(CodedOther)
  {
    WalkNeverCoded(t, Parent(target), 0, f.stop);
  }

  lemma {:induction false} WalkNeverCoded(t: Tree, dir: Path, k: nat, stop: nat)
    requires k <= |dir|
    ensures Walk(t, dir, k, stop).error != Some(CodedOther)
    decreases |dir| - k
  {
    if k < |dir| && k < stop {
      var p := dir[..k + 1];
      if p !in t { WalkNeverCoded(t[p := Dir], dir, k + 1, stop); } else { WalkNeverCoded(t, dir, k + 1, stop); }
    }
  }

  ghost predicate SomeRunCrashes(input: Input, t: Tree, m: Machine, s: Schedule) {
    exists f :: Orderly(f, PlacedItems(input.index)) && RunProtocol(input, t, m, With(s, f)).outcome.Crashed?
  }

  // The trees on which some orderly faults end a run without a report.
  ghost predicate CanCrash(t: Tree, dest: Path, items: seq<Item>, tmp: Text)
    requires forall i :: 0 <= i < |items| ==> items[i].rel != []
  {
    || SomeRemovalThrows(t, dest, items)
    || (items == [] && dest !in t)
    || (!SomeBlocked(t, dest, items, tmp) && dest + [tmp] !in t && MarkerIsDir(t, dest, items))
  }

  // What an orderly run throws over.
  lemma OrderlyThrows(input: Input, t: Tree, dest: Path, m: Machine, s: Schedule, bad: seq<Bytes>, f: Faults)
    requires AboutToPlace(input, t, dest, m, s, bad) && Orderly(f, PlacedItems(input.index))
    ensures var items := PlacedItems(input.index);
      var p := PlaceFrom(t, dest, items, f.place, input.tmp, m.digest, 0);
      RunProtocol(input, t, m, With(s, f)).outcome.Crashed? <==>
        SomeRemovalThrows(t, dest, items) || (p.error.None? && MarkerThrows(p.tree, dest, input.tmp, MarkerFine))
  {
    ReachedThrowsExactly(input, t, m, With(s, f), dest);
    RunIsMaterialize(input, t, m, With(s, f));
    OrderlyNeverCoded(t, dest, PlacedItems(input.index), f, input.tmp, m.digest, 0);
    CreatedAtMost(t, dest, PlacedItems(input.index));
  }

  lemma CrashNeedsCause(input: Input, t: Tree, dest: Path, m: Machine, s: Schedule, bad: seq<Bytes>, f: Faults)
    requires AboutToPlace(input, t, dest, m, s, bad) && Orderly(f, PlacedItems(input.index))
    requires RunProtocol(input, t, m, With(s, f)).outcome.Crashed?
    ensures CanCrash(t, dest, PlacedItems(input.index), input.tmp)
  {
    var items := PlacedItems(input.index);
    OrderlyThrows(input, t, dest, m, s, bad, f);
    if !SomeRemovalThrows(t, dest, items) {
      ReachedPrefixFree(t, dest, input, m, s);
      PlacedMeansNoneBlocked(t, dest, items, f.place, input.tmp, m.digest);
      PlacedMarker(t, dest, items, f.place, input.tmp, m.digest);
      PlacedGrows(t, dest, items, f.place, input.tmp, m.digest);
      ChosenIsDir(input, t, m, s, dest);
    }
  }

  lemma CauseLetsCrash(input: Input, t: Tree, dest: Path, m: Machine, s: Schedule, bad: seq<Bytes>)
    returns (f: Faults)
    requires AboutToPlace(input, t, dest, m, s, bad) && CanCrash(t, dest, PlacedItems(input.index), input.tmp)
    ensures Orderly(f, PlacedItems(input.index)) && RunProtocol(input, t, m, With(s, f)).outcome.Crashed?
  {
    var items := PlacedItems(input.index);
    f := Otherwise(items, ThrowAtOnce(dest, items));
    if !SomeRemovalThrows(t, dest, items) && (items != [] || dest in t) {
      f := EverythingCanBePlaced(input, t, dest, m, s, bad);
      ReachedPrefixFree(t, dest, input, m, s);
      PlacedMarker(t, dest, items, f.place, input.tmp, m.digest);
      MarkerTmpStaysFree(t, dest, items, f.place, input.tmp, m.digest);
    }
    OrderlyThrows(input, t, dest, m, s, bad, f);
  }

  /** Some orderly faults end a run that is about to write to an unmanaged
      destination without any report if and only if removing an indexed path
      would throw, or there is nothing to place and no destination, or everything
      can be placed and the marker's name is a directory. */
  lemma SomeRunCrashesExactly(input: Input, t: Tree, dest: Path, m: Machine, s: Schedule, bad: seq<Bytes>)
    requires AboutToPlace(input, t, dest, m, s, bad)
    ensures SomeRunCrashes(input, t, m, s) <==> CanCrash(t, dest, PlacedItems(input.index), input.tmp)
  {
    if f :| Orderly(f, PlacedItems(input.index)) && RunProtocol(input, t, m, With(s, f)).outcome.Crashed? {
      CrashNeedsCause(input, t, dest, m, s, bad, f);
    }
    if CanCrash(t, dest, PlacedItems(input.index), input.tmp) {
      var f := CauseLetsCrash(input, t, dest, m, s, bad);
    }
  }
}
