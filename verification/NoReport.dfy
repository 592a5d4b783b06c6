// When a run ends without any report: exactly the throws that no handler turns
// into a refusal.
module NoReport {
  import opened Texts
  import opened Utf8
  import opened FileTree
  import opened Install
  import opened AllOrNothing
  import opened Managed
  import opened InstallRun
  import opened InstallTheorems
  import opened InstallSafety

  /** Writing the marker over this tree throws. */
  predicate MarkerThrows(r: Tree, dest: Path, tmp: Text, fault: MarkerFault) {
    || !IsDir(r, dest)
    || fault.MarkerFault?
    || (dest + [tmp] !in r && IsDir(r, dest + [MARKER_NAME]))
  }

  lemma MarkerThrowsExactly(r: Tree, dest: Path, tmp: Text, marker: Bytes, fault: MarkerFault, n: nat)
    ensures WriteMarker(r, dest, tmp, marker, fault, n).outcome.Crashed? <==> MarkerThrows(r, dest, tmp, fault)
  {
  }

  /** Finalising an unmanaged destination throws past the report: a removal of
      the undo, an error with another protocol code, clearing the staging area, or
      the marker. */
  predicate UnmanagedThrows(t: Tree, dest: Path, items: seq<Item>, tmp: Text, m: Machine, f: Faults)
    requires forall i :: 0 <= i < |items| ==> items[i].rel != []
  {
    var p := PlaceFrom(t, dest, items, f.place, tmp, m.digest, 0);
    || SomeRemovalThrows(t, dest, items)
    || f.clearThrows
    || (p.error.Some? && (f.undoStop < |CreatedRels(t, dest, items)| || p.error == Some(CodedOther)))
    || (p.error.None? && MarkerThrows(p.tree, dest, tmp, f.marker))
  }

  /** Finalising a managed destination throws past the report: once the skills
      are gone, clearing the staging area, an error with another protocol code, or
      the marker. */
  predicate ManagedThrows(t: Tree, dest: Path, items: seq<Item>, tmp: Text, m: Machine, f: Faults)
    requires forall i :: 0 <= i < |items| ==> items[i].rel != []
  {
    var skills := SkillDirs(items);
    var p := PlaceFrom(WithoutSkills(t, dest, skills), dest, items, f.place, tmp, m.digest, 0);
    && BackedUp(t, dest, skills, f)
    && (f.clearThrows || p.error == Some(CodedOther) || (p.error.None? && f.marker.MarkerFault?))
  }

  lemma AfterUnmanagedThrows(r: Finalized, staged: Staged, dest: Path, tmp: Text, m: Machine, f: Faults, n: nat)
    ensures AfterUnmanaged(r, staged, dest, tmp, m, f, n).outcome.Crashed? <==>
      if r.error.None? then f.clearThrows || MarkerThrows(r.tree, dest, tmp, f.marker)
      else r.crashed || f.clearThrows || r.error == Some(CodedOther)
  {
    MarkerThrowsExactly(r.tree, dest, tmp, m.marker, f.marker, n);
  }

  lemma UnmanagedThrowsExactly(t: Tree, staged: Staged, dest: Path, items: seq<Item>, tmp: Text, m: Machine, f: Faults)
    requires WfTree(t) && PrefixFree(Targets(dest, items)) && FreshName(items, tmp)
    ensures Finalize(t, staged, dest, items, tmp, m, f, false).outcome.Crashed? <==>
      UnmanagedThrows(t, dest, items, tmp, m, f)
  {
    NoReportExactly(t, dest, items, f, tmp, m.digest);
    if SomeRemovalThrows(t, dest, items) { ThrowingTargetFails(t, dest, items, f.place, tmp, m.digest); }
    AfterUnmanagedThrows(FinalizeUnmanaged(t, dest, items, f, tmp, m.digest), staged, dest, tmp, m, f, |items|);
  }

  lemma AfterManagedThrows(r: Replaced, staged: Staged, backedUp: bool, dest: Path, tmp: Text, m: Machine, f: Faults,
                           n: nat)
    ensures AfterManaged(r, staged, backedUp, dest, tmp, m, f, n).outcome.Crashed? <==>
      if r.error.None? then f.clearThrows || MarkerThrows(r.tree, dest, tmp, f.marker)
      else backedUp && (f.clearThrows || r.error == Some(CodedOther))
  {
    MarkerThrowsExactly(r.tree, dest, tmp, m.marker, f.marker, n);
  }

  lemma ManagedThrowsExactly(t: Tree, staged: Staged, dest: Path, items: seq<Item>, tmp: Text, m: Machine, f: Faults)
    requires forall i :: 0 <= i < |items| ==> items[i].rel != []
    requires ManagedSetting(t, dest, items, SkillDirs(items)) && IsManaged(t, dest, m)
    ensures Finalize(t, staged, dest, items, tmp, m, f, true).outcome.Crashed? <==>
      ManagedThrows(t, dest, items, tmp, m, f)
  {
    var skills := SkillDirs(items);
    var r := FinalizeManaged(t, dest, items, skills, f, tmp, m.digest);
    ReplacementErrors(t, dest, items, tmp, m, f);
    AfterManagedThrows(r, staged, BackedUp(t, dest, skills, f), dest, tmp, m, f, |items|);
    if ReplacementPlaced(t, dest, items, tmp, m, f) {
      MarkerSurvives(t, dest, items, skills, f.place, tmp, m);
    }
  }

  lemma ReachedThrowsExactly(input: Input, t: Tree, m: Machine, s: Schedule, dest: Path)
    requires WfTree(t) && ReachesFinalize(t, dest, input, m, s)
    requires !IsManaged(t, dest, m) ==> FreshName(PlacedItems(input.index), input.tmp)
    ensures Materialize(t, dest, input, m, s).outcome.Crashed? <==>
      if IsManaged(t, dest, m) then ManagedThrows(t, dest, PlacedItems(input.index), input.tmp, m, s.faults)
      else UnmanagedThrows(t, dest, PlacedItems(input.index), input.tmp, m, s.faults)
  {
    MaterializeEither(t, dest, input, m, s);
    ReachedPrefixFree(t, dest, input, m, s);
    var staged, items := StagingOf(input, s).staged, PlacedItems(input.index);
    if IsManaged(t, dest, m) {
      ManagedRunSetting(t, dest, input, m, s);
      ManagedThrowsExactly(t, staged, dest, items, input.tmp, m, s.faults);
    } else {
      UnmanagedThrowsExactly(t, staged, dest, items, input.tmp, m, s.faults);
    }
  }

  /** A run ends without any report exactly when the check of its offer throws,
      when preparing, clearing or re-reading the staged files throws, or when
      finalising its destination throws past the report. */
  lemma RunWithoutReportExactly(input: Input, t: Tree, m: Machine, s: Schedule)
    requires WfTree(t)
    requires Chosen(input, t).Some? && !IsManaged(t, Chosen(input, t).value, m) ==>
      FreshName(PlacedItems(input.index), input.tmp)
    ensures RunProtocol(input, t, m, s).outcome.Crashed? <==>
      match Chosen(input, t)
      case None => Discover(input).None? && Trust(input) == Aborts
      case Some(dest) =>
        || StagingThrows(t, dest, input, m, s)
        || (ReachesFinalize(t, dest, input, m, s)
            && if IsManaged(t, dest, m) then ManagedThrows(t, dest, PlacedItems(input.index), input.tmp, m, s.faults)
               else UnmanagedThrows(t, dest, PlacedItems(input.index), input.tmp, m, s.faults))
  {
    RunIsMaterialize(input, t, m, s);
    if Chosen(input, t).Some? {
      var dest := Chosen(input, t).value;
      MaterializeEither(t, dest, input, m, s);
      if ReachesFinalize(t, dest, input, m, s) { ReachedThrowsExactly(input, t, m, s, dest); }
    } else {
      MaterializesOnlyWhenApproved(input, t, m, s);
    }
  }

  /** A managed run ends without a report exactly when one of its own steps
      throws: staging, clearing the staging area, a copy with another protocol
      code, or the marker. What stands in the tree alone never does it. */
  lemma ManagedRunWithoutReportExactly(input: Input, t: Tree, m: Machine, s: Schedule)
    requires WfTree(t) && Chosen(input, t).Some? && IsManaged(t, Chosen(input, t).value, m)
    ensures RunProtocol(input, t, m, s).outcome.Crashed? <==>
      var dest := Chosen(input, t).value;
      || StagingThrows(t, dest, input, m, s)
      || (ReachesFinalize(t, dest, input, m, s)
          && ManagedThrows(t, dest, PlacedItems(input.index), input.tmp, m, s.faults))
  {
    RunWithoutReportExactly(input, t, m, s);
    MaterializeEither(t, Chosen(input, t).value, input, m, s);
  }
}
