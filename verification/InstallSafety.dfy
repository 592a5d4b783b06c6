// What a whole run leaves: a placed run, and when a refused run leaves the tree
// as it was.
module InstallSafety {
  import opened Sequences
  import opened Texts
  import opened Utf8
  import opened FileTree
  import opened Install
  import opened AllOrNothing
  import opened Managed
  import opened InstallRun
  import opened InstallTheorems

  function StagingOf(input: Input, s: Schedule): Staging {
    StageFrom(map[], PlacedItems(input.index), s.stage, 0)
  }

  function StagedCheckOf(input: Input, m: Machine, s: Schedule): StagedCheck {
    CheckFrom(StagingOf(input, s).staged, PlacedItems(input.index), s.unreadable, m.digest, 0)
  }

  /** Everything before the first write to the destination went well. */
  predicate ReachesFinalize(t: Tree, dest: Path, input: Input, m: Machine, s: Schedule) {
    && Objection(t, dest, input, m).None? && !s.prepareThrows
    && StagingOf(input, s).ok && StagedCheckOf(input, m, s) == AllMatch
  }

  /** Preparing the staging area throws, or clearing it after a failed copy or a
      wrong digest, or the re-read of a staged file. */
  predicate StagingThrows(t: Tree, dest: Path, input: Input, m: Machine, s: Schedule) {
    && Objection(t, dest, input, m).None?
    && (|| s.prepareThrows
        || (!StagingOf(input, s).ok && s.faults.clearThrows)
        || (StagingOf(input, s).ok && StagedCheckOf(input, m, s) == ReadThrows)
        || (StagingOf(input, s).ok && StagedCheckOf(input, m, s) == Mismatch && s.faults.clearThrows))
  }

  lemma MaterializeEither(t: Tree, dest: Path, input: Input, m: Machine, s: Schedule)
    ensures !ReachesFinalize(t, dest, input, m, s) ==>
      var end := Materialize(t, dest, input, m, s);
      && end.tree == t && !end.outcome.Placed?
      && (end.outcome.Crashed? <==> StagingThrows(t, dest, input, m, s))
      && (end.outcome.RefusedRun? ==> !end.outcome.restoreFailed)
    ensures ReachesFinalize(t, dest, input, m, s) ==>
      && !StagingThrows(t, dest, input, m, s)
      && Materialize(t, dest, input, m, s) ==
           Finalize(t, StagingOf(input, s).staged, dest, PlacedItems(input.index), input.tmp, m, s.faults,
                    IsManaged(t, dest, m))
  {
  }

  lemma RunIsMaterialize(input: Input, t: Tree, m: Machine, s: Schedule)
    ensures var r := RunProtocol(input, t, m, s);
      && (Chosen(input, t).None? ==> r.tree == t && !r.outcome.Placed?)
      && (Chosen(input, t).Some? ==>
           var end := Materialize(t, Chosen(input, t).value, input, m, s);
           r.tree == end.tree && r.outcome == end.outcome)
  {
  }

  lemma ReachedPrefixFree(t: Tree, dest: Path, input: Input, m: Machine, s: Schedule)
    requires ReachesFinalize(t, dest, input, m, s)
    ensures PrefixFree(Targets(dest, PlacedItems(input.index)))
  {
    StagedItemsArePrefixFree(input.index, s.stage, dest);
  }

  // ----- a placed run -----

  // The tree the files are placed over.
  function Base(t: Tree, dest: Path, items: seq<Item>, m: Machine): Tree
    requires forall i :: 0 <= i < |items| ==> items[i].rel != []
  {
    if IsManaged(t, dest, m) then WithoutSkills(t, dest, SkillDirs(items)) else t
  }

  function PlacedTree(t: Tree, dest: Path, items: seq<Item>, tmp: Text, m: Machine, s: Schedule): Placing
    requires forall i :: 0 <= i < |items| ==> items[i].rel != []
  {
    PlaceFrom(Base(t, dest, items, m), dest, items, s.faults.place, tmp, m.digest, 0)
  }

  lemma CompletedMeansNoError(r: Replaced, x: Finalized, staged: Staged, backedUp: bool, dest: Path, tmp: Text,
                              m: Machine, f: Faults, n: nat)
    ensures var end := AfterManaged(r, staged, backedUp, dest, tmp, m, f, n);
      end.outcome.Placed? ==> r.error.None? && end == WriteMarker(r.tree, dest, tmp, m.marker, f.marker, n)
    ensures var end := AfterUnmanaged(x, staged, dest, tmp, m, f, n);
      end.outcome.Placed? ==> x.error.None? && end == WriteMarker(x.tree, dest, tmp, m.marker, f.marker, n)
  {
  }

  lemma PlacedMeansNoError(t: Tree, staged: Staged, dest: Path, items: seq<Item>, tmp: Text, m: Machine, s: Schedule)
    requires forall i :: 0 <= i < |items| ==> items[i].rel != []
    ensures var end := Finalize(t, staged, dest, items, tmp, m, s.faults, IsManaged(t, dest, m));
      var p := PlacedTree(t, dest, items, tmp, m, s);
      end.outcome.Placed? ==>
        p.error == None && end == WriteMarker(p.tree, dest, tmp, m.marker, s.faults.marker, |items|)
  {
    var f, skills := s.faults, SkillDirs(items);
    CompletedMeansNoError(FinalizeManaged(t, dest, items, skills, f, tmp, m.digest),
                          FinalizeUnmanaged(t, dest, items, f, tmp, m.digest),
                          staged, BackedUp(t, dest, skills, f), dest, tmp, m, f, |items|);
  }

  lemma MarkerWritten(t: Tree, dest: Path, tmp: Text, marker: Bytes, fault: MarkerFault, n: nat)
    requires WriteMarker(t, dest, tmp, marker, fault, n).outcome.Placed?
    ensures WriteMarker(t, dest, tmp, marker, fault, n)
         == End(t[dest + [MARKER_NAME] := Fresh(marker, 0x1A4)], map[], Placed(dest, n))
  {
  }

  /** A placed run ends with the initial tree (of a managed destination: without
      its skill directories), the indexed files over it with their digests, the
      marker, and nothing else. */
  lemma PlacedRunIsOverlay(input: Input, t: Tree, m: Machine, s: Schedule)
    requires WfTree(t)
    requires RunProtocol(input, t, m, s).outcome.Placed?
    ensures Chosen(input, t).Some?
    ensures var dest, items := Chosen(input, t).value, PlacedItems(input.index);
      var placed := PlacedTree(t, dest, items, input.tmp, m, s).tree;
      && RunProtocol(input, t, m, s).outcome == Placed(dest, |items|)
      && IsOverlay(Base(t, dest, items, m), placed, dest, items, m.digest)
      && RunProtocol(input, t, m, s).tree == placed[dest + [MARKER_NAME] := Fresh(m.marker, 0x1A4)]
  {
    RunIsMaterialize(input, t, m, s);
    var dest, items := Chosen(input, t).value, PlacedItems(input.index);
    MaterializeEither(t, dest, input, m, s);
    ReachedPrefixFree(t, dest, input, m, s);
    PlacedMeansNoError(t, StagingOf(input, s).staged, dest, items, input.tmp, m, s);
    MarkerWritten(PlacedTree(t, dest, items, input.tmp, m, s).tree, dest, input.tmp, m.marker, s.faults.marker,
                  |items|);
    WithoutSkillsIsWf(t, dest, SkillDirs(items));
    PlacingIsOverlay(Base(t, dest, items, m), dest, items, s.faults.place, input.tmp, m.digest);
  }

  // ----- a refused run -----

  lemma UnmanagedRefusalParts(t: Tree, staged: Staged, dest: Path, items: seq<Item>, tmp: Text, m: Machine, f: Faults)
    requires forall i :: 0 <= i < |items| ==> items[i].rel != []
    ensures var end := Finalize(t, staged, dest, items, tmp, m, f, false);
      var r := FinalizeUnmanaged(t, dest, items, f, tmp, m.digest);
      end.outcome.RefusedRun? ==>
        || (r.error.Some? && !r.crashed && end.tree == r.tree)
        || (r.error.None? && end.tree == r.tree && dest + [tmp] in r.tree)
  {
  }

  lemma NoErrorNoUndo(t: Tree, dest: Path, items: seq<Item>, f: Faults, tmp: Text, digest: Bytes -> Text)
    requires forall i :: 0 <= i < |items| ==> items[i].rel != []
    requires FinalizeUnmanaged(t, dest, items, f, tmp, digest).error.None?
    ensures PlaceFrom(t, dest, items, f.place, tmp, digest, 0).error == None
    ensures FinalizeUnmanaged(t, dest, items, f, tmp, digest).tree
         == PlaceFrom(t, dest, items, f.place, tmp, digest, 0).tree
  {
  }

  /** Some file is blocked. */
  ghost predicate SomeBlocked(t: Tree, dest: Path, items: seq<Item>, tmp: Text)
    requires forall i :: 0 <= i < |items| ==> items[i].rel != []
  {
    BlockedUpTo(t, dest, items, tmp, |items|)
  }

  lemma PlacedMeansNoneBlocked(t: Tree, dest: Path, items: seq<Item>, place: nat -> PlaceFault, tmp: Text,
                               digest: Bytes -> Text)
    requires WfTree(t) && PrefixFree(Targets(dest, items)) && forall i :: 0 <= i < |items| ==> items[i].rel != []
    requires PlaceFrom(t, dest, items, place, tmp, digest, 0).error.None?
    ensures !SomeBlocked(t, dest, items, tmp)
  {
    if SomeBlocked(t, dest, items, tmp) {
      var b :| 0 <= b < |items| && Blocked(t, Target(dest, items[b]), tmp);
      LeftoverIsAll(t, dest, items, place, tmp, digest, 0);
      BlockedStops(t, t, dest, items, Cleaned(place), tmp, digest, 0, b);
    }
  }

  // The temporary name of the marker is free before placing, and so after it.
  lemma MarkerTmpStaysFree(base: Tree, dest: Path, items: seq<Item>, place: nat -> PlaceFault, tmp: Text,
                           digest: Bytes -> Text)
    requires WfTree(base) && PrefixFree(Targets(dest, items)) && FreshName(items, tmp)
    requires PlaceFrom(base, dest, items, place, tmp, digest, 0).error.None? && dest + [tmp] !in base
    ensures dest + [tmp] !in PlaceFrom(base, dest, items, place, tmp, digest, 0).tree
  {
    var q, ts := dest + [tmp], Targets(dest, items);
    PlacedGrows(base, dest, items, place, tmp, digest);
    forall i | 0 <= i < |ts| ensures !(q <= ts[i]) {
      if q <= ts[i] { TmpInside(dest, items[i], q, |dest|); }
    }
  }

  /** The marker's temporary name is free, or placement never gets that far. */
  ghost predicate MarkerNameFree(t: Tree, dest: Path, items: seq<Item>, tmp: Text)
    requires forall i :: 0 <= i < |items| ==> items[i].rel != []
  {
    (FreshName(items, tmp) && dest + [tmp] !in t) || SomeBlocked(t, dest, items, tmp)
  }

  lemma RefusedFinalisationLeavesTree(t: Tree, staged: Staged, dest: Path, items: seq<Item>, tmp: Text, m: Machine,
                                      f: Faults)
    requires WfTree(t) && PrefixFree(Targets(dest, items)) && forall i :: 0 <= i < |items| ==> items[i].rel != []
    requires SafeToFail(t, dest, items, tmp) && MarkerNameFree(t, dest, items, tmp) && Tidy(f)
    ensures var end := Finalize(t, staged, dest, items, tmp, m, f, false);
      end.outcome.RefusedRun? ==> end.tree == t
  {
    UnmanagedRefusalParts(t, staged, dest, items, tmp, m, f);
    SafeFailureRestores(t, dest, items, f, tmp, m.digest);
    if FinalizeUnmanaged(t, dest, items, f, tmp, m.digest).error.None? {
      NoErrorNoUndo(t, dest, items, f, tmp, m.digest);
      PlacedMeansNoneBlocked(t, dest, items, f.place, tmp, m.digest);
      MarkerTmpStaysFree(t, dest, items, f.place, tmp, m.digest);
    }
  }

  /** On an unmanaged destination where failing is safe and the marker's
      temporary name free, a refused run whose clean-ups succeed leaves the tree
      exactly as it was, whatever stands in the way and whatever the other faults. */
  lemma RefusedRunLeavesTree(input: Input, t: Tree, m: Machine, s: Schedule)
    requires WfTree(t) && Tidy(s.faults)
    requires Chosen(input, t).Some? ==>
      var dest, items := Chosen(input, t).value, PlacedItems(input.index);
      && !IsManaged(t, dest, m)
      && SafeToFail(t, dest, items, input.tmp) && MarkerNameFree(t, dest, items, input.tmp)
    ensures RunProtocol(input, t, m, s).outcome.RefusedRun? ==> RunProtocol(input, t, m, s).tree == t
  {
    RunIsMaterialize(input, t, m, s);
    if Chosen(input, t).Some? {
      var dest, items := Chosen(input, t).value, PlacedItems(input.index);
      MaterializeEither(t, dest, input, m, s);
      if ReachesFinalize(t, dest, input, m, s) {
        ReachedPrefixFree(t, dest, input, m, s);
        RefusedFinalisationLeavesTree(t, StagingOf(input, s).staged, dest, items, input.tmp, m, s.faults);
      }
    }
  }

  // ----- a refused run on a managed destination -----

  lemma ItemsUnderSkills(items: seq<Item>, i: nat)
    requires forall k :: 0 <= k < |items| ==> items[k].rel != []
    requires i < |items|
    ensures items[i].rel[0] in SkillDirs(items)
  {
    var names := FirstNames(items);
    assert names[i] in names;
    SameMultisetSameMembers(SkillDirs(items), Dedup(names), names[i]);
  }

  lemma MarkerMeansDir(t: Tree, dest: Path, m: Machine)
    requires WfTree(t) && IsManaged(t, dest, m)
    ensures IsDir(t, dest)
  {
    assert Parent(dest + [MARKER_NAME]) == dest;
  }

  lemma ManagedRunSetting(t: Tree, dest: Path, input: Input, m: Machine, s: Schedule)
    requires WfTree(t) && IsManaged(t, dest, m) && ReachesFinalize(t, dest, input, m, s)
    ensures ManagedSetting(t, dest, PlacedItems(input.index), SkillDirs(PlacedItems(input.index)))
  {
    var items := PlacedItems(input.index);
    ReachedPrefixFree(t, dest, input, m, s);
    MarkerMeansDir(t, dest, m);
    forall i | 0 <= i < |items| ensures items[i].rel[0] in SkillDirs(items) { ItemsUnderSkills(items, i); }
  }

  // Placing over a managed destination keeps the destination and its marker.
  lemma MarkerSurvives(t: Tree, dest: Path, items: seq<Item>, skills: seq<Text>, place: nat -> PlaceFault, tmp: Text,
                       m: Machine)
    requires ManagedSetting(t, dest, items, skills) && IsManaged(t, dest, m) && SkillsPresent(t, dest, skills)
    requires PlaceFrom(WithoutSkills(t, dest, skills), dest, items, place, tmp, m.digest, 0).error.None?
    ensures var p := PlaceFrom(WithoutSkills(t, dest, skills), dest, items, place, tmp, m.digest, 0);
      IsDir(p.tree, dest) && IsFile(p.tree, dest + [MARKER_NAME])
  {
    var base := WithoutSkills(t, dest, skills);
    var p := PlaceFrom(base, dest, items, place, tmp, m.digest, 0);
    var marker := dest + [MARKER_NAME];
    LeftoverIsAll(base, dest, items, place, tmp, m.digest, 0);
    PlacedOutsideSkills(t, dest, items, skills, Cleaned(place), tmp, m.digest);
    MarkerMeansDir(t, dest, m);
    assert MARKER_NAME !in skills by {
      if i :| 0 <= i < |skills| && skills[i] == MARKER_NAME { assert IsDir(t, dest + [skills[i]]); }
    }
    assert marker in WithoutSkills(t, dest, skills) && dest in WithoutSkills(t, dest, skills);
    assert marker in WithoutSkills(p.tree, dest, skills) && dest in WithoutSkills(p.tree, dest, skills);
  }

  // When the replacement got to the placement, and all was placed.
  predicate ReplacementPlaced(t: Tree, dest: Path, items: seq<Item>, tmp: Text, m: Machine, f: Faults)
    requires forall i :: 0 <= i < |items| ==> items[i].rel != []
  {
    var skills := SkillDirs(items);
    && BackedUp(t, dest, skills, f)
    && PlaceFrom(WithoutSkills(t, dest, skills), dest, items, f.place, tmp, m.digest, 0).error.None?
  }

  lemma ReplacementErrors(t: Tree, dest: Path, items: seq<Item>, tmp: Text, m: Machine, f: Faults)
    requires forall i :: 0 <= i < |items| ==> items[i].rel != []
    ensures var skills := SkillDirs(items);
      var r := FinalizeManaged(t, dest, items, skills, f, tmp, m.digest);
      var p := PlaceFrom(WithoutSkills(t, dest, skills), dest, items, f.place, tmp, m.digest, 0);
      && (r.error.None? <==> ReplacementPlaced(t, dest, items, tmp, m, f))
      && (r.error.None? ==> r.tree == p.tree)
      && (BackedUp(t, dest, skills, f) ==> r.error == p.error)
  {
  }

  lemma AfterManagedParts(r: Replaced, staged: Staged, backedUp: bool, dest: Path, tmp: Text, m: Machine, f: Faults,
                          n: nat)
    ensures var end := AfterManaged(r, staged, backedUp, dest, tmp, m, f, n);
      && (end.outcome.RefusedRun? ==> end.tree == r.tree)
      && (end.outcome.RefusedRun? && r.error.Some? ==> end.outcome.restoreFailed == (backedUp && r.restoreFailed))
  {
  }

  lemma ManagedRefusalParts(t: Tree, staged: Staged, dest: Path, items: seq<Item>, tmp: Text, m: Machine, f: Faults)
    requires forall i :: 0 <= i < |items| ==> items[i].rel != []
    ensures var end := Finalize(t, staged, dest, items, tmp, m, f, true);
      var r := FinalizeManaged(t, dest, items, SkillDirs(items), f, tmp, m.digest);
      && (end.outcome.RefusedRun? ==> end.tree == r.tree)
      && (end.outcome.RefusedRun? && r.error.Some? ==>
            end.outcome.restoreFailed == (BackedUp(t, dest, SkillDirs(items), f) && r.restoreFailed))
  {
    AfterManagedParts(FinalizeManaged(t, dest, items, SkillDirs(items), f, tmp, m.digest), staged,
                      BackedUp(t, dest, SkillDirs(items), f), dest, tmp, m, f, |items|);
  }

  // The ways a refused replacement changes the tree without restore-failed.
  predicate RefusalChanges(t: Tree, dest: Path, items: seq<Item>, tmp: Text, m: Machine, f: Faults)
    requires forall i :: 0 <= i < |items| ==> items[i].rel != []
  {
    var skills := SkillDirs(items);
    && CopiesSkills(t, dest, skills, f)
    && (|| (!BackedUp(t, dest, skills, f) && !RemovesNothing(t, dest, skills, f))
        || (BackedUp(t, dest, skills, f) && !ReplacementPlaced(t, dest, items, tmp, m, f)
            && (HasSkillLink(t, dest, skills) || LeavesOutside(t, dest, items, skills, f.place, tmp, m.digest)))
        || (ReplacementPlaced(t, dest, items, tmp, m, f)
            && t != PlaceFrom(WithoutSkills(t, dest, skills), dest, items, f.place, tmp, m.digest, 0).tree))
  }

  lemma RefusedReplacementExactly(t: Tree, staged: Staged, dest: Path, items: seq<Item>, tmp: Text, m: Machine,
                                  f: Faults)
    requires forall i :: 0 <= i < |items| ==> items[i].rel != []
    requires ManagedSetting(t, dest, items, SkillDirs(items))
    requires Finalize(t, staged, dest, items, tmp, m, f, true).outcome.RefusedRun?
    requires !Finalize(t, staged, dest, items, tmp, m, f, true).outcome.restoreFailed
    ensures Finalize(t, staged, dest, items, tmp, m, f, true).tree != t <==> RefusalChanges(t, dest, items, tmp, m, f)
  {
    var skills := SkillDirs(items);
    ManagedRefusalParts(t, staged, dest, items, tmp, m, f);
    ReplacementErrors(t, dest, items, tmp, m, f);
    if !BackedUp(t, dest, skills, f) { EarlyReplacement(t, dest, items, skills, f, tmp, m.digest); }
    if !ReplacementPlaced(t, dest, items, tmp, m, f) {
      ManagedRestoresExactly(t, dest, items, skills, f, tmp, m.digest);
    }
  }

  /** A refused run on a managed destination without the restore-failed
      limitation changes the tree in exactly these cases: the removal before
      placing was interrupted with something gone; placement failed, and the
      skills held a symbolic link that the backup did not carry or a temporary
      file was left beside them; or everything was placed and then the marker's
      temporary name was found taken. */
  lemma RefusedManagedRunExactly(input: Input, t: Tree, m: Machine, s: Schedule)
    requires WfTree(t) && Chosen(input, t).Some?
    requires IsManaged(t, Chosen(input, t).value, m)
    requires RunProtocol(input, t, m, s).outcome.RefusedRun?
    requires !RunProtocol(input, t, m, s).outcome.restoreFailed
    ensures var dest, items := Chosen(input, t).value, PlacedItems(input.index);
      RunProtocol(input, t, m, s).tree != t <==>
        ReachesFinalize(t, dest, input, m, s) && RefusalChanges(t, dest, items, input.tmp, m, s.faults)
  {
    RunIsMaterialize(input, t, m, s);
    var dest, items := Chosen(input, t).value, PlacedItems(input.index);
    MaterializeEither(t, dest, input, m, s);
    if ReachesFinalize(t, dest, input, m, s) {
      ManagedRunSetting(t, dest, input, m, s);
      RefusedReplacementExactly(t, StagingOf(input, s).staged, dest, items, input.tmp, m, s.faults);
    }
  }

  /** When everything was placed and the run still refuses, the marker's
      temporary name is taken, and the tree is exactly the overlay. */
  lemma RefusedAfterReplacingExactly(input: Input, t: Tree, m: Machine, s: Schedule)
    requires WfTree(t) && Chosen(input, t).Some? && IsManaged(t, Chosen(input, t).value, m)
    requires ReachesFinalize(t, Chosen(input, t).value, input, m, s)
    requires ReplacementPlaced(t, Chosen(input, t).value, PlacedItems(input.index), input.tmp, m, s.faults)
    ensures var dest, items, r := Chosen(input, t).value, PlacedItems(input.index), RunProtocol(input, t, m, s);
      var placed := PlacedTree(t, dest, items, input.tmp, m, s).tree;
      && IsOverlay(WithoutSkills(t, dest, SkillDirs(items)), placed, dest, items, m.digest)
      && (r.outcome.RefusedRun? <==>
            dest + [input.tmp] in placed && !s.faults.clearThrows && s.faults.marker == MarkerFine)
      && (r.outcome.RefusedRun? ==>
            r.outcome == RefusedRun(E_DESTINATION_SYMLINK, MATERIALIZE, false) && r.tree == placed)
  {
    RunIsMaterialize(input, t, m, s);
    var dest, items := Chosen(input, t).value, PlacedItems(input.index);
    var skills := SkillDirs(items);
    MaterializeEither(t, dest, input, m, s);
    ManagedRunSetting(t, dest, input, m, s);
    WithoutSkillsIsWf(t, dest, skills);
    PlacingIsOverlay(WithoutSkills(t, dest, skills), dest, items, s.faults.place, input.tmp, m.digest);
    ReplacementErrors(t, dest, items, input.tmp, m, s.faults);
    MarkerSurvives(t, dest, items, skills, s.faults.place, input.tmp, m);
    var r := FinalizeManaged(t, dest, items, skills, s.faults, input.tmp, m.digest);
    AfterGoodReplacement(r, StagingOf(input, s).staged, BackedUp(t, dest, skills, s.faults),
                         dest, input.tmp, m, s.faults, |items|);
  }

  lemma AfterGoodReplacement(r: Replaced, staged: Staged, backedUp: bool, dest: Path, tmp: Text, m: Machine, f: Faults,
                             n: nat)
    requires r.error.None? && IsDir(r.tree, dest) && !IsDir(r.tree, dest + [MARKER_NAME])
    ensures var end := AfterManaged(r, staged, backedUp, dest, tmp, m, f, n);
      && (end.outcome.RefusedRun? <==> dest + [tmp] in r.tree && !f.clearThrows && f.marker == MarkerFine)
      && (end.outcome.RefusedRun? ==>
            end.outcome == RefusedRun(E_DESTINATION_SYMLINK, MATERIALIZE, false) && end.tree == r.tree)
  {
  }

  /** A run on a managed destination that lacks one of the indexed skills is
      refused unchanged. */
  lemma MissingSkillRefuses(input: Input, t: Tree, m: Machine, s: Schedule, skill: Text)
    requires WfTree(t) && Chosen(input, t).Some? && IsManaged(t, Chosen(input, t).value, m)
    requires ReachesFinalize(t, Chosen(input, t).value, input, m, s)
    requires skill in SkillDirs(PlacedItems(input.index)) && !IsDir(t, Chosen(input, t).value + [skill])
    ensures RunProtocol(input, t, m, s).tree == t
    ensures RunProtocol(input, t, m, s).outcome == RefusedRun(E_INTERRUPTED, MATERIALIZE, false)
  {
    RunIsMaterialize(input, t, m, s);
    var dest, items := Chosen(input, t).value, PlacedItems(input.index);
    var skills := SkillDirs(items);
    MaterializeEither(t, dest, input, m, s);
    var i :| 0 <= i < |skills| && skills[i] == skill;
    assert !SkillsPresent(t, dest, skills);
    EarlyReplacement(t, dest, items, skills, s.faults, input.tmp, m.digest);
  }
}
