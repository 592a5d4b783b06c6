// Why placing a file fails, and which refusal a failed placement becomes.
module LateRefusals {
  import opened Sequences
  import opened Texts
  import opened Utf8
  import opened FileTree
  import opened Install
  import opened Managed
  import opened InstallRun
  import opened InstallTheorems
  import opened InstallSafety
  import opened EarlyRefusals

  // ----- one placement -----

  // The walk meets the obstacle of length k before its step stop throws.
  ghost predicate Meets(t: Tree, dir: Path, k: nat, stop: nat) {
    FirstObstacle(t, dir, k) && k <= stop
  }

  lemma {:induction false} WalkExactly(t: Tree, r: Tree, dir: Path, k: nat, n: nat, stop: nat)
    requires n < k <= |dir| && k <= stop && FirstObstacle(t, dir, k)
    requires forall i :: n < i <= |dir| ==> (dir[..i] in r <==> dir[..i] in t)
    requires forall i :: n < i <= |dir| && dir[..i] in t ==> r[dir[..i]] == t[dir[..i]]
    ensures Walk(r, dir, n, stop) == Walked(r, Some(if t[dir[..k]] == Link then SymlinkFound else NotDirectory))
    decreases k - n
  {
    if n + 1 < k { WalkExactly(t, r, dir, k, n + 1, stop); }
  }

  /** A link or a file in the way of the target ends its placement, and nothing is made. */
  lemma ObstacleEndsPlacement(t: Tree, target: Path, sha: Text, f: PlaceFault, tmp: Text, digest: Bytes -> Text, k: nat)
    requires target != [] && Meets(t, Parent(target), k, f.stop)
    ensures PlaceOne(t, target, sha, f, tmp, digest)
         == Walked(t, Some(if t[Parent(target)[..k]] == Link then SymlinkFound else NotDirectory))
  {
    WalkExactly(t, t, Parent(target), k, 0, f.stop);
  }

  /** The way to the target holds directories, or nothing from some component on. */
  ghost predicate ClearWay(t: Tree, dir: Path) {
    forall i :: 0 < i <= |dir| && dir[..i] in t ==> t[dir[..i]] == Dir
  }

  // The components of the way after the first n and up to k, as they are made.
  ghost predicate Made(t: Tree, r: Tree, dir: Path, n: nat, k: nat) {
    && (forall p :: p in r <==> p in t || (p <= dir && n < |p| <= k))
    && (forall p :: p in r ==> r[p] == if p in t then t[p] else Dir)
  }

  lemma {:induction false} ClearWalk(t: Tree, dir: Path, n: nat, stop: nat)
    requires n <= |dir| && n <= stop && ClearWay(t, dir)
    ensures Made(t, Walk(t, dir, n, stop).tree, dir, n, if stop < |dir| then stop else |dir|)
    ensures Walk(t, dir, n, stop).error == if stop < |dir| then Some(Interrupted) else None
    decreases |dir| - n
  {
    if n < |dir| && n < stop {
      var p := dir[..n + 1];
      var more := if p in t then t else t[p := Dir];
      assert ClearWay(more, dir);
      ClearWalk(more, dir, n + 1, stop);
      assert forall q: Path :: q <= dir && |q| == n + 1 ==> q == p;
    }
  }

  /** Where nothing is in the way: a step of the walk or of the reservation that throws
      interrupts, a taken temporary name reads as a link, then the copy's own error
      counts, a directory at the target interrupts, and the re-read decides. */
  lemma ClearPlacement(t: Tree, target: Path, sha: Text, f: PlaceFault, tmp: Text, digest: Bytes -> Text)
    requires target != [] && ClearWay(t, Parent(target))
    ensures var w, tmpPath := PlaceOne(t, target, sha, f, tmp, digest), Parent(target) + [tmp];
      w.error ==
        if f.stop < |target| then Some(Interrupted)
        else if tmpPath in t then Some(SymlinkFound)
        else match f.copy
          case Threw(Ordinary) => Some(Interrupted)
          case Threw(MismatchCode) => Some(CodedMismatch)
          case Threw(OtherCode) => Some(CodedOther)
          case Wrote(bytes, _) =>
            if target in t && t[target] == Dir then Some(Interrupted)
            else if f.rereadThrows then Some(RereadFailed)
            else if digest(bytes) == sha then None
            else Some(HashMismatch)
  {
    var dir := Parent(target);
    ClearWalk(t, dir, 0, f.stop);
    var r := Walk(t, dir, 0, f.stop).tree;
    assert dir + [tmp] in r <==> dir + [tmp] in t;
    assert target in r <==> target in t;
  }

  // ----- a removal of the undo -----

  /** Removing a path throws exactly where a directory stands, or a file above it. */
  lemma RemovalThrowsExactly(t: Tree, p: Path)
    ensures RemovalThrows(t, p) <==>
      (p in t && t[p] == Dir) || exists q :: q in t && q <= p && q != p && t[q].File?
  {
    if k :| 0 <= k < |p| && IsFile(t, p[..k]) {
      assert p[..k] in t && p[..k] <= p && p[..k] != p;
    }
    if q :| q in t && q <= p && q != p && t[q].File? {
      assert p[..|q|] == q;
    }
  }

  // ----- the skills of an installation -----

  /** The skill directories are the first parts of the placed files, each once, in order. */
  lemma SkillDirsExactly(items: seq<Item>, name: Text)
    requires forall i :: 0 <= i < |items| ==> items[i].rel != []
    ensures name in SkillDirs(items) <==> exists i :: 0 <= i < |items| && items[i].rel[0] == name
    ensures Sorted(SkillDirs(items)) && Distinct(SkillDirs(items))
  {
    var names := FirstNames(items);
    SameMultisetSameMembers(SkillDirs(items), Dedup(names), name);
    MultisetDistinct(Dedup(names), SkillDirs(items));
    if name in names {
      var i :| 0 <= i < |names| && names[i] == name;
      assert items[i].rel[0] == name;
    }
    if i :| 0 <= i < |items| && items[i].rel[0] == name {
      assert names[i] in names;
    }
  }

  // ----- the refusal a failed placement becomes -----

  /** The refusal that stands for an error of placement: no report for another code of
      the protocol, a mismatch at VERIFY, the rest at MATERIALIZE. */
  ghost predicate RefusesAs(o: Outcome, e: PlaceError, restoreFailed: bool) {
    match e
    case SymlinkFound => o == RefusedRun(E_DESTINATION_SYMLINK, MATERIALIZE, restoreFailed)
    case NotDirectory => o == RefusedRun(E_NO_DESTINATION, MATERIALIZE, restoreFailed)
    case Interrupted => o == RefusedRun(E_INTERRUPTED, MATERIALIZE, restoreFailed)
    case RereadFailed => o == RefusedRun(E_INTERRUPTED, MATERIALIZE, restoreFailed)
    case HashMismatch => o == RefusedRun(E_HASH_MISMATCH, VERIFY, restoreFailed)
    case CodedMismatch => o == RefusedRun(E_HASH_MISMATCH, VERIFY, restoreFailed)
    case CodedOther => o == Crashed
  }

  lemma GivenUp(t: Tree, staged: Staged, e: PlaceError, restoreFailed: bool, f: Faults)
    requires !f.clearThrows
    ensures RefusesAs(GiveUp(t, staged, e, restoreFailed, f).outcome, e, restoreFailed)
  {
  }

  /** A failed placement on an unmanaged destination, undone without a throw. */
  lemma FailedPlacementRefuses(input: Input, t: Tree, m: Machine, s: Schedule)
    requires Chosen(input, t).Some? && ReachesFinalize(t, Chosen(input, t).value, input, m, s)
    requires !IsManaged(t, Chosen(input, t).value, m) && !s.faults.clearThrows
    ensures var dest, items := Chosen(input, t).value, PlacedItems(input.index);
      var p := PlaceFrom(t, dest, items, s.faults.place, input.tmp, m.digest, 0);
      p.error.Some? && UndoWith(p.tree, dest, CreatedRels(t, dest, items), s.faults.undoStop, s.faults.stuck).ok ==>
        RefusesAs(RunProtocol(input, t, m, s).outcome, p.error.value, false)
  {
    var dest, items := Chosen(input, t).value, PlacedItems(input.index);
    RunIsMaterialize(input, t, m, s);
    MaterializeEither(t, dest, input, m, s);
    var x := FinalizeUnmanaged(t, dest, items, s.faults, input.tmp, m.digest);
    if x.error.Some? { GivenUp(x.tree, StagingOf(input, s).staged, x.error.value, false, s.faults); }
  }

  lemma ReplacementFails(t: Tree, dest: Path, items: seq<Item>, skills: seq<Text>, f: Faults, tmp: Text,
                         digest: Bytes -> Text)
    requires (forall i :: 0 <= i < |items| ==> items[i].rel != []) && BackedUp(t, dest, skills, f)
    ensures var p := PlaceFrom(WithoutSkills(t, dest, skills), dest, items, f.place, tmp, digest, 0);
      var x := FinalizeManaged(t, dest, items, skills, f, tmp, digest);
      x.error == p.error && (p.error.Some? ==> x.restoreFailed == (f.restoreStop < 2 * |skills|))
  {
  }

  lemma BackedUpRefuses(r: Replaced, staged: Staged, dest: Path, tmp: Text, m: Machine, f: Faults, n: nat)
    requires r.error.Some? && !f.clearThrows
    ensures RefusesAs(AfterManaged(r, staged, true, dest, tmp, m, f, n).outcome, r.error.value, r.restoreFailed)
  {
    GivenUp(r.tree, staged, r.error.value, r.restoreFailed, f);
  }

  lemma ManagedOutcome(input: Input, t: Tree, m: Machine, s: Schedule, dest: Path, items: seq<Item>, skills: seq<Text>)
    requires Chosen(input, t) == Some(dest) && ReachesFinalize(t, dest, input, m, s) && IsManaged(t, dest, m)
    requires items == PlacedItems(input.index) && skills == SkillDirs(items) && BackedUp(t, dest, skills, s.faults)
    ensures RunProtocol(input, t, m, s).outcome ==
      AfterManaged(FinalizeManaged(t, dest, items, skills, s.faults, input.tmp, m.digest), StagingOf(input, s).staged,
                   true, dest, input.tmp, m, s.faults, |items|).outcome
  {
    RunIsMaterialize(input, t, m, s);
    MaterializeEither(t, dest, input, m, s);
  }

  /** A failed placement on a managed destination whose skills were backed up and removed. */
  lemma FailedReplacementRefuses(input: Input, t: Tree, m: Machine, s: Schedule)
    requires Chosen(input, t).Some? && ReachesFinalize(t, Chosen(input, t).value, input, m, s)
    requires IsManaged(t, Chosen(input, t).value, m) && !s.faults.clearThrows
    requires BackedUp(t, Chosen(input, t).value, SkillDirs(PlacedItems(input.index)), s.faults)
    ensures var dest, items := Chosen(input, t).value, PlacedItems(input.index);
      var skills := SkillDirs(items);
      var p := PlaceFrom(WithoutSkills(t, dest, skills), dest, items, s.faults.place, input.tmp, m.digest, 0);
      p.error.Some? ==>
        RefusesAs(RunProtocol(input, t, m, s).outcome, p.error.value, s.faults.restoreStop < 2 * |skills|)
  {
    var dest, items := Chosen(input, t).value, PlacedItems(input.index);
    var skills := SkillDirs(items);
    var x := FinalizeManaged(t, dest, items, skills, s.faults, input.tmp, m.digest);
    ReplacementFails(t, dest, items, skills, s.faults, input.tmp, m.digest);
    ManagedOutcome(input, t, m, s, dest, items, skills);
    if x.error.Some? {
      BackedUpRefuses(x, StagingOf(input, s).staged, dest, input.tmp, m, s.faults, |items|);
    }
  }
}
