// The documented refusal table, exactly, and documented claims that fail as stated.
module RefusalTable {
  import opened Texts
  import opened Utf8
  import opened FileTree
  import opened Install
  import opened AllOrNothing
  import opened Managed
  import opened TrustPolicy
  import opened InstallRun
  import opened InstallTheorems
  import opened InstallSafety

  // ----- the refusal table, exactly -----

  predicate FileAbove(t: Tree, p: Path) {
    exists k :: 0 <= k < |p| && IsFile(t, p[..k])
  }

  lemma {:induction false} WalkMeetsFile(t: Tree, dir: Path, k: nat, stop: nat)
    requires k <= |dir| && Walk(t, dir, k, stop).error == Some(NotDirectory)
    ensures exists n :: k < n <= |dir| && IsFile(t, dir[..n])
    decreases |dir| - k
  {
    var p := dir[..k + 1];
    if p !in t {
      WalkMeetsFile(t[p := Dir], dir, k + 1, stop);
      var n :| k + 1 < n <= |dir| && IsFile(t[p := Dir], dir[..n]);
      assert |dir[..n]| != |p|;
      assert IsFile(t, dir[..n]);
    } else if t[p] == Dir {
      WalkMeetsFile(t, dir, k + 1, stop);
    }
  }

  lemma PlaceOneMeetsFile(r: Tree, target: Path, sha: Text, f: PlaceFault, tmp: Text, digest: Bytes -> Text)
    requires target != [] && PlaceOne(r, target, sha, f, tmp, digest).error == Some(NotDirectory)
    ensures FileAbove(r, target)
  {
    var dir := Parent(target);
    WalkMeetsFile(r, dir, 0, f.stop);
    var n :| 0 < n <= |dir| && IsFile(r, dir[..n]);
    assert dir[..n] == target[..n];
  }

  lemma FileAboveBefore(t: Tree, r: Tree, targets: seq<Path>, hi: nat, i: nat)
    requires Grown(t, r, targets, 0, hi) && PrefixFree(targets) && i < |targets| && FileAbove(r, targets[i])
    ensures FileAbove(t, targets[i])
  {
    var k :| 0 <= k < |targets[i]| && IsFile(r, targets[i][..k]);
    NothingAboveTarget(targets, i);
    assert targets[i][..k] <= targets[i] && !WrittenAt(targets[i][..k], targets, 0, hi);
    assert IsFile(t, targets[i][..k]);
  }

  predicate SomeFileAbove(t: Tree, dest: Path, items: seq<Item>) {
    exists i :: 0 <= i < |items| && FileAbove(t, Target(dest, items[i]))
  }

  lemma NotDirectoryHere(t: Tree, r: Tree, dest: Path, items: seq<Item>, f: PlaceFault, tmp: Text,
                         digest: Bytes -> Text, j: nat)
    requires PrefixFree(Targets(dest, items)) && j < |items| && items[j].rel != []
    requires Grown(t, r, Targets(dest, items), 0, j)
    requires PlaceOne(r, Target(dest, items[j]), items[j].sha256, f, tmp, digest).error == Some(NotDirectory)
    ensures SomeFileAbove(t, dest, items)
  {
    PlaceOneMeetsFile(r, Target(dest, items[j]), items[j].sha256, f, tmp, digest);
    FileAboveBefore(t, r, Targets(dest, items), j, j);
    assert FileAbove(t, Target(dest, items[j]));
  }

  /** Placement reports a non-directory only where a file stood above a target. */
  lemma {:induction false} NotDirectoryMeansFileAbove(t: Tree, r: Tree, dest: Path, items: seq<Item>,
                                                      place: nat -> PlaceFault,
                                                     tmp: Text, digest: Bytes -> Text, j: nat)
    requires WfTree(t) && PrefixFree(Targets(dest, items)) && j <= |items|
    requires forall i :: 0 <= i < |items| ==> items[i].rel != []
    requires Grown(t, r, Targets(dest, items), 0, j) && Clean(place)
    requires PlaceFrom(r, dest, items, place, tmp, digest, j).error == Some(NotDirectory)
    ensures SomeFileAbove(t, dest, items)
    decreases |items| - j
  {
    var w := PlaceOne(r, Target(dest, items[j]), items[j].sha256, place(j), tmp, digest);
    if w.error.Some? {
      NotDirectoryHere(t, r, dest, items, place(j), tmp, digest, j);
    } else {
      PlaceOneGrows(r, Targets(dest, items), j, items[j].sha256, place(j), tmp, digest);
      GrownTrans(t, r, w.tree, Targets(dest, items), 0, j, j + 1);
      NotDirectoryMeansFileAbove(t, w.tree, dest, items, place, tmp, digest, j + 1);
    }
  }

  lemma FileAboveBlocks(t: Tree, dest: Path, items: seq<Item>, place: nat -> PlaceFault, tmp: Text,
                        digest: Bytes -> Text)
    requires WfTree(t) && PrefixFree(Targets(dest, items)) && forall i :: 0 <= i < |items| ==> items[i].rel != []
    requires PlaceFrom(t, dest, items, place, tmp, digest, 0).error == Some(NotDirectory)
    ensures SomeFileAbove(t, dest, items) && SomeRemovalThrows(t, dest, items)
  {
    LeftoverIsAll(t, dest, items, place, tmp, digest, 0);
    NotDirectoryMeansFileAbove(t, t, dest, items, Cleaned(place), tmp, digest, 0);
    var i :| 0 <= i < |items| && FileAbove(t, Target(dest, items[i]));
    assert RemovalThrows(t, Target(dest, items[i]));
  }

  // A placement that stopped at a non-directory left no temporary file.
  lemma {:induction false} NotDirectoryLeavesNothing(t: Tree, dest: Path, items: seq<Item>, place: nat -> PlaceFault,
                                                     tmp: Text, digest: Bytes -> Text, j: nat)
    requires j <= |items| && forall i :: 0 <= i < |items| ==> items[i].rel != []
    requires PlaceFrom(t, dest, items, place, tmp, digest, j).error == Some(NotDirectory)
    ensures PlaceFrom(t, dest, items, place, tmp, digest, j).tree
         == PlaceFrom(t, dest, items, Cleaned(place), tmp, digest, j).tree
    decreases |items| - j
  {
    var w := PlaceOne(t, Target(dest, items[j]), items[j].sha256, place(j), tmp, digest);
    LeftoverOfOne(t, Target(dest, items[j]), items[j].sha256, place(j), tmp, digest);
    if w.error.None? { NotDirectoryLeavesNothing(w.tree, dest, items, place, tmp, digest, j + 1); }
  }

  lemma UnmanagedNeverReportsNotDirectory(t: Tree, dest: Path, items: seq<Item>, f: Faults, tmp: Text,
                                          digest: Bytes -> Text)
    requires WfTree(t) && PrefixFree(Targets(dest, items))
    requires forall i :: 0 <= i < |items| ==> items[i].rel != []
    ensures var x := FinalizeUnmanaged(t, dest, items, f, tmp, digest);
      x.error == Some(NotDirectory) ==> x.crashed
  {
    var p := PlaceFrom(t, dest, items, f.place, tmp, digest, 0);
    if p.error == Some(NotDirectory) {
      FileAboveBlocks(t, dest, items, f.place, tmp, digest);
      LeftoverIsAll(t, dest, items, f.place, tmp, digest, 0);
      NotDirectoryLeavesNothing(t, dest, items, f.place, tmp, digest, 0);
      PlaceFromGrows(t, dest, items, Cleaned(f.place), tmp, digest, 0);
      var q := PlaceFrom(t, dest, items, Cleaned(f.place), tmp, digest, 0);
      UndoEndsExactly(t, q.tree, dest, items, Reach(q));
      UndoWithExactly(p.tree, dest, CreatedRels(t, dest, items), f.undoStop, f.stuck);
    }
  }

  lemma ManagedNeverReportsNotDirectory(t: Tree, dest: Path, items: seq<Item>, skills: seq<Text>, f: Faults, tmp: Text,
                                        digest: Bytes -> Text)
    requires ManagedSetting(t, dest, items, skills)
    ensures FinalizeManaged(t, dest, items, skills, f, tmp, digest).error != Some(NotDirectory)
  {
    var base := WithoutSkills(t, dest, skills);
    WithoutSkillsIsWf(t, dest, skills);
    if PlaceFrom(base, dest, items, f.place, tmp, digest, 0).error == Some(NotDirectory) {
      FileAboveBlocks(base, dest, items, f.place, tmp, digest);
      var i :| 0 <= i < |items| && FileAbove(base, Target(dest, items[i]));
      var k :| 0 <= k < |Target(dest, items[i])| && IsFile(base, Target(dest, items[i])[..k]);
      WayUnderSkills(dest, items, skills, i, Target(dest, items[i])[..k]);
      PrefixInTree(t, dest, Target(dest, items[i])[..k]);
    }
  }

  // The user confirmed a destination that is relative or runs into a file.
  predicate BadConfirmedDestination(input: Input, t: Tree) {
    && Discover(input).None? && Trust(input) == Trusted
    && PlanDestination(input, t) == PlanAmbiguous
    && (input.trustRootApproved || Approved(input.confirmation))
    && input.confirmation.Answer? && !input.confirmation.destination.NotStated?
    && PlanProblem(t, input.confirmation.destination) == Some(E_NO_DESTINATION)
  }

  lemma LateCodesDocumented(input: Input, t: Tree, m: Machine, s: Schedule, dest: Path)
    requires WfTree(t)
    ensures var o := Materialize(t, dest, input, m, s).outcome;
      o.RefusedRun? ==> Documented(o.code, o.state) && (o.state == MATERIALIZE || o.state == VERIFY)
  {
    var items, f := PlacedItems(input.index), s.faults;
    MaterializeCodes(t, dest, input, m, s);
    MaterializeEither(t, dest, input, m, s);
    if ReachesFinalize(t, dest, input, m, s) {
      ReachedPrefixFree(t, dest, input, m, s);
      var staged := StagingOf(input, s).staged;
      if IsManaged(t, dest, m) {
        ManagedRunSetting(t, dest, input, m, s);
        ManagedNeverReportsNotDirectory(t, dest, items, SkillDirs(items), f, input.tmp, m.digest);
        AfterManagedCode(FinalizeManaged(t, dest, items, SkillDirs(items), f, input.tmp, m.digest), staged,
                         BackedUp(t, dest, SkillDirs(items), f), dest, input.tmp, m, f, |items|);
      } else {
        UnmanagedNeverReportsNotDirectory(t, dest, items, f, input.tmp, m.digest);
        AfterUnmanagedCode(FinalizeUnmanaged(t, dest, items, f, input.tmp, m.digest), staged,
                           dest, input.tmp, m, f, |items|);
      }
    } else {
      EarlyCode(t, dest, input, m, s);
    }
  }

  lemma AfterManagedCode(r: Replaced, staged: Staged, backedUp: bool, dest: Path, tmp: Text, m: Machine, f: Faults,
                         n: nat)
    requires r.error != Some(NotDirectory)
    ensures var o := AfterManaged(r, staged, backedUp, dest, tmp, m, f, n).outcome;
      o.RefusedRun? ==> o.code != E_NO_DESTINATION
  {
  }

  lemma AfterUnmanagedCode(r: Finalized, staged: Staged, dest: Path, tmp: Text, m: Machine, f: Faults, n: nat)
    requires r.error == Some(NotDirectory) ==> r.crashed
    ensures var o := AfterUnmanaged(r, staged, dest, tmp, m, f, n).outcome;
      o.RefusedRun? ==> o.code != E_NO_DESTINATION
  {
  }

  lemma EarlyCode(t: Tree, dest: Path, input: Input, m: Machine, s: Schedule)
    requires !ReachesFinalize(t, dest, input, m, s)
    ensures var o := Materialize(t, dest, input, m, s).outcome;
      o.RefusedRun? ==> o.code != E_NO_DESTINATION
  {
    PathProblemCodes(EveryEntry(input.index), 0);
  }

  /** A reported refusal is in the documented table exactly when it is not the
      refusal of a badly confirmed destination. */
  lemma TableHoldsExactly(input: Input, t: Tree, m: Machine, s: Schedule)
    requires WfTree(t)
    requires RunProtocol(input, t, m, s).outcome.RefusedRun?
    ensures var o := RunProtocol(input, t, m, s).outcome;
      Documented(o.code, o.state) <==> !BadConfirmedDestination(input, t)
  {
    RunIsMaterialize(input, t, m, s);
    if Chosen(input, t).Some? {
      LateCodesDocumented(input, t, m, s, Chosen(input, t).value);
    } else {
      StoppedDocumentedExactly(input, t);
    }
  }

  lemma StoppedDocumentedExactly(input: Input, t: Tree)
    requires Prepare(input, t).Stopped?
    ensures Documented(Prepare(input, t).code, Prepare(input, t).state) <==> !BadConfirmedDestination(input, t)
  {
    PreparationCodes(input, t);
    if input.confirmation.Answer? && input.confirmation.destination.Absolute? {
      WalkProblemCodes(t, input.confirmation.destination.path, 0);
    }
  }

  // ----- documented claims that fail as stated -----

  /** A refused finalisation does mutate: on the empty tree, a destination
      directory is made for the first file and survives its failed copy. */
  lemma FailureLeavesDestination(sha: Text, tmp: Text, digest: Bytes -> Text)
    requires tmp !in [Lit("skill"), Lit("SKILL.md")]
    ensures var t, dest := map[[] := Dir], [Lit("skills")];
      var items := [Item([Lit("skill"), Lit("SKILL.md")], sha)];
      var f := Otherwise(items, ThrowAtOnce(dest, items));
      var x := FinalizeUnmanaged(t, dest, items, f, tmp, digest);
      x.error.Some? && !x.crashed && x.tree != t
  {
    var t: Tree, dest := map[[] := Dir], [Lit("skills")];
    var items := [Item([Lit("skill"), Lit("SKILL.md")], sha)];
    assert Target(dest, items[0]) == [Lit("skills"), Lit("skill"), Lit("SKILL.md")];
    assert dest !in t && !LinkAbove(t, dest) && !SomeRemovalThrows(t, dest, items);
    ThrowingTraces(t, dest, items, tmp, digest);
  }

  // ----- a file that cannot be read -----

  /** Whatever is written or not, a failed run removes a file at an indexed path
      that cannot be read. */
  lemma UnreadableFileIsLost(t: Tree, dest: Path, items: seq<Item>, f: Faults, tmp: Text, digest: Bytes -> Text, i: nat)
    requires WfTree(t) && PrefixFree(Targets(dest, items)) && forall k :: 0 <= k < |items| ==> items[k].rel != []
    requires i < |items| && IsFile(t, Target(dest, items[i])) && ReadFile(t, Target(dest, items[i])).None?
    requires Tidy(f) && PlaceFrom(t, dest, items, f.place, tmp, digest, 0).error.Some?
    ensures var x := FinalizeUnmanaged(t, dest, items, f, tmp, digest); !x.crashed ==> x.tree != t
  {
    FailedPlacement(t, dest, items, f, tmp, digest);
    assert Targets(dest, items)[i] == Target(dest, items[i]);
    CreatedTargets(t, dest, items, Target(dest, items[i]));
  }

  const D := [Lit("d")]
  const A := [Lit("d"), Lit("a")]
  const B := [Lit("d"), Lit("b")]
  const X := [Lit("d"), Lit("a"), Lit("x")]

  // A destination holding a link and a file that cannot be read.
  function BarredTree(bytes: Bytes): Tree {
    map[[] := Dir, D := Dir, A := Link, B := File(bytes, 0x80, false)]
  }

  function BarredItems(sha: Text, sha': Text): seq<Item> {
    [Item([Lit("a"), Lit("x")], sha), Item([Lit("b")], sha')]
  }

  lemma BarredPaths()
    ensures A != B && A[..1] == D && B[..1] == D && X[..1] == D && X[..2] == A && Parent(X) == A && Parent(B) == D
    ensures !(X <= B) && !(B <= X)
  {
    assert A[1][0] != B[1][0];
  }

  lemma BarredSetting(bytes: Bytes, sha: Text, sha': Text)
    ensures var t, items := BarredTree(bytes), BarredItems(sha, sha');
      && WfTree(t) && Targets(D, items) == [X, B] && PrefixFree([X, B]) && !SomeRemovalThrows(t, D, items)
      && IsFile(t, B) && ReadFile(t, B).None?
  {
    BarredPaths();
    var t, items := BarredTree(bytes), BarredItems(sha, sha');
    assert Targets(D, items) == [Target(D, items[0]), Target(D, items[1])];
    assert [Lit("d")] + [Lit("a"), Lit("x")] == X && [Lit("d")] + [Lit("b")] == B;
    assert Parent(D) == [] && D[..0] == [];
    forall i | 0 <= i < |items| ensures !RemovalThrows(t, Target(D, items[i])) {
      assert Target(D, items[i]) == [X, B][i];
      assert X[..0] == [] && B[..0] == [];
    }
  }

  lemma BarredWalk(bytes: Bytes)
    ensures Walk(BarredTree(bytes), A, 0, 3) == Walked(BarredTree(bytes), Some(SymlinkFound))
  {
    BarredPaths();
    assert A[..2] == A;
    assert Walk(BarredTree(bytes), A, 1, 3) == Walked(BarredTree(bytes), Some(SymlinkFound));
  }

  /** A file that cannot be read counts as one the run made: behind a file that a
      link bars nothing is ever written, and yet the undo removes it. */
  lemma UnreadableFileIsRemoved(bytes: Bytes, sha: Text, sha': Text, tmp: Text, digest: Bytes -> Text)
    ensures var t, items := BarredTree(bytes), BarredItems(sha, sha');
      var place := ThrowAtOnce(D, items);
      var x := FinalizeUnmanaged(t, D, items, Otherwise(items, place), tmp, digest);
      && PlaceFrom(t, D, items, place, tmp, digest, 0) == Placing(t, Some(SymlinkFound), 0)
      && x.error == Some(SymlinkFound) && !x.crashed && x.tree != t
  {
    var t, items := BarredTree(bytes), BarredItems(sha, sha');
    var place := ThrowAtOnce(D, items);
    BarredSetting(bytes, sha, sha');
    BarredPaths();
    BarredWalk(bytes);
    assert Target(D, items[0]) == Targets(D, items)[0] == X;
    assert Target(D, items[1]) == Targets(D, items)[1] == B;
    assert PlaceOne(t, X, sha, place(0), tmp, digest) == Walked(t, Some(SymlinkFound));
    FailedUnder(t, D, items, place, tmp, digest);
    UnreadableFileIsLost(t, D, items, Otherwise(items, place), tmp, digest, 1);
  }

  /** A refusal outside the table: a confirmed destination that is not absolute
      is refused with E_NO_DESTINATION at CONFIRM_IF_NEEDED. */
  lemma RelativeConfirmationIsUndocumented(index: Index, tmp: Text, t: Tree, m: Machine, s: Schedule)
    ensures var input :=
      Input(true, true, false, None, true, NotStated, true, Answer(true, Relative), true, index, tmp);
      var o := RunProtocol(input, t, m, s).outcome;
      o == RefusedRun(E_NO_DESTINATION, CONFIRM_IF_NEEDED, false) && !Documented(o.code, o.state)
  {
  }
}
