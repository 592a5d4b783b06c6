// The install engine: the protocol run step by step on a mutable tree, staging
// area and trace, each step proved to do what its specification function says.
module Engine {
  import opened Sequences
  import opened Texts
  import opened Utf8
  import opened SafePath
  import opened PayloadIndex
  import opened TrustPolicy
  import opened FileTree
  import opened Install
  import opened Managed
  import opened InstallRun
  import opened InstallTheorems

  lemma RemoveAdded(t: Tree, p: Path, n: Node)
    requires p !in t
    ensures t[p := n] - {p} == t
  {
  }

  lemma RenameAdded(t: Tree, tmp: Path, target: Path, a: Node, b: Node)
    requires tmp !in t
    ensures (t[tmp := a] - {tmp})[target := b] == t[target := b]
  {
  }

  lemma DedupStep(s: seq<Path>, x: Path)
    ensures Dedup(s + [x]) == Dedup(s) + if x in s then [] else [x]
  {
    assert (s + [x])[..|s|] == s;
  }

  lemma DedupNext(before: seq<Path>, above: seq<Path>, k: nat)
    requires k < |above|
    ensures var sofar := Dedup(before + above[..k]);
      Dedup(before + above[..k + 1]) == if above[k] in sofar then sofar else sofar + [above[k]]
  {
    assert above[..k + 1] == above[..k] + [above[k]];
    Assoc(before, above[..k], [above[k]]);
    DedupStep(before + above[..k], above[k]);
    assert above[k] in Dedup(before + above[..k]) <==> above[k] in before + above[..k];
  }

  lemma SkillStep(t: Tree, dest: Path, skills: seq<Text>, i: nat)
    requires i < |skills|
    ensures WithoutSkills(t, dest, skills[..i + 1])
         == WithoutSkills(WithoutSkills(t, dest, skills[..i]), dest, [skills[i]])
    ensures BackupOf(t, dest, skills[..i + 1]) == BackupOf(t, dest, skills[..i]) + BackupOf(t, dest, [skills[i]])
  {
    forall p ensures UnderSkills(p, dest, skills[..i + 1]) <==>
      UnderSkills(p, dest, skills[..i]) || UnderSkills(p, dest, [skills[i]])
    {
      assert skills[..i + 1] == skills[..i] + [skills[i]];
    }
  }

  lemma BackupOfBackup(t: Tree, dest: Path, skills: seq<Text>, i: nat)
    requires i < |skills|
    ensures BackupOf(BackupOf(t, dest, skills), dest, [skills[i]]) == BackupOf(t, dest, [skills[i]])
  {
  }

  lemma AddTrees(a: Tree, b: Tree, c: Tree)
    ensures a + b + c == a + (b + c)
  {
  }

  class Installer {
    var tree: Tree
    var staged: Staged
    var trace: seq<TraceEntry>

    constructor (initial: Tree)
      ensures tree == initial && staged == map[] && trace == []
    {
      tree, staged, trace := initial, map[], [];
    }

    // ----- placing -----

    method EnsureWriteChain(dir: Path, stop: nat) returns (error: Option<PlaceError>)
      modifies this`tree
      ensures Walked(tree, error) == Walk(old(tree), dir, 0, stop)
    {
      for k := 0 to |dir|
        invariant Walk(tree, dir, k, stop) == Walk(old(tree), dir, 0, stop)
      {
        if k >= stop { return Some(Interrupted); }
        var p := dir[..k + 1];
        if p !in tree {
          tree := tree[p := Dir];
        } else if tree[p] == Link {
          return Some(SymlinkFound);
        } else if tree[p].File? {
          return Some(NotDirectory);
        }
      }
      error := None;
    }

    // writeFileInValidatedDir: reserve the temporary name, copy, rename.
    method WriteInValidatedDir(target: Path, f: PlaceFault, tmp: Text) returns (error: Option<PlaceError>)
      requires target != []
      modifies this`tree
      ensures Walked(tree, error) == WriteOne(old(tree), target, f, tmp)
    {
      if f.stop <= |Parent(target)| { return Some(Interrupted); }
      var tmpPath := Parent(target) + [tmp];
      if tmpPath in tree { return Some(SymlinkFound); }
      ghost var walked := tree;
      tree := tree[tmpPath := Fresh([], 0x180)];
      if f.copy.Threw? {
        CleanUp(walked, tmpPath, f.leftover);
        return Some(ThrownError(f.copy.tag));
      }
      tree := tree[tmpPath := Fresh(f.copy.bytes, f.copy.mode)];
      if IsDir(tree, target) {
        CleanUp(walked, tmpPath, f.leftover);
        return Some(Interrupted);
      }
      tree := (tree - {tmpPath})[target := Fresh(f.copy.bytes, f.copy.mode)];
      RenameAdded(walked, tmpPath, target, Fresh(f.copy.bytes, f.copy.mode), Fresh(f.copy.bytes, f.copy.mode));
      error := None;
    }

    // The temporary file is removed, or the removal fails silently.
    method CleanUp(ghost before: Tree, tmpPath: Path, leftover: Option<Bytes>)
      requires tmpPath !in before && tmpPath in tree && tree == before[tmpPath := tree[tmpPath]]
      modifies this`tree
      ensures tree == Left(before, tmpPath, leftover)
    {
      if leftover.None? {
        RemoveAdded(before, tmpPath, tree[tmpPath]);
        tree := tree - {tmpPath};
      } else {
        tree := tree[tmpPath := Fresh(leftover.value, 0x180)];
      }
    }

    method PlaceFile(target: Path, sha: Text, f: PlaceFault, tmp: Text, digest: Bytes -> Text)
      returns (error: Option<PlaceError>)
      requires target != []
      modifies this`tree
      ensures Walked(tree, error) == PlaceOne(old(tree), target, sha, f, tmp, digest)
    {
      error := EnsureWriteChain(Parent(target), f.stop);
      if error.Some? { return; }
      error := WriteInValidatedDir(target, f, tmp);
      if error.Some? { return; }
      if f.rereadThrows { return Some(RereadFailed); }
      if digest(tree[target].bytes) != sha { return Some(PlaceError.HashMismatch); }
      error := None;
    }

    method PlaceAll(dest: Path, items: seq<Item>, place: nat -> PlaceFault, tmp: Text, digest: Bytes -> Text)
      returns (error: Option<PlaceError>, done: nat)
      requires forall i :: 0 <= i < |items| ==> items[i].rel != []
      modifies this`tree
      ensures Placing(tree, error, done) == PlaceFrom(old(tree), dest, items, place, tmp, digest, 0)
    {
      done := 0;
      while done < |items|
        invariant done <= |items|
        invariant PlaceFrom(tree, dest, items, place, tmp, digest, done)
               == PlaceFrom(old(tree), dest, items, place, tmp, digest, 0)
      {
        error := PlaceFile(Target(dest, items[done]), items[done].sha256, place(done), tmp, digest);
        if error.Some? { return; }
        done := done + 1;
      }
      error := None;
    }

    // ----- undoing -----

    method RemoveCreated(ps: seq<Path>, stop: nat) returns (ok: bool)
      modifies this`tree
      ensures Removal(tree, ok) == RemoveUntil(old(tree), ps, stop)
    {
      for i := 0 to |ps|
        invariant i <= stop
        invariant RemoveUntil(tree, ps[i..], stop - i) == RemoveUntil(old(tree), ps, stop)
      {
        if i == stop || RemovalThrows(tree, ps[i]) { return false; }
        tree := tree - {ps[i]};
        assert ps[i..][1..] == ps[i + 1..];
      }
      ok := true;
    }

    method AddDirs(dirs0: seq<Path>, ghost before: seq<Path>, above: seq<Path>) returns (dirs: seq<Path>)
      requires dirs0 == Dedup(before)
      ensures dirs == Dedup(before + above)
    {
      dirs := dirs0;
      assert before + above[..0] == before;
      for k := 0 to |above|
        invariant dirs == Dedup(before + above[..k])
      {
        DedupNext(before, above, k);
        if above[k] !in dirs { dirs := dirs + [above[k]]; }
      }
      assert above[..|above|] == above;
    }

    method CollectDirs(rels: seq<Path>) returns (dirs: seq<Path>)
      ensures dirs == Dedup(FlatMap(rels, Ancestors))
    {
      dirs := [];
      for i := 0 to |rels|
        invariant dirs == Dedup(FlatMap(rels[..i], Ancestors))
      {
        FlatMapStep(rels, i, Ancestors);
        dirs := AddDirs(dirs, FlatMap(rels[..i], Ancestors), Ancestors(rels[i]));
      }
      assert rels[..|rels|] == rels;
    }

    method RemoveEmptyDirs(ds: seq<Path>, stuck: set<Path>)
      modifies this`tree
      ensures tree == Prune(old(tree), Unstuck(ds, stuck))
    {
      for i := 0 to |ds|
        invariant Prune(tree, Unstuck(ds[i..], stuck)) == Prune(old(tree), Unstuck(ds, stuck))
      {
        assert ds[i..][0] == ds[i] && ds[i..][1..] == ds[i + 1..];
        HeadAndTail(ds[i], Unstuck(ds[i + 1..], stuck));
        if ds[i] !in stuck && IsDir(tree, ds[i]) && !HasChild(tree, ds[i]) { tree := tree - {ds[i]}; }
      }
    }

    method PruneEmptyDirs(dest: Path, rels: seq<Path>, stuck: set<Path>)
      modifies this`tree
      ensures tree == Prune(old(tree), Unstuck(Below(dest, PruneOrder(rels)), stuck))
    {
      var dirs := CollectDirs(rels);
      RemoveEmptyDirs(Below(dest, SortByLength(dirs)), stuck);
    }

    method UndoUnmanaged(dest: Path, created: seq<Path>, stop: nat, stuck: set<Path>) returns (ok: bool)
      modifies this`tree
      ensures Removal(tree, ok) == UndoWith(old(tree), dest, created, stop, stuck)
    {
      ok := RemoveCreated(Below(dest, created), stop);
      if ok { PruneEmptyDirs(dest, created, stuck); }
    }

    // ----- managed replacement -----

    method RemoveSkills(dest: Path, skills: seq<Text>, stop: nat, gone: set<Path>) returns (ok: bool)
      modifies this`tree
      ensures ok == (stop >= |skills|)
      ensures tree == Cleared(old(tree), dest, skills, stop, gone)
    {
      assert WithoutSkills(tree, dest, skills[..0]) == tree;
      for i := 0 to |skills|
        invariant i <= stop
        invariant tree == WithoutSkills(old(tree), dest, skills[..i])
      {
        if i == stop {
          tree := Torn(tree, dest, skills[i], gone);
          return false;
        }
        SkillStep(old(tree), dest, skills, i);
        tree := WithoutSkills(tree, dest, [skills[i]]);
      }
      assert skills[..|skills|] == skills;
      ok := true;
    }

    method BackUp(dest: Path, skills: seq<Text>, stop: nat) returns (ok: bool, backup: Tree)
      ensures ok == (SkillsPresent(tree, dest, skills) && stop >= |skills|)
      ensures ok ==> backup == BackupOf(tree, dest, skills)
    {
      backup := map[];
      assert BackupOf(tree, dest, skills[..0]) == map[];
      for i := 0 to |skills|
        invariant i <= stop
        invariant forall k :: 0 <= k < i ==> IsDir(tree, dest + [skills[k]])
        invariant backup == BackupOf(tree, dest, skills[..i])
      {
        if i == stop || !IsDir(tree, dest + [skills[i]]) { return false, backup; }
        SkillStep(tree, dest, skills, i);
        backup := backup + BackupOf(tree, dest, [skills[i]]);
      }
      assert skills[..|skills|] == skills;
      ok := true;
    }

    method CopyBack(ghost initial: Tree, backup: Tree, dest: Path, skills: seq<Text>, stop: nat) returns (ok: bool)
      requires backup == BackupOf(initial, dest, skills)
      modifies this`tree
      ensures ok == (stop >= |skills|)
      ensures tree == old(tree) + BackupOf(initial, dest, if ok then skills else skills[..stop])
    {
      assert tree + BackupOf(initial, dest, skills[..0]) == tree;
      for i := 0 to |skills|
        invariant i <= stop
        invariant tree == old(tree) + BackupOf(initial, dest, skills[..i])
      {
        if i == stop { return false; }
        SkillStep(initial, dest, skills, i);
        BackupOfBackup(initial, dest, skills, i);
        AddTrees(old(tree), BackupOf(initial, dest, skills[..i]), BackupOf(initial, dest, [skills[i]]));
        tree := tree + BackupOf(backup, dest, [skills[i]]);
      }
      assert skills[..|skills|] == skills;
      ok := true;
    }

    method RestoreBackup(ghost initial: Tree, backup: Tree, dest: Path, skills: seq<Text>, stop: nat, gone: set<Path>)
      returns (failed: bool)
      requires backup == BackupOf(initial, dest, skills)
      modifies this`tree
      ensures Replaced(tree, None, failed) == Restore(initial, old(tree), dest, skills, stop, gone)
    {
      var removed := RemoveSkills(dest, skills, stop, gone);
      if !removed { return true; }
      var copied := CopyBack(initial, backup, dest, skills, stop - |skills|);
      failed := !copied;
    }

    // ----- the checks and copies of MATERIALIZE -----

    method CheckExisting(dest: Path, items: seq<Item>, digest: Bytes -> Text)
      returns (ok: bool, existing: set<Path>)
      ensures ok == !Modified(tree, dest, items, digest)
      ensures ok ==> forall rel :: rel in existing <==>
        exists i :: 0 <= i < |items| && items[i].rel == rel && ReadFile(tree, Target(dest, items[i])).Some?
    {
      existing := {};
      for i := 0 to |items|
        invariant forall k :: 0 <= k < i ==>
          var found := ReadFile(tree, Target(dest, items[k]));
          found.Some? ==> Agrees(found.value, items[k], digest)
        invariant forall rel :: rel in existing <==>
          exists k :: 0 <= k < i && items[k].rel == rel && ReadFile(tree, Target(dest, items[k])).Some?
      {
        var found := ReadFile(tree, Target(dest, items[i]));
        if found.Some? {
          if !Agrees(found.value, items[i], digest) { return false, existing; }
          existing := existing + {items[i].rel};
        }
      }
      ok := true;
    }

    method ListCreated(items: seq<Item>, existing: set<Path>, ghost t: Tree, ghost dest: Path)
      returns (created: seq<Path>)
      requires forall rel :: rel in existing <==>
        exists i :: 0 <= i < |items| && items[i].rel == rel && ReadFile(t, Target(dest, items[i])).Some?
      ensures created == CreatedRels(t, dest, items)
    {
      created := [];
      var i := |items|;
      while i > 0
        invariant 0 <= i <= |items|
        invariant created == CreatedRels(t, dest, items[i..])
      {
        i := i - 1;
        assert items[i..][0] == items[i] && items[i..][1..] == items[i + 1..];
        if items[i].rel !in existing { created := [items[i].rel] + created; }
      }
      assert items[0..] == items;
    }

    method StageAll(items: seq<Item>, stage: nat -> Copy) returns (ok: bool)
      modifies this`staged
      ensures Staging(staged, ok) == StageFrom(map[], items, stage, 0)
    {
      staged := map[];
      for j := 0 to |items|
        invariant StageFrom(staged, items, stage, j) == StageFrom(map[], items, stage, 0)
      {
        if StageConflict(staged, items[j].rel) || stage(j).Threw? { return false; }
        staged := staged[items[j].rel := stage(j).bytes];
      }
      ok := true;
    }

    method CheckStaged(items: seq<Item>, unreadable: nat -> bool, digest: Bytes -> Text) returns (check: StagedCheck)
      ensures check == CheckFrom(staged, items, unreadable, digest, 0)
    {
      for i := 0 to |items|
        invariant CheckFrom(staged, items, unreadable, digest, i) == CheckFrom(staged, items, unreadable, digest, 0)
      {
        if items[i].rel !in staged || unreadable(i) { return ReadThrows; }
        if !Agrees(staged[items[i].rel], items[i], digest) { return Mismatch; }
      }
      check := AllMatch;
    }

    method CheckPaths(es: seq<IndexEntry>) returns (problem: Option<Refusal>)
      ensures problem == PathProblem(es, 0)
    {
      var seen: set<Text> := {};
      for n := 0 to |es|
        invariant PathProblem(es, n) == PathProblem(es, 0)
        invariant seen == Paths(es[..n])
      {
        if !IsSafePath(es[n].path) { return Some(E_TRAVERSAL); }
        if es[n].path in seen { return Some(E_DUPLICATE); }
        seen := seen + {es[n].path};
        PathsStep(es[..n + 1]);
        assert es[..n + 1][..n] == es[..n];
      }
      problem := None;
    }

    method WalkPlan(p: Path) returns (problem: Option<Refusal>)
      ensures problem == WalkProblem(tree, p, 0)
    {
      for k := 0 to |p|
        invariant WalkProblem(tree, p, k) == WalkProblem(tree, p, 0)
      {
        var q := p[..k + 1];
        if q !in tree { return None; }
        if tree[q] == Link { return Some(E_DESTINATION_SYMLINK); }
        if tree[q].File? { return Some(E_NO_DESTINATION); }
      }
      problem := None;
    }

    // ----- finalisation -----

    method FinishUnmanaged(dest: Path, items: seq<Item>, existing: set<Path>, f: Faults, tmp: Text,
                           digest: Bytes -> Text) returns (error: Option<PlaceError>, crashed: bool)
      requires forall i :: 0 <= i < |items| ==> items[i].rel != []
      requires forall rel :: rel in existing <==>
        exists i :: 0 <= i < |items| && items[i].rel == rel && ReadFile(tree, Target(dest, items[i])).Some?
      modifies this`tree
      ensures Finalized(tree, error, crashed) == FinalizeUnmanaged(old(tree), dest, items, f, tmp, digest)
    {
      var done;
      error, done := PlaceAll(dest, items, f.place, tmp, digest);
      crashed := false;
      if error.Some? {
        var created := ListCreated(items, existing, old(tree), dest);
        var ok := UndoUnmanaged(dest, created, f.undoStop, f.stuck);
        crashed := !ok;
      }
    }

    method FinishManaged(dest: Path, items: seq<Item>, skills: seq<Text>, f: Faults, tmp: Text, digest: Bytes -> Text)
      returns (error: Option<PlaceError>, restoreFailed: bool, backedUp: bool)
      requires forall i :: 0 <= i < |items| ==> items[i].rel != []
      modifies this`tree
      ensures Replaced(tree, error, restoreFailed) == FinalizeManaged(old(tree), dest, items, skills, f, tmp, digest)
      ensures backedUp == BackedUp(old(tree), dest, skills, f)
    {
      if !f.backupReady { return Some(Interrupted), false, false; }
      ghost var initial := tree;
      var copied, backup := BackUp(dest, skills, f.backupStop);
      if !copied { return Some(Interrupted), false, false; }
      backedUp := RemoveSkills(dest, skills, f.backupStop - |skills|, f.gone);
      if !backedUp { return Some(Interrupted), false, false; }
      var done;
      error, done := PlaceAll(dest, items, f.place, tmp, digest);
      restoreFailed := false;
      if error.Some? {
        restoreFailed := RestoreBackup(initial, backup, dest, skills, f.restoreStop, f.restoreGone);
      }
    }

    method WriteManagedMarker(dest: Path, tmp: Text, marker: Bytes, fault: MarkerFault, n: nat)
      returns (outcome: Outcome)
      modifies this`tree
      ensures End(tree, map[], outcome) == WriteMarker(old(tree), dest, tmp, marker, fault, n)
    {
      if !IsDir(tree, dest) { return Crashed; }
      var tmpPath := dest + [tmp];
      if fault.MarkerFault? {
        if tmpPath !in tree { tree := Left(tree, tmpPath, fault.leftover); }
        return Crashed;
      }
      if tmpPath in tree { return RefusedRun(E_DESTINATION_SYMLINK, MATERIALIZE, false); }
      ghost var placed := tree;
      tree := tree[tmpPath := Fresh(marker, 0x1A4)];
      if IsDir(tree, dest + [MARKER_NAME]) { return Crashed; }
      tree := (tree - {tmpPath})[dest + [MARKER_NAME] := Fresh(marker, 0x1A4)];
      RenameAdded(placed, tmpPath, dest + [MARKER_NAME], Fresh(marker, 0x1A4), Fresh(marker, 0x1A4));
      outcome := Placed(dest, n);
    }

    method CompleteRun(dest: Path, tmp: Text, m: Machine, f: Faults, n: nat) returns (outcome: Outcome)
      modifies this`tree, this`staged
      ensures End(tree, staged, outcome) == Complete(old(tree), old(staged), dest, tmp, m, f, n)
    {
      if f.clearThrows { return Crashed; }
      staged := map[];
      outcome := WriteManagedMarker(dest, tmp, m.marker, f.marker, n);
    }

    method GiveUpRun(e: PlaceError, restoreFailed: bool, f: Faults) returns (outcome: Outcome)
      modifies this`staged
      ensures End(tree, staged, outcome) == GiveUp(tree, old(staged), e, restoreFailed, f)
    {
      if f.clearThrows { return Crashed; }
      staged := map[];
      if e == CodedOther { return Crashed; }
      outcome := RefusedRun(ErrorCode(e), ErrorState(e), restoreFailed);
    }

    method FinalizeAll(dest: Path, items: seq<Item>, existing: set<Path>, tmp: Text, m: Machine, f: Faults,
                       managed: bool) returns (outcome: Outcome)
      requires forall i :: 0 <= i < |items| ==> items[i].rel != []
      requires !managed ==> forall rel :: rel in existing <==>
        exists i :: 0 <= i < |items| && items[i].rel == rel && ReadFile(tree, Target(dest, items[i])).Some?
      modifies this`tree, this`staged
      ensures End(tree, staged, outcome) == Finalize(old(tree), old(staged), dest, items, tmp, m, f, managed)
    {
      var error, restoreFailed, crashed, backedUp := None, false, false, true;
      if managed {
        error, restoreFailed, backedUp := FinishManaged(dest, items, SkillDirs(items), f, tmp, m.digest);
      } else {
        error, crashed := FinishUnmanaged(dest, items, existing, f, tmp, m.digest);
      }
      if error.None? {
        outcome := CompleteRun(dest, tmp, m, f, |items|);
      } else if crashed {
        outcome := Crashed;
      } else if !backedUp {
        outcome := RefusedRun(E_INTERRUPTED, MATERIALIZE, false);
      } else {
        outcome := GiveUpRun(error.value, restoreFailed, f);
      }
    }

    // ----- the trace -----

    method Push(state: State, action: Action, ghost planned: Action, ghost confirmed: Action)
      requires |trace| < 7 && state == CHAIN[|trace|] && trace == PassedEntries(planned, confirmed, |trace|)
      requires PassedEntry(planned, confirmed, state) == TraceEntry(state, action, None)
      modifies this`trace
      ensures |trace| == old(|trace|) + 1 && trace == PassedEntries(planned, confirmed, |trace|)
    {
      trace := trace + [TraceEntry(state, action, None)];
    }

    /** Mark the refusal: on the entry of its state if that is the last one,
        on MATERIALIZE after dropping VERIFY, or as a new entry. */
    method Refuse(code: Refusal, state: State, ghost planned: Action, ghost confirmed: Action)
      requires 0 < |trace| < 7 && trace == PassedEntries(planned, confirmed, |trace|)
      requires |trace| == Position(state) || |trace| == Position(state) + 1 || (state == MATERIALIZE && |trace| == 6)
      modifies this`trace
      ensures trace == RefusedTrace(planned, confirmed, code, state)
    {
      var last := |trace| - 1;
      if trace[last].state == state {
        trace := trace[last := TraceEntry(state, InstallRun.Refused, Some(code))];
      } else if state == MATERIALIZE && trace[last].state == VERIFY {
        trace := trace[..last];
        trace := trace[last - 1 := TraceEntry(state, InstallRun.Refused, Some(code))];
      } else {
        trace := trace + [TraceEntry(state, InstallRun.Refused, Some(code))];
      }
    }

    // ----- the run -----

    method Object(dest: Path, input: Input, m: Machine) returns (objection: Option<Refusal>, existing: set<Path>)
      ensures objection == Objection(tree, dest, input, m)
      ensures objection.None? && !IsManaged(tree, dest, m) ==> forall rel :: rel in existing <==>
        exists i :: 0 <= i < |PlacedItems(input.index)| && PlacedItems(input.index)[i].rel == rel
                    && ReadFile(tree, Target(dest, PlacedItems(input.index)[i])).Some?
    {
      existing := {};
      if !input.hasSandbox { return Some(E_NO_WRITE), {}; }
      var problem := CheckPaths(EveryEntry(input.index));
      if problem.Some? { return problem, {}; }
      if !AllPlaceable(PlacedEntries(input.index)) { return Some(E_UNSUPPORTED_FORMAT), {}; }
      if !IsManaged(tree, dest, m) {
        var ok;
        ok, existing := CheckExisting(dest, PlacedItems(input.index), m.digest);
        if !ok { return Some(E_MODIFIED_EXISTING), existing; }
      }
      objection := None;
    }

    method ClearThenRefuse(code: Refusal, state: State, f: Faults) returns (outcome: Outcome)
      modifies this`staged
      ensures End(tree, staged, outcome) == ClearAndRefuse(tree, old(staged), code, state, f)
    {
      if f.clearThrows { return Crashed; }
      staged := map[];
      outcome := RefusedRun(code, state, false);
    }

    method StageVerifyFinalize(dest: Path, items: seq<Item>, existing: set<Path>, tmp: Text, m: Machine, s: Schedule,
                               managed: bool) returns (outcome: Outcome, verifying: bool)
      requires staged == map[] && forall i :: 0 <= i < |items| ==> items[i].rel != []
      requires !managed ==> forall rel :: rel in existing <==>
        exists i :: 0 <= i < |items| && items[i].rel == rel && ReadFile(tree, Target(dest, items[i])).Some?
      modifies this`tree, this`staged
      ensures End(tree, staged, outcome) == StageAndFinalize(old(tree), dest, items, tmp, m, s, managed)
      ensures !verifying ==> outcome.Crashed? || (outcome.RefusedRun? && outcome.state == MATERIALIZE)
    {
      if s.prepareThrows { return Crashed, false; }
      var ok := StageAll(items, s.stage);
      if !ok {
        outcome := ClearThenRefuse(E_INTERRUPTED, MATERIALIZE, s.faults);
        return outcome, false;
      }
      verifying := true;
      var check := CheckStaged(items, s.unreadable, m.digest);
      match check
      case ReadThrows => outcome := Crashed;
      case Mismatch => outcome := ClearThenRefuse(E_HASH_MISMATCH, VERIFY, s.faults);
      case AllMatch => outcome := FinalizeAll(dest, items, existing, tmp, m, s.faults, managed);
    }

    method MaterializeAndVerify(dest: Path, input: Input, m: Machine, s: Schedule)
      returns (outcome: Outcome, verifying: bool)
      requires staged == map[]
      modifies this`tree, this`staged
      ensures End(tree, staged, outcome) == Materialize(old(tree), dest, input, m, s)
      ensures !verifying ==> outcome.Crashed? || (outcome.RefusedRun? && outcome.state == MATERIALIZE)
    {
      var objection, existing := Object(dest, input, m);
      if objection.Some? { return RefusedRun(objection.value, MATERIALIZE, false), false; }
      outcome, verifying := StageVerifyFinalize(dest, PlacedItems(input.index), existing, input.tmp, m, s,
                                                IsManaged(tree, dest, m));
    }

    method ConfirmDestination(input: Input, plan: Plan) returns (choice: Choice)
      requires !plan.PlanRefused?
      ensures choice == Confirm(input, tree, plan)
    {
      if plan.PlanAt? && input.trustRootApproved { return GoTo(plan.path, false); }
      if !input.trustRootApproved && !Approved(input.confirmation) { return ChoiceRefused(E_UNTRUSTED); }
      if plan.PlanAt? { return GoTo(plan.path, true); }
      if input.confirmation.NoConfirmation? || input.confirmation.destination.NotStated? {
        return ChoiceRefused(E_AMBIGUOUS_DESTINATION);
      }
      if input.confirmation.destination.Relative? { return ChoiceRefused(E_NO_DESTINATION); }
      var problem := WalkPlan(input.confirmation.destination.path);
      if problem.Some? { return ChoiceRefused(problem.value); }
      choice := GoTo(input.confirmation.destination.path, true);
    }

    method Plan(input: Input) returns (plan: InstallRun.Plan)
      ensures plan == PlanDestination(input, tree)
    {
      match input.destination {
        case Absolute(p) =>
          var problem := WalkPlan(p);
          if problem.Some? { return PlanRefused(problem.value); }
          return PlanAt(p);
        case Relative =>
          return PlanRefused(E_NO_DESTINATION);
        case NotStated =>
          if !input.knowsDestination && input.hasCandidates { return PlanAmbiguous; }
          return PlanRefused(E_NO_DESTINATION);
      }
    }

    /** DISCOVER to CONFIRM_IF_NEEDED. */
    method PrepareRun(input: Input) returns (p: Preparation)
      requires trace == []
      modifies this`trace
      ensures p == Prepare(input, tree)
      ensures p.Stopped? ==> trace == RefusedTrace(p.planned, p.confirmed, p.code, p.state)
      ensures p.Ready? ==> trace == PassedEntries(p.planned, p.confirmed, 4)
    {
      var no := InstallRun.Refused;
      ghost var planned, confirmed := Prepare(input, tree).planned, Prepare(input, tree).confirmed;
      Push(DISCOVER, Accepted, planned, confirmed);
      var refusal := Discover(input);
      if refusal.Some? {
        Refuse(refusal.value, DISCOVER, planned, confirmed);
        return Stopped(refusal.value, DISCOVER, no, no);
      }
      Push(TRUST, Accepted, planned, confirmed);
      var trust := Trust(input);
      if trust == Aborts { return Aborted(no, no); }
      if trust.Refuses? {
        Refuse(trust.code, TRUST, planned, confirmed);
        return Stopped(trust.code, TRUST, no, no);
      }
      var plan := Plan(input);
      if plan.PlanRefused? {
        Refuse(plan.code, PLAN_DESTINATION, planned, confirmed);
        return Stopped(plan.code, PLAN_DESTINATION, no, no);
      }
      var action := if plan.PlanAt? then PlannedIt else AmbiguousIt;
      Push(PLAN_DESTINATION, action, planned, confirmed);
      var choice := ConfirmDestination(input, plan);
      if choice.ChoiceRefused? {
        Refuse(choice.code, CONFIRM_IF_NEEDED, planned, confirmed);
        return Stopped(choice.code, CONFIRM_IF_NEEDED, action, no);
      }
      var answer := if choice.asked then Confirmed else NotNeeded;
      Push(CONFIRM_IF_NEEDED, answer, planned, confirmed);
      p := Ready(choice.path, action, answer);
    }

    /** The trace of a run that got past MATERIALIZE's entry. */
    method Conclude(outcome: Outcome, verifying: bool, ghost planned: Action, ghost confirmed: Action)
      requires trace == PassedEntries(planned, confirmed, 5)
      requires outcome.RefusedRun? ==> outcome.state == MATERIALIZE || outcome.state == VERIFY
      requires !verifying ==> outcome.Crashed? || (outcome.RefusedRun? && outcome.state == MATERIALIZE)
      modifies this`trace
      ensures !outcome.Crashed? ==> trace == Trace(Run(map[], map[], outcome, planned, confirmed))
    {
      if verifying { Push(VERIFY, VerifiedIt, planned, confirmed); }
      if outcome.Placed? {
        Push(REPORT, Emitted, planned, confirmed);
      } else if outcome.RefusedRun? {
        Refuse(outcome.code, outcome.state, planned, confirmed);
      }
    }

    /** The whole protocol: the tree, the staging area, the outcome and, unless
        the run crashed, the trace are those of the specification. */
    method RunProtocol(input: Input, m: Machine, s: Schedule) returns (outcome: Outcome)
      requires trace == [] && staged == map[]
      modifies this
      ensures var r := InstallRun.RunProtocol(input, old(tree), m, s);
        && tree == r.tree && staged == r.staged && outcome == r.outcome
        && (!outcome.Crashed? ==> trace == Trace(r))
    {
      var p := PrepareRun(input);
      if p.Stopped? { return RefusedRun(p.code, p.state, false); }
      if p.Aborted? { return Crashed; }
      Push(MATERIALIZE, StagedIt, p.planned, p.confirmed);
      var verifying;
      MaterializeCodes(tree, p.path, input, m, s);
      outcome, verifying := MaterializeAndVerify(p.path, input, m, s);
      Conclude(outcome, verifying, p.planned, p.confirmed);
    }

    /** The protocol on an offer: the envelope and the index are checked, and the
        run goes on with the verdict and the index's entries. */
    method RunOffer(offer: Offer, input: Input, m: Machine, s: Schedule) returns (outcome: Outcome)
      requires trace == [] && staged == map[]
      modifies this
      ensures var r := InstallRun.RunProtocol(Admit(offer, input), old(tree), m, s);
        && tree == r.tree && staged == r.staged && outcome == r.outcome
        && (!outcome.Crashed? ==> trace == Trace(r))
    {
      var fault := CheckOffer(offer);
      outcome := RunProtocol(input.(fault := fault, index := offer.Listed()), m, s);
    }
  }
}
