// Which refusal a run ends with before it copies anything, said of its input and
// the tree it finds, and the exit codes of the refusal table.
module EarlyRefusals {
  import opened Texts
  import opened Utf8
  import opened PayloadIndex
  import opened TrustPolicy
  import opened FileTree
  import opened Install
  import opened Managed
  import opened InstallRun
  import opened InstallTheorems
  import opened InstallSafety
  import opened InstalledFiles

  // ----- DISCOVER and TRUST -----

  /** Before a destination is planned: what the host lacks, then what is wrong with
      the offer; a check that throws leaves no report. */
  lemma CapabilitiesAndTrustExactly(input: Input, t: Tree, m: Machine, s: Schedule)
    ensures var r := RunProtocol(input, t, m, s);
      && (!input.hasNpx ==> r.outcome == RefusedRun(E_NO_NPX, DISCOVER, false))
      && (input.hasNpx && !input.hasFileWrite ==> r.outcome == RefusedRun(E_NO_WRITE, DISCOVER, false))
      && (input.hasNpx && input.hasFileWrite ==>
            && (input.fault == Some(UntrustedEnvelope) ==> r.outcome == RefusedRun(E_UNTRUSTED, TRUST, false))
            && (input.fault == Some(ExecutableSteps) ==> r.outcome == RefusedRun(E_MALICIOUS_STEPS, TRUST, false))
            && (input.fault == Some(MalformedIndex) ==> r.outcome == RefusedRun(E_UNSUPPORTED_FORMAT, TRUST, false))
            && (input.fault == Some(NoVerdict) ==> r.outcome == Crashed))
      && (!input.hasNpx || !input.hasFileWrite || input.fault.Some? ==> r.tree == t)
  {
  }

  ghost predicate PassedTrust(input: Input) {
    input.hasNpx && input.hasFileWrite && input.fault.None?
  }

  // ----- PLAN_DESTINATION and CONFIRM_IF_NEEDED -----

  /** The first component of the path that is there and no directory has length k. */
  ghost predicate FirstObstacle(t: Tree, p: Path, k: nat) {
    && 0 < k <= |p| && p[..k] in t && t[p[..k]] != Dir
    && forall i :: 0 < i < k ==> p[..i] in t && t[p[..i]] == Dir
  }

  // What stands in the way decides the code.
  ghost predicate ObstacleCode(t: Tree, p: Path, k: nat, code: Refusal) {
    FirstObstacle(t, p, k) && code == if t[p[..k]] == Link then E_DESTINATION_SYMLINK else E_NO_DESTINATION
  }

  ghost predicate Walkable(t: Tree, p: Path) {
    forall k: nat :: !FirstObstacle(t, p, k)
  }

  lemma {:induction false} WalkFindsObstacle(t: Tree, p: Path, k: nat) returns (n: nat)
    requires k <= |p| && forall i :: 0 < i <= k ==> p[..i] in t && t[p[..i]] == Dir
    ensures WalkProblem(t, p, k).Some? ==> ObstacleCode(t, p, n, WalkProblem(t, p, k).value)
    ensures WalkProblem(t, p, k).None? ==> Walkable(t, p)
    decreases |p| - k
  {
    n := k + 1;
    if k < |p| && p[..n] in t && t[p[..n]] == Dir {
      n := WalkFindsObstacle(t, p, k + 1);
    } else if k == |p| || p[..n] !in t {
      assert forall j: nat :: FirstObstacle(t, p, j) ==> j <= n;
    }
  }

  lemma OneObstacle(t: Tree, p: Path, k: nat, j: nat)
    requires FirstObstacle(t, p, k) && FirstObstacle(t, p, j)
    ensures k == j
  {
  }

  /** The walk along a planned destination ends at the first obstacle. */
  lemma WalkProblemExactly(t: Tree, p: Path, k: nat)
    ensures FirstObstacle(t, p, k) ==>
      WalkProblem(t, p, 0) == Some(if t[p[..k]] == Link then E_DESTINATION_SYMLINK else E_NO_DESTINATION)
    ensures WalkProblem(t, p, 0) == None <==> Walkable(t, p)
  {
    var n := WalkFindsObstacle(t, p, 0);
    if FirstObstacle(t, p, k) && WalkProblem(t, p, 0).Some? { OneObstacle(t, p, k, n); }
  }

  /** Planning: a stated destination must be absolute and have no obstacle; without one
      the run goes on only when there are candidates to ask about. */
  lemma PlanningExactly(input: Input, t: Tree, m: Machine, s: Schedule, k: nat)
    requires PassedTrust(input)
    ensures var r := RunProtocol(input, t, m, s);
      && ((input.destination == Relative
           || (input.destination == NotStated && (input.knowsDestination || !input.hasCandidates))) ==>
            r.outcome == RefusedRun(E_NO_DESTINATION, PLAN_DESTINATION, false) && r.tree == t)
      && (input.destination.Absolute? && FirstObstacle(t, input.destination.path, k) ==>
            && r.tree == t
            && r.outcome == RefusedRun(
                 if t[input.destination.path[..k]] == Link then E_DESTINATION_SYMLINK else E_NO_DESTINATION,
                 PLAN_DESTINATION, false))
  {
    if input.destination.Absolute? { WalkProblemExactly(t, input.destination.path, k); }
  }

  /** The run asks which destination to use: none is stated or known, and there are candidates. */
  ghost predicate AsksDestination(input: Input) {
    input.destination == NotStated && !input.knowsDestination && input.hasCandidates
  }

  ghost predicate StatedWell(input: Input, t: Tree) {
    input.destination.Absolute? && Walkable(t, input.destination.path)
  }

  ghost predicate TrustApproved(input: Input) {
    input.trustRootApproved || (input.confirmation.Answer? && input.confirmation.trustRootApproved)
  }

  /** The question: an unapproved trust root first, then a missing answer, then an answer
      that is relative or runs into an obstacle. */
  lemma ConfirmationExactly(input: Input, t: Tree, m: Machine, s: Schedule, k: nat)
    requires PassedTrust(input) && (AsksDestination(input) || StatedWell(input, t))
    ensures var r := RunProtocol(input, t, m, s);
      && (!TrustApproved(input) ==> r.outcome == RefusedRun(E_UNTRUSTED, CONFIRM_IF_NEEDED, false) && r.tree == t)
      && (TrustApproved(input) && AsksDestination(input) ==>
            match input.confirmation
            case NoConfirmation =>
              r.outcome == RefusedRun(E_AMBIGUOUS_DESTINATION, CONFIRM_IF_NEEDED, false) && r.tree == t
            case Answer(_, d) =>
              && (d == NotStated ==>
                    r.outcome == RefusedRun(E_AMBIGUOUS_DESTINATION, CONFIRM_IF_NEEDED, false) && r.tree == t)
              && (d == Relative ==>
                    r.outcome == RefusedRun(E_NO_DESTINATION, CONFIRM_IF_NEEDED, false) && r.tree == t)
              && (d.Absolute? && FirstObstacle(t, d.path, k) ==>
                    && r.tree == t
                    && r.outcome == RefusedRun(
                         if t[d.path[..k]] == Link then E_DESTINATION_SYMLINK else E_NO_DESTINATION,
                         CONFIRM_IF_NEEDED, false)))
  {
    if input.destination.Absolute? { WalkProblemExactly(t, input.destination.path, 0); }
    if input.confirmation.Answer? && input.confirmation.destination.Absolute? {
      WalkProblemExactly(t, input.confirmation.destination.path, k);
    }
  }

  /** A destination is chosen exactly when everything before it went well, and which. */
  lemma ChosenExactly(input: Input, t: Tree, dest: Path)
    ensures Chosen(input, t) == Some(dest) <==>
      && PassedTrust(input) && TrustApproved(input) && Walkable(t, dest)
      && (input.destination == Absolute(dest)
          || (AsksDestination(input) && input.confirmation.Answer? && input.confirmation.destination == Absolute(dest)))
  {
    if input.destination.Absolute? { WalkProblemExactly(t, input.destination.path, 0); }
    if input.confirmation.Answer? && input.confirmation.destination.Absolute? {
      WalkProblemExactly(t, input.confirmation.destination.path, 0);
    }
  }

  // ----- MATERIALIZE, before anything is copied -----

  /** Every entry of the index, in the order its paths are checked. */
  ghost function AllEntries(index: Index): seq<IndexEntry> {
    index.skills + index.supportingFiles + index.helperBins + index.metadata + [index.fixedBin]
  }

  ghost predicate SoundPath(es: seq<IndexEntry>, n: nat)
    requires n < |es|
  {
    RelativePath(es[n].path) && forall i :: 0 <= i < n ==> es[i].path != es[n].path
  }

  ghost predicate SoundPaths(es: seq<IndexEntry>, n: nat) {
    n <= |es| && forall i :: 0 <= i < n ==> SoundPath(es, i)
  }

  lemma {:induction false} PathProblemExactly(es: seq<IndexEntry>, k: nat, n: nat)
    requires k <= n && SoundPaths(es, n)
    ensures n == |es| ==> PathProblem(es, k) == None
    ensures n < |es| && !SoundPath(es, n) ==>
      PathProblem(es, k) == Some(if RelativePath(es[n].path) then E_DUPLICATE else E_TRAVERSAL)
    decreases n - k
  {
    if k < |es| {
      RelativePathExactly(es[k].path);
      SeenExactly(es, k);
      if k < n {
        assert SoundPath(es, k);
        PathProblemExactly(es, k + 1, n);
      }
    }
  }

  lemma SeenExactly(es: seq<IndexEntry>, k: nat)
    requires k < |es|
    ensures es[k].path in Paths(es[..k]) <==> exists i :: 0 <= i < k && es[i].path == es[k].path
  {
    if i :| 0 <= i < k && es[i].path == es[k].path {
      assert es[..k][i].path == es[k].path;
    }
    if es[k].path in Paths(es[..k]) {
      var i :| 0 <= i < k && es[..k][i].path == es[k].path;
      assert es[i].path == es[k].path;
    }
  }

  ghost predicate UnderPayloadSkills(index: Index) {
    forall e :: Installs(index, e) ==> Lit("payload/skills/") <= e.path
  }

  lemma PlaceableExactly(index: Index)
    ensures AllPlaceable(PlacedEntries(index)) <==> UnderPayloadSkills(index)
  {
    var es := PlacedEntries(index);
    if AllPlaceable(es) {
      forall e | Installs(index, e) ensures Lit("payload/skills/") <= e.path {
        var i := EntryHasItem(index, e);
        var k :| 0 <= k < |es| && es[k] == e;
      }
    }
    if UnderPayloadSkills(index) {
      forall i | 0 <= i < |es| ensures StartsWith(es[i].path, PLACED_PREFIX) { assert Installs(index, es[i]); }
    }
  }

  /** The refusals of MATERIALIZE that come first: no staging area, then the first
      unsound path of the index, then a file to install outside payload/skills/. */
  lemma ObjectionsExactly(input: Input, t: Tree, m: Machine, s: Schedule, n: nat)
    requires Chosen(input, t).Some? && SoundPaths(AllEntries(input.index), n)
    ensures var es, r := AllEntries(input.index), RunProtocol(input, t, m, s);
      && (!input.hasSandbox ==> r.outcome == RefusedRun(E_NO_WRITE, MATERIALIZE, false) && r.tree == t)
      && (input.hasSandbox && n < |es| && !RelativePath(es[n].path) ==>
            r.outcome == RefusedRun(E_TRAVERSAL, MATERIALIZE, false) && r.tree == t)
      && (input.hasSandbox && n < |es| && RelativePath(es[n].path) && !SoundPath(es, n) ==>
            r.outcome == RefusedRun(E_DUPLICATE, MATERIALIZE, false) && r.tree == t)
      && (input.hasSandbox && n == |es| && !UnderPayloadSkills(input.index) ==>
            r.outcome == RefusedRun(E_UNSUPPORTED_FORMAT, MATERIALIZE, false) && r.tree == t)
  {
    RunIsMaterialize(input, t, m, s);
    PathProblemExactly(AllEntries(input.index), 0, n);
    PlaceableExactly(input.index);
  }

  ghost predicate SoundIndex(index: Index) {
    SoundPaths(AllEntries(index), |AllEntries(index)|) && UnderPayloadSkills(index)
  }

  lemma {:induction false} UnsoundAt(es: seq<IndexEntry>, n: nat) returns (k: nat)
    requires n <= |es|
    ensures k <= n && SoundPaths(es, k) && (k < n ==> !SoundPath(es, k))
  {
    if n == 0 {
      k := 0;
    } else {
      k := UnsoundAt(es, n - 1);
      if k == n - 1 && SoundPath(es, k) { k := n; }
    }
  }

  lemma IndexProblemExactly(index: Index)
    ensures IndexProblem(index) == None <==> SoundIndex(index)
  {
    var es := AllEntries(index);
    var k := UnsoundAt(es, |es|);
    PathProblemExactly(es, 0, k);
    PlaceableExactly(index);
  }

  /** A readable file stands at an entry's place with bytes that are not the entry's. */
  ghost predicate HoldsOther(t: Tree, dest: Path, e: IndexEntry, digest: Bytes -> Text) {
    exists p :: IsPlaceOf(p, dest, e) && p in t && t[p].File? && t[p].readable
      && (e.sha256 == [] || digest(t[p].bytes) != e.sha256)
  }

  lemma ModifiedExactly(t: Tree, dest: Path, index: Index, digest: Bytes -> Text)
    requires UnderPayloadSkills(index)
    ensures Modified(t, dest, PlacedItems(index), digest) <==>
      exists e :: Installs(index, e) && HoldsOther(t, dest, e, digest)
  {
    var items := PlacedItems(index);
    if Modified(t, dest, items, digest) {
      var i :| 0 <= i < |items| && ReadFile(t, Target(dest, items[i])).Some?
        && !Agrees(ReadFile(t, Target(dest, items[i])).value, items[i], digest);
      var e := ItemHasEntry(index, i);
      PlaceOfItem(e, dest, Target(dest, items[i]));
      assert HoldsOther(t, dest, e, digest);
    }
    if e :| Installs(index, e) && HoldsOther(t, dest, e, digest) {
      var p :| IsPlaceOf(p, dest, e) && p in t && t[p].File? && t[p].readable
        && (e.sha256 == [] || digest(t[p].bytes) != e.sha256);
      var i := EntryHasItem(index, e);
      PlaceOfItem(e, dest, p);
      assert Target(dest, items[i]) == p;
    }
  }

  /** With a staging area and a sound index, the last refusal before copying: on a
      destination without a recognised marker, a file that differs. */
  lemma ModifiedRefusedExactly(input: Input, t: Tree, m: Machine, s: Schedule)
    requires Chosen(input, t).Some? && input.hasSandbox && SoundIndex(input.index)
    ensures var dest, r := Chosen(input, t).value, RunProtocol(input, t, m, s);
      r.outcome == RefusedRun(E_MODIFIED_EXISTING, MATERIALIZE, false) <==>
        && !HasMarker(t, dest, m)
        && exists e :: Installs(input.index, e) && HoldsOther(t, dest, e, m.digest)
  {
    var dest := Chosen(input, t).value;
    RunIsMaterialize(input, t, m, s);
    IndexProblemExactly(input.index);
    ModifiedExactly(t, dest, input.index, m.digest);
    MarkerExactly(t, dest, m);
    if Objection(t, dest, input, m) == None { OtherCodesLater(t, dest, input, m, s); }
  }

  lemma MarkerExactly(t: Tree, dest: Path, m: Machine)
    ensures IsManaged(t, dest, m) <==> HasMarker(t, dest, m)
  {
    assert MARKER_NAME == Lit(".csm-bootstrap.json");
  }

  predicate NotModified(end: End) {
    end.outcome.RefusedRun? ==> end.outcome.code != E_MODIFIED_EXISTING
  }

  lemma AfterManagedNotModified(r: Replaced, staged: Staged, backedUp: bool, dest: Path, tmp: Text, m: Machine,
                                f: Faults, n: nat)
    ensures NotModified(AfterManaged(r, staged, backedUp, dest, tmp, m, f, n))
  {
  }

  lemma AfterUnmanagedNotModified(r: Finalized, staged: Staged, dest: Path, tmp: Text, m: Machine, f: Faults, n: nat)
    ensures NotModified(AfterUnmanaged(r, staged, dest, tmp, m, f, n))
  {
  }

  lemma FinalizeNotModified(t: Tree, staged: Staged, dest: Path, items: seq<Item>, tmp: Text, m: Machine, f: Faults,
                            managed: bool)
    requires forall i :: 0 <= i < |items| ==> items[i].rel != []
    ensures NotModified(Finalize(t, staged, dest, items, tmp, m, f, managed))
  {
    if managed {
      AfterManagedNotModified(FinalizeManaged(t, dest, items, SkillDirs(items), f, tmp, m.digest), staged,
                              BackedUp(t, dest, SkillDirs(items), f), dest, tmp, m, f, |items|);
    } else {
      AfterUnmanagedNotModified(FinalizeUnmanaged(t, dest, items, f, tmp, m.digest), staged, dest, tmp, m, f, |items|);
    }
  }

  lemma OtherCodesLater(t: Tree, dest: Path, input: Input, m: Machine, s: Schedule)
    requires Objection(t, dest, input, m) == None
    ensures NotModified(Materialize(t, dest, input, m, s))
  {
    FinalizeNotModified(t, StageFrom(map[], PlacedItems(input.index), s.stage, 0).staged, dest,
                        PlacedItems(input.index), input.tmp, m, s.faults, IsManaged(t, dest, m));
  }

  // ----- staging -----

  /** One of the two places is inside the other. */
  ghost predicate Clash(p: Path, q: Path) {
    p != q && (p <= q || q <= p)
  }

  ghost predicate CanStage(s: Staged, items: seq<Item>, stage: nat -> Copy, j: nat, i: nat)
    requires i < |items|
  {
    && stage(i).Wrote?
    && (forall q :: q in s ==> !Clash(q, items[i].rel))
    && (forall k :: j <= k < i ==> !Clash(items[k].rel, items[i].rel))
  }

  ghost predicate CanStageFrom(s: Staged, items: seq<Item>, stage: nat -> Copy, j: nat, lo: nat) {
    forall i :: lo <= i < |items| ==> CanStage(s, items, stage, j, i)
  }

  lemma StageNext(s: Staged, items: seq<Item>, stage: nat -> Copy, j: nat, i: nat)
    requires j < i < |items| && stage(j).Wrote?
    ensures CanStage(s, items, stage, j, i) <==> CanStage(s[items[j].rel := stage(j).bytes], items, stage, j + 1, i)
  {
    var more := s[items[j].rel := stage(j).bytes];
    if CanStage(more, items, stage, j + 1, i) {
      assert items[j].rel in more;
      forall k | j <= k < i ensures !Clash(items[k].rel, items[i].rel) {}
    }
  }

  lemma StageFirst(s: Staged, items: seq<Item>, stage: nat -> Copy, j: nat)
    requires j < |items| && CanStage(s, items, stage, j, j)
    ensures CanStageFrom(s, items, stage, j, j)
       <==> CanStageFrom(s[items[j].rel := stage(j).bytes], items, stage, j + 1, j + 1)
  {
    var more, n := s[items[j].rel := stage(j).bytes], j + 1;
    forall i | j < i < |items| ensures CanStage(s, items, stage, j, i) <==> CanStage(more, items, stage, n, i) {
      StageNext(s, items, stage, j, i);
    }
    if CanStageFrom(more, items, stage, n, n) {
      forall i | j <= i < |items| ensures CanStage(s, items, stage, j, i) {
        if i > j { assert CanStage(more, items, stage, n, i); }
      }
    }
    if CanStageFrom(s, items, stage, j, j) {
      forall i | n <= i < |items| ensures CanStage(more, items, stage, n, i) {
        assert CanStage(s, items, stage, j, i);
      }
    }
  }

  /** Staging succeeds exactly when no copy throws and no file is to stand inside another. */
  lemma {:induction false} StagingExactly(s: Staged, items: seq<Item>, stage: nat -> Copy, j: nat)
    requires j <= |items|
    ensures StageFrom(s, items, stage, j).ok <==> CanStageFrom(s, items, stage, j, j)
    decreases |items| - j
  {
    if j < |items| {
      assert StageConflict(s, items[j].rel) <==> exists q :: q in s && Clash(q, items[j].rel);
      if CanStage(s, items, stage, j, j) {
        StageFirst(s, items, stage, j);
        StagingExactly(s[items[j].rel := stage(j).bytes], items, stage, j + 1);
      }
    }
  }

  /** What is staged for a file is what its copy wrote. */
  lemma {:induction false} StagedBytes(s: Staged, items: seq<Item>, stage: nat -> Copy, j: nat, i: nat)
    requires j <= |items| && StageFrom(s, items, stage, j).ok
    requires forall k, l :: 0 <= k < l < |items| ==> items[k].rel != items[l].rel
    ensures forall q :: q in s && (forall k :: j <= k < |items| ==> items[k].rel != q) ==>
      q in StageFrom(s, items, stage, j).staged && StageFrom(s, items, stage, j).staged[q] == s[q]
    ensures j <= i < |items| ==>
      && items[i].rel in StageFrom(s, items, stage, j).staged && stage(i).Wrote?
      && StageFrom(s, items, stage, j).staged[items[i].rel] == stage(i).bytes
    decreases |items| - j
  {
    if j < |items| {
      StagedBytes(s[items[j].rel := stage(j).bytes], items, stage, j + 1, i);
    }
  }

  ghost predicate GoodStaged(items: seq<Item>, s: Schedule, digest: Bytes -> Text, i: nat)
    requires i < |items|
  {
    && !s.unreadable(i) && s.stage(i).Wrote?
    && items[i].sha256 != [] && digest(s.stage(i).bytes) == items[i].sha256
  }

  lemma {:induction false} CheckExactly(st: Staged, items: seq<Item>, s: Schedule, digest: Bytes -> Text,
                                        j: nat, n: nat)
    requires j <= n <= |items| && forall i :: j <= i < n ==> GoodStaged(items, s, digest, i)
    requires forall i :: 0 <= i < |items| ==>
      items[i].rel in st && s.stage(i).Wrote? && st[items[i].rel] == s.stage(i).bytes
    ensures n == |items| ==> CheckFrom(st, items, s.unreadable, digest, j) == AllMatch
    ensures n < |items| && !GoodStaged(items, s, digest, n) ==>
      CheckFrom(st, items, s.unreadable, digest, j) == if s.unreadable(n) then ReadThrows else Mismatch
    decreases n - j
  {
    if j < n {
      assert GoodStaged(items, s, digest, j);
      CheckExactly(st, items, s, digest, j + 1, n);
    }
  }

  /** Nothing stands against copying. */
  ghost predicate MayCopy(input: Input, t: Tree, m: Machine) {
    && Chosen(input, t).Some? && input.hasSandbox && SoundIndex(input.index)
    && (HasMarker(t, Chosen(input, t).value, m)
        || !exists e :: Installs(input.index, e) && HoldsOther(t, Chosen(input, t).value, e, m.digest))
  }

  lemma MayCopyExactly(input: Input, t: Tree, m: Machine)
    requires Chosen(input, t).Some?
    ensures MayCopy(input, t, m) <==> Objection(t, Chosen(input, t).value, input, m) == None
  {
    IndexProblemExactly(input.index);
    MarkerExactly(t, Chosen(input, t).value, m);
    if SoundIndex(input.index) { ModifiedExactly(t, Chosen(input, t).value, input.index, m.digest); }
  }

  /** A run that may copy: a copy that throws, or a file to stand inside another, is an
      interruption; then the first staged file that cannot be read back leaves no
      report, and the first with other bytes is a mismatch found at VERIFY. The
      tree stays as it was in all of these. */
  lemma StagingRefusalsExactly(input: Input, t: Tree, m: Machine, s: Schedule, n: nat)
    requires MayCopy(input, t, m) && !s.prepareThrows && !s.faults.clearThrows
    requires n <= |PlacedItems(input.index)|
    requires forall i :: 0 <= i < n ==> GoodStaged(PlacedItems(input.index), s, m.digest, i)
    ensures var items, r := PlacedItems(input.index), RunProtocol(input, t, m, s);
      && (!CanStageFrom(map[], items, s.stage, 0, 0) ==>
            r.outcome == RefusedRun(E_INTERRUPTED, MATERIALIZE, false) && r.tree == t)
      && (CanStageFrom(map[], items, s.stage, 0, 0) && n < |items| && !GoodStaged(items, s, m.digest, n) ==>
            r.outcome == (if s.unreadable(n) then Crashed else RefusedRun(E_HASH_MISMATCH, VERIFY, false))
            && r.tree == t)
      && (CanStageFrom(map[], items, s.stage, 0, 0) && n == |items| ==>
            ReachesFinalize(t, Chosen(input, t).value, input, m, s))
  {
    var dest, items := Chosen(input, t).value, PlacedItems(input.index);
    RunIsMaterialize(input, t, m, s);
    MayCopyExactly(input, t, m);
    StagingExactly(map[], items, s.stage, 0);
    if StagingOf(input, s).ok {
      forall k, l | 0 <= k < l < |items| ensures items[k].rel != items[l].rel { DistinctRels(input.index, k, l); }
      forall i | 0 <= i < |items|
        ensures items[i].rel in StagingOf(input, s).staged && s.stage(i).Wrote?
        ensures StagingOf(input, s).staged[items[i].rel] == s.stage(i).bytes
      {
        StagedBytes(map[], items, s.stage, 0, i);
      }
      CheckExactly(StagingOf(input, s).staged, items, s, m.digest, 0, n);
    }
    StagingEnds(t, dest, input, m, s);
  }

  lemma StagingEnds(t: Tree, dest: Path, input: Input, m: Machine, s: Schedule)
    requires Objection(t, dest, input, m) == None && !s.prepareThrows && !s.faults.clearThrows
    ensures var end := Materialize(t, dest, input, m, s);
      && (!StagingOf(input, s).ok ==> end.outcome == RefusedRun(E_INTERRUPTED, MATERIALIZE, false) && end.tree == t)
      && (StagingOf(input, s).ok && StagedCheckOf(input, m, s) == ReadThrows ==>
            end.outcome == Crashed && end.tree == t)
      && (StagingOf(input, s).ok && StagedCheckOf(input, m, s) == Mismatch ==>
            end.outcome == RefusedRun(E_HASH_MISMATCH, VERIFY, false) && end.tree == t)
  {
  }

  // ----- the table -----

  /** The refusals in the order of the table. */
  const ROWS: seq<Refusal> := [
    E_NO_NPX, E_NO_WRITE, E_NO_DESTINATION, E_AMBIGUOUS_DESTINATION, E_UNTRUSTED, E_UNSUPPORTED_FORMAT,
    E_MALICIOUS_STEPS, E_DESTINATION_SYMLINK, E_TRAVERSAL, E_DUPLICATE, E_MODIFIED_EXISTING, E_HASH_MISMATCH,
    E_INTERRUPTED]

  /** The states of each row. */
  const ROW_STATES: seq<set<State>> := [
    {DISCOVER}, {DISCOVER, MATERIALIZE}, {PLAN_DESTINATION}, {CONFIRM_IF_NEEDED}, {TRUST, CONFIRM_IF_NEEDED},
    {TRUST, MATERIALIZE}, {TRUST}, {PLAN_DESTINATION, CONFIRM_IF_NEEDED, MATERIALIZE}, {MATERIALIZE}, {MATERIALIZE},
    {MATERIALIZE}, {VERIFY}, {MATERIALIZE}]

  /** Row i of the table exits with i + 1, and its states are those documented. */
  lemma RowExitsAndStates(i: nat, state: State)
    requires i < 13
    ensures ExitCode(ROWS[i]) == i + 1
    ensures Documented(ROWS[i], state) <==> state in ROW_STATES[i]
  {
  }

  lemma RowOf(code: Refusal, state: State)
    ensures 1 <= ExitCode(code) <= 13 && ROWS[ExitCode(code) - 1] == code
    ensures Documented(code, state) <==> state in ROW_STATES[ExitCode(code) - 1]
  {
    RowExitsAndStates(ExitCode(code) - 1, state);
  }

  /** Every refused run exits with its code's place in the table. */
  lemma RefusedRunExitsByRow(input: Input, t: Tree, m: Machine, s: Schedule)
    requires RunProtocol(input, t, m, s).outcome.RefusedRun?
    ensures var o := RunProtocol(input, t, m, s).outcome;
      && 1 <= ExitCode(o.code) <= 13 && ROWS[ExitCode(o.code) - 1] == o.code
      && (o.state in ROW_STATES[ExitCode(o.code) - 1]
          || (o.code == E_NO_DESTINATION && (o.state == CONFIRM_IF_NEEDED || o.state == MATERIALIZE)))
  {
    EveryReportKeepsContract(input, t, m, s);
    var o := RunProtocol(input, t, m, s).outcome;
    RowOf(o.code, o.state);
  }
}
