// What every run of the install protocol guarantees.
module InstallTheorems {
  import opened Texts
  import opened Utf8
  import opened CanonicalJson
  import opened SafePath
  import opened PayloadIndex
  import opened Envelope
  import opened TrustPolicy
  import opened FileTree
  import opened Install
  import opened Managed
  import opened AllOrNothing
  import opened InstallRun

  // ----- the shape of a run -----

  /** The contract of a report: the states are a prefix of the chain, only the
      last entry can refuse, and a run that placed files went through all states. */
  ghost predicate ReportContract(r: Run, trace: seq<TraceEntry>) {
    && 1 <= |trace| <= 7
    && (forall i :: 0 <= i < |trace| ==> trace[i].state == CHAIN[i])
    && (forall i :: 0 <= i < |trace| - 1 ==> trace[i].refusal == None && trace[i].action != Refused)
    && match r.outcome
       case Placed(_, _) => |trace| == 7 && trace[6].refusal == None
       case RefusedRun(code, state, _) => trace[|trace| - 1] == TraceEntry(state, Refused, Some(code))
       case Crashed => false
  }

  /** The documented refusal table: which code may be reported at which state. */
  predicate Documented(code: Refusal, state: State) {
    match code
    case E_NO_NPX => state == DISCOVER
    case E_NO_WRITE => state == DISCOVER || state == MATERIALIZE
    case E_NO_DESTINATION => state == PLAN_DESTINATION
    case E_AMBIGUOUS_DESTINATION => state == CONFIRM_IF_NEEDED
    case E_UNTRUSTED => state == TRUST || state == CONFIRM_IF_NEEDED
    case E_UNSUPPORTED_FORMAT => state == TRUST || state == MATERIALIZE
    case E_MALICIOUS_STEPS => state == TRUST
    case E_DESTINATION_SYMLINK => state == PLAN_DESTINATION || state == CONFIRM_IF_NEEDED || state == MATERIALIZE
    case E_TRAVERSAL => state == MATERIALIZE
    case E_DUPLICATE => state == MATERIALIZE
    case E_MODIFIED_EXISTING => state == MATERIALIZE
    case E_HASH_MISMATCH => state == VERIFY
    case E_INTERRUPTED => state == MATERIALIZE
  }

  // The pairs the engine reports beyond the table.
  predicate Undocumented(code: Refusal, state: State) {
    code == E_NO_DESTINATION && (state == CONFIRM_IF_NEEDED || state == MATERIALIZE)
  }

  lemma {:induction false} WalkProblemCodes(t: Tree, p: Path, k: nat)
    requires k <= |p|
    ensures WalkProblem(t, p, k) in {None, Some(E_DESTINATION_SYMLINK), Some(E_NO_DESTINATION)}
    decreases |p| - k
  {
    if k < |p| && IsDir(t, p[..k + 1]) { WalkProblemCodes(t, p, k + 1); }
  }

  lemma {:induction false} PathProblemCodes(es: seq<IndexEntry>, n: nat)
    requires n <= |es|
    ensures PathProblem(es, n) in {None, Some(E_TRAVERSAL), Some(E_DUPLICATE)}
    decreases |es| - n
  {
    if n < |es| { PathProblemCodes(es, n + 1); }
  }

  // A refusal of MATERIALIZE or VERIFY with a code of the table or beyond it.
  predicate LateRefusal(code: Refusal, state: State) {
    (Documented(code, state) || Undocumented(code, state)) && (state == MATERIALIZE || state == VERIFY)
  }

  // The end of a run refuses, if it does, with such a code.
  predicate EndsLate(end: End) {
    end.outcome.RefusedRun? ==> LateRefusal(end.outcome.code, end.outcome.state)
  }

  lemma AfterManagedCodes(r: Replaced, staged: Staged, backedUp: bool, dest: Path, tmp: Text, m: Machine, f: Faults,
                          n: nat)
    ensures EndsLate(AfterManaged(r, staged, backedUp, dest, tmp, m, f, n))
  {
  }

  lemma AfterUnmanagedCodes(r: Finalized, staged: Staged, dest: Path, tmp: Text, m: Machine, f: Faults, n: nat)
    ensures EndsLate(AfterUnmanaged(r, staged, dest, tmp, m, f, n))
  {
  }

  lemma FinalizeCodes(t: Tree, staged: Staged, dest: Path, items: seq<Item>, tmp: Text, m: Machine, f: Faults,
                      managed: bool)
    requires forall i :: 0 <= i < |items| ==> items[i].rel != []
    ensures EndsLate(Finalize(t, staged, dest, items, tmp, m, f, managed))
  {
    if managed {
      AfterManagedCodes(FinalizeManaged(t, dest, items, SkillDirs(items), f, tmp, m.digest), staged,
                        BackedUp(t, dest, SkillDirs(items), f), dest, tmp, m, f, |items|);
    } else {
      AfterUnmanagedCodes(FinalizeUnmanaged(t, dest, items, f, tmp, m.digest), staged, dest, tmp, m, f, |items|);
    }
  }

  lemma ObjectionCodes(t: Tree, dest: Path, input: Input, m: Machine)
    ensures Objection(t, dest, input, m).Some? ==> LateRefusal(Objection(t, dest, input, m).value, MATERIALIZE)
  {
    PathProblemCodes(EveryEntry(input.index), 0);
  }

  lemma StageAndFinalizeCodes(t: Tree, dest: Path, items: seq<Item>, tmp: Text, m: Machine, s: Schedule,
                              managed: bool)
    requires forall i :: 0 <= i < |items| ==> items[i].rel != []
    ensures EndsLate(StageAndFinalize(t, dest, items, tmp, m, s, managed))
  {
    FinalizeCodes(t, StageFrom(map[], items, s.stage, 0).staged, dest, items, tmp, m, s.faults, managed);
  }

  lemma MaterializeCodes(t: Tree, dest: Path, input: Input, m: Machine, s: Schedule)
    ensures EndsLate(Materialize(t, dest, input, m, s))
  {
    ObjectionCodes(t, dest, input, m);
    StageAndFinalizeCodes(t, dest, PlacedItems(input.index), input.tmp, m, s, IsManaged(t, dest, m));
  }

  /** Every reported run keeps the report contract, and refuses with a code and
      state of the table or with one of the two pairs beyond it. */
  lemma EveryReportKeepsContract(input: Input, t: Tree, m: Machine, s: Schedule)
    ensures var r := RunProtocol(input, t, m, s);
      !r.outcome.Crashed? ==> ReportContract(r, Trace(r))
    ensures var o := RunProtocol(input, t, m, s).outcome;
      o.RefusedRun? ==> (Documented(o.code, o.state) || Undocumented(o.code, o.state)) && 1 <= ExitCode(o.code) <= 13
  {
    var r := RunProtocol(input, t, m, s);
    RefusedPosition(input, t, m, s);
    if !r.outcome.Crashed? { TraceKeepsContract(r); }
  }

  lemma PreparationCodes(input: Input, t: Tree)
    ensures var p := Prepare(input, t);
      && (p.Stopped? ==> (Documented(p.code, p.state) || Undocumented(p.code, p.state)) && Position(p.state) < 4)
      && (p.Stopped? && p.state == CONFIRM_IF_NEEDED ==> p.planned != Refused)
      && (p.Ready? ==> p.planned != Refused && p.confirmed != Refused)
  {
    if input.destination.Absolute? { WalkProblemCodes(t, input.destination.path, 0); }
    if input.confirmation.Answer? && input.confirmation.destination.Absolute? {
      WalkProblemCodes(t, input.confirmation.destination.path, 0);
    }
  }

  lemma RefusedPosition(input: Input, t: Tree, m: Machine, s: Schedule)
    ensures var o := RunProtocol(input, t, m, s).outcome;
      o.RefusedRun? ==> (Documented(o.code, o.state) || Undocumented(o.code, o.state)) && Position(o.state) < 6
    ensures var r := RunProtocol(input, t, m, s);
      && (r.outcome.RefusedRun? && Position(r.outcome.state) > 2 ==> r.planned != Refused)
      && (r.outcome.RefusedRun? && Position(r.outcome.state) > 3 ==> r.confirmed != Refused)
      && (r.outcome.Placed? ==> r.planned != Refused && r.confirmed != Refused)
  {
    PreparationCodes(input, t);
    if Prepare(input, t).Ready? {
      MaterializeCodes(t, Prepare(input, t).path, input, m, s);
    }
  }

  lemma TraceKeepsContract(r: Run)
    requires !r.outcome.Crashed?
    requires r.outcome.RefusedRun? ==> Position(r.outcome.state) < 6
    requires r.outcome.RefusedRun? && Position(r.outcome.state) > 2 ==> r.planned != Refused
    requires r.outcome.RefusedRun? && Position(r.outcome.state) > 3 ==> r.confirmed != Refused
    requires r.outcome.Placed? ==> r.planned != Refused && r.confirmed != Refused
    ensures ReportContract(r, Trace(r))
  {
    var n := if r.outcome.Placed? then 7 else Position(r.outcome.state);
    forall i | 0 <= i < n ensures PassedEntry(r.planned, r.confirmed, CHAIN[i]).action != Refused {
      assert CHAIN[2] == PLAN_DESTINATION && CHAIN[3] == CONFIRM_IF_NEEDED;
      assert i != 2 && i != 3 ==> CHAIN[i] != PLAN_DESTINATION && CHAIN[i] != CONFIRM_IF_NEEDED;
    }
  }

  /** The destination a run works on, once planned and confirmed. */
  function Chosen(input: Input, t: Tree): Option<Path> {
    match Prepare(input, t)
    case Ready(dest, _, _) => Some(dest)
    case Stopped(_, _, _, _) => None
    case Aborted(_, _) => None
  }

  /** The tree changes, files are placed, or a refusal comes at MATERIALIZE or
      later only when the host is capable, the envelope and index passed TRUST,
      the trust root is approved, and the destination passed the path rules. */
  lemma MaterializesOnlyWhenApproved(input: Input, t: Tree, m: Machine, s: Schedule)
    ensures var r := RunProtocol(input, t, m, s);
      && (Chosen(input, t).None? <==>
            || (r.outcome.RefusedRun? && Position(r.outcome.state) < 4)
            || (Discover(input).None? && Trust(input) == Aborts))
      && (r.tree != t || r.outcome.Placed? ==> Chosen(input, t).Some?)
    ensures Chosen(input, t).Some? ==>
      && input.hasNpx && input.hasFileWrite && input.fault.None?
      && (input.trustRootApproved || Approved(input.confirmation))
      && WalkProblem(t, Chosen(input, t).value, 0) == None
      && (input.destination == Absolute(Chosen(input, t).value)
          || (input.confirmation.Answer? && input.confirmation.destination == Absolute(Chosen(input, t).value)))
  {
    PreparationCodes(input, t);
    if Chosen(input, t).Some? { MaterializeCodes(t, Chosen(input, t).value, input, m, s); }
  }

  lemma AdmittedExactly(offer: Offer, input: Input)
    ensures Admit(offer, input).fault.None? <==> offer.Trusted()
    ensures Admit(offer, input).index == offer.Listed()
  {
    FaultlessExactly(offer);
  }

  /** A run changes the tree only when the envelope it was offered is accepted,
      the index well shaped, and the envelope's digest that of this very index. */
  lemma ChangesOnlyUnderAcceptedEnvelope(offer: Offer, input: Input, t: Tree, m: Machine, s: Schedule)
    requires RunProtocol(Admit(offer, input), t, m, s).tree != t
    ensures offer.Trusted()
    ensures Field(offer.envelope, INDEX_SHA256) == Str(offer.IndexDigest())
  {
    MaterializesOnlyWhenApproved(Admit(offer, input), t, m, s);
    AdmittedExactly(offer, input);
    AcceptedIndexDigest(offer);
  }

  /** Under one envelope, runs that change anything install one index: whatever
      the trees, destinations and faults, the entries are the same. */
  lemma OneEnvelopeInstallsOneIndex(
      a: Offer, i: Input, t: Tree, s: Schedule, b: Offer, i': Input, t': Tree, s': Schedule, m: Machine)
    requires RunProtocol(Admit(a, i), t, m, s).tree != t && RunProtocol(Admit(b, i'), t', m, s').tree != t'
    requires a.envelope == b.envelope && a.host == b.host && a.host.CollisionFree()
    requires a.indexText.None? && b.indexText.None?
    requires (a.index.Some? ==> Wf(a.index.value)) && (b.index.Some? ==> Wf(b.index.value))
    ensures Admit(a, i).index == Admit(b, i').index
  {
    MaterializesOnlyWhenApproved(Admit(a, i), t, m, s);
    MaterializesOnlyWhenApproved(Admit(b, i'), t', m, s');
    AdmittedExactly(a, i);
    AdmittedExactly(b, i');
    OneEnvelopeOneIndex(a, b);
  }

  // ----- the placed files -----

  ghost predicate NewPath(es: seq<IndexEntry>, n: nat)
    requires n < |es|
  {
    forall i :: 0 <= i < n ==> es[i].path != es[n].path
  }

  lemma NotSeenBefore(es: seq<IndexEntry>, n: nat)
    requires n < |es| && es[n].path !in Paths(es[..n])
    ensures NewPath(es, n)
  {
    forall i | 0 <= i < n ensures es[i].path != es[n].path {
      assert es[..n][i].path in Paths(es[..n]);
    }
  }

  lemma {:induction false} CheckedPaths(es: seq<IndexEntry>, n: nat)
    requires n <= |es| && PathProblem(es, n) == None
    ensures forall k :: n <= k < |es| ==> IsSafePath(es[k].path) && NewPath(es, k)
    decreases |es| - n
  {
    if n < |es| {
      NotSeenBefore(es, n);
      CheckedPaths(es, n + 1);
    }
  }

  lemma PlacedEntriesChecked(index: Index)
    requires IndexProblem(index) == None
    ensures var es := PlacedEntries(index);
      && (forall i :: 0 <= i < |es| ==> IsSafePath(es[i].path) && StartsWith(es[i].path, PLACED_PREFIX))
      && (forall i, k :: 0 <= i < k < |es| ==> es[i].path != es[k].path)
  {
    var every, es := EveryEntry(index), PlacedEntries(index);
    CheckedPaths(every, 0);
    forall k | 0 <= k < |es| ensures es[k] == every[k] && NewPath(every, k) {}
    forall i, k | 0 <= i < k < |es| ensures es[i].path != es[k].path {
      assert NewPath(every, k) && every[i] == es[i] && every[k] == es[k];
    }
  }

  /** Placing an entry stays strictly below the destination, at the entry's own
      parts; joining texts and appending parts agree. */
  lemma PlacedBelowDestination(e: IndexEntry, root: Text)
    requires IsSafePath(e.path) && StartsWith(e.path, PLACED_PREFIX)
    ensures IsSafePath(RelText(e))
    ensures JoinedLocation(root, RelText(e)) == Location(root) + ItemOf(e).rel
  {
    var rest := RelText(e);
    var folder := Lit("payload/skills");
    assert PLACED_PREFIX == folder + [SLASH];
    assert e.path == folder + [SLASH] + rest;
    SplitConcat(folder, rest);
    var parts := Split(e.path);
    assert forall i :: 0 <= i < |Split(rest)| ==> Split(rest)[i] == parts[|Split(folder)| + i];
    assert BACKSLASH !in rest;
    SplitConcat(root, rest);
    ResolveConcat([], Split(root), Split(rest));
    AppendedExactlyWhenPlain(Location(root), Split(rest));
    SafeExactlyWhenPlacedBelowRoot(root, rest);
  }

  lemma DistinctRels(index: Index, i: nat, k: nat)
    requires IndexProblem(index) == None && i < |PlacedEntries(index)| && k < |PlacedEntries(index)| && i != k
    ensures PlacedItems(index)[i].rel != PlacedItems(index)[k].rel
  {
    var a, b := PlacedEntries(index)[i], PlacedEntries(index)[k];
    PlacedEntriesChecked(index);
    JoinSplit(RelText(a));
    JoinSplit(RelText(b));
    assert a.path == PLACED_PREFIX + RelText(a) && b.path == PLACED_PREFIX + RelText(b);
  }

  predicate Apart(p: Path, q: Path) {
    !(p <= q) && !(q <= p)
  }

  lemma {:induction false} StagingSeparates(s: Staged, items: seq<Item>, stage: nat -> Copy, j: nat)
    requires j <= |items| && StageFrom(s, items, stage, j).ok
    ensures forall q, i :: q in s && j <= i < |items| && q != items[i].rel ==> Apart(q, items[i].rel)
    ensures forall i, k :: j <= i < k < |items| && items[i].rel != items[k].rel ==> Apart(items[i].rel, items[k].rel)
    decreases |items| - j
  {
    if j < |items| {
      var more := s[items[j].rel := stage(j).bytes];
      StagingSeparates(more, items, stage, j + 1);
      forall q, i | q in s && j <= i < |items| && q != items[i].rel ensures Apart(q, items[i].rel) {
        if i == j { assert !StageConflict(s, items[j].rel); } else { assert q in more; }
      }
      forall i, k | j <= i < k < |items| && items[i].rel != items[k].rel ensures Apart(items[i].rel, items[k].rel) {
        if i == j { assert items[j].rel in more; }
      }
    }
  }

  /** Once staging succeeded, no placed file is inside another. */
  lemma StagedItemsArePrefixFree(index: Index, stage: nat -> Copy, dest: Path)
    requires IndexProblem(index) == None && StageFrom(map[], PlacedItems(index), stage, 0).ok
    ensures PrefixFree(Targets(dest, PlacedItems(index)))
  {
    var items := PlacedItems(index);
    var ts := Targets(dest, items);
    StagingSeparates(map[], items, stage, 0);
    forall i, k | 0 <= i < |ts| && 0 <= k < |ts| && i != k ensures !(ts[i] <= ts[k]) {
      DistinctRels(index, i, k);
      assert ts[i][|dest|..] == items[i].rel;
      TargetSplits(dest, items[k], ts[i]);
      assert Apart(items[i].rel, items[k].rel) by {
        if i > k { assert Apart(items[k].rel, items[i].rel); }
      }
    }
  }

  // On the way to, or at, one of the targets.
  predicate Reached(p: Path, targets: seq<Path>) {
    exists i :: 0 <= i < |targets| && p <= targets[i]
  }

  /** The second tree is the first with the given files placed over it. */
  ghost predicate IsOverlay(base: Tree, r: Tree, dest: Path, items: seq<Item>, digest: Bytes -> Text) {
    && (forall p :: p in r <==> p in base || Reached(p, Targets(dest, items)))
    && (forall p :: p in r && p !in Targets(dest, items) ==> r[p] == if p in base then base[p] else Dir)
    && (forall i :: 0 <= i < |items| ==> InPlace(r, Target(dest, items[i]), items[i].sha256, digest))
  }

  lemma NewIsReached(base: Tree, r: Tree, targets: seq<Path>, hi: nat, q: Path)
    requires Grown(base, r, targets, 0, hi) && q in r && q !in base
    ensures Reached(q, targets)
  {
    if WrittenAt(q, targets, 0, hi) {
      var i :| 0 <= i < hi <= |targets| && targets[i] == q;
      assert q <= targets[i];
    }
  }

  lemma ReachedIsThere(r: Tree, targets: seq<Path>, q: Path)
    requires WfTree(r) && Reached(q, targets)
    requires forall i :: 0 <= i < |targets| ==> targets[i] in r
    ensures q in r
  {
    var i :| 0 <= i < |targets| && q <= targets[i];
    PrefixInTree(r, targets[i], q);
  }

  lemma PlacingIsOverlay(base: Tree, dest: Path, items: seq<Item>, place: nat -> PlaceFault, tmp: Text,
                         digest: Bytes -> Text)
    requires WfTree(base) && PrefixFree(Targets(dest, items))
    requires forall i :: 0 <= i < |items| ==> items[i].rel != []
    requires PlaceFrom(base, dest, items, place, tmp, digest, 0).error == None
    ensures IsOverlay(base, PlaceFrom(base, dest, items, place, tmp, digest, 0).tree, dest, items, digest)
  {
    var p := PlaceFrom(base, dest, items, place, tmp, digest, 0);
    var ts := Targets(dest, items);
    PlacedGrows(base, dest, items, place, tmp, digest);
    forall i | 0 <= i < |ts| ensures ts[i] in p.tree {
      assert InPlace(p.tree, Target(dest, items[i]), items[i].sha256, digest);
    }
    forall q ensures q in p.tree <==> q in base || Reached(q, ts) {
      if Reached(q, ts) { ReachedIsThere(p.tree, ts, q); }
      if q in p.tree && q !in base { NewIsReached(base, p.tree, ts, |items|, q); }
    }
    assert forall q, lo, hi :: WrittenAt(q, ts, lo, hi) ==> q in ts;
  }
}
