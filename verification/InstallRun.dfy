// A whole run of the install protocol as a function of its input, the tree it
// finds and the faults it meets, and what every run guarantees.
module InstallRun {
  import opened Texts
  import opened Utf8
  import opened SafePath
  import opened PayloadIndex
  import opened TrustPolicy
  import opened FileTree
  import opened Install
  import opened Managed

  // ----- the vocabulary of the protocol -----

  datatype State = DISCOVER | TRUST | PLAN_DESTINATION | CONFIRM_IF_NEEDED | MATERIALIZE | VERIFY | REPORT

  datatype Refusal =
    | E_NO_NPX | E_NO_WRITE | E_NO_DESTINATION | E_AMBIGUOUS_DESTINATION | E_UNTRUSTED | E_UNSUPPORTED_FORMAT
    | E_MALICIOUS_STEPS | E_DESTINATION_SYMLINK | E_TRAVERSAL | E_DUPLICATE | E_MODIFIED_EXISTING
    | E_HASH_MISMATCH | E_INTERRUPTED

  function ExitCode(c: Refusal): nat {
    match c
    case E_NO_NPX => 1
    case E_NO_WRITE => 2
    case E_NO_DESTINATION => 3
    case E_AMBIGUOUS_DESTINATION => 4
    case E_UNTRUSTED => 5
    case E_UNSUPPORTED_FORMAT => 6
    case E_MALICIOUS_STEPS => 7
    case E_DESTINATION_SYMLINK => 8
    case E_TRAVERSAL => 9
    case E_DUPLICATE => 10
    case E_MODIFIED_EXISTING => 11
    case E_HASH_MISMATCH => 12
    case E_INTERRUPTED => 13
  }

  const CHAIN: seq<State> := [DISCOVER, TRUST, PLAN_DESTINATION, CONFIRM_IF_NEEDED, MATERIALIZE, VERIFY, REPORT]

  function Position(s: State): (n: nat)
    ensures n < 7 && CHAIN[n] == s
  {
    match s
    case DISCOVER => 0
    case TRUST => 1
    case PLAN_DESTINATION => 2
    case CONFIRM_IF_NEEDED => 3
    case MATERIALIZE => 4
    case VERIFY => 5
    case REPORT => 6
  }

  datatype Action =
    | Accepted | PlannedIt | AmbiguousIt | NotNeeded | Confirmed | StagedIt | VerifiedIt | Emitted | Refused

  datatype TraceEntry = TraceEntry(state: State, action: Action, refusal: Option<Refusal>)

  // ----- the input -----

  datatype Destination = NotStated | Relative | Absolute(path: Path)

  datatype Confirmation = NoConfirmation | Answer(trustRootApproved: bool, destination: Destination)

  // fault and index are what TRUST makes of the offer: see Admit.
  datatype Input = Input(
    hasNpx: bool, hasFileWrite: bool, knowsDestination: bool,
    fault: Option<OfferFault>, trustRootApproved: bool,
    destination: Destination, hasCandidates: bool, confirmation: Confirmation,
    hasSandbox: bool, index: Index, tmp: Text)

  /** The input of a run on an offer: the checks' verdict and the index's entries. */
  function Admit(offer: Offer, input: Input): Input {
    input.(fault := Fault(offer), index := offer.Listed())
  }

  // The digest, the recognition of a managed marker, and the marker written.
  datatype Machine = Machine(digest: Bytes -> Text, isMarker: Bytes -> bool, marker: Bytes)

  // The faults of a run: whether the staging area cannot be made, the staging
  // copies, the staged files whose re-read throws, and those of finalisation.
  datatype Schedule = Schedule(prepareThrows: bool, stage: nat -> Copy, unreadable: nat -> bool, faults: Faults)

  const MARKER_NAME: Text := Lit(".csm-bootstrap.json")
  const PLACED_PREFIX: Text := Lit("payload/skills/")

  // ----- DISCOVER to CONFIRM_IF_NEEDED -----

  function Discover(input: Input): Option<Refusal> {
    if !input.hasNpx then Some(E_NO_NPX)
    else if !input.hasFileWrite then Some(E_NO_WRITE)
    else None
  }

  // What TRUST makes of a fault: a refusal, or a throw past every handler.
  datatype Trusting = Trusted | Refuses(code: Refusal) | Aborts

  function Trust(input: Input): Trusting {
    match input.fault
    case None => Trusted
    case Some(fault) =>
      match fault
      case UntrustedEnvelope => Refuses(E_UNTRUSTED)
      case ExecutableSteps => Refuses(E_MALICIOUS_STEPS)
      case MalformedIndex => Refuses(E_UNSUPPORTED_FORMAT)
      case NoVerdict => Aborts
  }

  /** The plan-time walk: it ends at the first missing component. */
  function WalkProblem(t: Tree, p: Path, k: nat): Option<Refusal>
    requires k <= |p|
    decreases |p| - k
  {
    if k == |p| then None
    else if p[..k + 1] !in t then None
    else
      match t[p[..k + 1]]
      case Link => Some(E_DESTINATION_SYMLINK)
      case File(_, _, _) => Some(E_NO_DESTINATION)
      case Dir => WalkProblem(t, p, k + 1)
  }

  function PlanProblem(t: Tree, d: Destination): Option<Refusal> {
    match d
    case Absolute(p) => WalkProblem(t, p, 0)
    case _ => Some(E_NO_DESTINATION)
  }

  datatype Plan = PlanRefused(code: Refusal) | PlanAt(path: Path) | PlanAmbiguous

  function PlanDestination(input: Input, t: Tree): Plan {
    match input.destination
    case NotStated =>
      if input.knowsDestination then PlanRefused(E_NO_DESTINATION)
      else if input.hasCandidates then PlanAmbiguous
      else PlanRefused(E_NO_DESTINATION)
    case Relative => PlanRefused(E_NO_DESTINATION)
    case Absolute(p) =>
      match WalkProblem(t, p, 0)
      case Some(code) => PlanRefused(code)
      case None => PlanAt(p)
  }

  datatype Choice = ChoiceRefused(code: Refusal) | GoTo(path: Path, asked: bool)

  predicate Approved(c: Confirmation) {
    c.Answer? && c.trustRootApproved
  }

  function Confirm(input: Input, t: Tree, plan: Plan): Choice
    requires !plan.PlanRefused?
  {
    if plan.PlanAt? && input.trustRootApproved then GoTo(plan.path, false)
    else if !input.trustRootApproved && !Approved(input.confirmation) then ChoiceRefused(E_UNTRUSTED)
    else if plan.PlanAt? then GoTo(plan.path, true)
    else if input.confirmation.NoConfirmation? || input.confirmation.destination.NotStated? then
      ChoiceRefused(E_AMBIGUOUS_DESTINATION)
    else
      match PlanProblem(t, input.confirmation.destination)
      case Some(code) => ChoiceRefused(code)
      case None => GoTo(input.confirmation.destination.path, true)
  }

  // ----- MATERIALIZE: checks before any copy -----

  function EveryEntry(index: Index): seq<IndexEntry> {
    index.skills + index.supportingFiles + index.helperBins + index.metadata + [index.fixedBin]
  }

  function PlacedEntries(index: Index): seq<IndexEntry> {
    index.skills + index.supportingFiles
  }

  /** The first entry with an unsafe path, or with a path seen before. */
  function PathProblem(es: seq<IndexEntry>, n: nat): Option<Refusal>
    requires n <= |es|
    decreases |es| - n
  {
    if n == |es| then None
    else if !IsSafePath(es[n].path) then Some(E_TRAVERSAL)
    else if es[n].path in Paths(es[..n]) then Some(E_DUPLICATE)
    else PathProblem(es, n + 1)
  }

  predicate AllPlaceable(es: seq<IndexEntry>) {
    forall i :: 0 <= i < |es| ==> StartsWith(es[i].path, PLACED_PREFIX)
  }

  function IndexProblem(index: Index): Option<Refusal> {
    match PathProblem(EveryEntry(index), 0)
    case Some(code) => Some(code)
    case None => if AllPlaceable(PlacedEntries(index)) then None else Some(E_UNSUPPORTED_FORMAT)
  }

  /** entry.path.slice(placedPrefix.length) */
  function RelText(e: IndexEntry): Text {
    if StartsWith(e.path, PLACED_PREFIX) then e.path[|PLACED_PREFIX|..] else []
  }

  function ItemOf(e: IndexEntry): (i: Item)
    ensures i.rel != []
  {
    Item(Split(RelText(e)), e.sha256)
  }

  function PlacedItems(index: Index): (r: seq<Item>)
    ensures forall i :: 0 <= i < |r| ==> r[i].rel != []
  {
    seq(|PlacedEntries(index)|, i requires 0 <= i < |PlacedEntries(index)| => ItemOf(PlacedEntries(index)[i]))
  }

  function FirstNames(items: seq<Item>): seq<Text>
    requires forall i :: 0 <= i < |items| ==> items[i].rel != []
  {
    seq(|items|, i requires 0 <= i < |items| => items[i].rel[0])
  }

  function SkillDirs(items: seq<Item>): seq<Text>
    requires forall i :: 0 <= i < |items| ==> items[i].rel != []
  {
    Sort(Dedup(FirstNames(items)))
  }

  predicate IsManaged(t: Tree, dest: Path, m: Machine) {
    var marker := ReadFile(t, dest + [MARKER_NAME]);
    marker.Some? && m.isMarker(marker.value)
  }

  /** The digest of these bytes is the one the index gives; the empty text stands
      for what is no digest at all. */
  predicate Agrees(bytes: Bytes, item: Item, digest: Bytes -> Text) {
    item.sha256 != [] && digest(bytes) == item.sha256
  }

  /** Some indexed path of an unmanaged destination holds other bytes. */
  predicate Modified(t: Tree, dest: Path, items: seq<Item>, digest: Bytes -> Text) {
    exists i :: 0 <= i < |items| &&
      var found := ReadFile(t, Target(dest, items[i]));
      found.Some? && !Agrees(found.value, items[i], digest)
  }

  // ----- staging -----

  type Staged = map<Path, Bytes>

  // A staged file cannot stand where a directory is needed, nor the reverse.
  predicate StageConflict(s: Staged, rel: Path) {
    exists q :: q in s && q != rel && (q <= rel || rel <= q)
  }

  datatype Staging = Staging(staged: Staged, ok: bool)

  function StageFrom(s: Staged, items: seq<Item>, stage: nat -> Copy, j: nat): Staging
    requires j <= |items|
    decreases |items| - j
  {
    if j == |items| then Staging(s, true)
    else if StageConflict(s, items[j].rel) || stage(j).Threw? then Staging(s, false)
    else StageFrom(s[items[j].rel := stage(j).bytes], items, stage, j + 1)
  }

  datatype StagedCheck = AllMatch | Mismatch | ReadThrows

  /** Re-reading the staged files from j on, up to the first that is wrong. */
  function CheckFrom(s: Staged, items: seq<Item>, unreadable: nat -> bool, digest: Bytes -> Text, j: nat): StagedCheck
    requires j <= |items|
    decreases |items| - j
  {
    if j == |items| then AllMatch
    else if items[j].rel !in s || unreadable(j) then ReadThrows
    else if !Agrees(s[items[j].rel], items[j], digest) then Mismatch
    else CheckFrom(s, items, unreadable, digest, j + 1)
  }

  lemma {:induction false} AllMatchExactly(
      s: Staged, items: seq<Item>, unreadable: nat -> bool, digest: Bytes -> Text, j: nat)
    requires j <= |items|
    ensures CheckFrom(s, items, unreadable, digest, j) == AllMatch <==>
      forall i :: j <= i < |items| ==>
        items[i].rel in s && !unreadable(i) && Agrees(s[items[i].rel], items[i], digest)
    decreases |items| - j
  {
    if j < |items| { AllMatchExactly(s, items, unreadable, digest, j + 1); }
  }

  // ----- the run -----

  datatype Outcome =
    | Placed(destination: Path, verified: nat)
    | RefusedRun(code: Refusal, state: State, restoreFailed: bool)
    | Crashed

  // The tree and the staging area at the end, the outcome, and the actions of
  // the planning and confirmation entries of the trace.
  datatype Run = Run(tree: Tree, staged: Staged, outcome: Outcome, planned: Action, confirmed: Action)

  function ErrorCode(e: PlaceError): Refusal
    requires e != CodedOther
  {
    match e
    case SymlinkFound => E_DESTINATION_SYMLINK
    case NotDirectory => E_NO_DESTINATION
    case Interrupted => E_INTERRUPTED
    case RereadFailed => E_INTERRUPTED
    case HashMismatch => E_HASH_MISMATCH
    case CodedMismatch => E_HASH_MISMATCH
  }

  function ErrorState(e: PlaceError): State {
    if e.HashMismatch? || e.CodedMismatch? then VERIFY else MATERIALIZE
  }

  datatype End = End(tree: Tree, staged: Staged, outcome: Outcome)

  /** The managed marker, written last. Its temporary name may be taken, its
      write or rename may throw. */
  function WriteMarker(t: Tree, dest: Path, tmp: Text, marker: Bytes, fault: MarkerFault, placed: nat): End {
    if !IsDir(t, dest) then End(t, map[], Crashed)
    else if fault.MarkerFault? then
      End(if dest + [tmp] in t then t else Left(t, dest + [tmp], fault.leftover), map[], Crashed)
    else if dest + [tmp] in t then End(t, map[], RefusedRun(E_DESTINATION_SYMLINK, MATERIALIZE, false))
    else if IsDir(t, dest + [MARKER_NAME]) then End(t[dest + [tmp] := Fresh(marker, 0x1A4)], map[], Crashed)
    else End(t[dest + [MARKER_NAME] := Fresh(marker, 0x1A4)], map[], Placed(dest, placed))
  }

  /** After every file is placed: the staging area is cleared and the marker written. */
  function Complete(t: Tree, staged: Staged, dest: Path, tmp: Text, m: Machine, f: Faults, n: nat): End {
    if f.clearThrows then End(t, staged, Crashed)
    else WriteMarker(t, dest, tmp, m.marker, f.marker, n)
  }

  /** After a placement failed and was undone: the staging area is cleared, and
      an error with another protocol code is thrown on. */
  function GiveUp(t: Tree, staged: Staged, e: PlaceError, restoreFailed: bool, f: Faults): End {
    if f.clearThrows then End(t, staged, Crashed)
    else if e == CodedOther then End(t, map[], Crashed)
    else End(t, map[], RefusedRun(ErrorCode(e), ErrorState(e), restoreFailed))
  }

  /** What follows a managed replacement. */
  function AfterManaged(r: Replaced, staged: Staged, backedUp: bool, dest: Path, tmp: Text, m: Machine, f: Faults,
                        n: nat): End
  {
    if r.error.None? then Complete(r.tree, staged, dest, tmp, m, f, n)
    else if !backedUp then End(r.tree, staged, RefusedRun(E_INTERRUPTED, MATERIALIZE, false))
    else GiveUp(r.tree, staged, r.error.value, r.restoreFailed, f)
  }

  /** What follows a finalisation of an unmanaged destination. */
  function AfterUnmanaged(r: Finalized, staged: Staged, dest: Path, tmp: Text, m: Machine, f: Faults, n: nat): End {
    if r.error.None? then Complete(r.tree, staged, dest, tmp, m, f, n)
    else if r.crashed then End(r.tree, staged, Crashed)
    else GiveUp(r.tree, staged, r.error.value, false, f)
  }

  function Finalize(t: Tree, staged: Staged, dest: Path, items: seq<Item>, tmp: Text, m: Machine,
                    f: Faults, managed: bool): End
    requires forall i :: 0 <= i < |items| ==> items[i].rel != []
  {
    if managed then
      AfterManaged(FinalizeManaged(t, dest, items, SkillDirs(items), f, tmp, m.digest), staged,
                   BackedUp(t, dest, SkillDirs(items), f), dest, tmp, m, f, |items|)
    else
      AfterUnmanaged(FinalizeUnmanaged(t, dest, items, f, tmp, m.digest), staged, dest, tmp, m, f, |items|)
  }

  /** The refusals of MATERIALIZE that come before anything is copied. */
  function Objection(t: Tree, dest: Path, input: Input, m: Machine): Option<Refusal> {
    if !input.hasSandbox then Some(E_NO_WRITE)
    else if IndexProblem(input.index).Some? then IndexProblem(input.index)
    else if !IsManaged(t, dest, m) && Modified(t, dest, PlacedItems(input.index), m.digest) then
      Some(E_MODIFIED_EXISTING)
    else None
  }

  /** A refusal that first clears the staging area. */
  function ClearAndRefuse(t: Tree, staged: Staged, code: Refusal, state: State, f: Faults): End {
    if f.clearThrows then End(t, staged, Crashed) else End(t, map[], RefusedRun(code, state, false))
  }

  function StageAndFinalize(t: Tree, dest: Path, items: seq<Item>, tmp: Text, m: Machine, s: Schedule,
                            managed: bool): End
    requires forall i :: 0 <= i < |items| ==> items[i].rel != []
  {
    if s.prepareThrows then End(t, map[], Crashed)
    else
      var staging := StageFrom(map[], items, s.stage, 0);
      if !staging.ok then ClearAndRefuse(t, staging.staged, E_INTERRUPTED, MATERIALIZE, s.faults)
      else
        match CheckFrom(staging.staged, items, s.unreadable, m.digest, 0)
        case ReadThrows => End(t, staging.staged, Crashed)
        case Mismatch => ClearAndRefuse(t, staging.staged, E_HASH_MISMATCH, VERIFY, s.faults)
        case AllMatch => Finalize(t, staging.staged, dest, items, tmp, m, s.faults, managed)
  }

  function Materialize(t: Tree, dest: Path, input: Input, m: Machine, s: Schedule): End {
    match Objection(t, dest, input, m)
    case Some(code) => End(t, map[], RefusedRun(code, MATERIALIZE, false))
    case None =>
      StageAndFinalize(t, dest, PlacedItems(input.index), input.tmp, m, s, IsManaged(t, dest, m))
  }

  // The states before MATERIALIZE end in a refusal, without a report, or in a
  // destination; the actions are those of the planning and confirmation entries
  // of the trace.
  datatype Preparation =
    | Stopped(code: Refusal, state: State, planned: Action, confirmed: Action)
    | Aborted(planned: Action, confirmed: Action)
    | Ready(path: Path, planned: Action, confirmed: Action)

  function Prepare(input: Input, t: Tree): Preparation {
    if Discover(input).Some? then Stopped(Discover(input).value, DISCOVER, Refused, Refused)
    else
      match Trust(input)
      case Refuses(code) => Stopped(code, TRUST, Refused, Refused)
      case Aborts => Aborted(Refused, Refused)
      case Trusted => PrepareDestination(input, t)
  }

  function PrepareDestination(input: Input, t: Tree): Preparation {
    var plan := PlanDestination(input, t);
    if plan.PlanRefused? then Stopped(plan.code, PLAN_DESTINATION, Refused, Refused)
    else
      var planned := if plan.PlanAt? then PlannedIt else AmbiguousIt;
      match Confirm(input, t, plan)
      case ChoiceRefused(code) => Stopped(code, CONFIRM_IF_NEEDED, planned, Refused)
      case GoTo(dest, asked) => Ready(dest, planned, if asked then Confirmed else NotNeeded)
  }

  function RunProtocol(input: Input, t: Tree, m: Machine, s: Schedule): Run {
    match Prepare(input, t)
    case Stopped(code, state, planned, confirmed) =>
      Run(t, map[], RefusedRun(code, state, false), planned, confirmed)
    case Aborted(planned, confirmed) => Run(t, map[], Crashed, planned, confirmed)
    case Ready(dest, planned, confirmed) =>
      var end := Materialize(t, dest, input, m, s);
      Run(end.tree, end.staged, end.outcome, planned, confirmed)
  }

  // ----- the trace of a reported run -----

  function PassedEntry(planned: Action, confirmed: Action, s: State): TraceEntry {
    var action :=
      match s
      case DISCOVER => Accepted
      case TRUST => Accepted
      case PLAN_DESTINATION => planned
      case CONFIRM_IF_NEEDED => confirmed
      case MATERIALIZE => StagedIt
      case VERIFY => VerifiedIt
      case REPORT => Emitted;
    TraceEntry(s, action, None)
  }

  function PassedEntries(planned: Action, confirmed: Action, n: nat): (es: seq<TraceEntry>)
    requires n <= 7
    ensures |es| == n && forall i :: 0 <= i < n ==> es[i] == PassedEntry(planned, confirmed, CHAIN[i])
  {
    seq(n, i requires 0 <= i < n => PassedEntry(planned, confirmed, CHAIN[i]))
  }

  function RefusedTrace(planned: Action, confirmed: Action, code: Refusal, state: State): seq<TraceEntry> {
    PassedEntries(planned, confirmed, Position(state)) + [TraceEntry(state, Refused, Some(code))]
  }

  /** The states passed, in chain order, then the refusal if there is one. */
  function Trace(r: Run): seq<TraceEntry>
    requires !r.outcome.Crashed?
  {
    match r.outcome
    case Placed(_, _) => PassedEntries(r.planned, r.confirmed, 7)
    case RefusedRun(code, state, _) => RefusedTrace(r.planned, r.confirmed, code, state)
  }
}
