// The pure continuation core: from a run's record, its tasks, the budget and
// the environment to one action.
module Continuation {
  import opened Sequences
  import opened Texts
  import opened Utf8
  import opened JsonText
  import opened CanonicalJson
  import opened Coercion
  import opened Envelope

  // toLowerCase, up to units whose lower case is not ASCII: none of the words
  // compared with below holds one. U+212A is the only unit outside ASCII
  // whose lower case is.
  const KELVIN: CodeUnit := 0x212A

  function LowerUnit(u: CodeUnit): CodeUnit {
    if 0x41 <= u <= 0x5A then u + 0x20 else if u == KELVIN then 0x6B else u
  }

  function Lower(t: Text): Text {
    seq(|t|, i requires 0 <= i < |t| => LowerUnit(t[i]))
  }

  /** Null stands for both null and undefined. */
  function Normalize(v: Json): Attempt<Text> {
    if v.Null? then Done([])
    else
      var t :- TextFrom(v);
      Done(Lower(t))
  }

  predicate IsSpace(u: CodeUnit) {
    || 0x09 <= u <= 0x0D || u == 0x20 || u == 0xA0 || u == 0x1680 || 0x2000 <= u <= 0x200A
    || u == 0x2028 || u == 0x2029 || u == 0x202F || u == 0x205F || u == 0x3000 || u == 0xFEFF
  }

  function TrimStart(t: Text): (r: Text)
    ensures |r| <= |t|
  {
    if t != [] && IsSpace(t[0]) then TrimStart(t[1..]) else t
  }

  function TrimEnd(t: Text): Text {
    if t != [] && IsSpace(t[|t| - 1]) then TrimEnd(t[..|t| - 1]) else t
  }

  /** Boolean(value). */
  predicate Truthy(v: Json) {
    match v
    case Null => false
    case Bool(b) => b
    case Num(n) => n != 0
    case Str(s) => s != []
    case _ => true
  }

  // ----- the environment -----

  // The supervisor's variables; None is an unset one.
  datatype Env = Env(kill: Option<Text>, mode: Option<Text>)

  const OFF_WORDS: seq<Text> :=
    [[], Lit("0"), Lit("false"), Lit("no"), Lit("off"), Lit("null"), Lit("undefined")]

  predicate Killed(env: Env) {
    || (env.kill.Some? && TrimEnd(TrimStart(Lower(env.kill.value))) !in OFF_WORDS)
    || (env.mode.Some? && Lower(env.mode.value) == Lit("off"))
  }

  const DEFAULT_MAX_CONTINUES: nat := 5

  const PLUS: CodeUnit := 0x2B

  // A text without its leading sign.
  function Unsigned(t: Text): Text {
    if t != [] && (t[0] == MINUS || t[0] == PLUS) then t[1..] else t
  }

  /** Number.parseInt(text, 10), None for NaN. */
  function ParseInt(text: Text): Option<int> {
    var t := TrimStart(text);
    var negative := t != [] && t[0] == MINUS;
    var body := Unsigned(t);
    var k := DigitRun(body);
    if k == 0 then None
    else
      var n := DigitsValue(body[..k]);
      Some(if negative then 0 - n else n)
  }

  function MaxContinuesFrom(setting: Option<Text>): nat {
    var parsed := ParseInt(if setting.Some? then setting.value else []);
    if parsed.Some? && parsed.value >= 0 then parsed.value else DEFAULT_MAX_CONTINUES
  }

  // ----- readiness -----

  const TERMINAL_TASKS: seq<Text> := [
    Lit("complete"), Lit("completed"), Lit("done"), Lit("closed"), Lit("superseded"),
    Lit("abandoned"), Lit("skipped"), Lit("verified")]
  const IN_FLIGHT: seq<Text> := [[], Lit("ready"), Lit("in_progress"), Lit("in-progress")]
  const PAUSING: seq<Text> := [Lit("blocked"), Lit("paused")]

  const STATUS := Lit("status")
  const CONTROL := Lit("control")
  const COMPLETION := Lit("completion")
  const STATE := Lit("state")
  const TASKS := Lit("tasks")
  const TASK_ID := Lit("taskId")
  const ID := Lit("id")
  const ACTIVE_TASKS := Lit("activeTasks")
  const RECORD_PATH := Lit("recordPath")
  const PLAN_PATH := Lit("planPath")
  const RECORD_PLACE := Lit("<record-path>")
  const PLAN_PLACE := Lit("<plan-path>")

  function OpenTasks(tasks: seq<Json>): Attempt<seq<Json>> {
    if tasks == [] then Done([])
    else
      var status :- Normalize(Field(tasks[0], STATUS));
      var rest :- OpenTasks(tasks[1..]);
      Done(if status in TERMINAL_TASKS then rest else [tasks[0]] + rest)
  }

  function TaskId(task: Json): Json {
    if Truthy(Field(task, TASK_ID)) then Field(task, TASK_ID)
    else if Truthy(Field(task, ID)) then Field(task, ID)
    else Str(Lit("?"))
  }

  function TaskIds(tasks: seq<Json>): seq<Json> {
    seq(|tasks|, i requires 0 <= i < |tasks| => TaskId(tasks[i]))
  }

  function LifecycleStatus(record: Json): Attempt<Json> {
    var completion := Field(Field(record, COMPLETION), STATUS);
    var control := Field(Field(record, CONTROL), STATUS);
    if Truthy(completion) then Done(completion)
    else if Truthy(control) then Done(control)
    else
      var top := Field(record, STATUS);
      var word :- Normalize(top);
      Done(if word in IN_FLIGHT then Str([]) else top)
  }

  datatype Guard = Guard(exitCode: nat, remaining: seq<Text>)

  // Entries of one kind that are still open, listed.
  datatype Listing = Listing(any: bool, names: Text)

  function Remaining(open: Listing, active: Listing, state: Text): (r: seq<Text>)
    ensures r == [] <==> !open.any && !active.any && (state == [] || state in TERMINAL_TASKS)
  {
    (if open.any then [Lit("tasks:") + open.names] else [])
    + (if active.any then [Lit("activeTasks:") + active.names] else [])
    + (if state != [] && state !in TERMINAL_TASKS then [Lit("lifecycle:") + state] else [])
  }

  function OpenListing(tasks: seq<Json>): Attempt<Listing> {
    var open :- OpenTasks(tasks);
    var ids :- JoinFrom(TaskIds(open));
    Done(Listing(open != [], ids))
  }

  function ActiveListing(active: seq<Json>): Attempt<Listing> {
    var names :- JoinFrom(active);
    Done(Listing(active != [], names))
  }

  function ActiveTasks(record: Json): seq<Json> {
    Elements(Field(Field(record, CONTROL), ACTIVE_TASKS))
  }

  function AllTasks(record: Json, tasks: seq<Json>): seq<Json> {
    Elements(Field(record, TASKS)) + tasks
  }

  function LifecycleWord(record: Json): Attempt<Text> {
    var lifecycle :- LifecycleStatus(record);
    Normalize(lifecycle)
  }

  function EvaluateReadiness(record: Json, tasks: seq<Json>): Attempt<Guard> {
    var open :- OpenListing(AllTasks(record, tasks));
    var active :- ActiveListing(ActiveTasks(record));
    var state :- LifecycleWord(record);
    var remaining := Remaining(open, active, state);
    Done(Guard(if remaining != [] then 2 else 0, remaining))
  }

  /** Some value pauses, looked at in order up to the first that does. */
  function AnyPausing(values: seq<Json>): Attempt<bool> {
    if values == [] then Done(false)
    else
      var word :- Normalize(values[0]);
      if word in PAUSING then Done(true) else AnyPausing(values[1..])
  }

  function PausingValues(record: Json): seq<Json> {
    [Field(Field(record, COMPLETION), STATUS), Field(Field(record, CONTROL), STATUS),
     Field(record, STATUS), Field(record, STATE)]
  }

  // ----- the digest -----

  function RecordDigest(record: Json, host: Host): (d: Text)
    ensures d != []
  {
    Lit("sha256:") + host.sha256(ToBytes(CanonicalText(record)))
  }

  /** Two records share a digest exactly when they mean the same, whatever the
      order their fields were written in. */
  lemma DigestDeterminesRecord(record: Json, other: Json, host: Host)
    requires host.CollisionFree() && Wf(record) && Wf(other)
    ensures RecordDigest(record, host) == RecordDigest(other, host) <==> Meaning(record) == Meaning(other)
  {
    var a, b := host.sha256(ToBytes(CanonicalText(record))), host.sha256(ToBytes(CanonicalText(other)));
    assert (Lit("sha256:") + a)[7..] == a && (Lit("sha256:") + b)[7..] == b;
    BytesDetermineMeaning(record, other);
  }

  // ----- the decision -----

  datatype Reason = KillSwitch | NoWorkRemaining | GuardUnrecognized | BudgetExhausted | NoProgress

  datatype Action = Stop(reason: Reason) | Pause | Continue(command: Text)

  // The budget shared by every handler. None: nothing was continued yet.
  datatype Budget = Budget(continues: nat, maxContinues: nat, lastDigest: Option<Text>)

  function ResumeCommand(record: Json): Attempt<Text> {
    var recordPath :- OrPlaceholder(Field(record, RECORD_PATH), RECORD_PLACE);
    var planPath :- OrPlaceholder(Field(record, PLAN_PATH), PLAN_PLACE);
    Done(Lit("node csm-build/lib/loop-guard.mjs --record ") + recordPath + (Lit(" --plan ") + planPath))
  }

  function OrPlaceholder(v: Json, placeholder: Text): Attempt<Text> {
    if v.Null? then Done(placeholder) else TextFrom(v)
  }

  function DecideContinuation(record: Json, exitCode: nat, budget: Budget, digest: Text, env: Env): Attempt<Action> {
    if Killed(env) then Done(Stop(KillSwitch))
    else if exitCode == 0 then Done(Stop(NoWorkRemaining))
    else
      var paused :- AnyPausing(PausingValues(record));
      if paused then Done(Pause)
      else if exitCode != 2 then Done(Stop(GuardUnrecognized))
      else if budget.continues >= budget.maxContinues then Done(Stop(BudgetExhausted))
      else if budget.lastDigest == Some(digest) then Done(Stop(NoProgress))
      else
        var command :- ResumeCommand(record);
        Done(Continue(command))
  }

  /** One idle handler's verdict on the record it located. */
  function VerdictOn(record: Json, tasks: seq<Json>, budget: Budget, env: Env, host: Host): Attempt<Action> {
    var guard :- EvaluateReadiness(record, tasks);
    DecideContinuation(record, guard.exitCode, budget, RecordDigest(record, host), env)
  }

  // ----- what the verdict means -----

  /** The status under which a task or a lifecycle is finished. */
  predicate Finished(v: Json) {
    Normalize(v).Done? && Normalize(v).value in TERMINAL_TASKS
  }

  ghost predicate WorkLeft(record: Json, tasks: seq<Json>) {
    || (exists task :: task in Elements(Field(record, TASKS)) && !Finished(Field(task, STATUS)))
    || (exists task :: task in tasks && !Finished(Field(task, STATUS)))
    || ActiveTasks(record) != []
    || Outstanding(record)
  }

  /** The first lifecycle status given, top-level ones still in flight aside, is not terminal. */
  predicate Outstanding(record: Json) {
    var completion := Field(Field(record, COMPLETION), STATUS);
    var control := Field(Field(record, CONTROL), STATUS);
    var top := Field(record, STATUS);
    if Truthy(completion) then Unfinished(completion)
    else if Truthy(control) then Unfinished(control)
    else Unfinished(top) && (Normalize(top).Done? ==> Normalize(top).value !in IN_FLIGHT)
  }

  predicate Unfinished(v: Json) {
    !Finished(v) && Normalize(v) != Done([])
  }

  predicate Paused(record: Json) {
    exists v :: v in PausingValues(record) && Normalize(v).Done? && Normalize(v).value in PAUSING
  }

  lemma {:induction false} OpenTasksExactly(tasks: seq<Json>)
    requires OpenTasks(tasks).Done?
    ensures forall task :: task in OpenTasks(tasks).value <==> task in tasks && !Finished(Field(task, STATUS))
  {
    if tasks != [] {
      OpenTasksExactly(tasks[1..]);
      assert tasks == [tasks[0]] + tasks[1..];
    }
  }

  lemma {:induction false} AnyPausingExactly(values: seq<Json>)
    requires AnyPausing(values).Done?
    ensures AnyPausing(values).value <==>
      exists v :: v in values && Normalize(v).Done? && Normalize(v).value in PAUSING
  {
    if values != [] {
      var first := Normalize(values[0]).value;
      assert values == [values[0]] + values[1..];
      if first in PAUSING {
        assert values[0] in values;
      } else {
        AnyPausingExactly(values[1..]);
      }
    }
  }

  lemma LifecycleExactly(record: Json)
    requires LifecycleWord(record).Done?
    ensures LifecycleWord(record).value != [] && LifecycleWord(record).value !in TERMINAL_TASKS
      <==> Outstanding(record)
  {
    assert Normalize(Str([])) == Done([]) by {
      assert Lower([]) == [];
    }
  }

  lemma OpenTasksLeft(record: Json, tasks: seq<Json>)
    requires OpenTasks(AllTasks(record, tasks)).Done?
    ensures OpenTasks(AllTasks(record, tasks)).value != [] <==>
      || (exists task :: task in Elements(Field(record, TASKS)) && !Finished(Field(task, STATUS)))
      || (exists task :: task in tasks && !Finished(Field(task, STATUS)))
  {
    var all := AllTasks(record, tasks);
    OpenTasksExactly(all);
    var open := OpenTasks(all).value;
    assert forall task :: task in all <==> task in Elements(Field(record, TASKS)) || task in tasks;
    if open != [] { assert open[0] in open; }
  }

  /** A readiness that is reached is 2 exactly when work is left, and 0 otherwise. */
  lemma ReadinessExactly(record: Json, tasks: seq<Json>)
    requires EvaluateReadiness(record, tasks).Done?
    ensures EvaluateReadiness(record, tasks).value.exitCode == if WorkLeft(record, tasks) then 2 else 0
  {
    OpenTasksLeft(record, tasks);
    LifecycleExactly(record);
  }

  lemma DecisionExactly(record: Json, exitCode: nat, budget: Budget, digest: Text, env: Env)
    requires exitCode == 0 || exitCode == 2
    requires DecideContinuation(record, exitCode, budget, digest, env).Done?
    ensures var action := DecideContinuation(record, exitCode, budget, digest, env).value;
      && (action.Continue? <==>
            && !Killed(env) && exitCode == 2 && !Paused(record)
            && budget.continues < budget.maxContinues && budget.lastDigest != Some(digest))
      && action != Stop(GuardUnrecognized)
  {
    if !Killed(env) && exitCode == 2 {
      AnyPausingExactly(PausingValues(record));
    }
  }

  /** A verdict is to continue exactly when nothing kills or pauses the run,
      work is left, the budget is not spent and the record has changed. */
  lemma ContinuesExactly(record: Json, tasks: seq<Json>, budget: Budget, env: Env, host: Host)
    requires VerdictOn(record, tasks, budget, env, host).Done?
    ensures VerdictOn(record, tasks, budget, env, host).value.Continue? <==>
      && !Killed(env) && WorkLeft(record, tasks) && !Paused(record)
      && budget.continues < budget.maxContinues
      && budget.lastDigest != Some(RecordDigest(record, host))
    ensures VerdictOn(record, tasks, budget, env, host).value != Stop(GuardUnrecognized)
  {
    ReadinessExactly(record, tasks);
    var guard := EvaluateReadiness(record, tasks).value;
    DecisionExactly(record, guard.exitCode, budget, RecordDigest(record, host), env);
  }

  // ----- when a handler throws, and stays silent -----

  lemma WordExactly(v: Json)
    ensures Normalize(v).Done? <==> Printable(v)
  {
    TextExactly(v);
  }

  ghost predicate StatusesPrintable(tasks: seq<Json>) {
    forall task :: task in tasks ==> Printable(Field(task, STATUS))
  }

  ghost predicate OpenIdsPrintable(tasks: seq<Json>) {
    forall task :: task in tasks && !Finished(Field(task, STATUS)) ==> Printable(TaskId(task))
  }

  lemma {:induction false} OpenTasksThrow(tasks: seq<Json>)
    ensures OpenTasks(tasks).Done? <==> StatusesPrintable(tasks)
  {
    if tasks != [] {
      WordExactly(Field(tasks[0], STATUS));
      OpenTasksThrow(tasks[1..]);
      assert tasks == [tasks[0]] + tasks[1..];
    }
  }

  lemma OpenListingThrows(tasks: seq<Json>)
    ensures OpenListing(tasks).Done? <==> StatusesPrintable(tasks) && OpenIdsPrintable(tasks)
  {
    OpenTasksThrow(tasks);
    if OpenTasks(tasks).Done? {
      var open := OpenTasks(tasks).value;
      OpenTasksExactly(tasks);
      JoinExactly(TaskIds(open));
      IdsPrintable(open);
    }
  }

  lemma IdsPrintable(open: seq<Json>)
    ensures AllPrintable(TaskIds(open)) <==> forall task :: task in open ==> Printable(TaskId(task))
  {
    assert forall i :: 0 <= i < |open| ==> TaskIds(open)[i] == TaskId(open[i]);
    if forall task :: task in open ==> Printable(TaskId(task)) {
      forall i | 0 <= i < |open| ensures Printable(TaskIds(open)[i]) { assert open[i] in open; }
    }
  }

  /** The lifecycle status that is read has a text. */
  predicate LifecyclePrintable(record: Json) {
    var completion := Field(Field(record, COMPLETION), STATUS);
    var control := Field(Field(record, CONTROL), STATUS);
    if Truthy(completion) then Printable(completion)
    else if Truthy(control) then Printable(control)
    else Printable(Field(record, STATUS))
  }

  lemma LifecycleThrows(record: Json)
    ensures LifecycleWord(record).Done? <==> LifecyclePrintable(record)
  {
    WordExactly(Field(Field(record, COMPLETION), STATUS));
    WordExactly(Field(Field(record, CONTROL), STATUS));
    WordExactly(Field(record, STATUS));
    WordExactly(Str([]));
  }

  /** Every value readiness turns into text has one. */
  ghost predicate ReadinessPrintable(record: Json, tasks: seq<Json>) {
    && StatusesPrintable(AllTasks(record, tasks)) && OpenIdsPrintable(AllTasks(record, tasks))
    && AllPrintable(ActiveTasks(record)) && LifecyclePrintable(record)
  }

  lemma ReadinessThrows(record: Json, tasks: seq<Json>)
    ensures EvaluateReadiness(record, tasks).Done? <==> ReadinessPrintable(record, tasks)
  {
    OpenListingThrows(AllTasks(record, tasks));
    JoinExactly(ActiveTasks(record));
    LifecycleThrows(record);
  }

  predicate Pauses(v: Json) {
    Normalize(v).Done? && Normalize(v).value in PAUSING
  }

  /** A value without text comes before any that pauses. */
  ghost predicate PauseThrows(values: seq<Json>) {
    exists i :: 0 <= i < |values| && !Printable(values[i]) && forall j :: 0 <= j < i ==> !Pauses(values[j])
  }

  lemma PauseThrowsSplits(values: seq<Json>)
    requires values != []
    ensures PauseThrows(values) <==> !Printable(values[0]) || (!Pauses(values[0]) && PauseThrows(values[1..]))
  {
    var rest := values[1..];
    if !Pauses(values[0]) && PauseThrows(rest) {
      var i :| 0 <= i < |rest| && !Printable(rest[i]) && forall j :: 0 <= j < i ==> !Pauses(rest[j]);
      forall j | 0 <= j < i + 1 ensures !Pauses(values[j]) { if j > 0 { assert values[j] == rest[j - 1]; } }
      assert !Printable(values[i + 1]);
    }
    if PauseThrows(values) && Printable(values[0]) {
      var i :| 0 <= i < |values| && !Printable(values[i]) && forall j :: 0 <= j < i ==> !Pauses(values[j]);
      assert !Printable(rest[i - 1]) && forall j :: 0 <= j < i - 1 ==> rest[j] == values[j + 1];
    }
  }

  lemma {:induction false} AnyPausingThrows(values: seq<Json>)
    ensures AnyPausing(values).Throws? <==> PauseThrows(values)
  {
    if values != [] {
      WordExactly(values[0]);
      AnyPausingThrows(values[1..]);
      PauseThrowsSplits(values);
    }
  }

  lemma CommandThrows(record: Json)
    ensures ResumeCommand(record).Done? <==>
      Printable(Field(record, RECORD_PATH)) && Printable(Field(record, PLAN_PATH))
  {
    TextExactly(Field(record, RECORD_PATH));
    TextExactly(Field(record, PLAN_PATH));
  }

  lemma DecisionThrows(record: Json, exitCode: nat, budget: Budget, digest: Text, env: Env)
    requires exitCode == 0 || exitCode == 2
    ensures DecideContinuation(record, exitCode, budget, digest, env).Throws? <==>
      && !Killed(env) && exitCode == 2
      && (PauseThrows(PausingValues(record))
          || (!Paused(record) && budget.continues < budget.maxContinues && budget.lastDigest != Some(digest)
              && !(Printable(Field(record, RECORD_PATH)) && Printable(Field(record, PLAN_PATH)))))
  {
    var values := PausingValues(record);
    AnyPausingThrows(values);
    CommandThrows(record);
    if AnyPausing(values).Done? { AnyPausingExactly(values); }
  }

  /** A handler throws, and so prompts nothing, exactly when readiness meets a
      value without text, or, with work left and no kill switch, the pausing check
      does before it finds one that pauses, or the resume command would. */
  lemma VerdictThrowsExactly(record: Json, tasks: seq<Json>, budget: Budget, env: Env, host: Host)
    ensures VerdictOn(record, tasks, budget, env, host).Throws? <==>
      || !ReadinessPrintable(record, tasks)
      || (!Killed(env) && WorkLeft(record, tasks)
          && (PauseThrows(PausingValues(record))
              || (!Paused(record) && budget.continues < budget.maxContinues
                  && budget.lastDigest != Some(RecordDigest(record, host))
                  && !(Printable(Field(record, RECORD_PATH)) && Printable(Field(record, PLAN_PATH))))))
  {
    ReadinessThrows(record, tasks);
    if EvaluateReadiness(record, tasks).Done? {
      ReadinessExactly(record, tasks);
      DecisionThrows(record, EvaluateReadiness(record, tasks).value.exitCode, budget, RecordDigest(record, host), env);
    }
  }

  lemma DecisionCommand(record: Json, exitCode: nat, budget: Budget, digest: Text, env: Env)
    requires var decision := DecideContinuation(record, exitCode, budget, digest, env);
      decision.Done? && decision.value.Continue?
    ensures ResumeCommand(record) == Done(DecideContinuation(record, exitCode, budget, digest, env).value.command)
  {
  }

  /** The command of a continuation names the record and plan paths it was given. */
  lemma ContinuesWithCommand(record: Json, tasks: seq<Json>, budget: Budget, env: Env, host: Host)
    requires var verdict := VerdictOn(record, tasks, budget, env, host);
      verdict.Done? && verdict.value.Continue?
    ensures ResumeCommand(record) == Done(VerdictOn(record, tasks, budget, env, host).value.command)
  {
    var guard := EvaluateReadiness(record, tasks).value;
    DecisionCommand(record, guard.exitCode, budget, RecordDigest(record, host), env);
  }

  // ----- the verdict depends on what the record means -----

  lemma AlikeWords(v: Json, w: Json)
    requires Alike(v, w)
    ensures Normalize(v) == Normalize(w) && (Truthy(v) <==> Truthy(w))
  {
    AlikeTexts(v, w);
  }

  lemma AlikeIds(task: Json, other: Json)
    requires Alike(task, other)
    ensures Alike(TaskId(task), TaskId(other))
  {
    AlikeFields(task, other, TASK_ID);
    AlikeFields(task, other, ID);
    AlikeWords(Field(task, TASK_ID), Field(other, TASK_ID));
    AlikeWords(Field(task, ID), Field(other, ID));
  }

  lemma AlikeTail(a: seq<Json>, b: seq<Json>)
    requires AllAlike(a, b) && a != []
    ensures Alike(a[0], b[0]) && AllAlike(a[1..], b[1..])
  {
  }

  lemma AlikeCons(x: Json, a: seq<Json>, y: Json, b: seq<Json>)
    requires Alike(x, y) && AllAlike(a, b)
    ensures AllAlike([x] + a, [y] + b)
  {
  }

  lemma AlikeStatus(x: Json, y: Json)
    requires Alike(x, y)
    ensures Normalize(Field(x, STATUS)) == Normalize(Field(y, STATUS))
  {
    AlikeFields(x, y, STATUS);
    AlikeWords(Field(x, STATUS), Field(y, STATUS));
  }

  lemma {:induction false} AlikeTasks(a: seq<Json>, b: seq<Json>)
    requires AllAlike(a, b)
    ensures OpenTasks(a).Done? <==> OpenTasks(b).Done?
    ensures OpenTasks(a).Done? ==> AllAlike(OpenTasks(a).value, OpenTasks(b).value)
  {
    if a != [] {
      AlikeTail(a, b);
      AlikeStatus(a[0], b[0]);
      AlikeTasks(a[1..], b[1..]);
      if OpenTasks(a[1..]).Done? {
        AlikeCons(a[0], OpenTasks(a[1..]).value, b[0], OpenTasks(b[1..]).value);
      }
    }
  }

  lemma AlikeNested(v: Json, w: Json, outer: Text, inner: Text)
    requires Alike(v, w)
    ensures Alike(Field(Field(v, outer), inner), Field(Field(w, outer), inner))
  {
    AlikeFields(v, w, outer);
    AlikeFields(Field(v, outer), Field(w, outer), inner);
  }

  lemma AlikeNestedWords(v: Json, w: Json, outer: Text, inner: Text)
    requires Alike(v, w)
    ensures Alike(Field(Field(v, outer), inner), Field(Field(w, outer), inner))
    ensures Truthy(Field(Field(v, outer), inner)) <==> Truthy(Field(Field(w, outer), inner))
  {
    AlikeNested(v, w, outer, inner);
    AlikeWords(Field(Field(v, outer), inner), Field(Field(w, outer), inner));
  }

  lemma AlikeLifecycles(v: Json, w: Json)
    requires Alike(v, w)
    ensures LifecycleStatus(v).Done? <==> LifecycleStatus(w).Done?
    ensures LifecycleStatus(v).Done? ==> Alike(LifecycleStatus(v).value, LifecycleStatus(w).value)
  {
    AlikeNestedWords(v, w, COMPLETION, STATUS);
    AlikeNestedWords(v, w, CONTROL, STATUS);
    AlikeFields(v, w, STATUS);
    AlikeWords(Field(v, STATUS), Field(w, STATUS));
  }

  lemma AlikeOpenTasks(v: Json, w: Json, a: seq<Json>, b: seq<Json>)
    requires Alike(v, w) && AllAlike(a, b)
    ensures AllAlike(AllTasks(v, a), AllTasks(w, b))
  {
    AlikeFields(v, w, TASKS);
    AlikeElements(Field(v, TASKS), Field(w, TASKS));
  }

  lemma AlikeTaskIds(a: seq<Json>, b: seq<Json>)
    requires AllAlike(a, b)
    ensures JoinFrom(TaskIds(a)) == JoinFrom(TaskIds(b))
  {
    forall i | 0 <= i < |a| ensures Alike(TaskIds(a)[i], TaskIds(b)[i]) {
      AlikeIds(a[i], b[i]);
    }
    AlikeJoins(TaskIds(a), TaskIds(b));
  }

  lemma AlikeOpenListings(a: seq<Json>, b: seq<Json>)
    requires AllAlike(a, b)
    ensures OpenListing(a) == OpenListing(b)
  {
    AlikeTasks(a, b);
    if OpenTasks(a).Done? {
      AlikeTaskIds(OpenTasks(a).value, OpenTasks(b).value);
    }
  }

  lemma AlikeActiveListings(v: Json, w: Json)
    requires Alike(v, w)
    ensures ActiveListing(ActiveTasks(v)) == ActiveListing(ActiveTasks(w))
  {
    AlikeNested(v, w, CONTROL, ACTIVE_TASKS);
    AlikeElements(Field(Field(v, CONTROL), ACTIVE_TASKS), Field(Field(w, CONTROL), ACTIVE_TASKS));
    AlikeJoins(ActiveTasks(v), ActiveTasks(w));
  }

  lemma AlikeLifecycleWords(v: Json, w: Json)
    requires Alike(v, w)
    ensures LifecycleWord(v) == LifecycleWord(w)
  {
    AlikeLifecycles(v, w);
    if LifecycleStatus(v).Done? {
      AlikeWords(LifecycleStatus(v).value, LifecycleStatus(w).value);
    }
  }

  lemma AlikeReadiness(v: Json, w: Json, a: seq<Json>, b: seq<Json>)
    requires Alike(v, w) && AllAlike(a, b)
    ensures EvaluateReadiness(v, a) == EvaluateReadiness(w, b)
  {
    AlikeOpenTasks(v, w, a, b);
    AlikeOpenListings(AllTasks(v, a), AllTasks(w, b));
    AlikeActiveListings(v, w);
    AlikeLifecycleWords(v, w);
  }

  lemma {:induction false} AlikePausing(a: seq<Json>, b: seq<Json>)
    requires AllAlike(a, b)
    ensures AnyPausing(a) == AnyPausing(b)
  {
    if a != [] {
      AlikeWords(a[0], b[0]);
      AlikePausing(a[1..], b[1..]);
    }
  }

  lemma AlikePlaces(v: Json, w: Json, name: Text, placeholder: Text)
    requires Alike(v, w)
    ensures OrPlaceholder(Field(v, name), placeholder) == OrPlaceholder(Field(w, name), placeholder)
  {
    AlikeFields(v, w, name);
    AlikeTexts(Field(v, name), Field(w, name));
  }

  lemma FourAlike(a: Json, b: Json, c: Json, d: Json, a': Json, b': Json, c': Json, d': Json)
    requires Alike(a, a') && Alike(b, b') && Alike(c, c') && Alike(d, d')
    ensures AllAlike([a, b, c, d], [a', b', c', d'])
  {
  }

  lemma AlikePausingValues(v: Json, w: Json)
    requires Alike(v, w)
    ensures AllAlike(PausingValues(v), PausingValues(w))
  {
    AlikeNested(v, w, COMPLETION, STATUS);
    AlikeNested(v, w, CONTROL, STATUS);
    AlikeFields(v, w, STATUS);
    AlikeFields(v, w, STATE);
    FourAlike(Field(Field(v, COMPLETION), STATUS), Field(Field(v, CONTROL), STATUS), Field(v, STATUS), Field(v, STATE),
              Field(Field(w, COMPLETION), STATUS), Field(Field(w, CONTROL), STATUS), Field(w, STATUS), Field(w, STATE));
  }

  lemma AlikeCommands(v: Json, w: Json)
    requires Alike(v, w)
    ensures ResumeCommand(v) == ResumeCommand(w)
  {
    AlikePlaces(v, w, RECORD_PATH, RECORD_PLACE);
    AlikePlaces(v, w, PLAN_PATH, PLAN_PLACE);
  }

  lemma AlikeDecisions(v: Json, w: Json, exitCode: nat, budget: Budget, digest: Text, env: Env)
    requires AnyPausing(PausingValues(v)) == AnyPausing(PausingValues(w))
    requires ResumeCommand(v) == ResumeCommand(w)
    ensures DecideContinuation(v, exitCode, budget, digest, env)
         == DecideContinuation(w, exitCode, budget, digest, env)
  {
  }

  /** The same durable record and tasks, read again in whatever field order,
      give the same verdict down to the resume command. */
  lemma SameRecordSameVerdict(
      v: Json, w: Json, a: seq<Json>, b: seq<Json>, budget: Budget, env: Env, host: Host)
    requires Alike(v, w) && AllAlike(a, b)
    ensures VerdictOn(v, a, budget, env, host) == VerdictOn(w, b, budget, env, host)
  {
    AlikeReadiness(v, w, a, b);
    AlikePausingValues(v, w);
    AlikePausing(PausingValues(v), PausingValues(w));
    AlikeCommands(v, w);
    TextDeterminesMeaning(v, w);
    assert RecordDigest(v, host) == RecordDigest(w, host);
    var guard := EvaluateReadiness(v, a);
    if guard.Done? {
      AlikeDecisions(v, w, guard.value.exitCode, budget, RecordDigest(v, host), env);
    }
  }

  // ----- CSM_CONTINUE_MAX -----

  predicate AllSpaces(t: Text) {
    forall u :: u in t ==> IsSpace(u)
  }

  // A text read as leading spaces, a sign, digits, and what follows them.
  datatype Numeral = Numeral(lead: Text, sign: Text, digits: Text, tail: Text) {
    predicate Valid() {
      && AllSpaces(lead)
      && (sign == [] || sign == [MINUS] || sign == [PLUS])
      && digits != [] && (forall u :: u in digits ==> IsDigit(u))
      && EndsNumber(tail)
    }

    function Text(): Text {
      lead + (sign + (digits + tail))
    }

    function Value(): int
      requires Valid()
    {
      if sign == [MINUS] then 0 - DigitsValue(digits) else DigitsValue(digits)
    }
  }

  lemma {:induction false} LeadingSpacesAreSkipped(spaces: Text, t: Text)
    requires AllSpaces(spaces) && t != [] && !IsSpace(t[0])
    ensures TrimStart(spaces + t) == t
  {
    if spaces == [] {
      assert spaces + t == t;
    } else {
      HeadOfConcat(spaces, t);
      LeadingSpacesAreSkipped(spaces[1..], t);
    }
  }

  lemma SignIsRead(n: Numeral)
    requires n.Valid()
    ensures var t := n.sign + (n.digits + n.tail);
      && t != [] && !IsSpace(t[0])
      && (t[0] == MINUS <==> n.sign == [MINUS]) && (t[0] == PLUS <==> n.sign == [PLUS])
      && Unsigned(t) == n.digits + n.tail
  {
    assert n.digits[0] in n.digits;
    HeadOfConcat(n.digits, n.tail);
    if n.sign == [] {
      assert n.sign + (n.digits + n.tail) == n.digits + n.tail;
    } else {
      HeadAndTail(n.sign[0], n.digits + n.tail);
    }
  }

  lemma NumeralParts(n: Numeral)
    requires n.Valid()
    ensures TrimStart(n.Text()) == n.sign + (n.digits + n.tail)
    ensures Unsigned(TrimStart(n.Text())) == n.digits + n.tail
    ensures DigitRun(n.digits + n.tail) == |n.digits|
    ensures (n.digits + n.tail)[..|n.digits|] == n.digits && (n.digits + n.tail)[|n.digits|..] == n.tail
  {
    SignIsRead(n);
    LeadingSpacesAreSkipped(n.lead, n.sign + (n.digits + n.tail));
    DigitRunStops(n.digits, n.tail);
  }

  lemma ParsesAs(t: Text, u: Text, body: Text, digits: Text)
    requires TrimStart(t) == u && Unsigned(u) == body
    requires digits != [] && forall d :: d in digits ==> IsDigit(d)
    requires DigitRun(body) == |digits| && body[..|digits|] == digits
    ensures ParseInt(t) == Some(if u != [] && u[0] == MINUS then 0 - DigitsValue(digits) else DigitsValue(digits))
  {
  }

  lemma NumeralParses(n: Numeral)
    requires n.Valid()
    ensures ParseInt(n.Text()) == Some(n.Value())
  {
    SignIsRead(n);
    NumeralParts(n);
    ParsesAs(n.Text(), n.sign + (n.digits + n.tail), n.digits + n.tail, n.digits);
  }

  /** A text is read as a numeral in one way. */
  lemma NumeralIsUnique(n: Numeral, m: Numeral)
    requires n.Valid() && m.Valid() && n.Text() == m.Text()
    ensures n.digits == m.digits && n.tail == m.tail && n.Value() == m.Value()
  {
    NumeralParts(n);
    NumeralParts(m);
    SignIsRead(n);
    SignIsRead(m);
  }

  lemma {:induction false} TrimmedSpaces(t: Text) returns (lead: Text)
    ensures AllSpaces(lead) && t == lead + TrimStart(t)
  {
    if t != [] && IsSpace(t[0]) {
      var more := TrimmedSpaces(t[1..]);
      lead := [t[0]] + more;
      Assoc([t[0]], more, TrimStart(t));
    } else {
      lead := [];
    }
  }

  lemma {:induction false} AfterDigitRun(t: Text)
    ensures EndsNumber(t[DigitRun(t)..])
  {
    if t != [] && IsDigit(t[0]) {
      AfterDigitRun(t[1..]);
      assert t[DigitRun(t)..] == t[1..][DigitRun(t[1..])..];
    } else {
      assert t[0..] == t;
    }
  }

  lemma SignSplits(u: Text) returns (sign: Text)
    ensures u == sign + Unsigned(u) && (sign == [] || sign == [MINUS] || sign == [PLUS])
  {
    sign := if u != [] && (u[0] == MINUS || u[0] == PLUS) then u[..1] else [];
  }

  lemma DigitsSplit(body: Text) returns (digits: Text, tail: Text)
    ensures body == digits + tail && |digits| == DigitRun(body) && EndsNumber(tail)
    ensures forall d :: d in digits ==> IsDigit(d)
  {
    digits, tail := body[..DigitRun(body)], body[DigitRun(body)..];
    AfterDigitRun(body);
  }

  /** Whatever parses is a numeral. */
  lemma ParsedIsNumeral(t: Text) returns (n: Numeral)
    requires ParseInt(t).Some?
    ensures n.Valid() && n.Text() == t
  {
    var lead := TrimmedSpaces(t);
    var sign := SignSplits(TrimStart(t));
    var digits, tail := DigitsSplit(Unsigned(TrimStart(t)));
    n := Numeral(lead, sign, digits, tail);
  }

  /** The documented rule: a non-negative integer is the maximum, and a missing,
      negative or non-numeric value is the default. Spaces around are let pass. */
  ghost predicate IsWhole(t: Text, v: nat) {
    exists n: Numeral :: n.Valid() && n.Text() == t && AllSpaces(n.tail) && n.Value() == v
  }

  ghost predicate DocumentedMax(setting: Option<Text>, max: nat) {
    if setting.Some? && exists v: nat :: IsWhole(setting.value, v) then IsWhole(setting.value, max)
    else max == 5
  }

  /** The setting is a non-negative number, other than the default, with more text behind it. */
  ghost predicate TrailingText(t: Text) {
    exists n: Numeral :: n.Valid() && n.Text() == t && !AllSpaces(n.tail)
      && n.Value() >= 0 && n.Value() != 5
  }

  lemma MaxOfNumeral(n: Numeral)
    requires n.Valid()
    ensures MaxContinuesFrom(Some(n.Text())) == if n.Value() >= 0 then n.Value() else 5
    ensures DocumentedMax(Some(n.Text()), MaxContinuesFrom(Some(n.Text()))) <==> !TrailingText(n.Text())
  {
    var t := n.Text();
    NumeralParses(n);
    forall m: Numeral | m.Valid() && m.Text() == t
      ensures m.digits == n.digits && m.tail == n.tail && m.Value() == n.Value()
    {
      NumeralIsUnique(m, n);
    }
    if AllSpaces(n.tail) && n.Value() >= 0 { assert IsWhole(t, n.Value()); }
  }

  /** The maximum is the documented one for exactly the settings that are not a
      non-negative number, other than the default, followed by other text. */
  lemma DocumentedMaxExactly(t: Text)
    ensures DocumentedMax(Some(t), MaxContinuesFrom(Some(t))) <==> !TrailingText(t)
  {
    if ParseInt(t).Some? {
      var n := ParsedIsNumeral(t);
      MaxOfNumeral(n);
    } else {
      forall n: Numeral | n.Valid() ensures n.Text() != t { NumeralParses(n); }
    }
  }

  lemma MissingMaxIsDefault()
    ensures DocumentedMax(None, MaxContinuesFrom(None))
  {
    assert TrimStart([]) == [];
  }

  /** Twelve apples are taken for twelve continuations. */
  lemma TrailingTextIsTaken()
    ensures MaxContinuesFrom(Some(Lit("12 apples"))) == 12
    ensures !DocumentedMax(Some(Lit("12 apples")), MaxContinuesFrom(Some(Lit("12 apples"))))
  {
    var n := Numeral([], [], Lit("12"), Lit(" apples"));
    assert n.Text() == Lit("12 apples");
    assert DigitsValue(Lit("12")) == 12 by {
      assert Lit("12") == [0x31, 0x32] && Lit("12")[..1] == [0x31] && [0x31][..0] == [];
    }
    assert n.tail[1] == 0x61 && n.tail[1] in n.tail && !IsSpace(0x61);
    MaxOfNumeral(n);
  }
}
