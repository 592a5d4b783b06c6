// What the supervisor decides, said of the settings and the record themselves:
// the words, the places they stand in, and the texts that are produced.
module Verdicts {
  import opened Sequences
  import opened Texts
  import opened Utf8
  import opened CanonicalJson
  import opened Coercion
  import opened Envelope
  import opened Continuation
  import opened Supervisor
  import opened SupervisorRuns

  // ----- words, in any case -----

  /** The text is the word, each letter in either case; the Kelvin sign is a k. */
  ghost predicate CaseOf(t: Text, word: Text) {
    && |t| == |word|
    && forall i :: 0 <= i < |t| ==>
         || t[i] == word[i]
         || (0x61 <= word[i] <= 0x7A && t[i] == word[i] - 0x20)
         || (word[i] == 0x6B && t[i] == 0x212A)
  }

  // In no capital letter and without a Kelvin sign.
  ghost predicate Small(word: Text) {
    forall i :: 0 <= i < |word| ==> !(0x41 <= word[i] <= 0x5A) && word[i] < 0x80
  }

  lemma LowerExactly(t: Text, word: Text)
    requires Small(word)
    ensures Lower(t) == word <==> CaseOf(t, word)
  {
    if Lower(t) == word {
      forall i | 0 <= i < |t|
        ensures t[i] == word[i] || (0x61 <= word[i] <= 0x7A && t[i] == word[i] - 0x20)
                || (word[i] == 0x6B && t[i] == 0x212A)
      {
        assert LowerUnit(t[i]) == Lower(t)[i] == word[i];
      }
    }
    if CaseOf(t, word) {
      forall i | 0 <= i < |t| ensures Lower(t)[i] == word[i] {}
    }
  }

  // ----- the settings that switch the supervisor off -----

  /** White space: the units String.prototype.trim takes away. */
  ghost predicate Blank(u: CodeUnit) {
    || u == 0x09 || u == 0x0A || u == 0x0B || u == 0x0C || u == 0x0D || u == 0x20 || u == 0xA0 || u == 0x1680
    || u == 0x2000 || u == 0x2001 || u == 0x2002 || u == 0x2003 || u == 0x2004 || u == 0x2005 || u == 0x2006
    || u == 0x2007 || u == 0x2008 || u == 0x2009 || u == 0x200A || u == 0x2028 || u == 0x2029 || u == 0x202F
    || u == 0x205F || u == 0x3000 || u == 0xFEFF
  }

  ghost predicate AllBlank(t: Text) {
    forall u :: u in t ==> Blank(u)
  }

  /** The text is the word with white space around it, and the word has none at its ends. */
  ghost predicate Around(t: Text, lead: Text, word: Text, tail: Text) {
    && t == lead + (word + tail) && AllBlank(lead) && AllBlank(tail)
    && (word != [] ==> !Blank(word[0]) && !Blank(word[|word| - 1]))
  }

  /** One of the seven words that leave the kill switch open, in any case. */
  ghost predicate OffWord(word: Text) {
    || word == [] || CaseOf(word, Lit("0")) || CaseOf(word, Lit("false")) || CaseOf(word, Lit("no"))
    || CaseOf(word, Lit("off")) || CaseOf(word, Lit("null")) || CaseOf(word, Lit("undefined"))
  }

  ghost predicate Kills(setting: Text) {
    exists lead: Text, word: Text, tail: Text :: Around(setting, lead, word, tail) && !OffWord(word)
  }

  /** The kill switch is set to anything but an off word, or the mode is off. */
  ghost predicate SwitchedOff(env: Env) {
    || (env.kill.Some? && Kills(env.kill.value))
    || (env.mode.Some? && CaseOf(env.mode.value, Lit("off")))
  }

  lemma OffWordExactly(word: Text)
    ensures Lower(word) in OFF_WORDS <==> OffWord(word)
  {
    LowerExactly(word, Lit("0"));
    LowerExactly(word, Lit("false"));
    LowerExactly(word, Lit("no"));
    LowerExactly(word, Lit("off"));
    LowerExactly(word, Lit("null"));
    LowerExactly(word, Lit("undefined"));
  }

  lemma BlankIsSpace(u: CodeUnit)
    ensures Blank(u) <==> IsSpace(u)
    ensures IsSpace(LowerUnit(u)) <==> IsSpace(u)
  {
  }

  lemma {:induction false} SpacesTrimmed(lead: Text, t: Text)
    requires forall u :: u in lead ==> IsSpace(u)
    ensures TrimStart(lead + t) == TrimStart(t)
  {
    if lead == [] {
      assert lead + t == t;
    } else {
      HeadOfConcat(lead, t);
      SpacesTrimmed(lead[1..], t);
    }
  }

  lemma {:induction false} SpacesTrimmedAtEnd(t: Text, tail: Text)
    requires forall u :: u in tail ==> IsSpace(u)
    ensures TrimEnd(t + tail) == TrimEnd(t)
  {
    if tail == [] {
      assert t + tail == t;
    } else {
      var n := |tail| - 1;
      assert (t + tail)[..|t + tail| - 1] == t + tail[..n] && (t + tail)[|t + tail| - 1] == tail[n];
      SpacesTrimmedAtEnd(t, tail[..n]);
    }
  }

  lemma TrimmedWord(lead: Text, word: Text, tail: Text)
    requires (forall u :: u in lead ==> IsSpace(u)) && (forall u :: u in tail ==> IsSpace(u))
    requires word != [] ==> !IsSpace(word[0]) && !IsSpace(word[|word| - 1])
    ensures TrimEnd(TrimStart(lead + (word + tail))) == word
  {
    SpacesTrimmed(lead, word + tail);
    if word == [] {
      assert word + tail == tail && tail + [] == tail;
      SpacesTrimmed(tail, []);
    } else {
      assert TrimStart(word + tail) == word + tail;
      SpacesTrimmedAtEnd(word, tail);
    }
  }

  lemma LowerConcat(a: Text, b: Text)
    ensures Lower(a + b) == Lower(a) + Lower(b)
  {
  }

  lemma LowerSpaces(t: Text)
    requires AllBlank(t)
    ensures forall u :: u in Lower(t) ==> IsSpace(u)
  {
    forall i | 0 <= i < |t| ensures IsSpace(Lower(t)[i]) { BlankIsSpace(t[i]); }
  }

  lemma KillWord(t: Text, lead: Text, word: Text, tail: Text)
    requires Around(t, lead, word, tail)
    ensures TrimEnd(TrimStart(Lower(t))) == Lower(word)
  {
    LowerConcat(lead, word + tail);
    LowerConcat(word, tail);
    LowerSpaces(lead);
    LowerSpaces(tail);
    if word != [] {
      BlankIsSpace(word[0]);
      BlankIsSpace(word[|word| - 1]);
    }
    TrimmedWord(Lower(lead), Lower(word), Lower(tail));
  }

  lemma {:induction false} WithoutLead(t: Text) returns (lead: Text, rest: Text)
    ensures t == lead + rest && AllBlank(lead) && (rest != [] ==> !Blank(rest[0]))
  {
    lead, rest := [], t;
    if t != [] && Blank(t[0]) {
      lead, rest := WithoutLead(t[1..]);
      lead := [t[0]] + lead;
    }
  }

  lemma {:induction false} WithoutTail(t: Text) returns (word: Text, tail: Text)
    ensures t == word + tail && AllBlank(tail) && (word != [] ==> !Blank(word[|word| - 1]))
  {
    word, tail := t, [];
    if t != [] && Blank(t[|t| - 1]) {
      word, tail := WithoutTail(t[..|t| - 1]);
      tail := tail + [t[|t| - 1]];
    }
  }

  /** Every setting is some word with white space around it. */
  lemma HasWord(t: Text) returns (lead: Text, word: Text, tail: Text)
    ensures Around(t, lead, word, tail)
  {
    var rest;
    lead, rest := WithoutLead(t);
    word, tail := WithoutTail(rest);
    if word != [] { assert word[0] == rest[0]; }
  }

  lemma KillsExactly(t: Text)
    ensures TrimEnd(TrimStart(Lower(t))) !in OFF_WORDS <==> Kills(t)
  {
    var lead, word, tail := HasWord(t);
    KillWord(t, lead, word, tail);
    OffWordExactly(word);
    if l: Text, w: Text, r: Text :| Around(t, l, w, r) && !OffWord(w) {
      KillWord(t, l, w, r);
      OffWordExactly(w);
    }
  }

  lemma KilledExactly(env: Env)
    ensures Killed(env) <==> SwitchedOff(env)
  {
    if env.kill.Some? { KillsExactly(env.kill.value); }
    if env.mode.Some? { LowerExactly(env.mode.value, Lit("off")); }
  }

  // ----- the words of a record -----

  /** The value's text is the word in any case; null and nothing have the empty text. */
  ghost predicate Says(v: Json, word: Text) {
    if v == Null then word == [] else TextFrom(v).Done? && CaseOf(TextFrom(v).value, word)
  }

  ghost predicate SaysDone(v: Json) {
    || Says(v, Lit("complete")) || Says(v, Lit("completed")) || Says(v, Lit("done")) || Says(v, Lit("closed"))
    || Says(v, Lit("superseded")) || Says(v, Lit("abandoned")) || Says(v, Lit("skipped")) || Says(v, Lit("verified"))
  }

  ghost predicate SaysInFlight(v: Json) {
    Says(v, []) || Says(v, Lit("ready")) || Says(v, Lit("in_progress")) || Says(v, Lit("in-progress"))
  }

  ghost predicate SaysPaused(v: Json) {
    Says(v, Lit("blocked")) || Says(v, Lit("paused"))
  }

  /** Anything but null, nothing, false, zero and the empty text. */
  ghost predicate Given(v: Json) {
    v != Null && v != Bool(false) && v != Num(0) && v != Str([])
  }

  ghost function CompletionStatus(record: Json): Json {
    Field(Field(record, Lit("completion")), Lit("status"))
  }

  ghost function ControlStatus(record: Json): Json {
    Field(Field(record, Lit("control")), Lit("status"))
  }

  /** The lifecycle status, completion first, then control, then the record's own,
      which may also be in flight, is given and not a final one. */
  ghost predicate LifecycleOpen(record: Json) {
    if Given(CompletionStatus(record)) then StatusOpen(CompletionStatus(record))
    else if Given(ControlStatus(record)) then StatusOpen(ControlStatus(record))
    else StatusOpen(Field(record, Lit("status"))) && !SaysInFlight(Field(record, Lit("status")))
  }

  ghost predicate StatusOpen(v: Json) {
    !SaysDone(v) && !Says(v, [])
  }

  ghost predicate TaskOpen(task: Json) {
    !SaysDone(Field(task, Lit("status")))
  }

  ghost predicate HasOpenTask(v: Json) {
    v.Arr? && exists i :: 0 <= i < |v.items| && TaskOpen(v.items[i])
  }

  /** Work is left: an open task in the record or its plan, an active task, an open lifecycle. */
  ghost predicate HasWork(record: Json, tasks: seq<Json>) {
    var active := Field(Field(record, Lit("control")), Lit("activeTasks"));
    || HasOpenTask(Field(record, Lit("tasks")))
    || HasOpenTask(Arr(tasks))
    || (active.Arr? && active.items != [])
    || LifecycleOpen(record)
  }

  /** A word that pauses stands in one of four places. */
  ghost predicate HasPause(record: Json) {
    || SaysPaused(CompletionStatus(record)) || SaysPaused(ControlStatus(record))
    || SaysPaused(Field(record, Lit("status"))) || SaysPaused(Field(record, Lit("state")))
  }

  lemma SaysExactly(v: Json, word: Text)
    requires Small(word)
    ensures Says(v, word) <==> Normalize(v) == Done(word)
  {
    if v != Null && TextFrom(v).Done? { LowerExactly(TextFrom(v).value, word); }
  }

  lemma FourWords(v: Json)
    ensures Says(v, Lit("complete")) <==> Normalize(v) == Done(Lit("complete"))
    ensures Says(v, Lit("completed")) <==> Normalize(v) == Done(Lit("completed"))
    ensures Says(v, Lit("done")) <==> Normalize(v) == Done(Lit("done"))
    ensures Says(v, Lit("closed")) <==> Normalize(v) == Done(Lit("closed"))
  {
    SaysExactly(v, Lit("complete"));
    SaysExactly(v, Lit("completed"));
    SaysExactly(v, Lit("done"));
    SaysExactly(v, Lit("closed"));
  }

  lemma FourMoreWords(v: Json)
    ensures Says(v, Lit("superseded")) <==> Normalize(v) == Done(Lit("superseded"))
    ensures Says(v, Lit("abandoned")) <==> Normalize(v) == Done(Lit("abandoned"))
    ensures Says(v, Lit("skipped")) <==> Normalize(v) == Done(Lit("skipped"))
    ensures Says(v, Lit("verified")) <==> Normalize(v) == Done(Lit("verified"))
  {
    SaysExactly(v, Lit("superseded"));
    SaysExactly(v, Lit("abandoned"));
    SaysExactly(v, Lit("skipped"));
    SaysExactly(v, Lit("verified"));
  }

  lemma FinishedExactly(v: Json)
    ensures SaysDone(v) <==> Finished(v)
  {
    FourWords(v);
    FourMoreWords(v);
    EightWords(Normalize(v));
  }

  lemma EightWords(word: Attempt<Text>)
    ensures word.Done? && word.value in TERMINAL_TASKS <==>
      || word == Done(Lit("complete")) || word == Done(Lit("completed")) || word == Done(Lit("done"))
      || word == Done(Lit("closed")) || word == Done(Lit("superseded")) || word == Done(Lit("abandoned"))
      || word == Done(Lit("skipped")) || word == Done(Lit("verified"))
  {
  }

  lemma InFlightExactly(v: Json)
    ensures SaysInFlight(v) <==> Normalize(v).Done? && Normalize(v).value in IN_FLIGHT
  {
    SaysExactly(v, []);
    SaysExactly(v, Lit("ready"));
    SaysExactly(v, Lit("in_progress"));
    SaysExactly(v, Lit("in-progress"));
  }

  lemma PausedExactly(v: Json)
    ensures SaysPaused(v) <==> Pauses(v)
  {
    SaysExactly(v, Lit("blocked"));
    SaysExactly(v, Lit("paused"));
  }

  lemma LifecycleOpenExactly(record: Json)
    ensures LifecycleOpen(record) <==> Outstanding(record)
  {
    StatusOpenExactly(CompletionStatus(record));
    StatusOpenExactly(ControlStatus(record));
    StatusOpenExactly(Field(record, Lit("status")));
    InFlightExactly(Field(record, Lit("status")));
  }

  lemma StatusOpenExactly(v: Json)
    ensures StatusOpen(v) <==> Unfinished(v)
    ensures Given(v) <==> Truthy(v)
  {
    FinishedExactly(v);
    SaysExactly(v, []);
  }

  lemma OpenTaskExactly(v: Json)
    ensures HasOpenTask(v) <==> exists task :: task in Elements(v) && !Finished(Field(task, STATUS))
  {
    if v.Arr? {
      forall i | 0 <= i < |v.items| ensures TaskOpen(v.items[i]) <==> !Finished(Field(v.items[i], STATUS)) {
        FinishedExactly(Field(v.items[i], STATUS));
      }
      if task :| task in Elements(v) && !Finished(Field(task, STATUS)) {
        var i :| 0 <= i < |v.items| && v.items[i] == task;
        assert TaskOpen(v.items[i]);
      }
    }
  }

  lemma HasWorkExactly(record: Json, tasks: seq<Json>)
    ensures HasWork(record, tasks) <==> WorkLeft(record, tasks)
  {
    OpenTaskExactly(Field(record, Lit("tasks")));
    OpenTaskExactly(Arr(tasks));
    LifecycleOpenExactly(record);
  }

  lemma HasPauseExactly(record: Json)
    ensures HasPause(record) <==> Paused(record)
  {
    var values := PausingValues(record);
    PausedExactly(CompletionStatus(record));
    PausedExactly(ControlStatus(record));
    PausedExactly(Field(record, Lit("status")));
    PausedExactly(Field(record, Lit("state")));
    assert values == [CompletionStatus(record), ControlStatus(record), Field(record, Lit("status")),
                      Field(record, Lit("state"))];
    assert values[0] in values && values[1] in values && values[2] in values && values[3] in values;
  }

  // ----- the verdict -----

  ghost function PlaceText(v: Json, placeholder: Text): Attempt<Text> {
    if v == Null then Done(placeholder) else TextFrom(v)
  }

  /** The command that resumes a run, on the record's own paths or the placeholders. */
  ghost predicate IsResumeCommand(record: Json, command: Text) {
    var recordPath, planPath := PlaceText(Field(record, Lit("recordPath")), Lit("<record-path>")),
                                PlaceText(Field(record, Lit("planPath")), Lit("<plan-path>"));
    && recordPath.Done? && planPath.Done?
    && command == Lit("node csm-build/lib/loop-guard.mjs --record ") + recordPath.value
                  + (Lit(" --plan ") + planPath.value)
  }

  ghost function DigestOf(record: Json, host: Host): Text {
    Lit("sha256:") + host.sha256(ToBytes(CanonicalText(record)))
  }

  /** Which verdict a handler reaches, when none of the texts it needs is missing. */
  ghost predicate VerdictIs(record: Json, tasks: seq<Json>, budget: Budget, env: Env, host: Host, a: Action) {
    if SwitchedOff(env) then a == Stop(KillSwitch)
    else if !HasWork(record, tasks) then a == Stop(NoWorkRemaining)
    else if HasPause(record) then a == Pause
    else if budget.continues >= budget.maxContinues then a == Stop(BudgetExhausted)
    else if budget.lastDigest == Some(DigestOf(record, host)) then a == Stop(NoProgress)
    else a.Continue? && IsResumeCommand(record, a.command)
  }

  lemma DecisionIs(record: Json, work: bool, budget: Budget, digest: Text, env: Env)
    requires DecideContinuation(record, if work then 2 else 0, budget, digest, env).Done?
    ensures var a := DecideContinuation(record, if work then 2 else 0, budget, digest, env).value;
      if Killed(env) then a == Stop(KillSwitch)
      else if !work then a == Stop(NoWorkRemaining)
      else if Paused(record) then a == Pause
      else if budget.continues >= budget.maxContinues then a == Stop(BudgetExhausted)
      else if budget.lastDigest == Some(digest) then a == Stop(NoProgress)
      else a.Continue? && ResumeCommand(record) == Done(a.command)
  {
    if !Killed(env) && work { AnyPausingExactly(PausingValues(record)); }
  }

  lemma CommandIs(record: Json)
    requires ResumeCommand(record).Done?
    ensures IsResumeCommand(record, ResumeCommand(record).value)
  {
  }

  lemma VerdictIsDecision(record: Json, tasks: seq<Json>, budget: Budget, env: Env, host: Host)
    requires VerdictOn(record, tasks, budget, env, host).Done?
    ensures VerdictOn(record, tasks, budget, env, host)
         == DecideContinuation(record, if WorkLeft(record, tasks) then 2 else 0, budget, DigestOf(record, host), env)
  {
    ReadinessExactly(record, tasks);
  }

  lemma ActionIs(record: Json, tasks: seq<Json>, budget: Budget, env: Env, host: Host, a: Action)
    requires DecideContinuation(record, if HasWork(record, tasks) then 2 else 0, budget, DigestOf(record, host), env)
          == Done(a)
    requires Killed(env) <==> SwitchedOff(env)
    requires Paused(record) <==> HasPause(record)
    ensures VerdictIs(record, tasks, budget, env, host, a)
  {
    DecisionIs(record, HasWork(record, tasks), budget, DigestOf(record, host), env);
    if ResumeCommand(record).Done? { CommandIs(record); }
  }

  /** Every verdict: the kill switch first, then no work, a pause, a spent budget, no
      progress, and otherwise the resume command. */
  lemma VerdictsExactly(record: Json, tasks: seq<Json>, budget: Budget, env: Env, host: Host)
    requires VerdictOn(record, tasks, budget, env, host).Done?
    ensures VerdictIs(record, tasks, budget, env, host, VerdictOn(record, tasks, budget, env, host).value)
  {
    KilledExactly(env);
    HasWorkExactly(record, tasks);
    HasPauseExactly(record);
    VerdictIsDecision(record, tasks, budget, env, host);
    ActionIs(record, tasks, budget, env, host, VerdictOn(record, tasks, budget, env, host).value);
  }

  /** The kill switch on a setting given as a word with white space around it: any
      word but the seven off words stops the supervisor, and so does a mode of off;
      with neither, no verdict is the kill switch's. */
  lemma KillSwitchExactly(record: Json, tasks: seq<Json>, budget: Budget, env: Env, host: Host,
                          lead: Text, word: Text, tail: Text)
    requires VerdictOn(record, tasks, budget, env, host).Done?
    requires env.kill.Some? ==> Around(env.kill.value, lead, word, tail)
    ensures VerdictOn(record, tasks, budget, env, host) == Done(Stop(KillSwitch)) <==>
      || (env.kill.Some? && !OffWord(word))
      || (env.mode.Some? && CaseOf(env.mode.value, Lit("off")))
  {
    VerdictsExactly(record, tasks, budget, env, host);
    if env.kill.Some? {
      KillWord(env.kill.value, lead, word, tail);
      OffWordExactly(word);
      KillsExactly(env.kill.value);
    }
  }

  // ----- what is left, listed -----

  /** The open tasks of two lists in a row are those of the first, then those of the second. */
  lemma {:induction false} OpenTasksConcat(a: seq<Json>, b: seq<Json>)
    ensures OpenTasks(a + b).Done? <==> OpenTasks(a).Done? && OpenTasks(b).Done?
    ensures OpenTasks(a + b).Done? ==> OpenTasks(a + b).value == OpenTasks(a).value + OpenTasks(b).value
  {
    if a == [] {
      assert a + b == b;
    } else {
      HeadOfConcat(a, b);
      OpenTasksConcat(a[1..], b);
    }
  }

  lemma OpenTaskAlone(task: Json)
    ensures OpenTasks([task]).Done? <==> Printable(Field(task, Lit("status")))
    ensures OpenTasks([task]).Done? ==> OpenTasks([task]).value == if TaskOpen(task) then [task] else []
  {
    WordExactly(Field(task, STATUS));
    FinishedExactly(Field(task, STATUS));
    assert OpenTasks([task][1..]) == Done([]);
  }

  /** The name of an open task: its taskId, else its id, else a question mark. */
  lemma TaskIdExactly(task: Json)
    ensures TaskId(task) ==
      if Given(Field(task, Lit("taskId"))) then Field(task, Lit("taskId"))
      else if Given(Field(task, Lit("id"))) then Field(task, Lit("id"))
      else Str(Lit("?"))
  {
  }

  /** The status of the lifecycle: the first given, or the record's own. */
  ghost function LifecycleValue(record: Json): Json {
    if Given(CompletionStatus(record)) then CompletionStatus(record)
    else if Given(ControlStatus(record)) then ControlStatus(record)
    else Field(record, Lit("status"))
  }

  lemma LifecycleWordSaid(record: Json)
    requires LifecycleWord(record).Done? && LifecycleOpen(record)
    ensures LifecycleWord(record) == Normalize(LifecycleValue(record))
  {
    InFlightExactly(Field(record, Lit("status")));
    StatusOpenExactly(CompletionStatus(record));
    StatusOpenExactly(ControlStatus(record));
  }

  ghost function ItemsOf(v: Json): seq<Json> {
    if v.Arr? then v.items else []
  }

  // The texts, where there are any.
  ghost function OpenOf(tasks: seq<Json>): seq<Json> {
    match OpenTasks(tasks) case Done(open) => open case Throws => []
  }

  ghost function TextIfAny(text: Attempt<Text>): Text {
    match text case Done(t) => t case Throws => []
  }

  ghost function Labelled(any: bool, name: Text, text: Text): seq<Text> {
    if any then [name + text] else []
  }

  lemma ReadinessParts(record: Json, all: seq<Json>, active: seq<Json>, tasks: seq<Json>)
    requires EvaluateReadiness(record, tasks).Done?
    requires all == AllTasks(record, tasks) && active == ActiveTasks(record)
    ensures EvaluateReadiness(record, tasks).value.remaining == Remaining(
      Listing(OpenOf(all) != [], TextIfAny(TextFrom(Arr(TaskIds(OpenOf(all)))))),
      Listing(active != [], TextIfAny(TextFrom(Arr(active)))), LifecycleWord(record).value)
  {
  }

  lemma LifecycleListed(record: Json)
    requires LifecycleWord(record).Done?
    ensures var state := LifecycleWord(record).value;
      && (state != [] && state !in TERMINAL_TASKS <==> LifecycleOpen(record))
      && (LifecycleOpen(record) ==> state == TextIfAny(Normalize(LifecycleValue(record))))
  {
    LifecycleExactly(record);
    LifecycleOpenExactly(record);
    if LifecycleOpen(record) { LifecycleWordSaid(record); }
  }

  /** What is left, listed: the names of the open tasks of the record and then of the
      plan, the active tasks, and the open lifecycle word in lower case, each behind
      its label. */
  lemma RemainingExactly(record: Json, tasks: seq<Json>)
    requires EvaluateReadiness(record, tasks).Done?
    ensures var open := OpenOf(ItemsOf(Field(record, Lit("tasks"))) + tasks);
      var active := ItemsOf(Field(Field(record, Lit("control")), Lit("activeTasks")));
      EvaluateReadiness(record, tasks).value.remaining
      == Labelled(open != [], Lit("tasks:"), TextIfAny(TextFrom(Arr(TaskIds(open)))))
         + Labelled(active != [], Lit("activeTasks:"), TextIfAny(TextFrom(Arr(active))))
         + Labelled(LifecycleOpen(record), Lit("lifecycle:"), TextIfAny(Normalize(LifecycleValue(record))))
  {
    var all := ItemsOf(Field(record, Lit("tasks"))) + tasks;
    var active := ItemsOf(Field(Field(record, Lit("control")), Lit("activeTasks")));
    ReadinessParts(record, all, active, tasks);
    LifecycleListed(record);
    RemainingParts(Listing(OpenOf(all) != [], TextIfAny(TextFrom(Arr(TaskIds(OpenOf(all)))))),
                   Listing(active != [], TextIfAny(TextFrom(Arr(active)))), LifecycleWord(record).value);
  }

  lemma RemainingParts(open: Listing, active: Listing, state: Text)
    ensures Remaining(open, active, state)
         == Labelled(open.any, Lit("tasks:"), open.names) + Labelled(active.any, Lit("activeTasks:"), active.names)
            + Labelled(state != [] && state !in TERMINAL_TASKS, Lit("lifecycle:"), state)
  {
  }

  // ----- the prompt -----

  /** A handler prompts exactly when its verdict is to continue and the session can be
      reached, with the resume command behind the fixed text, and remembers the digest. */
  lemma PromptExactly(seen: Sighting, budget: Budget, host: Host)
    ensures Issue(budget, Some(seen), host).Some? <==>
      && seen.reachable && VerdictOn(seen.record, seen.tasks, budget, seen.env, host).Done?
      && VerdictOn(seen.record, seen.tasks, budget, seen.env, host).value.Continue?
    ensures Issue(budget, Some(seen), host).Some? ==>
      var p, verdict := Issue(budget, Some(seen), host).value,
                        VerdictOn(seen.record, seen.tasks, budget, seen.env, host).value;
      && p.record == seen.record && p.digest == DigestOf(seen.record, host)
      && p.text == Lit("Continue the active build run: work remains. Resume with: ") + verdict.command
  {
  }

  // ----- runs with the switch on -----

  ghost predicate SwitchStaysOn(events: seq<Event>) {
    forall i :: 0 <= i < |events| && events[i].Idle? && events[i].seen.Some? ==>
      SwitchedOff(events[i].seen.value.env)
  }

  /** From the moment the switch stays set to anything but an off word, or the mode to
      off, no prompt is issued, and at most what was pending still succeeds. */
  lemma SwitchedOffIsQuiet(s: State, events: seq<Event>, host: Host)
    requires Possible(s, events, host) && SwitchStaysOn(events)
    ensures Issues(s, events, host) == []
    ensures multiset(Successes(s, events, host)) <= multiset(s.pending)
    ensures Run(s, events, host).budget.continues <= s.budget.continues + |s.pending|
  {
    forall i | 0 <= i < |events| && events[i].Idle? && events[i].seen.Some?
      ensures Killed(events[i].seen.value.env)
    {
      KilledExactly(events[i].seen.value.env);
    }
    KillSwitchIsQuiet(s, events, host);
  }
}
