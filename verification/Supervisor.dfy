// The continuation supervisor as a protocol: any number of idle handlers that
// share one budget, decide and issue a prompt in one stretch, and charge the
// budget only when the prompt settles.
module Supervisor {
  import opened Texts
  import opened CanonicalJson
  import opened Coercion
  import opened Envelope
  import opened Continuation

  // What a handler has in hand when it decides. reachable: there is a client
  // to prompt and a session to address.
  datatype Sighting = Sighting(record: Json, tasks: seq<Json>, env: Env, reachable: bool)

  // A prompt that was issued, and the record and digest its handler keeps
  // while it waits for the prompt to settle.
  datatype Prompt = Prompt(text: Text, record: Json, digest: Text)

  // One indivisible stretch of the event loop. A handler that located no
  // record, or threw before deciding, sees nothing.
  datatype Event =
    | Idle(seen: Option<Sighting>)
    | Settled(i: nat, ok: bool)

  datatype State = State(budget: Budget, pending: seq<Prompt>)

  function Start(max: nat): State {
    State(Budget(0, max, None), [])
  }

  function PromptText(command: Text): Text {
    Lit("Continue the active build run: work remains. Resume with: ") + command
  }

  /** The prompt a handler issues, if it issues one. */
  function Issue(budget: Budget, seen: Option<Sighting>, host: Host): Option<Prompt> {
    if seen.None? then None
    else
      var s := seen.value;
      var verdict := VerdictOn(s.record, s.tasks, budget, s.env, host);
      if verdict.Done? && verdict.value.Continue? && s.reachable then
        Some(Prompt(PromptText(verdict.value.command), s.record, RecordDigest(s.record, host)))
      else None
  }

  function TextOfPrompt(p: Option<Prompt>): Option<Text> {
    if p.Some? then Some(p.value.text) else None
  }

  function Charge(budget: Budget, digest: Text): Budget {
    budget.(continues := budget.continues + 1, lastDigest := Some(digest))
  }

  function DropAt<T>(s: seq<T>, i: nat): (r: seq<T>)
    requires i < |s|
    ensures |r| == |s| - 1
    ensures forall j :: 0 <= j < |r| ==> r[j] == if j < i then s[j] else s[j + 1]
    ensures multiset(s) == multiset(r) + multiset{s[i]}
  {
    assert s == s[..i] + [s[i]] + s[i + 1..];
    s[..i] + s[i + 1..]
  }

  predicate Enabled(s: State, e: Event) {
    e.Settled? ==> e.i < |s.pending|
  }

  function Step(s: State, e: Event, host: Host): (t: State)
    requires Enabled(s, e)
    ensures t.budget.maxContinues == s.budget.maxContinues
  {
    match e
    case Idle(seen) =>
      var prompt := Issue(s.budget, seen, host);
      if prompt.Some? then State(s.budget, s.pending + [prompt.value]) else s
    case Settled(i, ok) =>
      State(if ok then Charge(s.budget, s.pending[i].digest) else s.budget, DropAt(s.pending, i))
  }

  // The plugin's closure: the shared budget and the prompts it awaits.
  class ContinuePlugin {
    const host: Host
    const maxContinues: nat
    var continues: nat
    var lastDigest: Option<Text>
    var pending: seq<Prompt>

    function Now(): State
      reads this
    {
      State(Budget(continues, maxContinues, lastDigest), pending)
    }

    constructor (setting: Option<Text>, host: Host)
      ensures this.host == host
      ensures Now() == Start(MaxContinuesFrom(setting))
    {
      this.host := host;
      continues, maxContinues, lastDigest := 0, MaxContinuesFrom(setting), None;
      pending := [];
    }

    method Decide(s: Sighting, budget: Budget) returns (verdict: Attempt<Action>, digest: Text)
      ensures verdict == VerdictOn(s.record, s.tasks, budget, s.env, host)
      ensures digest == RecordDigest(s.record, host)
    {
      digest := RecordDigest(s.record, host);
      var guard := EvaluateReadiness(s.record, s.tasks);
      if guard.Throws? { return Throws, digest; }
      verdict := DecideContinuation(s.record, guard.value.exitCode, budget, digest, s.env);
    }

    method PrepareIssue(seen: Option<Sighting>, budget: Budget) returns (issued: Option<Prompt>)
      ensures issued == Issue(budget, seen, host)
    {
      if seen.None? { return None; }
      var s := seen.value;
      var verdict, digest := Decide(s, budget);
      if verdict.Throws? || !verdict.value.Continue? || !s.reachable { return None; }
      issued := Some(Prompt(PromptText(verdict.value.command), s.record, digest));
    }

    /** From reading the budget to awaiting the prompt. */
    method HandleIdle(seen: Option<Sighting>) returns (prompt: Option<Text>)
      modifies this`pending
      ensures Now() == Step(old(Now()), Idle(seen), host)
      ensures prompt == TextOfPrompt(Issue(old(Now()).budget, seen, host))
    {
      var issued := PrepareIssue(seen, Budget(continues, maxContinues, lastDigest));
      prompt := TextOfPrompt(issued);
      if issued.Some? {
        pending := pending + [issued.value];
      }
    }

    /** The handler resumes: a prompt that was delivered is charged. */
    method PromptSettled(i: nat, ok: bool)
      requires i < |pending|
      modifies this
      ensures Now() == Step(old(Now()), Settled(i, ok), host)
    {
      if ok {
        continues := continues + 1;
        lastDigest := Some(pending[i].digest);
      }
      pending := DropAt(pending, i);
    }
  }
}
