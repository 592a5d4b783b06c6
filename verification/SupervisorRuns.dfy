// Whole runs of the supervisor: what every interleaving of its handlers keeps.
module SupervisorRuns {
  import opened Sequences
  import opened Texts
  import opened CanonicalJson
  import opened Coercion
  import opened Envelope
  import opened Continuation
  import opened Supervisor

  ghost predicate Possible(s: State, events: seq<Event>, host: Host)
    decreases events
  {
    events == [] || (Enabled(s, events[0]) && Possible(Step(s, events[0], host), events[1..], host))
  }

  ghost function Run(s: State, events: seq<Event>, host: Host): State
    requires Possible(s, events, host)
    decreases events
  {
    if events == [] then s else Run(Step(s, events[0], host), events[1..], host)
  }

  /** Never more than k prompts await settlement at once. */
  ghost predicate Overlap(s: State, events: seq<Event>, host: Host, k: nat)
    requires Possible(s, events, host)
    decreases events
  {
    |s.pending| <= k && (events == [] || Overlap(Step(s, events[0], host), events[1..], host, k))
  }

  // ----- the ledger of a run -----

  function IssuedBy(s: State, e: Event, host: Host): seq<Prompt> {
    if e.Idle? then
      var prompt := Issue(s.budget, e.seen, host);
      if prompt.Some? then [prompt.value] else []
    else []
  }

  function SettledBy(s: State, e: Event, ok: bool): seq<Prompt>
    requires Enabled(s, e)
  {
    if e.Settled? && e.ok == ok then [s.pending[e.i]] else []
  }

  ghost function Issues(s: State, events: seq<Event>, host: Host): seq<Prompt>
    requires Possible(s, events, host)
    decreases events
  {
    if events == [] then []
    else IssuedBy(s, events[0], host) + Issues(Step(s, events[0], host), events[1..], host)
  }

  /** The prompts that settled with the given outcome, in order of settlement. */
  ghost function Outcomes(s: State, events: seq<Event>, host: Host, ok: bool): seq<Prompt>
    requires Possible(s, events, host)
    decreases events
  {
    if events == [] then []
    else SettledBy(s, events[0], ok) + Outcomes(Step(s, events[0], host), events[1..], host, ok)
  }

  /** The continuations of a run. */
  ghost function Successes(s: State, events: seq<Event>, host: Host): seq<Prompt>
    requires Possible(s, events, host)
  {
    Outcomes(s, events, host, true)
  }

  lemma StepConserves(s: State, e: Event, host: Host)
    requires Enabled(s, e)
    ensures multiset(s.pending) + multiset(IssuedBy(s, e, host))
         == multiset(SettledBy(s, e, true)) + multiset(SettledBy(s, e, false)) + multiset(Step(s, e, host).pending)
  {
  }

  lemma Telescope<T>(s: multiset<T>, i: seq<T>, a: seq<T>, b: seq<T>, t: multiset<T>,
                     i': seq<T>, a': seq<T>, b': seq<T>, u: multiset<T>)
    requires s + multiset(i) == multiset(a) + multiset(b) + t
    requires t + multiset(i') == multiset(a') + multiset(b') + u
    ensures s + multiset(i + i') == multiset(a + a') + multiset(b + b') + u
  {
    forall x ensures (s + multiset(i + i'))[x] == (multiset(a + a') + multiset(b + b') + u)[x] {
      assert (s + multiset(i))[x] == (multiset(a) + multiset(b) + t)[x];
      assert (t + multiset(i'))[x] == (multiset(a') + multiset(b') + u)[x];
    }
  }

  /** Every prompt issued settles once, well or badly, or is still pending. */
  lemma {:induction false} PromptsAreConserved(s: State, events: seq<Event>, host: Host)
    requires Possible(s, events, host)
    ensures multiset(s.pending) + multiset(Issues(s, events, host))
         == multiset(Successes(s, events, host)) + multiset(Outcomes(s, events, host, false))
            + multiset(Run(s, events, host).pending)
    decreases events
  {
    if events != [] {
      var e, rest := events[0], events[1..];
      var t := Step(s, e, host);
      StepConserves(s, e, host);
      PromptsAreConserved(t, rest, host);
      Telescope(multiset(s.pending), IssuedBy(s, e, host), SettledBy(s, e, true), SettledBy(s, e, false),
        multiset(t.pending), Issues(t, rest, host), Successes(t, rest, host), Outcomes(t, rest, host, false),
        multiset(Run(t, rest, host).pending));
    }
  }

  /** The budget is the ledger of the successes and of nothing else: prompts that
      fail leave no trace in it. */
  lemma {:induction false} BudgetIsLedger(s: State, events: seq<Event>, host: Host)
    requires Possible(s, events, host)
    ensures var won := Successes(s, events, host);
      Run(s, events, host).budget ==
        Budget(s.budget.continues + |won|, s.budget.maxContinues,
               if won == [] then s.budget.lastDigest else Some(won[|won| - 1].digest))
    decreases events
  {
    if events != [] {
      BudgetIsLedger(Step(s, events[0], host), events[1..], host);
    }
  }

  // ----- the budget under overlap -----

  lemma IssueNeedsBudget(budget: Budget, seen: Option<Sighting>, host: Host)
    requires Issue(budget, seen, host).Some?
    ensures budget.continues < budget.maxContinues
    ensures !Killed(seen.value.env) && seen.value.reachable
    ensures budget.lastDigest != Some(RecordDigest(seen.value.record, host))
    ensures Issue(budget, seen, host).value.record == seen.value.record
    ensures Issue(budget, seen, host).value.digest == RecordDigest(seen.value.record, host)
  {
    var s := seen.value;
    ContinuesExactly(s.record, s.tasks, budget, s.env, host);
  }

  lemma IssueShape(budget: Budget, seen: Option<Sighting>, host: Host)
    requires Issue(budget, seen, host).Some?
    ensures ResumeCommand(seen.value.record).Done?
    ensures Issue(budget, seen, host).value.text == PromptText(ResumeCommand(seen.value.record).value)
  {
    var s := seen.value;
    ContinuesWithCommand(s.record, s.tasks, budget, s.env, host);
  }

  lemma StepKeepsBound(s: State, e: Event, host: Host, k: nat)
    requires Enabled(s, e) && s.budget.maxContinues >= 1
    requires |Step(s, e, host).pending| <= k
    requires s.budget.continues + |s.pending| <= s.budget.maxContinues + k - 1
    ensures var t := Step(s, e, host);
      t.budget.continues + |t.pending| <= s.budget.maxContinues + k - 1
  {
    if e.Idle? && Issue(s.budget, e.seen, host).Some? {
      IssueNeedsBudget(s.budget, e.seen, host);
    }
  }

  lemma {:induction false} RunKeepsBound(s: State, events: seq<Event>, host: Host, k: nat)
    requires Possible(s, events, host) && Overlap(s, events, host, k) && s.budget.maxContinues >= 1
    requires s.budget.continues + |s.pending| <= s.budget.maxContinues + k - 1
    ensures var t := Run(s, events, host);
      t.budget.continues + |t.pending| <= s.budget.maxContinues + k - 1
    decreases events
  {
    if events != [] {
      StepKeepsBound(s, events[0], host, k);
      RunKeepsBound(Step(s, events[0], host), events[1..], host, k);
    }
  }

  /** With at most k prompts unsettled at once, continuations and prompts still
      pending never exceed m + k - 1. */
  lemma BudgetBound(m: nat, events: seq<Event>, host: Host, k: nat)
    requires m >= 1 && Possible(Start(m), events, host) && Overlap(Start(m), events, host, k)
    ensures var t := Run(Start(m), events, host);
      t.budget.continues + |t.pending| <= m + k - 1
  {
    RunKeepsBound(Start(m), events, host, k);
  }

  /** Once the budget is spent no handler prompts again; what still settles was
      pending by then. */
  lemma {:induction false} SpentBudgetIsQuiet(s: State, events: seq<Event>, host: Host)
    requires Possible(s, events, host) && s.budget.continues >= s.budget.maxContinues
    ensures Issues(s, events, host) == []
    ensures |Successes(s, events, host)| <= |s.pending|
    decreases events
  {
    if events != [] {
      var e := events[0];
      if e.Idle? && Issue(s.budget, e.seen, host).Some? {
        IssueNeedsBudget(s.budget, e.seen, host);
      }
      SpentBudgetIsQuiet(Step(s, e, host), events[1..], host);
    }
  }

  lemma ZeroBudgetNeverPrompts(events: seq<Event>, host: Host)
    requires Possible(Start(0), events, host)
    ensures Issues(Start(0), events, host) == [] && Run(Start(0), events, host) == Start(0)
  {
    SpentBudgetIsQuiet(Start(0), events, host);
    PromptsAreConserved(Start(0), events, host);
    BudgetIsLedger(Start(0), events, host);
    assert |multiset(Run(Start(0), events, host).pending)| == 0;
  }

  // ----- the kill switch -----

  ghost predicate AllKilled(events: seq<Event>) {
    forall i :: 0 <= i < |events| && events[i].Idle? && events[i].seen.Some? ==> Killed(events[i].seen.value.env)
  }

  lemma {:induction false} KilledHandlersIssueNothing(s: State, events: seq<Event>, host: Host)
    requires Possible(s, events, host) && AllKilled(events)
    ensures Issues(s, events, host) == []
    decreases events
  {
    if events != [] {
      var e := events[0];
      if e.Idle? && Issue(s.budget, e.seen, host).Some? {
        IssueNeedsBudget(s.budget, e.seen, host);
      }
      KilledHandlersIssueNothing(Step(s, e, host), events[1..], host);
    }
  }

  lemma MultisetPart<T>(all: seq<T>, added: seq<T>, part: seq<T>, a: multiset<T>, b: multiset<T>)
    requires multiset(all) + multiset(added) == multiset(part) + a + b
    requires added == []
    ensures multiset(part) <= multiset(all) && |part| <= |all|
  {
    assert multiset(all) + multiset(added) == multiset(all);
    assert (multiset(part) + a) + b == multiset(part) + (a + b);
    assert |multiset(all)| == |multiset(part)| + |a + b|;
  }

  /** From the moment the kill switch is on for good, no prompt is issued, and
      what still succeeds was already pending. */
  lemma KillSwitchIsQuiet(s: State, events: seq<Event>, host: Host)
    requires Possible(s, events, host) && AllKilled(events)
    ensures Issues(s, events, host) == []
    ensures multiset(Successes(s, events, host)) <= multiset(s.pending)
    ensures Run(s, events, host).budget.continues <= s.budget.continues + |s.pending|
  {
    KilledHandlersIssueNothing(s, events, host);
    PromptsAreConserved(s, events, host);
    BudgetIsLedger(s, events, host);
    MultisetPart(s.pending, Issues(s, events, host), Successes(s, events, host),
      multiset(Outcomes(s, events, host, false)), multiset(Run(s, events, host).pending));
  }

  // ----- no progress -----

  /** No block of more than k prompts in a row carries the digest d, when t of
      them already precede. */
  ghost predicate StreaksWithin(d: Text, won: seq<Prompt>, t: nat, k: nat) {
    t <= k && (won == [] || StreaksWithin(d, won[1..], if won[0].digest == d then t + 1 else 0, k))
  }

  function Count(d: Text, prompts: seq<Prompt>): (n: nat)
    ensures n <= |prompts|
  {
    if prompts == [] then 0 else (if prompts[0].digest == d then 1 else 0) + Count(d, prompts[1..])
  }

  lemma {:induction false} CountConcat(d: Text, a: seq<Prompt>, b: seq<Prompt>)
    ensures Count(d, a + b) == Count(d, a) + Count(d, b)
  {
    if a == [] {
      assert a + b == b;
    } else {
      HeadOfConcat(a, b);
      CountConcat(d, a[1..], b);
    }
  }

  lemma CountWithout(d: Text, prompts: seq<Prompt>, i: nat)
    requires i < |prompts|
    ensures Count(d, DropAt(prompts, i)) + (if prompts[i].digest == d then 1 else 0) == Count(d, prompts)
  {
    assert prompts == prompts[..i] + ([prompts[i]] + prompts[i + 1..]);
    CountConcat(d, prompts[..i], [prompts[i]] + prompts[i + 1..]);
    CountConcat(d, prompts[..i], prompts[i + 1..]);
    HeadAndTail(prompts[i], prompts[i + 1..]);
  }

  /** t prompts with digest d were just continued in a row; those still pending
      with the same digest are all that can make the row longer. */
  ghost predicate StreakBudgeted(s: State, d: Text, t: nat, k: nat) {
    if s.budget.lastDigest == Some(d) then t + Count(d, s.pending) <= k else t == 0
  }

  lemma IssueKeepsStreak(s: State, e: Event, host: Host, d: Text, t: nat, k: nat)
    requires Enabled(s, e) && e.Idle? && StreakBudgeted(s, d, t, k)
    ensures StreakBudgeted(Step(s, e, host), d, t, k)
  {
    var prompt := Issue(s.budget, e.seen, host);
    if prompt.Some? {
      IssueNeedsBudget(s.budget, e.seen, host);
      CountConcat(d, s.pending, [prompt.value]);
    }
  }

  lemma SettleKeepsStreak(s: State, e: Event, host: Host, d: Text, t: nat, k: nat)
    requires Enabled(s, e) && e.Settled? && StreakBudgeted(s, d, t, k)
    requires |s.pending| <= k
    ensures StreakBudgeted(Step(s, e, host), d,
      if !e.ok then t else if s.pending[e.i].digest == d then t + 1 else 0, k)
  {
    CountWithout(d, s.pending, e.i);
  }

  lemma {:induction false} StreaksAreBounded(
      s: State, events: seq<Event>, host: Host, k: nat, d: Text, t: nat)
    requires Possible(s, events, host) && Overlap(s, events, host, k)
    requires StreakBudgeted(s, d, t, k)
    ensures StreaksWithin(d, Successes(s, events, host), t, k)
    decreases events
  {
    if events != [] {
      var e := events[0];
      var next, rest := Step(s, e, host), events[1..];
      var later := Successes(next, rest, host);
      if e.Settled? {
        SettleKeepsStreak(s, e, host, d, t, k);
        var p := s.pending[e.i];
        if e.ok {
          StreaksAreBounded(next, rest, host, k, d, if p.digest == d then t + 1 else 0);
          assert Successes(s, events, host) == [p] + later;
          HeadAndTail(p, later);
        } else {
          StreaksAreBounded(next, rest, host, k, d, t);
          assert Successes(s, events, host) == later;
        }
      } else {
        IssueKeepsStreak(s, e, host, d, t, k);
        StreaksAreBounded(next, rest, host, k, d, t);
        assert Successes(s, events, host) == later;
      }
    }
  }

  lemma {:induction false} StreaksLater(d: Text, won: seq<Prompt>, t: nat, k: nat, i: nat)
    requires StreaksWithin(d, won, t, k) && i <= |won|
    ensures exists u: nat :: StreaksWithin(d, won[i..], u, k)
  {
    if i == 0 {
      assert won[0..] == won;
    } else {
      StreaksLater(d, won[1..], if won[0].digest == d then t + 1 else 0, k, i - 1);
      assert won[1..][i - 1..] == won[i..];
    }
  }

  lemma {:induction false} StreakEnds(d: Text, won: seq<Prompt>, t: nat, k: nat)
    requires StreaksWithin(d, won, t, k) && t + |won| > k
    ensures exists j :: 0 <= j <= k - t && won[j].digest != d
  {
    if won[0].digest == d {
      StreakEnds(d, won[1..], t + 1, k);
      var j :| 0 <= j <= k - t - 1 && won[1..][j].digest != d;
      assert won[j + 1].digest != d;
    }
  }

  /** Among the continuation i and the k after it, two carry different digests. */
  ghost predicate VariesWithin(won: seq<Prompt>, i: nat, k: nat)
    requires i + k < |won|
  {
    exists j :: i <= j <= i + k && won[j].digest != won[i].digest
  }

  /** With at most k prompts unsettled at once, no record is continued more than
      k times in a row: of any k + 1 consecutive continuations some two differ. */
  lemma NoRecordRepeatsBeyondOverlap(m: nat, events: seq<Event>, host: Host, k: nat, i: nat)
    requires Possible(Start(m), events, host) && Overlap(Start(m), events, host, k)
    requires i + k < |Successes(Start(m), events, host)|
    ensures VariesWithin(Successes(Start(m), events, host), i, k)
  {
    var won := Successes(Start(m), events, host);
    var d := won[i].digest;
    StreaksAreBounded(Start(m), events, host, k, d, 0);
    StreaksLater(d, won, 0, k, i);
    var u: nat :| StreaksWithin(d, won[i..], u, k);
    StreakEnds(d, won[i..], u, k);
    var j :| 0 <= j <= k - u && won[i..][j].digest != d;
    assert won[i + j].digest != d;
  }

  // ----- handlers that do not overlap -----

  ghost predicate Honest(prompts: seq<Prompt>, host: Host) {
    forall i :: 0 <= i < |prompts| ==>
      prompts[i].digest == RecordDigest(prompts[i].record, host) && Wf(prompts[i].record)
  }

  /** Every record seen was parsed from JSON, so no object repeats a key. */
  ghost predicate AllParsed(events: seq<Event>) {
    forall i :: 0 <= i < |events| && events[i].Idle? && events[i].seen.Some? ==> Wf(events[i].seen.value.record)
  }

  lemma HonestOne(p: Prompt, host: Host)
    requires p.digest == RecordDigest(p.record, host) && Wf(p.record)
    ensures Honest([p], host)
  {
  }

  lemma IssuedIsHonest(budget: Budget, seen: Option<Sighting>, host: Host)
    requires Issue(budget, seen, host).Some? && Wf(seen.value.record)
    ensures Honest([Issue(budget, seen, host).value], host)
  {
    IssueNeedsBudget(budget, seen, host);
    HonestOne(Issue(budget, seen, host).value, host);
  }

  lemma HonestConcat(a: seq<Prompt>, b: seq<Prompt>, host: Host)
    requires Honest(a, host) && Honest(b, host)
    ensures Honest(a + b, host)
  {
  }

  lemma HonestDrop(a: seq<Prompt>, i: nat, host: Host)
    requires Honest(a, host) && i < |a|
    ensures Honest(DropAt(a, i), host) && Honest([a[i]], host)
  {
  }

  lemma StepKeepsHonest(s: State, e: Event, host: Host)
    requires Enabled(s, e) && Honest(s.pending, host) && AllParsed([e])
    ensures Honest(Step(s, e, host).pending, host) && Honest(SettledBy(s, e, true), host)
  {
    if e.Settled? {
      HonestDrop(s.pending, e.i, host);
    } else if Issue(s.budget, e.seen, host).Some? {
      assert [e][0] == e;
      IssuedIsHonest(s.budget, e.seen, host);
      HonestConcat(s.pending, [Issue(s.budget, e.seen, host).value], host);
    }
  }

  lemma {:induction false} SuccessesAreHonest(s: State, events: seq<Event>, host: Host)
    requires Possible(s, events, host) && Honest(s.pending, host) && AllParsed(events)
    ensures Honest(Successes(s, events, host), host)
    decreases events
  {
    if events != [] {
      StepKeepsHonest(s, events[0], host);
      SuccessesAreHonest(Step(s, events[0], host), events[1..], host);
    }
  }

  lemma DifferentDigests(p: Prompt, q: Prompt, host: Host)
    requires host.CollisionFree() && p.digest != q.digest && Wf(p.record) && Wf(q.record)
    requires p.digest == RecordDigest(p.record, host) && q.digest == RecordDigest(q.record, host)
    ensures Meaning(p.record) != Meaning(q.record)
  {
    DigestDeterminesRecord(p.record, q.record, host);
  }

  lemma HonestAt(won: seq<Prompt>, i: nat, host: Host)
    requires Honest(won, host) && i < |won|
    ensures won[i].digest == RecordDigest(won[i].record, host) && Wf(won[i].record)
  {
  }

  lemma VariesWithinOne(won: seq<Prompt>, i: nat)
    requires i + 1 < |won| && VariesWithin(won, i, 1)
    ensures won[i + 1].digest != won[i].digest
  {
  }

  /** When handlers do not overlap, each continuation is made on a record whose
      meaning differs from the one continued just before. */
  lemma SequentialRunsProgress(m: nat, events: seq<Event>, host: Host, i: nat)
    requires host.CollisionFree() && AllParsed(events)
    requires Possible(Start(m), events, host) && Overlap(Start(m), events, host, 1)
    requires i + 1 < |Successes(Start(m), events, host)|
    ensures var won := Successes(Start(m), events, host);
      Meaning(won[i + 1].record) != Meaning(won[i].record)
  {
    NoRecordRepeatsBeyondOverlap(m, events, host, 1, i);
    SuccessesAreHonest(Start(m), events, host);
    var won := Successes(Start(m), events, host);
    VariesWithinOne(won, i);
    HonestAt(won, i, host);
    HonestAt(won, i + 1, host);
    DifferentDigests(won[i + 1], won[i], host);
  }

  // ----- the bound is reached -----

  /** The run leads from s to t with at most k prompts unsettled at once. */
  ghost predicate Reaches(s: State, events: seq<Event>, host: Host, k: nat, t: State) {
    Possible(s, events, host) && Overlap(s, events, host, k) && Run(s, events, host) == t
  }

  lemma ReachesInOne(s: State, e: Event, host: Host, k: nat)
    requires Enabled(s, e) && |s.pending| <= k && |Step(s, e, host).pending| <= k
    ensures Reaches(s, [e], host, k, Step(s, e, host))
  {
    assert [e][1..] == [];
    assert Possible(Step(s, e, host), [], host);
  }

  lemma {:induction false} ReachesConcat(
      s: State, a: seq<Event>, t: State, b: seq<Event>, u: State, host: Host, k: nat)
    requires Reaches(s, a, host, k, t) && Reaches(t, b, host, k, u)
    ensures Reaches(s, a + b, host, k, u)
    decreases a
  {
    if a == [] {
      assert a + b == b;
    } else {
      HeadOfConcat(a, b);
      ReachesConcat(Step(s, a[0], host), a[1..], t, b, u, host, k);
    }
  }

  // A handler's view on which it prompts whenever the budget allows.
  datatype Turn = Turn(seen: Option<Sighting>, prompt: Prompt)

  ghost predicate Prompts(turn: Turn, host: Host) {
    forall budget: Budget {:trigger Issue(budget, turn.seen, host)} ::
      budget.continues < budget.maxContinues && budget.lastDigest != Some(turn.prompt.digest) ==>
        Issue(budget, turn.seen, host) == Some(turn.prompt)
  }

  // Two such views of different records, taken in turn.
  datatype Pair = Pair(even: Turn, odd: Turn) {
    ghost predicate Valid(host: Host) {
      Prompts(even, host) && Prompts(odd, host) && even.prompt.digest != odd.prompt.digest
    }

    function At(n: nat): Turn {
      if n % 2 == 0 then even else odd
    }
  }

  /** The state after n prompts issued and delivered one after another. */
  function Paced(m: nat, n: nat, pair: Pair): State {
    State(Budget(n, m, if n == 0 then None else Some(pair.At(n - 1).prompt.digest)), [])
  }

  lemma TurnIssues(turn: Turn, s: State, host: Host)
    requires Prompts(turn, host) && s.budget.continues < s.budget.maxContinues
    requires s.budget.lastDigest != Some(turn.prompt.digest)
    ensures Step(s, Idle(turn.seen), host) == State(s.budget, s.pending + [turn.prompt])
  {
  }

  lemma OneRound(m: nat, n: nat, pair: Pair, host: Host, k: nat) returns (events: seq<Event>)
    requires pair.Valid(host) && n < m && k >= 1
    ensures Reaches(Paced(m, n, pair), events, host, k, Paced(m, n + 1, pair))
  {
    var s, turn := Paced(m, n, pair), pair.At(n);
    var issue, settle := Idle(turn.seen), Settled(0, true);
    TurnIssues(turn, s, host);
    var t := State(s.budget, [turn.prompt]);
    ReachesInOne(s, issue, host, k);
    ReachesInOne(t, settle, host, k);
    ReachesConcat(s, [issue], t, [settle], Step(t, settle, host), host, k);
    events := [issue] + [settle];
  }

  lemma {:induction false} Rounds(m: nat, n: nat, pair: Pair, host: Host, k: nat) returns (events: seq<Event>)
    requires pair.Valid(host) && n <= m && k >= 1
    ensures Reaches(Start(m), events, host, k, Paced(m, n, pair))
  {
    if n == 0 {
      events := [];
    } else {
      var before := Rounds(m, n - 1, pair, host, k);
      var round := OneRound(m, n - 1, pair, host, k);
      ReachesConcat(Start(m), before, Paced(m, n - 1, pair), round, Paced(m, n, pair), host, k);
      events := before + round;
    }
  }

  function Copies(p: Prompt, j: nat): seq<Prompt> {
    if j == 0 then [] else Copies(p, j - 1) + [p]
  }

  lemma {:induction false} CopiesAreAlike(p: Prompt, j: nat)
    ensures |Copies(p, j)| == j && forall i :: 0 <= i < j ==> Copies(p, j)[i] == p
  {
    if j > 0 { CopiesAreAlike(p, j - 1); }
  }

  lemma CopiesWithoutOne(p: Prompt, j: nat)
    requires j >= 1
    ensures |Copies(p, j)| == j && Copies(p, j)[0] == p && DropAt(Copies(p, j), 0) == Copies(p, j - 1)
  {
    CopiesAreAlike(p, j);
    CopiesAreAlike(p, j - 1);
  }

  lemma OneMoreCopy(a: State, before: seq<Event>, budget: Budget, turn: Turn, j: nat, host: Host, k: nat)
    requires budget.continues < budget.maxContinues && j < k
    requires Prompts(turn, host) && budget.lastDigest != Some(turn.prompt.digest)
    requires Reaches(a, before, host, k, State(budget, Copies(turn.prompt, j)))
    ensures Reaches(a, before + [Idle(turn.seen)], host, k, State(budget, Copies(turn.prompt, j + 1)))
  {
    var s, e := State(budget, Copies(turn.prompt, j)), Idle(turn.seen);
    TurnIssues(turn, s, host);
    CopiesAreAlike(turn.prompt, j);
    ReachesInOne(s, e, host, k);
    ReachesConcat(a, before, s, [e], Step(s, e, host), host, k);
  }

  /** Handlers that decide before any prompt of theirs settles all prompt. */
  lemma {:induction false} Burst(budget: Budget, turn: Turn, j: nat, host: Host, k: nat) returns (events: seq<Event>)
    requires budget.continues < budget.maxContinues && j <= k
    requires Prompts(turn, host) && budget.lastDigest != Some(turn.prompt.digest)
    ensures Reaches(State(budget, []), events, host, k, State(budget, Copies(turn.prompt, j)))
  {
    events := [];
    if j > 0 {
      events := Burst(budget, turn, j - 1, host, k);
      OneMoreCopy(State(budget, []), events, budget, turn, j - 1, host, k);
      events := events + [Idle(turn.seen)];
    }
  }

  lemma {:induction false} SettleAll(budget: Budget, p: Prompt, j: nat, host: Host, k: nat)
    returns (events: seq<Event>, last: Option<Text>)
    requires j <= k
    ensures Reaches(State(budget, Copies(p, j)), events, host, k,
      State(Budget(budget.continues + j, budget.maxContinues, last), []))
    decreases j
  {
    if j == 0 {
      events, last := [], budget.lastDigest;
    } else {
      var s, e := State(budget, Copies(p, j)), Settled(0, true);
      CopiesWithoutOne(p, j);
      CopiesAreAlike(p, j - 1);
      var charged := Charge(budget, p.digest);
      var after;
      after, last := SettleAll(charged, p, j - 1, host, k);
      ReachesInOne(s, e, host, k);
      assert Step(s, e, host) == State(charged, Copies(p, j - 1));
      ReachesConcat(s, [e], State(charged, Copies(p, j - 1)), after,
        State(Budget(budget.continues + j, budget.maxContinues, last), []), host, k);
      events := [e] + after;
    }
  }

  /** The bound m + k - 1 is reached. */
  lemma BudgetBoundIsReached(m: nat, k: nat, pair: Pair, host: Host) returns (events: seq<Event>)
    requires pair.Valid(host) && m >= 1 && k >= 1
    ensures Possible(Start(m), events, host) && Overlap(Start(m), events, host, k)
    ensures Run(Start(m), events, host).budget.continues == m + k - 1
  {
    var paced, turn := Paced(m, m - 1, pair), pair.At(m - 1);
    var rounds := Rounds(m, m - 1, pair, host, k);
    var burst := Burst(paced.budget, turn, k, host, k);
    var settles, last := SettleAll(paced.budget, turn.prompt, k, host, k);
    var full, end := State(paced.budget, Copies(turn.prompt, k)), State(Budget(m + k - 1, m, last), []);
    ReachesConcat(Start(m), rounds, paced, burst, full, host, k);
    ReachesConcat(Start(m), rounds + burst, full, settles, end, host, k);
    events := rounds + burst + settles;
  }

  // ----- two records on which the bound is reached -----

  // Two records with a task left.
  const ONE_TASK := Obj([Member(TASKS, Arr([Null]))])
  const TWO_TASKS := Obj([Member(TASKS, Arr([Null, Null]))])

  ghost predicate ToldApart(host: Host) {
    RecordDigest(ONE_TASK, host) != RecordDigest(TWO_TASKS, host)
  }

  function Sample(n: nat): Json {
    if n % 2 == 0 then ONE_TASK else TWO_TASKS
  }

  function Seeing(n: nat): Option<Sighting> {
    Some(Sighting(Sample(n), [], Env(None, None), true))
  }

  lemma SampleTasks(n: nat)
    ensures Field(Sample(n), TASKS) == Arr(if n % 2 == 0 then [Null] else [Null, Null])
    ensures forall name :: name != TASKS ==> Field(Sample(n), name) == Null
  {
    assert Sample(n).fields[0].key == TASKS;
  }

  lemma NamesDifferFromTasks()
    ensures STATUS != TASKS && CONTROL != TASKS && COMPLETION != TASKS && STATE != TASKS
    ensures RECORD_PATH != TASKS && PLAN_PATH != TASKS
  {
    assert STATUS[0] != TASKS[0] && CONTROL[0] != TASKS[0] && COMPLETION[0] != TASKS[0];
    assert STATE[0] != TASKS[0] && RECORD_PATH[0] != TASKS[0] && PLAN_PATH[0] != TASKS[0];
  }

  lemma NothingIsNoWord()
    ensures Normalize(Null) == Done([]) && [] in IN_FLIGHT && [] !in PAUSING && [] !in TERMINAL_TASKS
  {
    assert IN_FLIGHT[0] == [];
    assert forall i :: 0 <= i < |TERMINAL_TASKS| ==> TERMINAL_TASKS[i] != [];
  }

  lemma NullTasksAreOpen(tasks: seq<Json>)
    requires tasks == [Null] || tasks == [Null, Null]
    ensures OpenListing(tasks).Done?
  {
    NothingIsNoWord();
    assert Field(Null, STATUS) == Null;
    assert OpenTasks([]) == Done([]);
    assert [Null][1..] == [] && [Null, Null][1..] == [Null];
    assert OpenTasks([Null]) == Done([Null] + []);
    assert OpenTasks(tasks).Done?;
    var open := OpenTasks(tasks).value;
    assert |open| <= 2;
    assert forall i :: 0 <= i < |open| ==> open[i] == Null;
    assert TaskId(Null) == Str(Lit("?"));
    AllPlainTexts(TaskIds(open));
  }

  lemma {:induction false} AllPlainTexts(items: seq<Json>)
    requires forall i :: 0 <= i < |items| ==> items[i].Str?
    ensures JoinFrom(items).Done?
  {
    if items != [] { AllPlainTexts(items[1..]); }
  }

  lemma {:induction false} NothingPauses(values: seq<Json>)
    requires forall i :: 0 <= i < |values| ==> values[i] == Null
    ensures AnyPausing(values) == Done(false)
  {
    NothingIsNoWord();
    if values != [] { NothingPauses(values[1..]); }
  }

  lemma SampleListings(n: nat)
    ensures OpenListing(AllTasks(Sample(n), [])).Done?
    ensures ActiveTasks(Sample(n)) == []
    ensures LifecycleWord(Sample(n)).Done?
  {
    SampleTasks(n);
    NamesDifferFromTasks();
    NothingIsNoWord();
    NullTasksAreOpen(AllTasks(Sample(n), []));
  }

  lemma SampleGoesOn(n: nat)
    ensures AnyPausing(PausingValues(Sample(n))) == Done(false)
    ensures ResumeCommand(Sample(n)).Done?
  {
    SampleTasks(n);
    NamesDifferFromTasks();
    NothingPauses(PausingValues(Sample(n)));
  }

  lemma SampleIsOpen(n: nat)
    ensures WorkLeft(Sample(n), [])
  {
    SampleTasks(n);
    NothingIsNoWord();
    assert Elements(Field(Sample(n), TASKS))[0] == Null;
  }

  lemma SampleReadiness(n: nat)
    ensures EvaluateReadiness(Sample(n), []).Done?
    ensures EvaluateReadiness(Sample(n), []).value.exitCode == 2
  {
    SampleListings(n);
    assert ActiveListing([]) == Done(Listing(false, []));
    SampleIsOpen(n);
    ReadinessExactly(Sample(n), []);
  }

  lemma IssuesWhen(s: Sighting, budget: Budget, host: Host)
    requires EvaluateReadiness(s.record, s.tasks).Done?
    requires EvaluateReadiness(s.record, s.tasks).value.exitCode == 2
    requires AnyPausing(PausingValues(s.record)) == Done(false) && ResumeCommand(s.record).Done?
    requires !Killed(s.env) && s.reachable && budget.continues < budget.maxContinues
    requires budget.lastDigest != Some(RecordDigest(s.record, host))
    ensures Issue(budget, Some(s), host).Some?
  {
  }

  lemma SampleIsContinued(n: nat, budget: Budget, host: Host)
    requires budget.continues < budget.maxContinues
    requires budget.lastDigest != Some(RecordDigest(Sample(n), host))
    ensures Issue(budget, Seeing(n), host).Some?
  {
    SampleGoesOn(n);
    SampleReadiness(n);
    IssuesWhen(Seeing(n).value, budget, host);
  }

  function SamplePrompt(n: nat, host: Host): Prompt
    requires ResumeCommand(Sample(n)).Done?
  {
    Prompt(PromptText(ResumeCommand(Sample(n)).value), Sample(n), RecordDigest(Sample(n), host))
  }

  lemma SampleIsPrompted(n: nat, budget: Budget, host: Host)
    requires ResumeCommand(Sample(n)).Done?
    requires budget.continues < budget.maxContinues
    requires budget.lastDigest != Some(RecordDigest(Sample(n), host))
    ensures Issue(budget, Seeing(n), host) == Some(SamplePrompt(n, host))
  {
    SampleIsContinued(n, budget, host);
    IssueShape(budget, Seeing(n), host);
    IssueNeedsBudget(budget, Seeing(n), host);
  }

  lemma SampleTurn(n: nat, host: Host) returns (turn: Turn)
    ensures Prompts(turn, host) && turn.prompt.digest == RecordDigest(Sample(n), host)
  {
    SampleGoesOn(n);
    turn := Turn(Seeing(n), SamplePrompt(n, host));
    forall budget: Budget |
      budget.continues < budget.maxContinues && budget.lastDigest != Some(turn.prompt.digest)
      ensures Issue(budget, turn.seen, host) == Some(turn.prompt)
    {
      SampleIsPrompted(n, budget, host);
    }
  }

  lemma SamplePair(host: Host) returns (pair: Pair)
    requires ToldApart(host)
    ensures pair.Valid(host)
  {
    var even := SampleTurn(0, host);
    var odd := SampleTurn(1, host);
    pair := Pair(even, odd);
  }

  ghost predicate StaysWithinBudget(m: nat, k: nat, host: Host) {
    forall events :: Possible(Start(m), events, host) && Overlap(Start(m), events, host, k) ==>
      Run(Start(m), events, host).budget.continues <= m
  }

  /** The continuation count never exceeds CSM_CONTINUE_MAX exactly when no
      continuation is allowed at all, or handlers never overlap. */
  lemma BudgetHoldsExactly(m: nat, k: nat, host: Host)
    requires ToldApart(host)
    ensures StaysWithinBudget(m, k, host) <==> m == 0 || k <= 1
  {
    if m == 0 || k <= 1 {
      forall events | Possible(Start(m), events, host) && Overlap(Start(m), events, host, k)
        ensures Run(Start(m), events, host).budget.continues <= m
      {
        if m == 0 {
          ZeroBudgetNeverPrompts(events, host);
        } else {
          BudgetBound(m, events, host, k);
        }
      }
    } else {
      var pair := SamplePair(host);
      var events := BudgetBoundIsReached(m, k, pair, host);
      assert Run(Start(m), events, host).budget.continues > m;
    }
  }

  // ----- the same record continued twice -----

  ghost predicate RepeatFree(won: seq<Prompt>) {
    forall i :: 0 <= i && i + 1 < |won| ==> VariesWithin(won, i, 1)
  }

  ghost predicate NeverRepeats(m: nat, k: nat, host: Host) {
    forall events :: Possible(Start(m), events, host) && Overlap(Start(m), events, host, k) ==>
      RepeatFree(Successes(Start(m), events, host))
  }

  lemma PairRepeats(p: Prompt)
    ensures !RepeatFree([p, p])
  {
    assert [p, p][0].digest == [p, p][1].digest;
    assert !VariesWithin([p, p], 0, 1);
  }

  const TWO_SETTLE: seq<Event> := [Settled(0, true), Settled(0, true)]

  function Twice(seen: Option<Sighting>): seq<Event> {
    [Idle(seen)] + ([Idle(seen)] + TWO_SETTLE)
  }

  lemma BothDeliver(s: State, p: Prompt, host: Host)
    requires s.pending == [p, p]
    ensures Possible(s, TWO_SETTLE, host) && Overlap(s, TWO_SETTLE, host, 2)
    ensures Successes(s, TWO_SETTLE, host) == [p, p]
  {
    var settle := Settled(0, true);
    var t := Step(s, settle, host);
    assert t.pending == [p];
    var u := Step(t, settle, host);
    assert u.pending == [];
    assert TWO_SETTLE[1..] == [settle] && [settle][1..] == [];
    assert Possible(u, [], host) && Overlap(u, [], host, 2) && Successes(u, [], host) == [];
    assert Possible(t, [settle], host) && Overlap(t, [settle], host, 2);
    assert Successes(t, [settle], host) == [p] + [];
  }

  lemma FirstStep(s: State, e: Event, t: State, rest: seq<Event>, host: Host, k: nat)
    requires Enabled(s, e) && Step(s, e, host) == t && |s.pending| <= k
    requires Possible(t, rest, host) && Overlap(t, rest, host, k)
    ensures Possible(s, [e] + rest, host) && Overlap(s, [e] + rest, host, k)
    ensures Successes(s, [e] + rest, host) == SettledBy(s, e, true) + Successes(t, rest, host)
  {
    HeadAndTail(e, rest);
  }

  lemma IssueFirst(s: State, turn: Turn, rest: seq<Event>, host: Host, k: nat)
    requires Prompts(turn, host) && s.budget.continues < s.budget.maxContinues
    requires s.budget.lastDigest != Some(turn.prompt.digest) && |s.pending| <= k
    requires var t := State(s.budget, s.pending + [turn.prompt]); Possible(t, rest, host) && Overlap(t, rest, host, k)
    ensures var events := [Idle(turn.seen)] + rest;
      && Possible(s, events, host) && Overlap(s, events, host, k)
      && Successes(s, events, host) == Successes(State(s.budget, s.pending + [turn.prompt]), rest, host)
  {
    TurnIssues(turn, s, host);
    FirstStep(s, Idle(turn.seen), State(s.budget, s.pending + [turn.prompt]), rest, host, k);
  }

  /** Two handlers that both decide before either prompt settles continue the
      same record twice, the no-progress stop notwithstanding. */
  lemma OverlapRepeatsRecord(m: nat, turn: Turn, host: Host)
    requires m >= 1 && Prompts(turn, host)
    ensures Possible(Start(m), Twice(turn.seen), host) && Overlap(Start(m), Twice(turn.seen), host, 2)
    ensures Successes(Start(m), Twice(turn.seen), host) == [turn.prompt, turn.prompt]
  {
    var s := Start(m);
    var t := State(s.budget, [turn.prompt]);
    BothDeliver(State(s.budget, [turn.prompt] + [turn.prompt]), turn.prompt, host);
    IssueFirst(t, turn, TWO_SETTLE, host, 2);
    assert s.pending + [turn.prompt] == [turn.prompt];
    IssueFirst(s, turn, [Idle(turn.seen)] + TWO_SETTLE, host, 2);
  }

  // The run is possible, overlaps at most k prompts, and continues these.
  ghost predicate Yields(s: State, events: seq<Event>, host: Host, k: nat, won: seq<Prompt>) {
    Possible(s, events, host) && Overlap(s, events, host, k) && Successes(s, events, host) == won
  }

  lemma CopiesFront(p: Prompt, j: nat)
    requires j >= 1
    ensures [p] + Copies(p, j - 1) == Copies(p, j)
  {
    CopiesAreAlike(p, j);
    CopiesAreAlike(p, j - 1);
  }

  lemma SettleFirst(s: State, p: Prompt, j: nat, rest: seq<Event>, host: Host, k: nat, won: seq<Prompt>)
    requires j >= 1 && s.pending == Copies(p, j) && j <= k
    requires Yields(State(Charge(s.budget, p.digest), Copies(p, j - 1)), rest, host, k, won)
    ensures Yields(s, [Settled(0, true)] + rest, host, k, [p] + won)
  {
    CopiesWithoutOne(p, j);
    FirstStep(s, Settled(0, true), State(Charge(s.budget, p.digest), Copies(p, j - 1)), rest, host, k);
  }

  lemma IdleFirst(s: State, turn: Turn, rest: seq<Event>, host: Host, k: nat, won: seq<Prompt>)
    requires Prompts(turn, host) && s.budget.continues < s.budget.maxContinues
    requires s.budget.lastDigest != Some(turn.prompt.digest) && |s.pending| <= k
    requires Yields(State(s.budget, s.pending + [turn.prompt]), rest, host, k, won)
    ensures Yields(s, [Idle(turn.seen)] + rest, host, k, won)
  {
    IssueFirst(s, turn, rest, host, k);
  }

  lemma {:induction false} SettlesDeliver(s: State, p: Prompt, j: nat, host: Host, k: nat) returns (events: seq<Event>)
    requires s.pending == Copies(p, j) && j <= k
    ensures Yields(s, events, host, k, Copies(p, j))
    decreases j
  {
    events := [];
    if j > 0 {
      var rest := SettlesDeliver(State(Charge(s.budget, p.digest), Copies(p, j - 1)), p, j - 1, host, k);
      SettleFirst(s, p, j, rest, host, k, Copies(p, j - 1));
      CopiesFront(p, j);
      events := [Settled(0, true)] + rest;
    }
  }

  lemma {:induction false} IdlesPile(s: State, turn: Turn, i: nat, j: nat, host: Host, k: nat)
    returns (events: seq<Event>)
    requires Prompts(turn, host) && s.budget.continues < s.budget.maxContinues
    requires s.budget.lastDigest != Some(turn.prompt.digest)
    requires s.pending == Copies(turn.prompt, i) && i + j <= k
    ensures Yields(s, events, host, k, Copies(turn.prompt, i + j))
    decreases j
  {
    CopiesAreAlike(turn.prompt, i);
    if j == 0 {
      events := SettlesDeliver(s, turn.prompt, i, host, k);
    } else {
      assert Copies(turn.prompt, i + 1) == s.pending + [turn.prompt];
      var rest := IdlesPile(State(s.budget, s.pending + [turn.prompt]), turn, i + 1, j - 1, host, k);
      IdleFirst(s, turn, rest, host, k, Copies(turn.prompt, i + j));
      events := [Idle(turn.seen)] + rest;
    }
  }

  /** The bound on repeats is reached too: k overlapping handlers continue one
      record k times in a row. */
  lemma RepeatBoundIsReached(m: nat, k: nat, host: Host) returns (events: seq<Event>, p: Prompt)
    requires m >= 1
    ensures Possible(Start(m), events, host) && Overlap(Start(m), events, host, k)
    ensures Successes(Start(m), events, host) == Copies(p, k)
  {
    var turn := SampleTurn(0, host);
    p := turn.prompt;
    events := IdlesPile(Start(m), turn, 0, k, host, k);
  }

  lemma {:induction false} OverlapWidens(s: State, events: seq<Event>, host: Host, k: nat, l: nat)
    requires Possible(s, events, host) && Overlap(s, events, host, k) && k <= l
    ensures Overlap(s, events, host, l)
    decreases events
  {
    if events != [] { OverlapWidens(Step(s, events[0], host), events[1..], host, k, l); }
  }

  lemma NeverRepeatsWhen(m: nat, k: nat, events: seq<Event>, host: Host)
    requires m == 0 || k <= 1
    requires Possible(Start(m), events, host) && Overlap(Start(m), events, host, k)
    ensures RepeatFree(Successes(Start(m), events, host))
  {
    if m == 0 {
      ZeroBudgetNeverPrompts(events, host);
      BudgetIsLedger(Start(m), events, host);
    } else {
      OverlapWidens(Start(m), events, host, k, 1);
      forall i | 0 <= i && i + 1 < |Successes(Start(m), events, host)|
        ensures VariesWithin(Successes(Start(m), events, host), i, 1)
      {
        NoRecordRepeatsBeyondOverlap(m, events, host, 1, i);
      }
    }
  }

  lemma RepeatsWhen(m: nat, k: nat, turn: Turn, host: Host)
    requires m >= 1 && k >= 2 && Prompts(turn, host)
    ensures !NeverRepeats(m, k, host)
  {
    var events := Twice(turn.seen);
    OverlapRepeatsRecord(m, turn, host);
    OverlapWidens(Start(m), events, host, 2, k);
    PairRepeats(turn.prompt);
  }

  /** No record is continued twice in a row exactly when no continuation is
      allowed at all, or handlers never overlap. */
  lemma NoProgressStopHoldsExactly(m: nat, k: nat, host: Host)
    ensures NeverRepeats(m, k, host) <==> m == 0 || k <= 1
  {
    if m == 0 || k <= 1 {
      forall events | Possible(Start(m), events, host) && Overlap(Start(m), events, host, k)
        ensures RepeatFree(Successes(Start(m), events, host))
      {
        NeverRepeatsWhen(m, k, events, host);
      }
    } else {
      var turn := SampleTurn(0, host);
      RepeatsWhen(m, k, turn, host);
    }
  }
}
