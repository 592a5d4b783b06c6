// Which listed files discovery may pick, said of their names, contents and times.
module LiveRecords {
  import opened Texts
  import opened CanonicalJson
  import opened Coercion
  import opened Continuation
  import opened Verdicts
  import opened Discovery

  /** A build state of a known version whose run has not ended. */
  ghost predicate OpenBuildState(v: Json) {
    var current := Field(Field(v, Lit("control")), Lit("currentState"));
    && v.Obj?
    && (Field(v, Lit("schema")) == Str(Lit("csm-build-state/1"))
        || Field(v, Lit("schema")) == Str(Lit("csm-build-state/2")))
    && current != Str(Lit("COMPLETE")) && current != Str(Lit("BLOCKED")) && current != Str(Lit("SUPERSEDED"))
  }

  /** A status that ends a run, in any case. */
  ghost predicate SaysEnded(v: Json) {
    Says(v, Lit("complete")) || Says(v, Lit("blocked")) || Says(v, Lit("superseded"))
  }

  /** A json file other than the pointer. */
  ghost predicate Considered(name: Text) {
    (exists stem: Text :: name == stem + Lit(".json")) && name != Lit("active.json")
  }

  lemma OpenExactly(v: Json)
    ensures KnownAndOpen(v) <==> OpenBuildState(v)
  {
    assert TERMINAL_BUILD_STATES[0] == Lit("COMPLETE") && TERMINAL_BUILD_STATES[1] == Lit("BLOCKED");
    assert TERMINAL_BUILD_STATES[2] == Lit("SUPERSEDED");
    assert BUILD_STATE_SCHEMAS[0] == Lit("csm-build-state/1") && BUILD_STATE_SCHEMAS[1] == Lit("csm-build-state/2");
  }

  lemma EndedExactly(v: Json)
    ensures SaysEnded(v) <==> Normalize(v).Done? && Normalize(v).value in TERMINAL_STATUSES
  {
    SaysExactly(v, Lit("complete"));
    SaysExactly(v, Lit("blocked"));
    SaysExactly(v, Lit("superseded"));
    ThreeWords(Normalize(v));
  }

  lemma ThreeWords(word: Attempt<Text>)
    ensures word.Done? && word.value in TERMINAL_STATUSES <==>
      word == Done(Lit("complete")) || word == Done(Lit("blocked")) || word == Done(Lit("superseded"))
  {
  }

  lemma ConsideredExactly(name: Text)
    ensures Eligible(name) <==> Considered(name)
  {
    var n := |name| - |JSON_SUFFIX|;
    if n >= 0 && name[n..] == JSON_SUFFIX { assert name == name[..n] + Lit(".json"); }
    if stem: Text :| name == stem + Lit(".json") { assert name[|stem|..] == JSON_SUFFIX; }
  }

  /** A listed file is live exactly when its name is considered, it holds an open build
      state whose status has a text that does not end the run, and it was written at a
      positive time no longer ago than allowed; it makes discovery throw exactly
      when that status has no text. */
  lemma LiveExactly(disk: Disk, dir: Text, name: Text, freshness: int)
    ensures Live(disk, dir, name, freshness) <==>
      var path := disk.join(dir, name);
      && Considered(name) && disk.read(path).Some? && OpenBuildState(disk.read(path).value)
      && Printable(Field(disk.read(path).value, Lit("status")))
      && !SaysEnded(Field(disk.read(path).value, Lit("status")))
      && disk.mtime(path).Some? && disk.mtime(path).value > 0.0
      && disk.now(path) <= disk.mtime(path).value + freshness as real
    ensures Faulty(disk, dir, name) <==>
      var path := disk.join(dir, name);
      && Considered(name) && disk.read(path).Some? && OpenBuildState(disk.read(path).value)
      && !Printable(Field(disk.read(path).value, Lit("status")))
  {
    ConsideredExactly(name);
    var value := disk.read(disk.join(dir, name));
    if value.Some? {
      OpenExactly(value.value);
      EndedExactly(Field(value.value, STATUS));
      WordExactly(Field(value.value, STATUS));
    }
  }

  /** The allowed age is the number the setting starts with when that is above zero, and
      six hours for every other setting. */
  lemma FreshnessExactly(setting: Option<Text>, n: Numeral)
    ensures setting == None ==> FreshnessFrom(setting) == 21_600_000
    ensures n.Valid() && setting == Some(n.Text()) ==>
      FreshnessFrom(setting) == if n.Value() > 0 then n.Value() else 21_600_000
    ensures (setting.Some? && forall m: Numeral :: m.Valid() ==> m.Text() != setting.value) ==>
      FreshnessFrom(setting) == 21_600_000
  {
    if n.Valid() && setting == Some(n.Text()) { NumeralParses(n); }
    if setting.Some? && ParseInt(setting.value).Some? {
      var m := ParsedIsNumeral(setting.value);
    }
    assert TrimStart([]) == [];
  }

  /** A plan is paired with a run when its name ends so and it carries the run's id. */
  lemma PairedExactly(disk: Disk, dir: Text, name: Text, runId: Json)
    ensures PairedPlan(disk, dir, name, runId) <==>
      var plan := disk.read(disk.join(dir, name));
      && (exists stem: Text :: name == stem + Lit("-csm.json"))
      && plan.Some? && plan.value.Obj? && Field(plan.value, Lit("runId")) == runId
  {
    var n := |name| - |PLAN_SUFFIX|;
    if n >= 0 && name[n..] == PLAN_SUFFIX { assert name == name[..n] + Lit("-csm.json"); }
    if stem: Text :| name == stem + Lit("-csm.json") { assert name[|stem|..] == PLAN_SUFFIX; }
  }
}
