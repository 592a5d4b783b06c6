// Finding the active run: the explicit record, else the newest fresh live
// record of the build-state directory, and the plan paired with it.
module Discovery {
  import opened Sequences
  import opened Texts
  import opened CanonicalJson
  import opened Coercion
  import opened Envelope
  import opened Continuation

  // The files as the handler finds them. read is None when a file cannot be
  // read or parsed; mtime is None when it cannot be examined; now is the clock
  // at the moment a file is considered.
  datatype Disk = Disk(
    read: Text -> Option<Json>,
    list: Text -> Option<seq<Text>>,
    mtime: Text -> Option<real>,
    now: Text -> real,
    join: (Text, Text) -> Text)

  datatype Settings = Settings(record: Option<Text>, freshMs: Option<Text>)

  datatype Located = Located(record: Json, path: Text)

  datatype Candidate = Candidate(record: Json, path: Text, mtime: real)

  const DEFAULT_FRESH_MS: int := 21_600_000
  const ACTIVE_RECORD := Lit(".agents/csm-build-state/active.json")
  const STATE_DIRECTORY := Lit(".agents/csm-build-state")
  const PLAN_DIRECTORY := Lit(".agents/plans")
  const ACTIVE_NAME := Lit("active.json")
  const JSON_SUFFIX := Lit(".json")
  const PLAN_SUFFIX := Lit("-csm.json")
  const SCHEMA := Lit("schema")
  const CURRENT_STATE := Lit("currentState")
  const RUN_ID := Lit("runId")
  const BUILD_STATE_SCHEMAS: seq<Text> := [Lit("csm-build-state/1"), Lit("csm-build-state/2")]
  const TERMINAL_BUILD_STATES: seq<Text> := [Lit("COMPLETE"), Lit("BLOCKED"), Lit("SUPERSEDED")]
  const TERMINAL_STATUSES: seq<Text> := [Lit("complete"), Lit("blocked"), Lit("superseded")]

  predicate EndsWith(t: Text, suffix: Text) {
    |suffix| <= |t| && t[|t| - |suffix|..] == suffix
  }

  predicate IsOneOf(v: Json, words: seq<Text>) {
    v.Str? && v.s in words
  }

  function Absolute(disk: Disk, directory: Text, path: Text): Text {
    if path != [] && path[0] == SLASH then path else disk.join(directory, path)
  }

  // ----- which records are live -----

  predicate KnownAndOpen(v: Json) {
    && v.Obj?
    && IsOneOf(Field(v, SCHEMA), BUILD_STATE_SCHEMAS)
    && !IsOneOf(Field(Field(v, CONTROL), CURRENT_STATE), TERMINAL_BUILD_STATES)
  }

  function IsNonTerminalBuildState(v: Json): Attempt<bool> {
    if !KnownAndOpen(v) then Done(false)
    else
      var status :- Normalize(Field(v, STATUS));
      Done(status !in TERMINAL_STATUSES)
  }

  function FreshnessFrom(setting: Option<Text>): int {
    var parsed := ParseInt(if setting.Some? then setting.value else []);
    if parsed.Some? && parsed.value > 0 then parsed.value else DEFAULT_FRESH_MS
  }

  predicate Eligible(name: Text) {
    EndsWith(name, JSON_SUFFIX) && name != ACTIVE_NAME
  }

  predicate Fresh(disk: Disk, path: Text, freshness: int) {
    && disk.mtime(path).Some?
    && disk.mtime(path).value > 0.0
    && disk.now(path) - disk.mtime(path).value <= freshness as real
  }

  /** A listed file the supervisor may resume. */
  predicate Live(disk: Disk, dir: Text, name: Text, freshness: int) {
    var path := disk.join(dir, name);
    && Eligible(name)
    && disk.read(path).Some?
    && IsNonTerminalBuildState(disk.read(path).value) == Done(true)
    && Fresh(disk, path, freshness)
  }

  /** A listed file whose status has no text: considering it throws. */
  predicate Faulty(disk: Disk, dir: Text, name: Text) {
    var path := disk.join(dir, name);
    && Eligible(name)
    && disk.read(path).Some?
    && IsNonTerminalBuildState(disk.read(path).value).Throws?
  }

  function CandidateAt(disk: Disk, dir: Text, name: Text): Candidate
    requires disk.read(disk.join(dir, name)).Some? && disk.mtime(disk.join(dir, name)).Some?
  {
    var path := disk.join(dir, name);
    Candidate(disk.read(path).value, path, disk.mtime(path).value)
  }

  // ----- candidates.sort((a, b) => b.mtime - a.mtime), a stable sort -----

  function InsertNewest(sorted: seq<Candidate>, c: Candidate): (r: seq<Candidate>)
    ensures |r| == |sorted| + 1
    ensures r[0] == if sorted == [] || c.mtime > sorted[0].mtime then c else sorted[0]
  {
    if sorted == [] || c.mtime > sorted[0].mtime then [c] + sorted
    else [sorted[0]] + InsertNewest(sorted[1..], c)
  }

  function NewestFirst(cs: seq<Candidate>): (r: seq<Candidate>)
    ensures |r| == |cs|
  {
    if cs == [] then [] else InsertNewest(NewestFirst(cs[..|cs| - 1]), cs[|cs| - 1])
  }

  lemma HeadAfterLast(cs: seq<Candidate>)
    requires |cs| >= 2
    ensures var front, c := cs[..|cs| - 1], cs[|cs| - 1];
      NewestFirst(cs)[0] == if c.mtime > NewestFirst(front)[0].mtime then c else NewestFirst(front)[0]
  {
  }

  /** Candidate i is of greatest time, and those before it are older. */
  ghost predicate Foremost(cs: seq<Candidate>, i: nat)
    requires i < |cs|
  {
    && (forall j :: 0 <= j < |cs| ==> cs[j].mtime <= cs[i].mtime)
    && (forall j :: 0 <= j < i ==> cs[j].mtime < cs[i].mtime)
  }

  lemma ForemostAfterLast(front: seq<Candidate>, i: nat, c: Candidate)
    requires i < |front| && Foremost(front, i)
    ensures Foremost(front + [c], if c.mtime > front[i].mtime then |front| else i)
  {
    var cs := front + [c];
    assert forall j :: 0 <= j < |front| ==> cs[j] == front[j];
  }

  /** Sorting puts first the earliest among the candidates of greatest time. */
  lemma {:induction false} FirstOfNewest(cs: seq<Candidate>) returns (i: nat)
    requires cs != []
    ensures i < |cs| && NewestFirst(cs)[0] == cs[i] && Foremost(cs, i)
  {
    var n := |cs| - 1;
    var front, c := cs[..n], cs[n];
    assert cs == front + [c];
    if n == 0 {
      i := 0;
    } else {
      i := FirstOfNewest(front);
      HeadAfterLast(cs);
      ForemostAfterLast(front, i, c);
      i := if c.mtime > front[i].mtime then n else i;
    }
  }

  // ----- discovery -----

  function ReadExplicitRecord(disk: Disk, directory: Text, settings: Settings): Option<Located> {
    var path :=
      if settings.record.Some? && settings.record.value != [] then Absolute(disk, directory, settings.record.value)
      else disk.join(directory, ACTIVE_RECORD);
    var value := disk.read(path);
    if value.Some? && value.value.Obj? then Some(Located(value.value, path)) else None
  }

  /** The name at i is live, none listed is newer, and those listed before it are older. */
  ghost predicate Newest(disk: Disk, dir: Text, names: seq<Text>, freshness: int, i: nat)
    requires i < |names|
  {
    && Live(disk, dir, names[i], freshness)
    && (forall j :: 0 <= j < |names| && Live(disk, dir, names[j], freshness) ==>
          CandidateAt(disk, dir, names[j]).mtime <= CandidateAt(disk, dir, names[i]).mtime)
    && (forall j :: 0 <= j < i && Live(disk, dir, names[j], freshness) ==>
          CandidateAt(disk, dir, names[j]).mtime < CandidateAt(disk, dir, names[i]).mtime)
  }

  ghost predicate SomeLive(disk: Disk, dir: Text, names: seq<Text>, freshness: int) {
    exists i :: 0 <= i < |names| && Live(disk, dir, names[i], freshness)
  }

  ghost predicate SomeFaulty(disk: Disk, dir: Text, names: seq<Text>) {
    exists i :: 0 <= i < |names| && Faulty(disk, dir, names[i])
  }

  /** The candidates are the live names, in the order listed: at[k] is where candidate k stands. */
  ghost predicate Tracks(disk: Disk, dir: Text, names: seq<Text>, freshness: int, cs: seq<Candidate>, at: seq<nat>) {
    && |at| == |cs|
    && (forall k :: 0 <= k < |at| ==> at[k] < |names|)
    && (forall k :: 0 <= k < |at| ==> Live(disk, dir, names[at[k]], freshness))
    && (forall k :: 0 <= k < |at| ==> cs[k] == CandidateAt(disk, dir, names[at[k]]))
    && (forall k, l :: 0 <= k < l < |at| ==> at[k] < at[l])
    && (forall j :: 0 <= j < |names| && Live(disk, dir, names[j], freshness) ==> j in at)
  }

  lemma TracksBest(disk: Disk, dir: Text, names: seq<Text>, freshness: int, cs: seq<Candidate>, at: seq<nat>)
    returns (i: nat)
    requires Tracks(disk, dir, names, freshness, cs, at) && cs != []
    ensures i < |names| && Newest(disk, dir, names, freshness, i)
    ensures NewestFirst(cs)[0] == CandidateAt(disk, dir, names[i])
  {
    var k := FirstOfNewest(cs);
    i := at[k];
    forall j | 0 <= j < |names| && Live(disk, dir, names[j], freshness)
      ensures CandidateAt(disk, dir, names[j]).mtime <= cs[k].mtime
      ensures j < i ==> CandidateAt(disk, dir, names[j]).mtime < cs[k].mtime
    {
      var l :| 0 <= l < |at| && at[l] == j;
    }
  }

  /** What the loop makes of one listed name. */
  function Consider(disk: Disk, dir: Text, name: Text, freshness: int): (r: Attempt<Option<Candidate>>)
    ensures r.Throws? <==> Faulty(disk, dir, name)
    ensures r.Done? && r.value.Some? <==> Live(disk, dir, name, freshness)
    ensures r.Done? && r.value.Some? ==> r.value.value == CandidateAt(disk, dir, name)
  {
    if !Eligible(name) then Done(None)
    else
      var path := disk.join(dir, name);
      var value := disk.read(path);
      if value.None? then Done(None)
      else
        var open :- IsNonTerminalBuildState(value.value);
        var mtime := if disk.mtime(path).Some? then disk.mtime(path).value else 0.0;
        if !open || mtime <= 0.0 || disk.now(path) - mtime > freshness as real then Done(None)
        else Done(Some(Candidate(value.value, path, mtime)))
  }

  lemma TracksDead(disk: Disk, dir: Text, names: seq<Text>, name: Text, freshness: int, cs: seq<Candidate>,
                   at: seq<nat>)
    requires Tracks(disk, dir, names, freshness, cs, at) && !Live(disk, dir, name, freshness)
    ensures Tracks(disk, dir, names + [name], freshness, cs, at)
  {
    var more := names + [name];
    assert forall j :: 0 <= j < |names| ==> more[j] == names[j];
  }

  lemma TracksLive(disk: Disk, dir: Text, names: seq<Text>, name: Text, freshness: int, cs: seq<Candidate>,
                   at: seq<nat>)
    requires Tracks(disk, dir, names, freshness, cs, at) && Live(disk, dir, name, freshness)
    ensures Tracks(disk, dir, names + [name], freshness, cs + [CandidateAt(disk, dir, name)], at + [|names|])
  {
    var more, at' := names + [name], at + [|names|];
    assert forall j :: 0 <= j < |names| ==> more[j] == names[j];
    forall j | 0 <= j < |more| && Live(disk, dir, more[j], freshness) ensures j in at' {
      if j == |names| { assert at'[|at|] == j; }
    }
  }

  lemma TracksConsidered(disk: Disk, dir: Text, names: seq<Text>, n: nat, freshness: int, cs: seq<Candidate>,
                         at: seq<nat>)
    requires n < |names| && Tracks(disk, dir, names[..n], freshness, cs, at)
    requires Consider(disk, dir, names[n], freshness).Done?
    ensures var c := Consider(disk, dir, names[n], freshness).value;
      if c.Some? then Tracks(disk, dir, names[..n + 1], freshness, cs + [c.value], at + [n])
      else Tracks(disk, dir, names[..n + 1], freshness, cs, at)
  {
    assert names[..n + 1] == names[..n] + [names[n]];
    if Live(disk, dir, names[n], freshness) {
      TracksLive(disk, dir, names[..n], names[n], freshness, cs, at);
    } else {
      TracksDead(disk, dir, names[..n], names[n], freshness, cs, at);
    }
  }

  method CollectCandidates(disk: Disk, dir: Text, names: seq<Text>, freshness: int)
    returns (r: Attempt<seq<Candidate>>, ghost at: seq<nat>)
    ensures r.Throws? <==> SomeFaulty(disk, dir, names)
    ensures r.Done? ==> Tracks(disk, dir, names, freshness, r.value, at)
  {
    var candidates: seq<Candidate> := [];
    at := [];
    for n := 0 to |names|
      invariant Tracks(disk, dir, names[..n], freshness, candidates, at)
      invariant forall i :: 0 <= i < n ==> !Faulty(disk, dir, names[i])
    {
      var considered := Consider(disk, dir, names[n], freshness);
      if considered.Throws? { return Throws, at; }
      TracksConsidered(disk, dir, names, n, freshness, candidates, at);
      if considered.value.Some? {
        candidates := candidates + [considered.value.value];
        at := at + [n];
      }
    }
    assert names[..|names|] == names;
    r := Done(candidates);
  }

  ghost predicate NewestFound(disk: Disk, dir: Text, names: seq<Text>, freshness: int, found: Located) {
    exists i :: 0 <= i < |names| && Newest(disk, dir, names, freshness, i)
      && found == Located(disk.read(disk.join(dir, names[i])).value, disk.join(dir, names[i]))
  }

  lemma NoneTracked(disk: Disk, dir: Text, names: seq<Text>, freshness: int, cs: seq<Candidate>, at: seq<nat>)
    requires Tracks(disk, dir, names, freshness, cs, at)
    ensures cs == [] <==> !SomeLive(disk, dir, names, freshness)
  {
    if cs != [] { assert Live(disk, dir, names[at[0]], freshness); }
  }

  /** Without an explicit record: the newest live record, the first listed of
      equally new ones, nothing exactly when none is live, and a throw exactly
      when some listed record's status has no text. */
  method DiscoverNewest(disk: Disk, dir: Text, names: seq<Text>, freshness: int)
    returns (r: Attempt<Option<Located>>)
    ensures r.Throws? <==> SomeFaulty(disk, dir, names)
    ensures r == Done(None) <==> !SomeFaulty(disk, dir, names) && !SomeLive(disk, dir, names, freshness)
    ensures r.Done? && r.value.Some? ==> NewestFound(disk, dir, names, freshness, r.value.value)
  {
    var candidates, at := CollectCandidates(disk, dir, names, freshness);
    if candidates.Throws? { return Throws; }
    NoneTracked(disk, dir, names, freshness, candidates.value, at);
    if candidates.value == [] { return Done(None); }
    ghost var i := TracksBest(disk, dir, names, freshness, candidates.value, at);
    var best := NewestFirst(candidates.value)[0];
    r := Done(Some(Located(best.record, best.path)));
  }

  /** The one file that is looked at first: where the setting points, below the directory
      unless it starts with a slash, or active.json when the setting is missing or empty. */
  ghost predicate PointsAt(disk: Disk, directory: Text, settings: Settings, path: Text) {
    match settings.record
    case Some(setting) =>
      path == if setting == [] then disk.join(directory, Lit(".agents/csm-build-state/active.json"))
              else if setting[0] == 0x2F then setting
              else disk.join(directory, setting)
    case None => path == disk.join(directory, Lit(".agents/csm-build-state/active.json"))
  }

  ghost predicate HoldsObject(disk: Disk, path: Text) {
    disk.read(path).Some? && disk.read(path).value.Obj?
  }

  /** The file the settings point at wins, as it is, whenever it holds an object,
      whatever else is on the disk. Only when it does not are the records listed:
      then the newest live one is found, the first listed of equally new ones. */
  method DiscoverBuildState(disk: Disk, directory: Text, settings: Settings)
    returns (r: Attempt<Option<Located>>)
    ensures forall path :: PointsAt(disk, directory, settings, path) && HoldsObject(disk, path) ==>
      r == Done(Some(Located(disk.read(path).value, path)))
    ensures forall path :: PointsAt(disk, directory, settings, path) && !HoldsObject(disk, path) ==>
      var dir := disk.join(directory, Lit(".agents/csm-build-state"));
      var freshness := FreshnessFrom(settings.freshMs);
      if disk.list(dir).None? then r == Done(None)
      else
        var names := disk.list(dir).value;
        && (r.Throws? <==> SomeFaulty(disk, dir, names))
        && (r == Done(None) <==> !SomeFaulty(disk, dir, names) && !SomeLive(disk, dir, names, freshness))
        && (r.Done? && r.value.Some? ==> NewestFound(disk, dir, names, freshness, r.value.value))
  {
    var given := ReadExplicitRecord(disk, directory, settings);
    if given.Some? { return Done(given); }
    var dir := disk.join(directory, STATE_DIRECTORY);
    var listing := disk.list(dir);
    if listing.None? { return Done(None); }
    r := DiscoverNewest(disk, dir, listing.value, FreshnessFrom(settings.freshMs));
  }

  /** The explicit record as the comment promises it: readable and not finished. */
  function PromisedExplicitRecord(disk: Disk, directory: Text, settings: Settings): Option<Located> {
    var found := ReadExplicitRecord(disk, directory, settings);
    if found.Some? && IsNonTerminalBuildState(found.value.record) == Done(true) then found else None
  }

  /** The file the settings point at is what is found, whenever it holds an object and
      whatever its state, so the promise is kept exactly when that object is a build
      state not finished, or there is none. */
  lemma ExplicitRecordAsFound(disk: Disk, directory: Text, settings: Settings, path: Text)
    requires PointsAt(disk, directory, settings, path)
    ensures var found := ReadExplicitRecord(disk, directory, settings);
      && found == (if HoldsObject(disk, path) then Some(Located(disk.read(path).value, path)) else None)
      && (found == PromisedExplicitRecord(disk, directory, settings) <==>
            (HoldsObject(disk, path) ==> IsNonTerminalBuildState(disk.read(path).value) == Done(true)))
  {
  }

  /** Whatever the settings, the record they point at is returned even when it is a
      finished build state. */
  lemma ExplicitRecordMayBeFinished(directory: Text, settings: Settings)
    returns (record: Json, disk: Disk)
    ensures Field(record, Lit("schema")) == Str(Lit("csm-build-state/1"))
    ensures Field(record, Lit("status")) == Str(Lit("complete"))
    ensures IsNonTerminalBuildState(record) == Done(false)
    ensures ReadExplicitRecord(disk, directory, settings).Some?
    ensures ReadExplicitRecord(disk, directory, settings).value.record == record
  {
    record := Obj([Member(SCHEMA, Str(Lit("csm-build-state/1"))), Member(STATUS, Str(Lit("complete")))]);
    assert record.fields[0].key == SCHEMA && record.fields[1].key == STATUS;
    assert SCHEMA[1] != STATUS[1] && SCHEMA[0] != CONTROL[0] && STATUS[0] != CONTROL[0];
    assert BUILD_STATE_SCHEMAS[0] == Lit("csm-build-state/1");
    assert Lower(Lit("complete")) == Lit("complete") == TERMINAL_STATUSES[0];
    disk := Disk(_ => Some(record), _ => None, _ => None, _ => 0.0, (_, path) => path);
  }

  // ----- the paired plan -----

  predicate PairedPlan(disk: Disk, dir: Text, name: Text, runId: Json) {
    var plan := disk.read(disk.join(dir, name));
    EndsWith(name, PLAN_SUFFIX) && plan.Some? && plan.value.Obj? && Field(plan.value, RUN_ID) == runId
  }

  ghost predicate NoPair(disk: Disk, dir: Text, names: seq<Text>, runId: Json) {
    forall j :: 0 <= j < |names| ==> !PairedPlan(disk, dir, names[j], runId)
  }

  ghost predicate FirstPair(disk: Disk, dir: Text, names: seq<Text>, runId: Json, path: Text) {
    exists i :: 0 <= i < |names| && PairedPlan(disk, dir, names[i], runId)
      && path == disk.join(dir, names[i]) && NoPair(disk, dir, names[..i], runId)
  }

  predicate NonEmptyText(v: Json) {
    v.Str? && v.s != []
  }

  /** The plan the record names, else the first listed plan of the same run. */
  method ResolvePlanPath(record: Json, disk: Disk, directory: Text) returns (r: Option<Text>)
    ensures var own, runId := Field(record, Lit("planPath")), Field(record, Lit("runId"));
      if own.Str? && own.s != [] then
        r == Some(if own.s[0] == 0x2F then own.s else disk.join(directory, own.s))
      else if !runId.Str? || runId == Str([]) then r == None
      else
        var dir := disk.join(directory, Lit(".agents/plans"));
        match disk.list(dir)
        case None => r == None
        case Some(names) =>
          if r.None? then NoPair(disk, dir, names, runId) else FirstPair(disk, dir, names, runId, r.value)
  {
    if NonEmptyText(Field(record, PLAN_PATH)) {
      return Some(Absolute(disk, directory, Field(record, PLAN_PATH).s));
    }
    if !NonEmptyText(Field(record, RUN_ID)) { return None; }
    var dir := disk.join(directory, PLAN_DIRECTORY);
    var listing := disk.list(dir);
    if listing.None? { return None; }
    var names := listing.value;
    var n := 0;
    while n < |names|
      invariant 0 <= n <= |names|
      invariant NoPair(disk, dir, names[..n], Field(record, RUN_ID))
    {
      if PairedPlan(disk, dir, names[n], Field(record, RUN_ID)) {
        return Some(disk.join(dir, names[n]));
      }
      assert names[..n + 1] == names[..n] + [names[n]];
      n := n + 1;
    }
    assert names[..n] == names;
    r := None;
  }

  // ----- the record a handler works on -----

  /** { ...fields, [k]: v }: a key already there keeps its place. */
  function WithField(fields: seq<Member>, k: Text, v: Json): seq<Member> {
    if fields == [] then [Member(k, v)]
    else if fields[0].key == k then [Member(k, v)] + fields[1..]
    else [fields[0]] + WithField(fields[1..], k, v)
  }

  lemma HasKeySplit(fields: seq<Member>, x: Text)
    requires fields != []
    ensures HasKey(fields, x) <==> fields[0].key == x || HasKey(fields[1..], x)
  {
    if HasKey(fields, x) && fields[0].key != x {
      var i :| 0 <= i < |fields| && fields[i].key == x;
      assert fields[1..][i - 1].key == x;
    }
    if HasKey(fields[1..], x) {
      var i :| 0 <= i < |fields[1..]| && fields[1..][i].key == x;
      assert fields[i + 1].key == x;
    }
  }

  lemma {:induction false} WithFieldReads(fields: seq<Member>, k: Text, v: Json, x: Text)
    ensures HasKey(WithField(fields, k, v), x) <==> x == k || HasKey(fields, x)
    ensures HasKey(WithField(fields, k, v), x) ==>
      Get(WithField(fields, k, v), x) == if x == k then v else Get(fields, x)
  {
    var after := WithField(fields, k, v);
    HasKeySplit(after, x);
    if fields != [] {
      HasKeySplit(fields, x);
      if fields[0].key == k {
        assert after[1..] == fields[1..];
      } else {
        WithFieldReads(fields[1..], k, v, x);
        assert after[1..] == WithField(fields[1..], k, v);
      }
    }
  }

  lemma DistinctKeysSplit(fields: seq<Member>)
    requires fields != []
    ensures Distinct(Keys(fields)) <==> Distinct(Keys(fields[1..])) && !HasKey(fields[1..], fields[0].key)
  {
    var ks := Keys(fields);
    assert forall i :: 0 <= i < |fields| - 1 ==> Keys(fields[1..])[i] == ks[i + 1];
    if Distinct(Keys(fields[1..])) && !HasKey(fields[1..], fields[0].key) {
      forall i, j | 0 <= i < j < |ks| ensures ks[i] != ks[j] {
        assert fields[1..][j - 1].key == ks[j];
        if i > 0 { assert Keys(fields[1..])[i - 1] != Keys(fields[1..])[j - 1]; }
      }
    }
    if Distinct(ks) {
      forall i, j | 0 <= i < j < |ks| - 1 ensures Keys(fields[1..])[i] != Keys(fields[1..])[j] {
        assert ks[i + 1] != ks[j + 1];
      }
    }
  }

  lemma {:induction false} WithFieldKeepsDistinct(fields: seq<Member>, k: Text, v: Json)
    requires Distinct(Keys(fields))
    ensures Distinct(Keys(WithField(fields, k, v)))
  {
    var after := WithField(fields, k, v);
    if fields != [] {
      DistinctKeysSplit(fields);
      DistinctKeysSplit(after);
      if fields[0].key == k {
        assert after[1..] == fields[1..];
      } else {
        assert after[1..] == WithField(fields[1..], k, v);
        WithFieldKeepsDistinct(fields[1..], k, v);
        WithFieldReads(fields[1..], k, v, fields[0].key);
      }
    }
  }

  lemma {:induction false} WithFieldKeepsWf(fields: seq<Member>, k: Text, v: Json)
    requires Wf(v) && forall i :: 0 <= i < |fields| ==> Wf(fields[i].value)
    ensures forall i :: 0 <= i < |WithField(fields, k, v)| ==> Wf(WithField(fields, k, v)[i].value)
  {
    if fields != [] && fields[0].key != k {
      WithFieldKeepsWf(fields[1..], k, v);
    }
  }

  lemma WithFieldIsWf(fields: seq<Member>, k: Text, v: Json)
    requires Wf(Obj(fields)) && Wf(v)
    ensures Wf(Obj(WithField(fields, k, v)))
  {
    WithFieldKeepsDistinct(fields, k, v);
    WithFieldKeepsWf(fields, k, v);
  }

  lemma MeaningReads(fields: seq<Member>, x: Text)
    ensures x in Meaning(Obj(fields)).fields <==> HasKey(fields, x)
    ensures HasKey(fields, x) ==> Meaning(Obj(fields)).fields[x] == Meaning(Get(fields, x))
  {
  }

  /** Setting a field overlays the object's meaning there and nowhere else. */
  lemma WithFieldMeans(fields: seq<Member>, k: Text, v: Json)
    ensures Meaning(Obj(WithField(fields, k, v))).fields == Meaning(Obj(fields)).fields[k := Meaning(v)]
  {
    var before, after := Meaning(Obj(fields)).fields, Meaning(Obj(WithField(fields, k, v))).fields;
    forall x
      ensures x in after <==> x in before[k := Meaning(v)]
      ensures x in after ==> after[x] == before[k := Meaning(v)][x]
    {
      WithFieldReads(fields, k, v, x);
      MeaningReads(fields, x);
      MeaningReads(WithField(fields, k, v), x);
    }
  }

  function LocatedRecord(record: Json, path: Text, planPath: Option<Text>): Json
    requires record.Obj?
  {
    var fields := WithField(record.fields, RECORD_PATH, Str(path));
    Obj(if planPath.Some? && planPath.value != [] then WithField(fields, PLAN_PATH, Str(planPath.value)) else fields)
  }

  /** What the located record means: the file's content under the two paths. */
  ghost function Overlaid(record: Json, path: Text, planPath: Option<Text>): map<Text, Value>
    requires record.Obj?
  {
    var fields := Meaning(record).fields[Lit("recordPath") := VStr(path)];
    if planPath.Some? && planPath.value != [] then fields[Lit("planPath") := VStr(planPath.value)] else fields
  }

  lemma LocatedRecordMeans(record: Json, path: Text, planPath: Option<Text>)
    requires record.Obj? && Wf(record)
    ensures Wf(LocatedRecord(record, path, planPath))
    ensures Meaning(LocatedRecord(record, path, planPath)) == VObj(Overlaid(record, path, planPath))
  {
    var fields := WithField(record.fields, RECORD_PATH, Str(path));
    WithFieldIsWf(record.fields, RECORD_PATH, Str(path));
    WithFieldMeans(record.fields, RECORD_PATH, Str(path));
    if planPath.Some? && planPath.value != [] {
      WithFieldIsWf(fields, PLAN_PATH, Str(planPath.value));
      WithFieldMeans(fields, PLAN_PATH, Str(planPath.value));
    }
  }

  /** Two located records share a digest exactly when file content, record path
      and plan path agree: the same content found elsewhere counts as progress. */
  lemma LocatedDigestExactly(a: Json, path: Text, plan: Option<Text>, b: Json, path': Text, plan': Option<Text>,
                             host: Host)
    requires host.CollisionFree() && a.Obj? && Wf(a) && b.Obj? && Wf(b)
    ensures RecordDigest(LocatedRecord(a, path, plan), host) == RecordDigest(LocatedRecord(b, path', plan'), host)
      <==> Overlaid(a, path, plan) == Overlaid(b, path', plan')
    ensures path != path' ==>
      RecordDigest(LocatedRecord(a, path, plan), host) != RecordDigest(LocatedRecord(b, path', plan'), host)
  {
    LocatedRecordMeans(a, path, plan);
    LocatedRecordMeans(b, path', plan');
    DigestDeterminesRecord(LocatedRecord(a, path, plan), LocatedRecord(b, path', plan'), host);
    PathsAreOverlaid(a, path, plan);
    PathsAreOverlaid(b, path', plan');
  }

  lemma PathsAreOverlaid(record: Json, path: Text, planPath: Option<Text>)
    requires record.Obj?
    ensures RECORD_PATH in Overlaid(record, path, planPath)
    ensures Overlaid(record, path, planPath)[RECORD_PATH] == VStr(path)
  {
    assert RECORD_PATH[0] != PLAN_PATH[0];
  }
}
