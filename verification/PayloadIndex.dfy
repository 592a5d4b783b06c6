// The payload index: its validation, and the check of every indexed file
// against the package directory.
module PayloadIndex {
  import opened Sequences
  import opened Texts
  import opened Utf8
  import opened CanonicalJson
  import opened SafePath
  import opened Octal

  predicate IsHex64(t: Text) {
    |t| == 64 && forall i :: 0 <= i < |t| ==> IsDigit(t[i]) || 0x61 <= t[i] <= 0x66
  }

  // ----- index entries -----

  datatype IndexEntry = IndexEntry(path: Text, sha256: Text, bytes: int, mode: Text) {
    predicate Valid() {
      && IsSafePath(path)
      && IsHex64(sha256)
      && bytes >= 0
      && (|mode| == 3 || |mode| == 4) && IsOctalText(mode) && ParseOctal(mode) <= 0x1FF
    }
  }

  datatype ErrorKind = InvalidEntry | DuplicateEntry | MissingFile | ModeMismatch | SizeMismatch | HashMismatch

  datatype Failure = Failure(path: Json, error: ErrorKind)

  /** The entry a value describes, when its four fields have the right types. */
  function AsEntry(item: Json): Option<IndexEntry> {
    match (Field(item, Lit("path")), Field(item, Lit("sha256")), Field(item, Lit("bytes")), Field(item, Lit("mode")))
    case (Str(path), Str(sha), Num(bytes), Str(mode)) => Some(IndexEntry(path, sha, bytes, mode))
    case _ => None
  }

  predicate IsIndexEntry(item: Json) {
    AsEntry(item).Some? && AsEntry(item).value.Valid()
  }

  /** The entry of a well-formed item; for other items it is not used. */
  function EntryOf(item: Json): (e: IndexEntry)
    ensures IsIndexEntry(item) ==> e.Valid()
  {
    match AsEntry(item)
    case Some(e) => e
    case None => IndexEntry([], [], 0, [])
  }

  predicate Falsy(v: Json) {
    v == Null || v == Bool(false) || v == Num(0) || v == Str([])
  }

  /** entry?.path || null */
  function PathOrNull(item: Json): Json {
    var path := Field(item, Lit("path"));
    if Falsy(path) then Null else path
  }

  const CLASS_NAMES: seq<Text> :=
    [Lit("skills"), Lit("supportingFiles"), Lit("helperBins"), Lit("metadata")]

  predicate HasShape(index: Json) {
    && index.Obj?
    && Field(index, Lit("schema")) == Str(Lit("csm-payload-index/1"))
    && Field(index, Lit("classes")).Obj?
  }

  function ClassItems(index: Json, c: nat): Option<seq<Json>>
    requires HasShape(index) && c < 4
  {
    match Field(Field(index, Lit("classes")), CLASS_NAMES[c])
    case Arr(items) => Some(items)
    case _ => None
  }

  predicate HasClassesUpTo(index: Json, n: nat)
    requires HasShape(index) && n <= 4
  {
    forall c :: 0 <= c < n ==> ClassItems(index, c).Some?
  }

  predicate HasClasses(index: Json) {
    HasShape(index) && HasClassesUpTo(index, 4)
  }

  function FixedBin(index: Json): Json {
    Field(index, Lit("fixedBin"))
  }

  /** The listed items of the first n classes, in order. */
  function Listed(index: Json, n: nat): seq<Json>
    requires HasShape(index) && n <= 4 && HasClassesUpTo(index, n)
  {
    if n == 0 then [] else Listed(index, n - 1) + ClassItems(index, n - 1).value
  }

  /** Every item the index declares: the four classes, then the fixed bin. */
  function Items(index: Json): seq<Json>
    requires HasClasses(index)
  {
    Listed(index, 4) + [FixedBin(index)]
  }

  // ----- what validation computes -----

  function Kept(item: Json): (es: seq<IndexEntry>)
    ensures forall i :: 0 <= i < |es| ==> es[i].Valid()
  {
    if IsIndexEntry(item) then [EntryOf(item)] else []
  }

  function Refused(item: Json): seq<Failure> {
    if IsIndexEntry(item) then [] else [Failure(PathOrNull(item), InvalidEntry)]
  }

  function WellFormedEntries(items: seq<Json>): seq<IndexEntry> {
    FlatMap(items, Kept)
  }

  function Malformed(items: seq<Json>): seq<Failure> {
    FlatMap(items, Refused)
  }

  function FixedBinFailures(index: Json): seq<Failure> {
    if IsIndexEntry(FixedBin(index)) then [] else [Failure(Null, InvalidEntry)]
  }

  function Paths(es: seq<IndexEntry>): set<Text> {
    set i | 0 <= i < |es| :: es[i].path
  }

  function Duplicates(es: seq<IndexEntry>): seq<Failure> {
    if es == [] then []
    else
      var e := es[|es| - 1];
      Duplicates(es[..|es| - 1])
      + if e.path in Paths(es[..|es| - 1]) then [Failure(Str(e.path), DuplicateEntry)] else []
  }

  datatype Validated = BadIndex | Validated(entries: seq<IndexEntry>, failures: seq<Failure>)

  function Validation(index: Json): Validated {
    if !HasClasses(index) then BadIndex
    else
      var entries := WellFormedEntries(Items(index));
      Validated(entries, Malformed(Listed(index, 4)) + FixedBinFailures(index) + Duplicates(entries))
  }

  // ----- the imperative validator -----

  method CollectClass(items: seq<Json>, entries0: seq<IndexEntry>, failures0: seq<Failure>)
    returns (entries: seq<IndexEntry>, failures: seq<Failure>)
    ensures entries == entries0 + WellFormedEntries(items)
    ensures failures == failures0 + Malformed(items)
  {
    entries, failures := entries0, failures0;
    for i := 0 to |items|
      invariant entries == entries0 + WellFormedEntries(items[..i])
      invariant failures == failures0 + Malformed(items[..i])
    {
      FlatMapStep(items, i, Kept);
      FlatMapStep(items, i, Refused);
      Assoc(entries0, WellFormedEntries(items[..i]), Kept(items[i]));
      Assoc(failures0, Malformed(items[..i]), Refused(items[i]));
      if !IsIndexEntry(items[i]) {
        failures := failures + [Failure(PathOrNull(items[i]), InvalidEntry)];
      } else {
        entries := entries + [EntryOf(items[i])];
      }
    }
    assert items[..|items|] == items;
  }

  method FlagDuplicates(entries: seq<IndexEntry>, failures0: seq<Failure>) returns (failures: seq<Failure>)
    ensures failures == failures0 + Duplicates(entries)
  {
    failures := failures0;
    var paths: set<Text> := {};
    for i := 0 to |entries|
      invariant paths == Paths(entries[..i])
      invariant failures == failures0 + Duplicates(entries[..i])
    {
      var e := entries[i];
      assert entries[..i + 1][..i] == entries[..i];
      PathsStep(entries[..i + 1]);
      if e.path in paths {
        failures := failures + [Failure(Str(e.path), DuplicateEntry)];
      } else {
        paths := paths + {e.path};
      }
    }
    assert entries[..|entries|] == entries;
  }

  lemma PathsStep(es: seq<IndexEntry>)
    requires es != []
    ensures Paths(es) == Paths(es[..|es| - 1]) + {es[|es| - 1].path}
  {
    forall p ensures p in Paths(es) <==> p in Paths(es[..|es| - 1]) + {es[|es| - 1].path} {
      if p in Paths(es) {
        var i :| 0 <= i < |es| && es[i].path == p;
        if i < |es| - 1 { assert es[..|es| - 1][i].path == p; }
      }
      if p in Paths(es[..|es| - 1]) {
        var i :| 0 <= i < |es| - 1 && es[..|es| - 1][i].path == p;
        assert es[i].path == p;
      }
    }
  }

  lemma EntriesConcat(a: seq<Json>, b: seq<Json>)
    ensures WellFormedEntries(a + b) == WellFormedEntries(a) + WellFormedEntries(b)
  {
    FlatMapConcat(a, b, Kept);
  }

  lemma MalformedConcat(a: seq<Json>, b: seq<Json>)
    ensures Malformed(a + b) == Malformed(a) + Malformed(b)
  {
    FlatMapConcat(a, b, Refused);
  }

  lemma NextClass(index: Json, c: nat)
    requires HasShape(index) && c < 4 && HasClassesUpTo(index, c) && ClassItems(index, c).Some?
    ensures HasClassesUpTo(index, c + 1)
    ensures WellFormedEntries(Listed(index, c + 1))
         == WellFormedEntries(Listed(index, c)) + WellFormedEntries(ClassItems(index, c).value)
    ensures Malformed(Listed(index, c + 1))
         == Malformed(Listed(index, c)) + Malformed(ClassItems(index, c).value)
  {
    var listed, items := Listed(index, c), ClassItems(index, c).value;
    assert Listed(index, c + 1) == listed + items;
    EntriesConcat(listed, items);
    MalformedConcat(listed, items);
  }

  method CollectClasses(index: Json)
    returns (ok: bool, entries: seq<IndexEntry>, failures: seq<Failure>)
    requires HasShape(index)
    ensures ok == HasClasses(index)
    ensures ok ==> entries == WellFormedEntries(Listed(index, 4))
    ensures ok ==> failures == Malformed(Listed(index, 4))
  {
    entries, failures := [], [];
    for c := 0 to 4
      invariant HasClassesUpTo(index, c)
      invariant entries == WellFormedEntries(Listed(index, c))
      invariant failures == Malformed(Listed(index, c))
    {
      var listed := ClassItems(index, c);
      if listed.None? { return false, [], []; }
      NextClass(index, c);
      entries, failures := CollectClass(listed.value, entries, failures);
    }
    ok := true;
  }

  lemma AllItemsKept(index: Json)
    requires HasClasses(index)
    ensures WellFormedEntries(Items(index)) == WellFormedEntries(Listed(index, 4)) + Kept(FixedBin(index))
  {
    var listed := Listed(index, 4);
    FlatMapStep(Items(index), |listed|, Kept);
    assert Items(index)[..|listed|] == listed;
    assert Items(index)[..|listed| + 1] == Items(index);
  }

  method AddFixedBin(bin: Json, entries0: seq<IndexEntry>, failures0: seq<Failure>)
    returns (entries: seq<IndexEntry>, failures: seq<Failure>)
    ensures entries == entries0 + Kept(bin)
    ensures failures == failures0 + if IsIndexEntry(bin) then [] else [Failure(Null, InvalidEntry)]
  {
    entries, failures := entries0, failures0;
    if !IsIndexEntry(bin) {
      failures := failures + [Failure(Null, InvalidEntry)];
    } else {
      entries := entries + [EntryOf(bin)];
    }
  }

  method ValidatePayloadIndex(index: Json) returns (r: Validated)
    ensures r == Validation(index)
  {
    if !HasShape(index) { return BadIndex; }
    var ok, entries, failures := CollectClasses(index);
    if !ok { return BadIndex; }
    AllItemsKept(index);
    entries, failures := AddFixedBin(FixedBin(index), entries, failures);
    failures := FlagDuplicates(entries, failures);
    r := Validated(entries, failures);
  }

  // ----- the package directory -----

  datatype Stat = Stat(isFile: bool, mode: nat)

  // What readFile and lstat find at one location.
  datatype OnDisk = OnDisk(data: Option<Bytes>, info: Option<Stat>)

  // The package root, the directory tree by location, and the digest function.
  datatype Package = Package(root: Text, disk: seq<Text> -> OnDisk, sha256: Bytes -> Text) {
    function At(path: Text): OnDisk {
      disk(JoinedLocation(root, path))
    }
  }

  function PermissionText(mode: nat): Text {
    PadStart(OctalText(mode % 0x200), 4)
  }

  /** The one failure a well-formed entry can produce. */
  function FileFault(e: IndexEntry, pkg: Package): Option<ErrorKind> {
    match pkg.At(e.path)
    case OnDisk(None, _) => Some(MissingFile)
    case OnDisk(_, None) => Some(MissingFile)
    case OnDisk(Some(data), Some(info)) =>
      if !info.isFile || PermissionText(info.mode) != e.mode then Some(ModeMismatch)
      else if |data| != e.bytes then Some(SizeMismatch)
      else if pkg.sha256(data) != e.sha256 then Some(HashMismatch)
      else None
  }

  function FaultList(e: IndexEntry, pkg: Package): seq<Failure> {
    match FileFault(e, pkg)
    case Some(kind) => [Failure(Str(e.path), kind)]
    case None => []
  }

  function FaultsIn(pkg: Package): IndexEntry -> seq<Failure> {
    e => FaultList(e, pkg)
  }

  function FileFaults(es: seq<IndexEntry>, pkg: Package): seq<Failure> {
    FlatMap(es, FaultsIn(pkg))
  }

  datatype PayloadReport = IndexSchemaError | PayloadReport(verified: nat, failures: seq<Failure>)

  /** What the payload-index command reports; no index stands for unreadable or malformed JSON. */
  function PayloadCheck(index: Option<Json>, pkg: Package): PayloadReport {
    if index.None? then IndexSchemaError
    else
      match Validation(index.value)
      case BadIndex => IndexSchemaError
      case Validated(entries, failures) => PayloadReport(|entries|, failures + FileFaults(entries, pkg))
  }

  // The guard the file loop repeats before touching the disk.
  predicate RecheckFails(e: IndexEntry) {
    || !IsSafePath(e.path)
    || e.bytes < 0
    || !((|e.mode| == 3 || |e.mode| == 4) && IsOctalText(e.mode))
  }

  method CheckFiles(entries: seq<IndexEntry>, failures0: seq<Failure>, pkg: Package)
    returns (failures: seq<Failure>)
    requires forall i :: 0 <= i < |entries| ==> entries[i].Valid()
    ensures failures == failures0 + FileFaults(entries, pkg)
  {
    failures := failures0;
    for i := 0 to |entries|
      invariant failures == failures0 + FileFaults(entries[..i], pkg)
    {
      var e := entries[i];
      FlatMapStep(entries, i, FaultsIn(pkg));
      Assoc(failures0, FileFaults(entries[..i], pkg), FaultList(e, pkg));
      if RecheckFails(e) {
        assert false;
      } else {
        var found := pkg.At(e.path);
        if found.data.None? {
          failures := failures + [Failure(Str(e.path), MissingFile)];
        } else if found.info.None? {
          failures := failures + [Failure(Str(e.path), MissingFile)];
        } else {
          var data, info := found.data.value, found.info.value;
          if !info.isFile || PermissionText(info.mode) != e.mode {
            failures := failures + [Failure(Str(e.path), ModeMismatch)];
          } else if |data| != e.bytes {
            failures := failures + [Failure(Str(e.path), SizeMismatch)];
          } else if pkg.sha256(data) != e.sha256 {
            failures := failures + [Failure(Str(e.path), HashMismatch)];
          }
        }
      }
    }
    assert entries[..|entries|] == entries;
  }

  method VerifyPayload(index: Option<Json>, pkg: Package) returns (r: PayloadReport)
    ensures r == PayloadCheck(index, pkg)
  {
    if index.None? { return IndexSchemaError; }
    var validated := ValidatePayloadIndex(index.value);
    if validated.BadIndex? { return IndexSchemaError; }
    EntriesAreValid(Items(index.value));
    var failures := CheckFiles(validated.entries, validated.failures, pkg);
    r := PayloadReport(|validated.entries|, failures);
  }

  // ----- conservation -----

  function Count(fs: seq<Failure>, kind: ErrorKind): nat {
    if fs == [] then 0 else Count(fs[..|fs| - 1], kind) + if fs[|fs| - 1].error == kind then 1 else 0
  }

  lemma {:induction false} CountConcat(a: seq<Failure>, b: seq<Failure>, kind: ErrorKind)
    ensures Count(a + b, kind) == Count(a, kind) + Count(b, kind)
  {
    if b == [] {
      assert a + b == a;
    } else {
      assert (a + b)[..|a + b| - 1] == a + b[..|b| - 1];
      CountConcat(a, b[..|b| - 1], kind);
    }
  }

  lemma {:induction false} CountMalformed(items: seq<Json>)
    ensures |WellFormedEntries(items)| + Count(Malformed(items), InvalidEntry) == |items|
    ensures Count(Malformed(items), DuplicateEntry) == 0
  {
    if items != [] {
      var item := items[|items| - 1];
      CountMalformed(items[..|items| - 1]);
      CountConcat(Malformed(items[..|items| - 1]), Refused(item), InvalidEntry);
      CountConcat(Malformed(items[..|items| - 1]), Refused(item), DuplicateEntry);
      CountSingle(Refused(item));
    }
  }

  lemma CountSingle(fs: seq<Failure>)
    requires |fs| <= 1
    ensures forall kind :: Count(fs, kind) == if fs != [] && fs[0].error == kind then 1 else 0
  {
    if fs != [] { assert fs[..0] == []; }
  }

  lemma {:induction false} CountDuplicates(es: seq<IndexEntry>)
    ensures Count(Duplicates(es), DuplicateEntry) + |Paths(es)| == |es|
    ensures Count(Duplicates(es), InvalidEntry) == 0
  {
    if es != [] {
      var n := |es| - 1;
      var last := if es[n].path in Paths(es[..n]) then [Failure(Str(es[n].path), DuplicateEntry)] else [];
      CountDuplicates(es[..n]);
      PathsStep(es);
      assert es[n].path in Paths(es[..n]) ==> Paths(es) == Paths(es[..n]);
      CountConcat(Duplicates(es[..n]), last, DuplicateEntry);
      CountConcat(Duplicates(es[..n]), last, InvalidEntry);
      CountSingle(last);
    }
  }

  /** Every declared item is either an entry or one INVALID_ENTRY failure, and
      every entry beyond the first of its path is one DUPLICATE_ENTRY failure. */
  lemma ValidationConservesItems(index: Json)
    requires HasClasses(index)
    ensures |Validation(index).entries| + Count(Validation(index).failures, InvalidEntry) == |Items(index)|
    ensures |Paths(Validation(index).entries)| + Count(Validation(index).failures, DuplicateEntry)
         == |Validation(index).entries|
  {
    var listed, bin := Listed(index, 4), FixedBinFailures(index);
    var es := WellFormedEntries(Items(index));
    AllItemsKept(index);
    CountMalformed(listed);
    CountDuplicates(es);
    CountSingle(bin);
    forall kind ensures Count(Validation(index).failures, kind)
                     == Count(Malformed(listed), kind) + Count(bin, kind) + Count(Duplicates(es), kind) {
      CountConcat(Malformed(listed) + bin, Duplicates(es), kind);
      CountConcat(Malformed(listed), bin, kind);
    }
  }

  // ----- what a clean report means -----

  /** The entry's file is in place: a regular file at the joined location with
      these permission bits, this length and this digest. */
  predicate FileMatches(e: IndexEntry, pkg: Package) {
    match pkg.disk(Location(pkg.root) + Split(e.path))
    case OnDisk(Some(data), Some(info)) =>
      && info.isFile
      && |e.mode| == 4 && IsOctalText(e.mode) && ParseOctal(e.mode) == info.mode % 0x200
      && |data| == e.bytes
      && pkg.sha256(data) == e.sha256
    case _ => false
  }

  lemma NoFaultExactlyWhenMatching(e: IndexEntry, pkg: Package)
    requires e.Valid()
    ensures FileFault(e, pkg) == None <==> FileMatches(e, pkg)
  {
    SafeExactlyWhenPlacedBelowRoot(pkg.root, e.path);
    var found := pkg.At(e.path);
    if found.info.Some? {
      ModeTextMatches(found.info.value.mode % 0x200, e.mode);
    }
  }

  lemma NoFaultsExactly(es: seq<IndexEntry>, pkg: Package)
    requires forall i :: 0 <= i < |es| ==> es[i].Valid()
    ensures FileFaults(es, pkg) == [] <==> forall i :: 0 <= i < |es| ==> FileMatches(es[i], pkg)
  {
    FlatMapIsEmptyExactly(es, FaultsIn(pkg));
    forall i | 0 <= i < |es| ensures FaultsIn(pkg)(es[i]) == [] <==> FileMatches(es[i], pkg) {
      NoFaultExactlyWhenMatching(es[i], pkg);
    }
  }

  lemma {:induction false} NoDuplicatesExactly(es: seq<IndexEntry>)
    ensures Duplicates(es) == [] <==> forall i, j :: 0 <= i < j < |es| ==> es[i].path != es[j].path
  {
    if es != [] {
      var n := |es| - 1;
      NoDuplicatesExactly(es[..n]);
      assert forall i :: 0 <= i < n ==> es[..n][i] == es[i];
      if Duplicates(es) == [] {
        forall i, j | 0 <= i < j < |es| ensures es[i].path != es[j].path {
          if j == n { assert es[..n][i].path in Paths(es[..n]); }
          else { assert es[..n][i].path != es[..n][j].path; }
        }
      }
    }
  }

  lemma NoMalformedExactly(items: seq<Json>)
    ensures Malformed(items) == [] <==> forall i :: 0 <= i < |items| ==> IsIndexEntry(items[i])
  {
    FlatMapIsEmptyExactly(items, Refused);
    forall i | 0 <= i < |items| ensures Refused(items[i]) == [] <==> IsIndexEntry(items[i]) {}
  }

  /** The entries of the items, position by position. */
  function Entries(items: seq<Json>): seq<IndexEntry> {
    seq(|items|, i requires 0 <= i < |items| => EntryOf(items[i]))
  }

  lemma EntriesOfCleanItems(items: seq<Json>)
    requires forall i :: 0 <= i < |items| ==> IsIndexEntry(items[i])
    ensures WellFormedEntries(items) == Entries(items)
  {
    forall i | 0 <= i < |items| ensures Kept(items[i]) == [EntryOf(items[i])] {}
    FlatMapOfSingletons(items, Kept);
  }

  lemma EntriesAreValid(items: seq<Json>)
    ensures forall i :: 0 <= i < |WellFormedEntries(items)| ==> WellFormedEntries(items)[i].Valid()
  {
    var es := WellFormedEntries(items);
    forall i | 0 <= i < |es| ensures es[i].Valid() {
      FlatMapKeeps(items, Kept, es[i]);
    }
  }

  // No two entries have the same path and every file is in place.
  ghost predicate EntriesIntact(es: seq<IndexEntry>, pkg: Package) {
    && (forall i, j :: 0 <= i < j < |es| ==> es[i].path != es[j].path)
    && (forall i :: 0 <= i < |es| ==> FileMatches(es[i], pkg))
  }

  predicate ReportsOk(r: PayloadReport) {
    r.PayloadReport? && r.failures == []
  }

  lemma CleanValidationExactly(listed: seq<Json>, bin: Json)
    ensures Malformed(listed) == [] && IsIndexEntry(bin)
      <==> forall i :: 0 <= i < |listed + [bin]| ==> IsIndexEntry((listed + [bin])[i])
  {
    NoMalformedExactly(listed);
    var items := listed + [bin];
    assert items[|listed|] == bin;
    assert forall i :: 0 <= i < |listed| ==> items[i] == listed[i];
  }

  lemma EntriesIntactExactly(es: seq<IndexEntry>, pkg: Package)
    requires forall i :: 0 <= i < |es| ==> es[i].Valid()
    ensures Duplicates(es) == [] && FileFaults(es, pkg) == [] <==> EntriesIntact(es, pkg)
  {
    NoDuplicatesExactly(es);
    NoFaultsExactly(es, pkg);
  }

  lemma ReportParts(index: Json, pkg: Package)
    requires HasClasses(index)
    ensures var es := WellFormedEntries(Items(index));
      var r := PayloadCheck(Some(index), pkg);
      && r.PayloadReport? && r.verified == |es|
      && (r.failures == [] <==>
            && Malformed(Listed(index, 4)) == [] && IsIndexEntry(FixedBin(index))
            && Duplicates(es) == [] && FileFaults(es, pkg) == [])
  {
    var es := WellFormedEntries(Items(index));
    FourPartsEmpty(Malformed(Listed(index, 4)), FixedBinFailures(index), Duplicates(es), FileFaults(es, pkg));
  }

  /** The payload-index command reports ok exactly when the index has its shape,
      every declared item is well formed, no two declare the same path, and every
      declared file is in place below the package root. */
  lemma OkExactlyWhenIntact(index: Option<Json>, pkg: Package)
    ensures ReportsOk(PayloadCheck(index, pkg)) <==>
      && index.Some? && HasClasses(index.value)
      && (forall i :: 0 <= i < |Items(index.value)| ==> IsIndexEntry(Items(index.value)[i]))
      && EntriesIntact(Entries(Items(index.value)), pkg)
    ensures ReportsOk(PayloadCheck(index, pkg)) ==>
      PayloadCheck(index, pkg).verified == |Items(index.value)|
  {
    if index.Some? && HasClasses(index.value) {
      var items := Items(index.value);
      ReportParts(index.value, pkg);
      CleanValidationExactly(Listed(index.value, 4), FixedBin(index.value));
      if forall i :: 0 <= i < |items| ==> IsIndexEntry(items[i]) {
        EntriesOfCleanItems(items);
        EntriesAreValid(items);
        EntriesIntactExactly(Entries(items), pkg);
      }
    }
  }

  /** A three-digit mode passes validation, yet no file ever matches it. */
  lemma ThreeDigitModeNeverMatches(e: IndexEntry, pkg: Package)
    requires e.Valid() && |e.mode| == 3
    ensures FileFault(e, pkg).Some?
  {
    NoFaultExactlyWhenMatching(e, pkg);
  }

  // ----- the definitions, field by field -----

  ghost predicate LowerHex64(t: Text) {
    |t| == 64 && forall i :: 0 <= i < 64 ==> 0x30 <= t[i] <= 0x39 || 0x61 <= t[i] <= 0x66
  }

  /** Three octal digits, or four of which the first is a zero. */
  ghost predicate PermissionDigits(t: Text) {
    && (|t| == 3 || (|t| == 4 && t[0] == 0x30))
    && forall i :: 0 <= i < |t| ==> 0x30 <= t[i] <= 0x37
  }

  /** A relative path without backslashes, empty parts and dot parts. */
  ghost predicate RelativePath(t: Text) {
    && t != [] && t[0] != 0x2F && 0x5C !in t
    && forall i :: 0 <= i < |Split(t)| ==> Split(t)[i] != [] && Split(t)[i] != Lit(".") && Split(t)[i] != Lit("..")
  }

  lemma PermissionDigitsExactly(t: Text)
    ensures PermissionDigits(t) <==>
      (|t| == 3 || |t| == 4) && IsOctalText(t) && ParseOctal(t) <= 0x1FF
  {
    if (|t| == 3 || |t| == 4) && IsOctalText(t) {
      var a, b, c := t[..|t| - 1], t[..|t| - 2], t[..|t| - 3];
      assert a[..|a| - 1] == b && b[..|b| - 1] == c;
      assert ParseOctal(t) == 8 * ParseOctal(a) + DigitOf(t[|t| - 1]);
      assert ParseOctal(a) == 8 * ParseOctal(b) + DigitOf(t[|t| - 2]);
      assert ParseOctal(b) == 8 * ParseOctal(c) + DigitOf(t[|t| - 3]);
      if |t| == 4 {
        assert c[..0] == [] && ParseOctal(c) == 8 * ParseOctal([]) + DigitOf(t[0]);
      } else {
        assert c == [];
      }
    }
  }

  lemma RelativePathExactly(t: Text)
    ensures RelativePath(t) <==> IsSafePath(t)
  {
    assert Lit(".") == DOT_PART && Lit("..") == DOTDOT_PART;
  }

  /** An item is well formed exactly when its four fields are such a path, digest,
      length and mode, and then they are its entry. */
  lemma WellFormedItemExactly(item: Json)
    ensures IsIndexEntry(item) <==>
      var path, sha, bytes, mode := Field(item, Lit("path")), Field(item, Lit("sha256")),
                                    Field(item, Lit("bytes")), Field(item, Lit("mode"));
      && path.Str? && RelativePath(path.s)
      && sha.Str? && LowerHex64(sha.s)
      && bytes.Num? && bytes.n >= 0
      && mode.Str? && PermissionDigits(mode.s)
    ensures IsIndexEntry(item) ==>
      && Field(item, Lit("path")) == Str(EntryOf(item).path) && Field(item, Lit("sha256")) == Str(EntryOf(item).sha256)
      && Field(item, Lit("bytes")) == Num(EntryOf(item).bytes) && Field(item, Lit("mode")) == Str(EntryOf(item).mode)
  {
    if AsEntry(item).Some? {
      RelativePathExactly(AsEntry(item).value.path);
      PermissionDigitsExactly(AsEntry(item).value.mode);
    }
  }

  /** The failure of any other item names its path, or null when that is missing,
      null, false, zero or empty. */
  lemma MalformedItemNamesPath(item: Json)
    requires !IsIndexEntry(item)
    ensures var path := Field(item, Lit("path"));
      Refused(item) == [Failure(
        if path == Null || path == Bool(false) || path == Num(0) || path == Str([]) then Null else path, InvalidEntry)]
  {
  }

  ghost function ClassField(index: Json, name: Text): Json {
    Field(Field(index, Lit("classes")), name)
  }

  /** What an index must be to be looked into: an object with the schema and four
      classes that are arrays. Its items are those of the four, then the fixed bin. */
  lemma IndexShapeExactly(index: Json)
    ensures HasClasses(index) <==>
      && index.Obj? && Field(index, Lit("schema")) == Str(Lit("csm-payload-index/1"))
      && Field(index, Lit("classes")).Obj?
      && ClassField(index, Lit("skills")).Arr? && ClassField(index, Lit("supportingFiles")).Arr?
      && ClassField(index, Lit("helperBins")).Arr? && ClassField(index, Lit("metadata")).Arr?
    ensures HasClasses(index) ==>
      Items(index) == ClassField(index, Lit("skills")).items + ClassField(index, Lit("supportingFiles")).items
        + ClassField(index, Lit("helperBins")).items + ClassField(index, Lit("metadata")).items
        + [Field(index, Lit("fixedBin"))]
  {
    if HasShape(index) {
      assert HasClassesUpTo(index, 4) <==>
        && ClassItems(index, 0).Some? && ClassItems(index, 1).Some?
        && ClassItems(index, 2).Some? && ClassItems(index, 3).Some?;
    }
    if HasClasses(index) { ListedInOrder(index); }
  }

  lemma ListedInOrder(index: Json)
    requires HasClasses(index)
    ensures Listed(index, 4) ==
      ClassItems(index, 0).value + ClassItems(index, 1).value + ClassItems(index, 2).value + ClassItems(index, 3).value
  {
    assert Listed(index, 1) == ClassItems(index, 0).value;
    assert Listed(index, 2) == Listed(index, 1) + ClassItems(index, 1).value;
    assert Listed(index, 3) == Listed(index, 2) + ClassItems(index, 2).value;
  }

  // What stands at the entry's own parts below the package root.
  ghost function FoundFor(e: IndexEntry, pkg: Package): OnDisk {
    pkg.disk(Location(pkg.root) + Split(e.path))
  }

  ghost predicate RightModeFor(e: IndexEntry, info: Stat)
    requires IsOctalText(e.mode)
  {
    info.isFile && |e.mode| == 4 && ParseOctal(e.mode) == info.mode % 512
  }

  /** Which failure a file adds: missing when it cannot be read or looked at; else a
      wrong kind or mode, else a wrong length, else a wrong digest. */
  lemma FaultKindExactly(e: IndexEntry, pkg: Package)
    requires e.Valid()
    ensures FaultList(e, pkg) ==
      match FoundFor(e, pkg)
      case OnDisk(Some(data), Some(info)) =>
        if !RightModeFor(e, info) then [Failure(Str(e.path), ModeMismatch)]
        else if |data| != e.bytes then [Failure(Str(e.path), SizeMismatch)]
        else if pkg.sha256(data) != e.sha256 then [Failure(Str(e.path), HashMismatch)]
        else []
      case _ => [Failure(Str(e.path), MissingFile)]
  {
    SafeExactlyWhenPlacedBelowRoot(pkg.root, e.path);
    var found := pkg.At(e.path);
    if found.info.Some? { ModeTextMatches(found.info.value.mode % 0x200, e.mode); }
  }
}
