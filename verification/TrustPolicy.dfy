// The TRUST checks of the protocol engine: its own copy of the envelope
// validator, how that copy differs from the bin's, and the index it accepts.
module TrustPolicy {
  import opened Texts
  import opened Utf8
  import opened CanonicalJson
  import opened Coercion
  import opened Octal
  import opened PayloadIndex
  import opened Envelope

  // ----- the envelope -----

  predicate HasPolicyRequired(e: Json) {
    forall i :: 0 <= i < |REQUIRED| && REQUIRED[i] != INDEX_SHA256 ==> Has(e, REQUIRED[i])
  }

  predicate HttpsOrigin(v: Json, host: Host) {
    v.Str? && host.url(v.s).Some? && host.url(v.s).value.protocol == Lit("https:")
  }

  /** The envelope's text is within its own limit. */
  predicate Fits(e: Json) {
    var limit := Field(Limits(e), Lit("max_bytes"));
    limit.Num? && |ToBytes(StringifyText(e))| <= limit.n
  }

  predicate HexIndexDigest(e: Json) {
    Field(e, INDEX_SHA256).Str? && IsHex64(TextOf(Field(e, INDEX_SHA256)))
  }

  /** The engine's checks on the envelope alone, in the order they run. */
  function PolicyShapeRules(e: Json, host: Host): seq<Rule> {
    [Rule(e.Obj?, SCHEMA),
     Rule(IsText(Field(e, SCHEMA_FIELD), Lit("csm-bootstrap/2")), SCHEMA),
     Rule(HasPolicyRequired(e), SCHEMA),
     Rule(OnlyAllowed(e), UNEXPECTED_FIELD),
     Rule(HexIndexDigest(e), SCHEMA),
     Rule(Limits(e).Obj? || Limits(e).Arr?, SCHEMA),
     Rule(IntegerWithin(Field(Limits(e), Lit("max_bytes")), 1, 1024 * 1024), SCHEMA),
     Rule(IntegerWithin(Field(Limits(e), Lit("max_redirects")), 0, 3), SCHEMA),
     Rule(HttpsOrigin(Field(Limits(e), Lit("allowed_origin")), host), SCHEMA)]
  }

  function SizeRules(e: Json): seq<Rule> {
    [Rule(Fits(e), CONTENT_TOO_LARGE)]
  }

  function PolicyRules(e: Json, ring: Keyring, ctx: Context): seq<Rule> {
    PolicyShapeRules(e, ctx.host) + SizeRules(e) + KeyRules(e, ring, ctx) + ContentRules(e, ctx)
    + SignatureRules(e, ring, ctx)
  }

  predicate PolicyAccepts(e: Json, ring: Keyring, ctx: Context) {
    && AllHold(PolicyShapeRules(e, ctx.host))
    && Fits(e)
    && AllHold(KeyRules(e, ring, ctx))
    && AllHold(ContentRules(e, ctx))
    && AllHold(SignatureRules(e, ring, ctx))
  }

  method CheckPolicyShape(e: Json, host: Host) returns (r: Option<Code>)
    ensures r == FirstFailure(PolicyShapeRules(e, host))
  {
    ghost var rules := PolicyShapeRules(e, host);
    Next(rules, 0);
    if !e.Obj? { return Some(SCHEMA); }
    Next(rules, 1);
    if !IsText(Field(e, SCHEMA_FIELD), Lit("csm-bootstrap/2")) { return Some(SCHEMA); }
    Next(rules, 2);
    if !HasPolicyRequired(e) { return Some(SCHEMA); }
    Next(rules, 3);
    if !OnlyAllowed(e) { return Some(UNEXPECTED_FIELD); }
    Next(rules, 4);
    if !HexIndexDigest(e) { return Some(SCHEMA); }
    Next(rules, 5);
    var limits := Limits(e);
    if !(limits.Obj? || limits.Arr?) { return Some(SCHEMA); }
    Next(rules, 6);
    if !IntegerWithin(Field(limits, Lit("max_bytes")), 1, 1024 * 1024) { return Some(SCHEMA); }
    Next(rules, 7);
    if !IntegerWithin(Field(limits, Lit("max_redirects")), 0, 3) { return Some(SCHEMA); }
    Next(rules, 8);
    if !HttpsOrigin(Field(limits, Lit("allowed_origin")), host) { return Some(SCHEMA); }
    return None;
  }

  lemma PolicyRulesInStages(e: Json, ring: Keyring, ctx: Context)
    ensures var a, b := FirstFailure(PolicyShapeRules(e, ctx.host)), FirstFailure(SizeRules(e));
      var c, d := FirstFailure(KeyRules(e, ring, ctx)), FirstFailure(ContentRules(e, ctx));
      FirstFailure(PolicyRules(e, ring, ctx)) ==
        if a.Some? then a else if b.Some? then b else if c.Some? then c else if d.Some? then d
        else FirstFailure(SignatureRules(e, ring, ctx))
  {
    FiveStages(PolicyShapeRules(e, ctx.host), SizeRules(e), KeyRules(e, ring, ctx), ContentRules(e, ctx),
               SignatureRules(e, ring, ctx));
  }

  lemma FiveStages(a: seq<Rule>, b: seq<Rule>, c: seq<Rule>, d: seq<Rule>, f: seq<Rule>)
    ensures FirstFailure(a + b + c + d + f) ==
      if FirstFailure(a).Some? then FirstFailure(a)
      else if FirstFailure(b).Some? then FirstFailure(b)
      else if FirstFailure(c).Some? then FirstFailure(c)
      else if FirstFailure(d).Some? then FirstFailure(d)
      else FirstFailure(f)
  {
    FirstFailureConcat(a + b + c + d, f);
    FirstFailureConcat(a + b + c, d);
    FirstFailureConcat(a + b, c);
    FirstFailureConcat(a, b);
  }

  lemma SizeFailure(e: Json)
    ensures FirstFailure(SizeRules(e)) == if Fits(e) then None else Some(CONTENT_TOO_LARGE)
  {
    NoFailureExactly(SizeRules(e));
  }

  /** The engine's validator accepts exactly when each of its checks holds. */
  lemma PolicyAcceptsExactly(e: Json, ring: Keyring, ctx: Context)
    ensures FirstFailure(PolicyRules(e, ring, ctx)).None? <==> PolicyAccepts(e, ring, ctx)
  {
    PolicyRulesInStages(e, ring, ctx);
    SizeFailure(e);
    NoFailureExactly(PolicyShapeRules(e, ctx.host));
    NoFailureExactly(KeyRules(e, ring, ctx));
    NoFailureExactly(ContentRules(e, ctx));
    NoFailureExactly(SignatureRules(e, ring, ctx));
  }

  method ValidatePolicy(e: Json, ring: Keyring, ctx: Context) returns (r: Option<Code>)
    ensures r == FirstFailure(PolicyRules(e, ring, ctx))
  {
    PolicyRulesInStages(e, ring, ctx);
    r := CheckPolicyShape(e, ctx.host);
    if r.Some? { return; }
    SizeFailure(e);
    if !Fits(e) { return Some(CONTENT_TOO_LARGE); }
    r := CheckKey(e, ring, ctx);
    if r.Some? { return; }
    NoFailureExactly(KeyRules(e, ring, ctx));
    KeyFound(e, ring, ctx);
    r := CheckContent(e, ctx);
    if r.Some? { return; }
    r := CheckSignature(e, TrustedKey(e, ring).value, ring, ctx);
  }

  // ----- the two validators -----

  // What both validators ask of the envelope alone.
  predicate CommonShape(e: Json) {
    && e.Obj? && IsText(Field(e, SCHEMA_FIELD), Lit("csm-bootstrap/2"))
    && HasPolicyRequired(e) && OnlyAllowed(e) && HexIndexDigest(e)
    && (Limits(e).Obj? || Limits(e).Arr?)
    && IntegerWithin(Field(Limits(e), Lit("max_bytes")), 1, 1024 * 1024)
    && IntegerWithin(Field(Limits(e), Lit("max_redirects")), 0, 3)
  }

  lemma NineHold(r: seq<Rule>)
    requires |r| == 9
    ensures AllHold(r) <==> (r[0].holds && r[1].holds && r[2].holds && r[3].holds && r[4].holds
                             && r[5].holds && r[6].holds && r[7].holds && r[8].holds)
  {
  }

  lemma ShapeRulesHold(e: Json, host: Host)
    ensures AllHold(ShapeRules(e, host)) <==>
      CommonShape(e) && BareHttps(Field(Limits(e), Lit("allowed_origin")), host)
  {
    RequiredAgrees(e);
    NineHold(ShapeRules(e, host));
  }

  // Rules one by one, whatever they say.
  lemma NineRules(a: bool, b: bool, c: bool, d: bool, f: bool, g: bool, h: bool, i: bool, j: bool,
                  p: Code, q: Code)
    ensures AllHold([Rule(a, p), Rule(b, p), Rule(c, p), Rule(d, q), Rule(f, p), Rule(g, p), Rule(h, p), Rule(i, p),
                     Rule(j, p)])
      <==> a && b && c && d && f && g && h && i && j
  {
    NineHold([Rule(a, p), Rule(b, p), Rule(c, p), Rule(d, q), Rule(f, p), Rule(g, p), Rule(h, p), Rule(i, p),
              Rule(j, p)]);
  }

  lemma PolicyShapeRulesHold(e: Json, host: Host)
    ensures AllHold(PolicyShapeRules(e, host)) <==>
      CommonShape(e) && HttpsOrigin(Field(Limits(e), Lit("allowed_origin")), host)
  {
    NineRules(
      e.Obj?, IsText(Field(e, SCHEMA_FIELD), Lit("csm-bootstrap/2")), HasPolicyRequired(e), OnlyAllowed(e),
      HexIndexDigest(e), Limits(e).Obj? || Limits(e).Arr?,
      IntegerWithin(Field(Limits(e), Lit("max_bytes")), 1, 1024 * 1024),
      IntegerWithin(Field(Limits(e), Lit("max_redirects")), 0, 3),
      HttpsOrigin(Field(Limits(e), Lit("allowed_origin")), host), SCHEMA, UNEXPECTED_FIELD);
  }

  lemma RequiredAgrees(e: Json)
    ensures HasRequired(e) <==> HasPolicyRequired(e) && Has(e, INDEX_SHA256)
  {
    assert REQUIRED[7] == INDEX_SHA256;
  }

  /** The engine and the bin accept the same envelopes, except that only the
      engine bounds the size and only the bin wants a bare origin. */
  lemma ValidatorsAgreeExactly(e: Json, ring: Keyring, ctx: Context)
    ensures Accepts(e, ring, ctx) && Fits(e) <==>
      PolicyAccepts(e, ring, ctx) && BareHttps(Field(Limits(e), Lit("allowed_origin")), ctx.host)
  {
    ShapeRulesHold(e, ctx.host);
    PolicyShapeRulesHold(e, ctx.host);
  }

  // ----- the index -----

  datatype Index = Index(
    skills: seq<IndexEntry>, supportingFiles: seq<IndexEntry>,
    helperBins: seq<IndexEntry>, metadata: seq<IndexEntry>, fixedBin: IndexEntry)

  /** The engine's shape of an entry: its path is checked later, its mode not
      bounded, and its digest and mode are taken as texts whatever they are. */
  function IsEntryShape(item: Json): Attempt<bool> {
    var path, bytes := Field(item, Lit("path")), Field(item, Lit("bytes"));
    if !path.Str? || path.s == [] then Done(false)
    else
      var sha :- TextFrom(Field(item, Lit("sha256")));
      if !IsHex64(sha) || !bytes.Num? || bytes.n < 0 then Done(false)
      else
        var mode :- TextFrom(Field(item, Lit("mode")));
        Done((|mode| == 3 || |mode| == 4) && IsOctalText(mode))
  }

  /** Every item has the shape, looked at in order up to the first that has not. */
  function AllEntryShapes(items: seq<Json>): Attempt<bool> {
    if items == [] then Done(true)
    else
      var first :- IsEntryShape(items[0]);
      if first then AllEntryShapes(items[1..]) else Done(false)
  }

  function ClassElements(index: Json, c: nat): Json
    requires c < 4
  {
    Field(Field(index, Lit("classes")), CLASS_NAMES[c])
  }

  function ClassIsShaped(index: Json, c: nat): Attempt<bool>
    requires c < 4
  {
    if ClassElements(index, c).Arr? then AllEntryShapes(ClassElements(index, c).items) else Done(false)
  }

  /** The classes from c on have their shape, and the fixed bin has. */
  function ClassesAreShaped(index: Json, c: nat): Attempt<bool>
    requires c <= 4
    decreases 4 - c
  {
    if c == 4 then IsEntryShape(FixedBin(index))
    else
      var first :- ClassIsShaped(index, c);
      if first then ClassesAreShaped(index, c + 1) else Done(false)
  }

  function IndexIsShaped(index: Json): Attempt<bool> {
    if !index.Obj? || Field(index, Lit("schema")) != Str(Lit("csm-payload-index/1")) then Done(false)
    else ClassesAreShaped(index, 0)
  }

  method CheckEntries(items: seq<Json>) returns (ok: Attempt<bool>)
    ensures ok == AllEntryShapes(items)
  {
    for i := 0 to |items|
      invariant AllEntryShapes(items) == AllEntryShapes(items[i..])
    {
      assert items[i..][0] == items[i] && items[i..][1..] == items[i + 1..];
      var shaped := IsEntryShape(items[i]);
      if shaped != Done(true) { return shaped; }
    }
    ok := Done(true);
  }

  method CheckIndex(index: Json) returns (ok: Attempt<bool>)
    ensures ok == IndexIsShaped(index)
  {
    if !index.Obj? { return Done(false); }
    if Field(index, Lit("schema")) != Str(Lit("csm-payload-index/1")) { return Done(false); }
    for c := 0 to 4
      invariant ClassesAreShaped(index, 0) == ClassesAreShaped(index, c)
    {
      if !ClassElements(index, c).Arr? { return Done(false); }
      var shaped := CheckEntries(ClassElements(index, c).items);
      if shaped != Done(true) { return shaped; }
    }
    ok := IsEntryShape(FixedBin(index));
  }

  /** An entry as it is used later. A digest that is not a text, though one could
      be had from it, equals no digest of a file: it is kept as the empty text. */
  function ShapedEntry(item: Json): IndexEntry {
    IndexEntry(TextOf(Field(item, Lit("path"))), TextOf(Field(item, Lit("sha256"))), 0, [])
  }

  function ShapedEntries(items: seq<Json>): seq<IndexEntry> {
    seq(|items|, i requires 0 <= i < |items| => ShapedEntry(items[i]))
  }

  function ClassEntries(index: Json, c: nat): seq<IndexEntry>
    requires c < 4
  {
    ShapedEntries(Elements(ClassElements(index, c)))
  }

  /** The entries of an index. */
  function IndexOf(index: Json): Index {
    Index(ClassEntries(index, 0), ClassEntries(index, 1), ClassEntries(index, 2), ClassEntries(index, 3),
          ShapedEntry(FixedBin(index)))
  }

  lemma AlikeScalars(v: Json, w: Json)
    requires Alike(v, w)
    ensures v.Str? || v.Num? || w.Str? || w.Num? ==> v == w
  {
  }

  lemma AlikeScalarFields(v: Json, w: Json, name: Text)
    requires Alike(v, w)
    ensures var a, b := Field(v, name), Field(w, name); a.Str? || a.Num? || b.Str? || b.Num? ==> a == b
  {
    AlikeFields(v, w, name);
    AlikeScalars(Field(v, name), Field(w, name));
  }

  lemma AlikeEntry(v: Json, w: Json)
    requires Alike(v, w)
    ensures ShapedEntry(v) == ShapedEntry(w)
  {
    AlikeScalarFields(v, w, Lit("path"));
    AlikeScalarFields(v, w, Lit("sha256"));
  }

  lemma AlikeClass(v: Json, w: Json, c: nat)
    requires Alike(v, w) && c < 4
    ensures ClassEntries(v, c) == ClassEntries(w, c)
  {
    AlikeFields(v, w, Lit("classes"));
    AlikeFields(Field(v, Lit("classes")), Field(w, Lit("classes")), CLASS_NAMES[c]);
    AlikeElements(ClassElements(v, c), ClassElements(w, c));
    var a, b := Elements(ClassElements(v, c)), Elements(ClassElements(w, c));
    forall i | 0 <= i < |a| ensures ShapedEntry(a[i]) == ShapedEntry(b[i]) { AlikeEntry(a[i], b[i]); }
    assert ShapedEntries(a) == ShapedEntries(b);
  }

  /** Indexes that mean the same list the same entries. */
  lemma SameMeaningSameIndex(v: Json, w: Json)
    requires Alike(v, w)
    ensures IndexOf(v) == IndexOf(w)
  {
    AlikeClass(v, w, 0);
    AlikeClass(v, w, 1);
    AlikeClass(v, w, 2);
    AlikeClass(v, w, 3);
    AlikeFields(v, w, Lit("fixedBin"));
    AlikeEntry(FixedBin(v), FixedBin(w));
  }

  // ----- what a run is offered -----

  // indexText is the index file's text when the index was read from the
  // shipped file, and None when it was given as an object. A keyring or an index
  // that cannot be read and parsed is None.
  datatype Offer = Offer(
    envelope: Json, ring: Option<Keyring>, host: Host, now: int, requireSignature: bool,
    index: Option<Json>, indexText: Option<Text>)
  {
    function Ctx(): Context
      requires index.Some?
    {
      Context(host, now, Some(IndexDigest()), requireSignature)
    }

    function IndexDigest(): Text
      requires index.Some?
    {
      host.sha256(ToBytes(if indexText.Some? then indexText.value else CanonicalText(index.value)))
    }

    function Listed(): Index {
      IndexOf(if index.Some? then index.value else Null)
    }

    predicate Trusted() {
      && ring.Some? && index.Some?
      && PolicyAccepts(envelope, ring.value, Ctx()) && IndexIsShaped(index.value) == Done(true)
    }
  }

  // What is wrong with an offer, in the order the checks run. NoVerdict: the
  // check itself throws, because a file cannot be read or a text not be had.
  datatype OfferFault = UntrustedEnvelope | ExecutableSteps | MalformedIndex | NoVerdict

  function ShapeFault(shaped: Attempt<bool>): Option<OfferFault> {
    match shaped
    case Throws => Some(NoVerdict)
    case Done(ok) => if ok then None else Some(MalformedIndex)
  }

  function PolicyFault(failure: Option<Code>): Option<OfferFault> {
    match failure
    case None => None
    case Some(code) => Some(if code == SHELL_POLICY then ExecutableSteps else UntrustedEnvelope)
  }

  function Fault(o: Offer): Option<OfferFault> {
    if o.index.None? then Some(NoVerdict)
    else if !o.envelope.Obj? then Some(UntrustedEnvelope)
    else if o.ring.None? then Some(NoVerdict)
    else
      var fault := PolicyFault(FirstFailure(PolicyRules(o.envelope, o.ring.value, o.Ctx())));
      if fault.Some? then fault else ShapeFault(IndexIsShaped(o.index.value))
  }

  method CheckOffer(o: Offer) returns (fault: Option<OfferFault>)
    ensures fault == Fault(o)
  {
    if o.index.None? { return Some(NoVerdict); }
    if !o.envelope.Obj? { return Some(UntrustedEnvelope); }
    if o.ring.None? { return Some(NoVerdict); }
    var failure := ValidatePolicy(o.envelope, o.ring.value, o.Ctx());
    if failure == Some(SHELL_POLICY) { return Some(ExecutableSteps); }
    if failure.Some? { return Some(UntrustedEnvelope); }
    var shaped := CheckIndex(o.index.value);
    fault := ShapeFault(shaped);
  }

  /** An offer without fault is one whose envelope and index are accepted. */
  lemma FaultlessExactly(o: Offer)
    ensures Fault(o).None? <==> o.Trusted()
  {
    if o.index.Some? && o.ring.Some? {
      PolicyAcceptsExactly(o.envelope, o.ring.value, o.Ctx());
      AcceptedIsObject(o.envelope, o.ring.value, o.Ctx());
    }
  }

  lemma AcceptedIsObject(e: Json, ring: Keyring, ctx: Context)
    ensures PolicyAccepts(e, ring, ctx) ==> e.Obj?
  {
    PolicyShapeRulesHold(e, ctx.host);
  }

  lemma AcceptedIndexDigest(o: Offer)
    requires o.Trusted()
    ensures Field(o.envelope, INDEX_SHA256) == Str(o.IndexDigest())
  {
    assert ContentRules(o.envelope, o.Ctx())[4].holds;
  }

  /** Under one envelope only one index is trusted: two indexes given as objects
      list the same entries, and two index files hold the same bytes. */
  lemma OneEnvelopeOneIndex(o: Offer, p: Offer)
    requires o.Trusted() && p.Trusted() && o.host == p.host && o.host.CollisionFree()
    requires Field(o.envelope, INDEX_SHA256) == Field(p.envelope, INDEX_SHA256)
    ensures o.indexText.None? && p.indexText.None? && Wf(o.index.value) && Wf(p.index.value) ==>
      IndexOf(o.index.value) == IndexOf(p.index.value)
    ensures o.indexText.Some? && p.indexText.Some? ==>
      ToBytes(o.indexText.value) == ToBytes(p.indexText.value)
  {
    AcceptedIndexDigest(o);
    AcceptedIndexDigest(p);
    if o.indexText.None? && p.indexText.None? && Wf(o.index.value) && Wf(p.index.value) {
      BytesDetermineMeaning(o.index.value, p.index.value);
      SameMeaningSameIndex(o.index.value, p.index.value);
    }
  }

  // ----- what a shaped index is -----

  /** An entry of the engine's shape. */
  predicate Shaped(item: Json) {
    var path, bytes := Field(item, Lit("path")), Field(item, Lit("bytes"));
    var sha, mode := TextFrom(Field(item, Lit("sha256"))), TextFrom(Field(item, Lit("mode")));
    && path.Str? && path.s != [] && bytes.Num? && bytes.n >= 0
    && sha.Done? && IsHex64(sha.value)
    && mode.Done? && (|mode.value| == 3 || |mode.value| == 4) && IsOctalText(mode.value)
  }

  lemma ShapeExactly(item: Json)
    ensures IsEntryShape(item) == Done(true) <==> Shaped(item)
  {
  }

  predicate AllShaped(items: seq<Json>) {
    forall i :: 0 <= i < |items| ==> Shaped(items[i])
  }

  lemma AllShapedSplits(items: seq<Json>)
    requires items != []
    ensures AllShaped(items) <==> Shaped(items[0]) && AllShaped(items[1..])
  {
    assert forall i :: 0 <= i < |items| - 1 ==> items[1..][i] == items[i + 1];
  }

  lemma {:induction false} EntriesShapedExactly(items: seq<Json>)
    ensures AllEntryShapes(items) == Done(true) <==> AllShaped(items)
  {
    if items != [] {
      ShapeExactly(items[0]);
      EntriesShapedExactly(items[1..]);
      AllShapedSplits(items);
    }
  }

  predicate ClassShaped(index: Json, c: nat)
    requires c < 4
  {
    ClassElements(index, c).Arr? && AllShaped(ClassElements(index, c).items)
  }

  /** An index is accepted exactly when it has the schema, its four classes are
      arrays of entries of the shape, and so is its fixed bin. */
  lemma IndexShapedExactly(index: Json)
    ensures IndexIsShaped(index) == Done(true) <==>
      && index.Obj? && Field(index, Lit("schema")) == Str(Lit("csm-payload-index/1"))
      && ClassesShapedFrom(index, 0) && Shaped(FixedBin(index))
  {
    ClassesShapedExactly(index, 0);
    ShapeExactly(FixedBin(index));
  }

  lemma ClassShapedExactly(index: Json, c: nat)
    requires c < 4
    ensures ClassIsShaped(index, c) == Done(true) <==> ClassShaped(index, c)
  {
    if ClassElements(index, c).Arr? { EntriesShapedExactly(ClassElements(index, c).items); }
  }

  ghost predicate ClassesShapedFrom(index: Json, c: nat) {
    forall k :: c <= k < 4 ==> ClassShaped(index, k)
  }

  lemma ClassesShapedNext(index: Json, c: nat)
    requires c < 4
    ensures ClassesShapedFrom(index, c) <==> ClassShaped(index, c) && ClassesShapedFrom(index, c + 1)
  {
  }

  lemma {:induction false} ClassesShapedExactly(index: Json, c: nat)
    requires c <= 4
    ensures ClassesAreShaped(index, c) == Done(true) <==>
      ClassesShapedFrom(index, c) && IsEntryShape(FixedBin(index)) == Done(true)
    decreases 4 - c
  {
    if c < 4 {
      ClassShapedExactly(index, c);
      ClassesShapedExactly(index, c + 1);
      ClassesShapedNext(index, c);
    }
  }

  // ----- the index, list by list -----

  ghost function NamedClass(index: Json, name: Text): Json {
    Field(Field(index, Lit("classes")), name)
  }

  // The entries hold the paths and digests of the items, position by position.
  ghost predicate Lists(es: seq<IndexEntry>, items: seq<Json>) {
    |es| == |items| && forall i :: 0 <= i < |es| ==> Describes(es[i], items[i])
  }

  ghost predicate Describes(e: IndexEntry, item: Json) {
    && (Field(item, Lit("path")).Str? ==> Field(item, Lit("path")) == Str(e.path))
    && (Field(item, Lit("sha256")).Str? ==> Field(item, Lit("sha256")) == Str(e.sha256))
    && (!Field(item, Lit("sha256")).Str? ==> e.sha256 == [])
  }

  lemma ShapedEntryDescribes(item: Json)
    ensures Describes(ShapedEntry(item), item)
  {
  }

  lemma ClassIsListed(index: Json, c: nat, items: seq<Json>)
    requires c < 4 && ClassElements(index, c) == Arr(items)
    ensures Lists(ClassEntries(index, c), items)
  {
    forall i | 0 <= i < |items| ensures Describes(ShapedEntry(items[i]), items[i]) {
      ShapedEntryDescribes(items[i]);
    }
  }

  lemma ListOfClass(index: Json, c: nat, name: Text)
    requires c < 4 && CLASS_NAMES[c] == name && NamedClass(index, name).Arr?
    ensures Lists(ClassEntries(index, c), NamedClass(index, name).items)
  {
    ClassIsListed(index, c, NamedClass(index, name).items);
  }

  /** Each list of the index holds the items of the class of its name. */
  lemma EachListIsItsClass(index: Json)
    ensures NamedClass(index, Lit("skills")).Arr? ==>
      Lists(IndexOf(index).skills, NamedClass(index, Lit("skills")).items)
    ensures NamedClass(index, Lit("supportingFiles")).Arr? ==>
      Lists(IndexOf(index).supportingFiles, NamedClass(index, Lit("supportingFiles")).items)
    ensures NamedClass(index, Lit("helperBins")).Arr? ==>
      Lists(IndexOf(index).helperBins, NamedClass(index, Lit("helperBins")).items)
    ensures NamedClass(index, Lit("metadata")).Arr? ==>
      Lists(IndexOf(index).metadata, NamedClass(index, Lit("metadata")).items)
    ensures Describes(IndexOf(index).fixedBin, Field(index, Lit("fixedBin")))
  {
    if NamedClass(index, Lit("skills")).Arr? { ListOfClass(index, 0, Lit("skills")); }
    if NamedClass(index, Lit("supportingFiles")).Arr? { ListOfClass(index, 1, Lit("supportingFiles")); }
    if NamedClass(index, Lit("helperBins")).Arr? { ListOfClass(index, 2, Lit("helperBins")); }
    if NamedClass(index, Lit("metadata")).Arr? { ListOfClass(index, 3, Lit("metadata")); }
    ShapedEntryDescribes(Field(index, Lit("fixedBin")));
  }

  ghost predicate EntryThrows(item: Json) {
    && Field(item, Lit("path")).Str? && Field(item, Lit("path")).s != []
    && (!Printable(Field(item, Lit("sha256")))
        || (TextFrom(Field(item, Lit("sha256"))).Done? && IsHex64(TextFrom(Field(item, Lit("sha256"))).value)
            && Field(item, Lit("bytes")).Num? && Field(item, Lit("bytes")).n >= 0
            && !Printable(Field(item, Lit("mode")))))
  }

  /** The shape check of an entry throws exactly when its digest, or with that and
      its length in order its mode, has no text. */
  lemma EntryThrowsExactly(item: Json)
    ensures IsEntryShape(item) == Throws <==> EntryThrows(item)
  {
    TextExactly(Field(item, Lit("sha256")));
    TextExactly(Field(item, Lit("mode")));
  }
}
