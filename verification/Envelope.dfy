// The envelope validator: an ordered list of checks that exits at the first
// one that fails, and the trust report built on it.
module Envelope {
  import opened Sequences
  import opened Texts
  import opened Utf8
  import opened CanonicalJson
  import opened PayloadIndex
  import opened ShellPolicy

  // ----- the parts of the host the validator relies on -----

  datatype Url = Url(protocol: Text, username: Text, password: Text, search: Text, hash: Text)

  datatype Host = Host(
    sha256: Bytes -> Text,                    // hex digest of bytes
    date: Json -> Option<int>,                // Date.parse, None for NaN
    url: Text -> Option<Url>,                 // new URL, None when it throws
    decode64: Text -> Bytes,                  // Buffer.from(text, "base64")
    usableKey: Bytes -> bool,                 // createPublicKey does not throw
    verify: (Bytes, Bytes, Bytes) -> bool     // key, message, signature
  ) {
    ghost predicate CollisionFree() {
      forall a, b :: sha256(a) == sha256(b) ==> a == b
    }
  }

  datatype KeyEntry = KeyEntry(
    id: Text, algorithm: Text, der: Text, fingerprint: Text,
    notBefore: Text, notAfter: Text, revoked: bool)

  datatype Keyring = Keyring(environment: Text, production: bool, keys: seq<KeyEntry>)

  // The clock, the digest of the index in use (None: not supplied), and
  // whether CSM_BOOTSTRAP_REQUIRE_SIGNATURE is "1".
  datatype Context = Context(host: Host, now: int, indexSha: Option<Text>, requireSignature: bool)

  datatype Code =
    | SCHEMA | UNEXPECTED_FIELD | WRONG_AUDIENCE | EXPIRED | UNKNOWN_KEY | REVOKED_KEY | ALGORITHM
    | FINGERPRINT | KEY_EXPIRED | SHELL_POLICY | STEPS_DIGEST | PACKAGE_POLICY
    | PAYLOAD_INDEX_MISMATCH | UNSIGNED | SIGNATURE_REQUIRED | KEY_UNUSABLE | BAD_SIGNATURE
    | CONTENT_TOO_LARGE // only the protocol's own validator

  datatype Verdict = Trusted(key: Text) | Rejected(code: Code)

  // ----- reading an envelope -----

  const SCHEMA_FIELD := Lit("schema")
  const AUDIENCE := Lit("audience")
  const EXPIRES_AT := Lit("expires_at")
  const KEY := Lit("key")
  const POLICY := Lit("policy")
  const STEPS_SHA256 := Lit("steps_sha256")
  const INDEX_SHA256 := Lit("payload_index_sha256")
  const STEPS := Lit("steps_markdown")
  const SIGNATURE := Lit("signature")

  const REQUIRED: seq<Text> := [AUDIENCE, EXPIRES_AT, KEY, POLICY, SCHEMA_FIELD, STEPS, STEPS_SHA256, INDEX_SHA256]
  const ALLOWED: seq<Text> := REQUIRED + [SIGNATURE]

  function TextOf(v: Json): Text {
    if v.Str? then v.s else []
  }

  predicate IsText(v: Json, t: Text) {
    v == Str(t)
  }

  function PolicyToSign(e: Json): Json {
    Obj([Member(SCHEMA_FIELD, Field(e, SCHEMA_FIELD)),
         Member(AUDIENCE, Field(e, AUDIENCE)),
         Member(EXPIRES_AT, Field(e, EXPIRES_AT)),
         Member(KEY, Field(e, KEY)),
         Member(POLICY, Field(e, POLICY)),
         Member(STEPS_SHA256, Field(e, STEPS_SHA256))]
        + if Has(e, INDEX_SHA256) then [Member(INDEX_SHA256, Field(e, INDEX_SHA256))] else [])
  }

  /** The bytes an Ed25519 signature is computed over. */
  function SignedBytes(e: Json): Bytes {
    ToBytes(CanonicalText(PolicyToSign(e)))
  }

  function FindKey(keys: seq<KeyEntry>, id: Json): Option<KeyEntry> {
    if keys == [] then None
    else if id == Str(keys[0].id) then Some(keys[0])
    else FindKey(keys[1..], id)
  }

  function TrustedKey(e: Json, ring: Keyring): Option<KeyEntry> {
    FindKey(ring.keys, Field(Field(e, KEY), Lit("id")))
  }

  // ----- the checks -----

  predicate HasRequired(e: Json) {
    forall i :: 0 <= i < |REQUIRED| ==> Has(e, REQUIRED[i])
  }

  predicate OnlyAllowed(e: Json) {
    e.Obj? && forall i :: 0 <= i < |e.fields| ==> e.fields[i].key in ALLOWED
  }

  function Limits(e: Json): Json {
    Field(Field(e, POLICY), Lit("limits"))
  }

  predicate IntegerWithin(v: Json, low: int, high: int) {
    v.Num? && low <= v.n <= high
  }

  predicate BareHttps(v: Json, host: Host) {
    && v.Str?
    && host.url(v.s).Some?
    && var u := host.url(v.s).value;
    && u.protocol == Lit("https:")
    && u.username == [] && u.password == [] && u.search == [] && u.hash == []
  }

  predicate FixedPackage(pkg: Json) {
    && IsText(Field(pkg, Lit("name")), Lit("@jamiemills/csm-skills-bootstrap"))
    && IsText(Field(pkg, Lit("version")), Lit("0.1.0"))
    && IsText(Field(pkg, Lit("bin")), Lit("csm-skills-bootstrap"))
    && IsText(Field(pkg, Lit("registry")), Lit("https://registry.npmjs.org"))
  }

  predicate Unexpired(e: Json, ctx: Context) {
    var t := ctx.host.date(Field(e, EXPIRES_AT));
    t.Some? && t.value > ctx.now
  }

  // An unparsable bound is NaN, and comparing with NaN never rejects.
  predicate WithinValidity(k: KeyEntry, ctx: Context) {
    var from, until := ctx.host.date(Str(k.notBefore)), ctx.host.date(Str(k.notAfter));
    && !(from.Some? && from.value > ctx.now)
    && !(until.Some? && until.value <= ctx.now)
  }

  predicate FingerprintMatches(e: Json, k: KeyEntry, host: Host) {
    && IsText(Field(Field(e, KEY), Lit("fingerprint")), k.fingerprint)
    && host.sha256(host.decode64(k.der)) == k.fingerprint
  }

  function StepsText(e: Json): Text {
    TextOf(Field(e, STEPS))
  }

  predicate SignatureShape(e: Json) {
    Has(e, SIGNATURE) ==> Field(e, SIGNATURE).Obj?
  }

  predicate SignatureFields(e: Json) {
    Has(e, SIGNATURE) ==>
      && IsText(Field(Field(e, SIGNATURE), Lit("algorithm")), Lit("Ed25519"))
      && TextOf(Field(Field(e, SIGNATURE), Lit("value"))) != []
  }

  function SignatureBytes(e: Json, host: Host): Bytes {
    host.decode64(TextOf(Field(Field(e, SIGNATURE), Lit("value"))))
  }

  predicate SignatureVerifies(e: Json, k: KeyEntry, host: Host) {
    host.verify(host.decode64(k.der), SignedBytes(e), SignatureBytes(e, host))
  }

  datatype Rule = Rule(holds: bool, code: Code)

  /** The checks on the envelope alone, in the order they run. */
  function ShapeRules(e: Json, host: Host): seq<Rule> {
    [Rule(e.Obj?, SCHEMA),
     Rule(IsText(Field(e, SCHEMA_FIELD), Lit("csm-bootstrap/2")), SCHEMA),
     Rule(HasRequired(e), SCHEMA),
     Rule(OnlyAllowed(e), UNEXPECTED_FIELD),
     Rule(Limits(e).Obj? || Limits(e).Arr?, SCHEMA),
     Rule(IntegerWithin(Field(Limits(e), Lit("max_bytes")), 1, 1024 * 1024), SCHEMA),
     Rule(IntegerWithin(Field(Limits(e), Lit("max_redirects")), 0, 3), SCHEMA),
     Rule(BareHttps(Field(Limits(e), Lit("allowed_origin")), host), SCHEMA),
     Rule(Field(e, INDEX_SHA256).Str? && IsHex64(TextOf(Field(e, INDEX_SHA256))), SCHEMA)]
  }

  /** The checks against the clock and the keyring. */
  function KeyRules(e: Json, ring: Keyring, ctx: Context): seq<Rule> {
    var k := TrustedKey(e, ring);
    [Rule(IsText(Field(e, AUDIENCE), Lit("agent-skills")), WRONG_AUDIENCE),
     Rule(Unexpired(e, ctx), EXPIRED),
     Rule(k.Some?, UNKNOWN_KEY),
     Rule(k.Some? && !k.value.revoked, REVOKED_KEY),
     Rule(k.Some? && k.value.algorithm == Lit("Ed25519")
          && IsText(Field(Field(e, KEY), Lit("algorithm")), Lit("Ed25519")), ALGORITHM),
     Rule(k.Some? && FingerprintMatches(e, k.value, ctx.host), FINGERPRINT),
     Rule(k.Some? && WithinValidity(k.value, ctx), KEY_EXPIRED)]
  }

  /** The checks on the steps, the package policy and the index binding. */
  function ContentRules(e: Json, ctx: Context): seq<Rule> {
    [Rule(Field(e, STEPS).Str? && |StepsText(e)| <= 4096, SCHEMA),
     Rule(!ShellLike(StepsText(e)), SHELL_POLICY),
     Rule(IsText(Field(e, STEPS_SHA256), ctx.host.sha256(ToBytes(StepsText(e)))), STEPS_DIGEST),
     Rule(FixedPackage(Field(Field(e, POLICY), Lit("package"))), PACKAGE_POLICY),
     Rule(ctx.indexSha.None? || IsText(Field(e, INDEX_SHA256), ctx.indexSha.value), PAYLOAD_INDEX_MISMATCH)]
  }

  /** The checks on the signature, which may be absent. */
  function SignatureRules(e: Json, ring: Keyring, ctx: Context): seq<Rule> {
    var k := TrustedKey(e, ring);
    [Rule(SignatureShape(e), UNSIGNED),
     Rule(ctx.requireSignature ==> Has(e, SIGNATURE), SIGNATURE_REQUIRED),
     Rule(SignatureFields(e), UNSIGNED),
     Rule(Has(e, SIGNATURE) ==> k.Some? && ctx.host.usableKey(ctx.host.decode64(k.value.der)), KEY_UNUSABLE),
     Rule(Has(e, SIGNATURE) ==> k.Some? && SignatureVerifies(e, k.value, ctx.host), BAD_SIGNATURE)]
  }

  function Rules(e: Json, ring: Keyring, ctx: Context): seq<Rule> {
    ShapeRules(e, ctx.host) + KeyRules(e, ring, ctx) + ContentRules(e, ctx) + SignatureRules(e, ring, ctx)
  }

  function FirstFailure(rules: seq<Rule>): Option<Code> {
    if rules == [] then None
    else if !rules[0].holds then Some(rules[0].code)
    else FirstFailure(rules[1..])
  }

  predicate AllHold(rules: seq<Rule>) {
    forall i :: 0 <= i < |rules| ==> rules[i].holds
  }

  predicate Accepts(e: Json, ring: Keyring, ctx: Context) {
    && AllHold(ShapeRules(e, ctx.host))
    && AllHold(KeyRules(e, ring, ctx))
    && AllHold(ContentRules(e, ctx))
    && AllHold(SignatureRules(e, ring, ctx))
  }

  // ----- the early-exit validator -----

  lemma {:induction false} FirstFailureAt(rules: seq<Rule>, n: nat)
    requires n <= |rules| && forall i :: 0 <= i < n ==> rules[i].holds
    ensures n == |rules| ==> FirstFailure(rules) == None
    ensures n < |rules| && !rules[n].holds ==> FirstFailure(rules) == Some(rules[n].code)
  {
    if n > 0 {
      assert forall i :: 0 <= i < n - 1 ==> rules[1..][i] == rules[i + 1];
      FirstFailureAt(rules[1..], n - 1);
    }
  }

  lemma {:induction false} FirstFailureConcat(a: seq<Rule>, b: seq<Rule>)
    ensures FirstFailure(a + b) == if FirstFailure(a).Some? then FirstFailure(a) else FirstFailure(b)
  {
    if a == [] {
      assert a + b == b;
    } else {
      HeadOfConcat(a, b);
      FirstFailureConcat(a[1..], b);
    }
  }

  ghost predicate Passed(rules: seq<Rule>, n: nat) {
    n <= |rules| && forall i :: 0 <= i < n ==> rules[i].holds
  }

  // One more check: it passes, or it is the first to fail.
  lemma Next(rules: seq<Rule>, n: nat)
    requires Passed(rules, n) && n < |rules|
    ensures rules[n].holds ==> Passed(rules, n + 1)
    ensures rules[n].holds && n + 1 == |rules| ==> FirstFailure(rules) == None
    ensures !rules[n].holds ==> FirstFailure(rules) == Some(rules[n].code)
  {
    FirstFailureAt(rules, n);
    if rules[n].holds { FirstFailureAt(rules, n + 1); }
  }

  method CheckShape(e: Json, host: Host) returns (r: Option<Code>)
    ensures r == FirstFailure(ShapeRules(e, host))
  {
    ghost var rules := ShapeRules(e, host);
    Next(rules, 0);
    if !e.Obj? { return Some(SCHEMA); }
    Next(rules, 1);
    if !IsText(Field(e, SCHEMA_FIELD), Lit("csm-bootstrap/2")) { return Some(SCHEMA); }
    Next(rules, 2);
    if !HasRequired(e) { return Some(SCHEMA); }
    Next(rules, 3);
    if !OnlyAllowed(e) { return Some(UNEXPECTED_FIELD); }
    Next(rules, 4);
    var limits := Limits(e);
    if !(limits.Obj? || limits.Arr?) { return Some(SCHEMA); }
    Next(rules, 5);
    if !IntegerWithin(Field(limits, Lit("max_bytes")), 1, 1024 * 1024) { return Some(SCHEMA); }
    Next(rules, 6);
    if !IntegerWithin(Field(limits, Lit("max_redirects")), 0, 3) { return Some(SCHEMA); }
    Next(rules, 7);
    if !BareHttps(Field(limits, Lit("allowed_origin")), host) { return Some(SCHEMA); }
    Next(rules, 8);
    if !(Field(e, INDEX_SHA256).Str? && IsHex64(TextOf(Field(e, INDEX_SHA256)))) { return Some(SCHEMA); }
    return None;
  }

  method CheckKey(e: Json, ring: Keyring, ctx: Context) returns (r: Option<Code>)
    ensures r == FirstFailure(KeyRules(e, ring, ctx))
  {
    ghost var rules := KeyRules(e, ring, ctx);
    Next(rules, 0);
    if !IsText(Field(e, AUDIENCE), Lit("agent-skills")) { return Some(WRONG_AUDIENCE); }
    Next(rules, 1);
    if !Unexpired(e, ctx) { return Some(EXPIRED); }
    Next(rules, 2);
    var key := TrustedKey(e, ring);
    if key.None? { return Some(UNKNOWN_KEY); }
    Next(rules, 3);
    if key.value.revoked { return Some(REVOKED_KEY); }
    Next(rules, 4);
    if key.value.algorithm != Lit("Ed25519") || !IsText(Field(Field(e, KEY), Lit("algorithm")), Lit("Ed25519")) {
      return Some(ALGORITHM);
    }
    Next(rules, 5);
    if !FingerprintMatches(e, key.value, ctx.host) { return Some(FINGERPRINT); }
    Next(rules, 6);
    if !WithinValidity(key.value, ctx) { return Some(KEY_EXPIRED); }
    return None;
  }

  method CheckContent(e: Json, ctx: Context) returns (r: Option<Code>)
    ensures r == FirstFailure(ContentRules(e, ctx))
  {
    ghost var rules := ContentRules(e, ctx);
    Next(rules, 0);
    if !(Field(e, STEPS).Str? && |StepsText(e)| <= 4096) { return Some(SCHEMA); }
    Next(rules, 1);
    if ShellLike(StepsText(e)) { return Some(SHELL_POLICY); }
    Next(rules, 2);
    if !IsText(Field(e, STEPS_SHA256), ctx.host.sha256(ToBytes(StepsText(e)))) { return Some(STEPS_DIGEST); }
    Next(rules, 3);
    if !FixedPackage(Field(Field(e, POLICY), Lit("package"))) { return Some(PACKAGE_POLICY); }
    Next(rules, 4);
    if ctx.indexSha.Some? && !IsText(Field(e, INDEX_SHA256), ctx.indexSha.value) {
      return Some(PAYLOAD_INDEX_MISMATCH);
    }
    return None;
  }

  method CheckSignature(e: Json, key: KeyEntry, ghost ring: Keyring, ctx: Context) returns (r: Option<Code>)
    requires TrustedKey(e, ring) == Some(key)
    ensures r == FirstFailure(SignatureRules(e, ring, ctx))
  {
    ghost var rules := SignatureRules(e, ring, ctx);
    Next(rules, 0);
    if Has(e, SIGNATURE) && !Field(e, SIGNATURE).Obj? { return Some(UNSIGNED); }
    Next(rules, 1);
    if ctx.requireSignature && !Has(e, SIGNATURE) { return Some(SIGNATURE_REQUIRED); }
    Next(rules, 2);
    if Has(e, SIGNATURE) && !SignatureFields(e) { return Some(UNSIGNED); }
    Next(rules, 3);
    if Has(e, SIGNATURE) && !ctx.host.usableKey(ctx.host.decode64(key.der)) { return Some(KEY_UNUSABLE); }
    Next(rules, 4);
    if Has(e, SIGNATURE) && !SignatureVerifies(e, key, ctx.host) { return Some(BAD_SIGNATURE); }
    return None;
  }

  function Judge(e: Json, ring: Keyring, ctx: Context): Verdict {
    match FirstFailure(Rules(e, ring, ctx))
    case Some(code) => Rejected(code)
    case None =>
      match TrustedKey(e, ring)
      case Some(key) => Trusted(key.id)
      case None => Rejected(UNKNOWN_KEY)
  }

  lemma RulesInStages(e: Json, ring: Keyring, ctx: Context)
    ensures var a, b := FirstFailure(ShapeRules(e, ctx.host)), FirstFailure(KeyRules(e, ring, ctx));
      var c, d := FirstFailure(ContentRules(e, ctx)), FirstFailure(SignatureRules(e, ring, ctx));
      FirstFailure(Rules(e, ring, ctx)) == if a.Some? then a else if b.Some? then b else if c.Some? then c else d
  {
    var a, b := ShapeRules(e, ctx.host), KeyRules(e, ring, ctx);
    var c, d := ContentRules(e, ctx), SignatureRules(e, ring, ctx);
    FirstFailureConcat(a + b + c, d);
    FirstFailureConcat(a + b, c);
    FirstFailureConcat(a, b);
  }

  lemma {:induction false} NoFailureExactly(rules: seq<Rule>)
    ensures FirstFailure(rules) == None <==> AllHold(rules)
  {
    if rules != [] {
      NoFailureExactly(rules[1..]);
      assert AllHold(rules) <==> rules[0].holds && AllHold(rules[1..]) by {
        assert forall i :: 0 <= i < |rules| - 1 ==> rules[1..][i] == rules[i + 1];
      }
    }
  }

  /** The validator accepts exactly when every check holds. */
  lemma AcceptsExactly(e: Json, ring: Keyring, ctx: Context)
    ensures Judge(e, ring, ctx).Trusted? <==> Accepts(e, ring, ctx)
  {
    RulesInStages(e, ring, ctx);
    NoFailureExactly(ShapeRules(e, ctx.host));
    NoFailureExactly(KeyRules(e, ring, ctx));
    NoFailureExactly(ContentRules(e, ctx));
    NoFailureExactly(SignatureRules(e, ring, ctx));
    if AllHold(KeyRules(e, ring, ctx)) { KeyFound(e, ring, ctx); }
  }

  lemma KeyFound(e: Json, ring: Keyring, ctx: Context)
    requires AllHold(KeyRules(e, ring, ctx))
    ensures TrustedKey(e, ring).Some?
  {
    assert KeyRules(e, ring, ctx)[2].holds;
  }

  method ValidateEnvelope(e: Json, ring: Keyring, ctx: Context) returns (r: Verdict)
    ensures r == Judge(e, ring, ctx)
  {
    RulesInStages(e, ring, ctx);
    var failure := CheckShape(e, ctx.host);
    if failure.Some? { return Rejected(failure.value); }
    failure := CheckKey(e, ring, ctx);
    if failure.Some? { return Rejected(failure.value); }
    NoFailureExactly(KeyRules(e, ring, ctx));
    KeyFound(e, ring, ctx);
    var key := TrustedKey(e, ring).value;
    failure := CheckContent(e, ctx);
    if failure.Some? { return Rejected(failure.value); }
    failure := CheckSignature(e, key, ring, ctx);
    if failure.Some? { return Rejected(failure.value); }
    r := Trusted(key.id);
  }
}
