// What the two envelope validators ask for, requirement by requirement, said of
// the fields themselves: the first one that is not met decides the code.
module Acceptance {
  import opened Texts
  import opened Utf8
  import opened CanonicalJson
  import opened ShellPolicy
  import opened Coercion
  import opened Envelope
  import opened EnvelopeTrust
  import opened TrustPolicy
  import opened PayloadIndex

  // ----- the requirements on the envelope alone -----

  ghost predicate LowerHex(t: Text) {
    |t| == 64 && forall i :: 0 <= i < 64 ==> 0x30 <= t[i] <= 0x39 || 0x61 <= t[i] <= 0x66
  }

  ghost predicate HexDigest(v: Json) {
    v.Str? && LowerHex(v.s)
  }

  ghost predicate AllowedField(name: Text) {
    || name == Lit("audience") || name == Lit("expires_at") || name == Lit("key") || name == Lit("policy")
    || name == Lit("schema") || name == Lit("steps_markdown") || name == Lit("steps_sha256")
    || name == Lit("payload_index_sha256") || name == Lit("signature")
  }

  ghost predicate NoOtherField(e: Json) {
    e.Obj? && forall i :: 0 <= i < |e.fields| ==> AllowedField(e.fields[i].key)
  }

  ghost predicate SevenFields(e: Json) {
    && Has(e, Lit("audience")) && Has(e, Lit("expires_at")) && Has(e, Lit("key")) && Has(e, Lit("policy"))
    && Has(e, Lit("schema")) && Has(e, Lit("steps_markdown")) && Has(e, Lit("steps_sha256"))
  }

  ghost predicate LimitMeets(limit: Json, low: int, high: int) {
    limit.Num? && low <= limit.n && limit.n <= high
  }

  /** The limits of the envelope: an object, or an array, which has no such fields. */
  ghost function LimitsOf(e: Json): Json {
    Field(Field(e, Lit("policy")), Lit("limits"))
  }

  ghost predicate SecureUrl(v: Json, host: Host) {
    v.Str? && host.url(v.s).Some? && host.url(v.s).value.protocol == Lit("https:")
  }

  ghost predicate BareUrl(v: Json, host: Host) {
    && SecureUrl(v, host)
    && var u := host.url(v.s).value; u.username == [] && u.password == [] && u.search == [] && u.hash == []
  }

  ghost predicate ShapeMeets(e: Json, host: Host, n: nat) {
    match n
    case 0 => e.Obj?
    case 1 => Field(e, Lit("schema")) == Str(Lit("csm-bootstrap/2"))
    case 2 => SevenFields(e) && Has(e, Lit("payload_index_sha256"))
    case 3 => NoOtherField(e)
    case 4 => LimitsOf(e).Obj? || LimitsOf(e).Arr?
    case 5 => LimitMeets(Field(LimitsOf(e), Lit("max_bytes")), 1, 1048576)
    case 6 => LimitMeets(Field(LimitsOf(e), Lit("max_redirects")), 0, 3)
    case 7 => BareUrl(Field(LimitsOf(e), Lit("allowed_origin")), host)
    case _ => HexDigest(Field(e, Lit("payload_index_sha256")))
  }

  ghost predicate EngineShapeMeets(e: Json, host: Host, n: nat) {
    match n
    case 0 => e.Obj?
    case 1 => Field(e, Lit("schema")) == Str(Lit("csm-bootstrap/2"))
    case 2 => SevenFields(e)
    case 3 => NoOtherField(e)
    case 4 => HexDigest(Field(e, Lit("payload_index_sha256")))
    case 5 => LimitsOf(e).Obj? || LimitsOf(e).Arr?
    case 6 => LimitMeets(Field(LimitsOf(e), Lit("max_bytes")), 1, 1048576)
    case 7 => LimitMeets(Field(LimitsOf(e), Lit("max_redirects")), 0, 3)
    case 8 => SecureUrl(Field(LimitsOf(e), Lit("allowed_origin")), host)
    case _ =>
      Field(LimitsOf(e), Lit("max_bytes")).Num?
      && |ToBytes(StringifyText(e))| <= Field(LimitsOf(e), Lit("max_bytes")).n
  }

  // ----- the requirements on the clock and the key -----

  /** The j-th entry of the keyring is the first with the id the envelope names. */
  ghost predicate NamesKey(e: Json, keys: seq<KeyEntry>, j: nat) {
    && j < |keys| && Field(Field(e, Lit("key")), Lit("id")) == Str(keys[j].id)
    && forall i :: 0 <= i < j ==> Field(Field(e, Lit("key")), Lit("id")) != Str(keys[i].id)
  }

  ghost predicate KeyEntryMeets(e: Json, k: KeyEntry, host: Host, now: int, n: nat) {
    match n
    case 3 => !k.revoked
    case 4 =>
      k.algorithm == Lit("Ed25519") && Field(Field(e, Lit("key")), Lit("algorithm")) == Str(Lit("Ed25519"))
    case 5 =>
      Field(Field(e, Lit("key")), Lit("fingerprint")) == Str(k.fingerprint)
      && host.sha256(host.decode64(k.der)) == k.fingerprint
    case _ =>
      (match host.date(Str(k.notBefore)) case Some(from) => from <= now case None => true)
      && (match host.date(Str(k.notAfter)) case Some(until) => now < until case None => true)
  }

  ghost predicate KeyMeets(e: Json, ring: Keyring, host: Host, now: int, n: nat) {
    match n
    case 0 => Field(e, Lit("audience")) == Str(Lit("agent-skills"))
    case 1 => host.date(Field(e, Lit("expires_at"))).Some? && now < host.date(Field(e, Lit("expires_at"))).value
    case 2 => exists j: nat :: NamesKey(e, ring.keys, j)
    case _ => exists j: nat :: NamesKey(e, ring.keys, j) && KeyEntryMeets(e, ring.keys[j], host, now, n)
  }

  // ----- the requirements on the content -----

  ghost predicate FourTexts(pkg: Json) {
    && Field(pkg, Lit("name")) == Str(Lit("@jamiemills/csm-skills-bootstrap"))
    && Field(pkg, Lit("version")) == Str(Lit("0.1.0"))
    && Field(pkg, Lit("bin")) == Str(Lit("csm-skills-bootstrap"))
    && Field(pkg, Lit("registry")) == Str(Lit("https://registry.npmjs.org"))
  }

  ghost predicate ContentMeets(e: Json, host: Host, indexSha: Option<Text>, n: nat) {
    var steps := Field(e, Lit("steps_markdown"));
    match n
    case 0 => steps.Str? && |steps.s| <= 4096
    case 1 => steps.Str? && 0x60 !in steps.s && !HasFence(steps.s) && !HasDeniedWord(steps.s)
    case 2 => steps.Str? && Field(e, Lit("steps_sha256")) == Str(host.sha256(ToBytes(steps.s)))
    case 3 => FourTexts(Field(Field(e, Lit("policy")), Lit("package")))
    case _ => indexSha.Some? ==> Field(e, Lit("payload_index_sha256")) == Str(indexSha.value)
  }

  // ----- the requirements on the signature -----

  /** What is signed: seven fields of the envelope, its steps and signature left out. */
  ghost function SevenSigned(e: Json): Json {
    Obj([Member(Lit("schema"), Field(e, Lit("schema"))),
         Member(Lit("audience"), Field(e, Lit("audience"))),
         Member(Lit("expires_at"), Field(e, Lit("expires_at"))),
         Member(Lit("key"), Field(e, Lit("key"))),
         Member(Lit("policy"), Field(e, Lit("policy"))),
         Member(Lit("steps_sha256"), Field(e, Lit("steps_sha256"))),
         Member(Lit("payload_index_sha256"), Field(e, Lit("payload_index_sha256")))])
  }

  ghost predicate NonEmptyText(v: Json) {
    v.Str? && v.s != []
  }

  ghost predicate SignedWith(e: Json, k: KeyEntry, host: Host, n: nat) {
    var value := Field(Field(e, Lit("signature")), Lit("value"));
    match n
    case 3 => host.usableKey(host.decode64(k.der))
    case _ =>
      value.Str? && host.verify(host.decode64(k.der), ToBytes(CanonicalText(SevenSigned(e))), host.decode64(value.s))
  }

  ghost predicate SignatureMeets(e: Json, ring: Keyring, host: Host, required: bool, n: nat) {
    var signature := Field(e, Lit("signature"));
    match n
    case 0 => Has(e, Lit("signature")) ==> signature.Obj?
    case 1 => required ==> Has(e, Lit("signature"))
    case 2 =>
      Has(e, Lit("signature")) ==>
        Field(signature, Lit("algorithm")) == Str(Lit("Ed25519")) && NonEmptyText(Field(signature, Lit("value")))
    case _ =>
      Has(e, Lit("signature")) ==> exists j: nat :: NamesKey(e, ring.keys, j) && SignedWith(e, ring.keys[j], host, n)
  }

  // ----- the whole lists -----

  /** The n-th of the bin's 26 requirements. */
  ghost predicate Requirement(e: Json, ring: Keyring, ctx: Context, n: nat) {
    if n < 9 then ShapeMeets(e, ctx.host, n)
    else if n < 16 then KeyMeets(e, ring, ctx.host, ctx.now, n - 9)
    else if n < 21 then ContentMeets(e, ctx.host, ctx.indexSha, n - 16)
    else SignatureMeets(e, ring, ctx.host, ctx.requireSignature, n - 21)
  }

  const REQUIREMENT_CODES: seq<Code> := [
    SCHEMA, SCHEMA, SCHEMA, UNEXPECTED_FIELD, SCHEMA, SCHEMA, SCHEMA, SCHEMA, SCHEMA,
    WRONG_AUDIENCE, EXPIRED, UNKNOWN_KEY, REVOKED_KEY, ALGORITHM, FINGERPRINT, KEY_EXPIRED,
    SCHEMA, SHELL_POLICY, STEPS_DIGEST, PACKAGE_POLICY, PAYLOAD_INDEX_MISMATCH,
    UNSIGNED, SIGNATURE_REQUIRED, UNSIGNED, KEY_UNUSABLE, BAD_SIGNATURE]

  /** The n-th of the engine's 27: its own ten on the envelope, then the same. */
  ghost predicate EngineRequirement(e: Json, ring: Keyring, ctx: Context, n: nat) {
    if n < 10 then EngineShapeMeets(e, ctx.host, n) else Requirement(e, ring, ctx, n - 1)
  }

  const ENGINE_CODES: seq<Code> := [
    SCHEMA, SCHEMA, SCHEMA, UNEXPECTED_FIELD, SCHEMA, SCHEMA, SCHEMA, SCHEMA, SCHEMA, CONTENT_TOO_LARGE,
    WRONG_AUDIENCE, EXPIRED, UNKNOWN_KEY, REVOKED_KEY, ALGORITHM, FINGERPRINT, KEY_EXPIRED,
    SCHEMA, SHELL_POLICY, STEPS_DIGEST, PACKAGE_POLICY, PAYLOAD_INDEX_MISMATCH,
    UNSIGNED, SIGNATURE_REQUIRED, UNSIGNED, KEY_UNUSABLE, BAD_SIGNATURE]

  // ----- each check is its requirement -----

  lemma RequiredFields(e: Json)
    ensures HasPolicyRequired(e) <==> SevenFields(e)
    ensures HasRequired(e) <==> SevenFields(e) && Has(e, Lit("payload_index_sha256"))
  {
    RequiredAgrees(e);
    if HasPolicyRequired(e) {
      NamesDiffer();
      assert Has(e, REQUIRED[0]) && Has(e, REQUIRED[1]) && Has(e, REQUIRED[2]) && Has(e, REQUIRED[3]);
      assert Has(e, REQUIRED[4]) && Has(e, REQUIRED[5]) && Has(e, REQUIRED[6]);
    }
    if SevenFields(e) { SevenAreRequired(e); }
  }

  lemma NamesDiffer()
    ensures forall i :: 0 <= i < 7 ==> REQUIRED[i] != INDEX_SHA256
  {
    assert |INDEX_SHA256| == 20;
    assert forall i :: 0 <= i < 7 ==> |REQUIRED[i]| < 20;
  }

  lemma SevenAreRequired(e: Json)
    requires SevenFields(e)
    ensures HasPolicyRequired(e)
  {
    forall i | 0 <= i < |REQUIRED| && REQUIRED[i] != INDEX_SHA256 ensures Has(e, REQUIRED[i]) {
      assert i < 7;
    }
  }

  lemma AllowedNames(name: Text)
    ensures name in ALLOWED <==> AllowedField(name)
  {
    assert ALLOWED == [Lit("audience"), Lit("expires_at"), Lit("key"), Lit("policy"), Lit("schema"),
                       Lit("steps_markdown"), Lit("steps_sha256"), Lit("payload_index_sha256"), Lit("signature")];
  }

  lemma OtherFields(e: Json)
    ensures OnlyAllowed(e) <==> NoOtherField(e)
  {
    if e.Obj? {
      forall i | 0 <= i < |e.fields| ensures e.fields[i].key in ALLOWED <==> AllowedField(e.fields[i].key) {
        AllowedNames(e.fields[i].key);
      }
    }
  }

  lemma SmallChecks(v: Json, low: int, high: int, host: Host)
    ensures IntegerWithin(v, low, high) == LimitMeets(v, low, high)
    ensures HttpsOrigin(v, host) == SecureUrl(v, host) && BareHttps(v, host) == BareUrl(v, host)
    ensures (v.Str? && IsHex64(TextOf(v))) == HexDigest(v)
  {
  }

  // The rules of a list of nine, whatever they say.
  lemma NineRulesAre(r: seq<Rule>, meets: nat -> bool, n: nat)
    requires n < 9
    requires r == [Rule(meets(0), SCHEMA), Rule(meets(1), SCHEMA), Rule(meets(2), SCHEMA),
                   Rule(meets(3), UNEXPECTED_FIELD), Rule(meets(4), SCHEMA), Rule(meets(5), SCHEMA),
                   Rule(meets(6), SCHEMA), Rule(meets(7), SCHEMA), Rule(meets(8), SCHEMA)]
    ensures r[n] == Rule(meets(n), if n == 3 then UNEXPECTED_FIELD else SCHEMA)
  {
  }

  lemma FirstNineCodes(n: nat)
    requires n < 9
    ensures REQUIREMENT_CODES[n] == ENGINE_CODES[n] == if n == 3 then UNEXPECTED_FIELD else SCHEMA
  {
  }

  // What both lists ask for, in the words of the requirements.
  lemma ShapeChecks(e: Json, host: Host)
    ensures LimitsOf(e) == Limits(e)
    ensures HasPolicyRequired(e) == SevenFields(e) && OnlyAllowed(e) == NoOtherField(e)
    ensures HasRequired(e) == (SevenFields(e) && Has(e, Lit("payload_index_sha256")))
    ensures HexIndexDigest(e) == HexDigest(Field(e, Lit("payload_index_sha256")))
  {
    RequiredFields(e);
    OtherFields(e);
    SmallChecks(Field(e, Lit("payload_index_sha256")), 0, 0, host);
  }

  lemma LimitChecks(limits: Json, host: Host)
    ensures IntegerWithin(Field(limits, Lit("max_bytes")), 1, 1024 * 1024)
         == LimitMeets(Field(limits, Lit("max_bytes")), 1, 1048576)
    ensures IntegerWithin(Field(limits, Lit("max_redirects")), 0, 3)
         == LimitMeets(Field(limits, Lit("max_redirects")), 0, 3)
    ensures BareHttps(Field(limits, Lit("allowed_origin")), host) == BareUrl(Field(limits, Lit("allowed_origin")), host)
    ensures HttpsOrigin(Field(limits, Lit("allowed_origin")), host)
         == SecureUrl(Field(limits, Lit("allowed_origin")), host)
  {
    SmallChecks(Field(limits, Lit("max_bytes")), 1, 1048576, host);
    SmallChecks(Field(limits, Lit("max_redirects")), 0, 3, host);
    SmallChecks(Field(limits, Lit("allowed_origin")), 0, 0, host);
  }

  lemma ShapeList(e: Json, host: Host)
    ensures ShapeRules(e, host) == [
      Rule(ShapeMeets(e, host, 0), SCHEMA), Rule(ShapeMeets(e, host, 1), SCHEMA), Rule(ShapeMeets(e, host, 2), SCHEMA),
      Rule(ShapeMeets(e, host, 3), UNEXPECTED_FIELD), Rule(ShapeMeets(e, host, 4), SCHEMA),
      Rule(ShapeMeets(e, host, 5), SCHEMA), Rule(ShapeMeets(e, host, 6), SCHEMA),
      Rule(ShapeMeets(e, host, 7), SCHEMA), Rule(ShapeMeets(e, host, 8), SCHEMA)]
  {
    ShapeChecks(e, host);
    LimitChecks(LimitsOf(e), host);
  }

  lemma EngineShapeList(e: Json, host: Host)
    ensures PolicyShapeRules(e, host) == [
      Rule(EngineShapeMeets(e, host, 0), SCHEMA), Rule(EngineShapeMeets(e, host, 1), SCHEMA),
      Rule(EngineShapeMeets(e, host, 2), SCHEMA), Rule(EngineShapeMeets(e, host, 3), UNEXPECTED_FIELD),
      Rule(EngineShapeMeets(e, host, 4), SCHEMA), Rule(EngineShapeMeets(e, host, 5), SCHEMA),
      Rule(EngineShapeMeets(e, host, 6), SCHEMA), Rule(EngineShapeMeets(e, host, 7), SCHEMA),
      Rule(EngineShapeMeets(e, host, 8), SCHEMA)]
  {
    ShapeChecks(e, host);
    LimitChecks(LimitsOf(e), host);
  }

  /** The checks on the envelope alone, one by one. */
  lemma ShapeRuleIs(e: Json, host: Host, n: nat)
    requires n < 9
    ensures ShapeRules(e, host)[n].holds <==> ShapeMeets(e, host, n)
    ensures ShapeRules(e, host)[n].code == REQUIREMENT_CODES[n]
  {
    ShapeList(e, host);
    FirstNineCodes(n);
    NineRulesAre(ShapeRules(e, host), (i: nat) => ShapeMeets(e, host, i), n);
  }

  lemma EngineShapeRuleIs(e: Json, host: Host, n: nat)
    requires n < 9
    ensures PolicyShapeRules(e, host)[n].holds <==> EngineShapeMeets(e, host, n)
    ensures PolicyShapeRules(e, host)[n].code == ENGINE_CODES[n]
  {
    EngineShapeList(e, host);
    FirstNineCodes(n);
    NineRulesAre(PolicyShapeRules(e, host), (i: nat) => EngineShapeMeets(e, host, i), n);
  }

  lemma SizeRuleIs(e: Json, host: Host)
    ensures SizeRules(e)[0].holds <==> EngineShapeMeets(e, host, 9)
    ensures SizeRules(e)[0].code == ENGINE_CODES[9]
  {
  }

  lemma {:induction false} FirstIsFound(keys: seq<KeyEntry>, e: Json, j: nat)
    requires NamesKey(e, keys, j)
    ensures FindKey(keys, Field(Field(e, KEY), Lit("id"))) == Some(keys[j])
  {
    if j > 0 {
      assert Field(Field(e, Lit("key")), Lit("id")) != Str(keys[0].id);
      FirstIsFound(keys[1..], e, j - 1);
    }
  }

  lemma {:induction false} FoundIsFirst(keys: seq<KeyEntry>, e: Json) returns (j: nat)
    requires FindKey(keys, Field(Field(e, KEY), Lit("id"))).Some?
    ensures NamesKey(e, keys, j)
  {
    if Field(Field(e, Lit("key")), Lit("id")) == Str(keys[0].id) {
      j := 0;
    } else {
      var i := FoundIsFirst(keys[1..], e);
      j := i + 1;
      forall i | 0 <= i < j ensures Field(Field(e, Lit("key")), Lit("id")) != Str(keys[i].id) {
        if i > 0 { assert keys[1..][i - 1] == keys[i]; }
      }
    }
  }

  /** The key that is looked up is the first entry with the id named. */
  lemma KeyExactly(e: Json, ring: Keyring)
    ensures TrustedKey(e, ring).Some? <==> exists j: nat :: NamesKey(e, ring.keys, j)
    ensures forall j: nat :: NamesKey(e, ring.keys, j) ==> TrustedKey(e, ring) == Some(ring.keys[j])
  {
    if TrustedKey(e, ring).Some? {
      var j := FoundIsFirst(ring.keys, e);
    }
    forall j: nat | NamesKey(e, ring.keys, j) ensures TrustedKey(e, ring) == Some(ring.keys[j]) {
      FirstIsFound(ring.keys, e, j);
    }
  }

  lemma KeyCodes(e: Json, ring: Keyring, ctx: Context, n: nat)
    requires n < 7
    ensures KeyRules(e, ring, ctx)[n].code == REQUIREMENT_CODES[n + 9] == ENGINE_CODES[n + 10]
  {
  }

  lemma KeyRuleIs(e: Json, ring: Keyring, ctx: Context, n: nat)
    requires n < 7
    ensures KeyRules(e, ring, ctx)[n].holds <==> KeyMeets(e, ring, ctx.host, ctx.now, n)
  {
    KeyExactly(e, ring);
  }

  // The codes of a list of five, whatever its rules say.
  lemma FiveCodes(r: seq<Rule>, n: nat)
    requires n < 5 && |r| == 5
    requires r[0].code == SCHEMA && r[1].code == SHELL_POLICY && r[2].code == STEPS_DIGEST
    requires r[3].code == PACKAGE_POLICY && r[4].code == PAYLOAD_INDEX_MISMATCH
    ensures r[n].code == REQUIREMENT_CODES[n + 16] == ENGINE_CODES[n + 17]
  {
  }

  lemma ContentCodes(e: Json, ctx: Context, n: nat)
    requires n < 5
    ensures ContentRules(e, ctx)[n].code == REQUIREMENT_CODES[n + 16] == ENGINE_CODES[n + 17]
  {
    FiveCodes(ContentRules(e, ctx), n);
  }

  lemma StepsRuleIs(e: Json, ctx: Context, n: nat)
    requires n < 3 && (n > 0 ==> Field(e, Lit("steps_markdown")).Str?)
    ensures ContentRules(e, ctx)[n].holds <==> ContentMeets(e, ctx.host, ctx.indexSha, n)
  {
    if n == 1 { ShellLikeExactly(StepsText(e)); }
  }

  lemma BoundRuleIs(e: Json, ctx: Context, n: nat)
    requires 3 <= n < 5
    ensures ContentRules(e, ctx)[n].holds <==> ContentMeets(e, ctx.host, ctx.indexSha, n)
  {
    if n == 3 { PackageExactly(Field(Field(e, POLICY), Lit("package"))); }
  }

  lemma PackageExactly(pkg: Json)
    ensures FixedPackage(pkg) <==> FourTexts(pkg)
  {
  }

  lemma SignatureRuleIs(e: Json, ring: Keyring, ctx: Context, n: nat)
    requires n < 5 && Has(e, Lit("payload_index_sha256"))
    requires n == 4 ==> SignatureMeets(e, ring, ctx.host, ctx.requireSignature, 2)
    ensures SignatureRules(e, ring, ctx)[n].holds <==> SignatureMeets(e, ring, ctx.host, ctx.requireSignature, n)
    ensures SignatureRules(e, ring, ctx)[n].code == REQUIREMENT_CODES[n + 21] == ENGINE_CODES[n + 22]
  {
    KeyExactly(e, ring);
    assert PolicyToSign(e) == SevenSigned(e);
  }

  // ----- the verdicts -----

  lemma FourListsAt(a: seq<Rule>, b: seq<Rule>, c: seq<Rule>, d: seq<Rule>, n: nat)
    requires |a| == 9 && |b| == 7 && |c| == 5 && |d| == 5 && n < 26
    ensures |a + b + c + d| == 26
    ensures (a + b + c + d)[n] ==
      if n < 9 then a[n] else if n < 16 then b[n - 9] else if n < 21 then c[n - 16] else d[n - 21]
  {
  }

  lemma FiveListsAt(a: seq<Rule>, z: seq<Rule>, b: seq<Rule>, c: seq<Rule>, d: seq<Rule>, n: nat)
    requires |a| == 9 && |z| == 1 && |b| == 7 && |c| == 5 && |d| == 5 && n < 27
    ensures |a + z + b + c + d| == 27
    ensures (a + z + b + c + d)[n] ==
      if n < 9 then a[n] else if n == 9 then z[0] else if n < 17 then b[n - 10] else if n < 22 then c[n - 17]
      else d[n - 22]
  {
  }

  ghost predicate Meets(e: Json, ring: Keyring, ctx: Context, n: nat) {
    forall i :: 0 <= i < n ==> Requirement(e, ring, ctx, i)
  }

  ghost predicate MeetsEngine(e: Json, ring: Keyring, ctx: Context, n: nat) {
    forall i :: 0 <= i < n ==> EngineRequirement(e, ring, ctx, i)
  }

  lemma KeyPart(e: Json, ring: Keyring, ctx: Context, n: nat)
    requires 9 <= n < 16
    ensures KeyRules(e, ring, ctx)[n - 9].holds <==> Requirement(e, ring, ctx, n)
    ensures KeyRules(e, ring, ctx)[n - 9].code == REQUIREMENT_CODES[n] == ENGINE_CODES[n + 1]
  {
    KeyRuleIs(e, ring, ctx, n - 9);
    KeyCodes(e, ring, ctx, n - 9);
  }

  lemma ContentPart(e: Json, ring: Keyring, ctx: Context, n: nat)
    requires 16 <= n < 21 && (n > 16 ==> Requirement(e, ring, ctx, 16))
    ensures ContentRules(e, ctx)[n - 16].holds <==> Requirement(e, ring, ctx, n)
    ensures ContentRules(e, ctx)[n - 16].code == REQUIREMENT_CODES[n] == ENGINE_CODES[n + 1]
  {
    ContentCodes(e, ctx, n - 16);
    if n < 19 { StepsRuleIs(e, ctx, n - 16); } else { BoundRuleIs(e, ctx, n - 16); }
  }

  lemma SignaturePart(e: Json, ring: Keyring, ctx: Context, n: nat)
    requires 21 <= n < 26 && Has(e, Lit("payload_index_sha256")) && (n > 23 ==> Requirement(e, ring, ctx, 23))
    ensures SignatureRules(e, ring, ctx)[n - 21].holds <==> Requirement(e, ring, ctx, n)
    ensures SignatureRules(e, ring, ctx)[n - 21].code == REQUIREMENT_CODES[n] == ENGINE_CODES[n + 1]
  {
    SignatureRuleIs(e, ring, ctx, n - 21);
  }

  lemma RuleIs(e: Json, ring: Keyring, ctx: Context, n: nat)
    requires n < 26 && Meets(e, ring, ctx, n)
    ensures |Rules(e, ring, ctx)| == 26
    ensures Rules(e, ring, ctx)[n].holds <==> Requirement(e, ring, ctx, n)
    ensures Rules(e, ring, ctx)[n].code == REQUIREMENT_CODES[n]
  {
    FourListsAt(ShapeRules(e, ctx.host), KeyRules(e, ring, ctx), ContentRules(e, ctx), SignatureRules(e, ring, ctx), n);
    if n < 9 {
      ShapeRuleIs(e, ctx.host, n);
    } else if n < 16 {
      KeyPart(e, ring, ctx, n);
    } else if n < 21 {
      ContentPart(e, ring, ctx, n);
    } else {
      assert Requirement(e, ring, ctx, 2);
      SignaturePart(e, ring, ctx, n);
    }
  }

  lemma EngineRuleAt(e: Json, ring: Keyring, ctx: Context, n: nat)
    requires n < 27
    ensures |PolicyRules(e, ring, ctx)| == 27
    ensures n < 9 ==> PolicyRules(e, ring, ctx)[n] == PolicyShapeRules(e, ctx.host)[n]
    ensures n == 9 ==> PolicyRules(e, ring, ctx)[n] == SizeRules(e)[0]
    ensures 10 <= n < 17 ==> PolicyRules(e, ring, ctx)[n] == KeyRules(e, ring, ctx)[n - 10]
    ensures 17 <= n < 22 ==> PolicyRules(e, ring, ctx)[n] == ContentRules(e, ctx)[n - 17]
    ensures 22 <= n ==> PolicyRules(e, ring, ctx)[n] == SignatureRules(e, ring, ctx)[n - 22]
  {
    FiveListsAt(PolicyShapeRules(e, ctx.host), SizeRules(e), KeyRules(e, ring, ctx), ContentRules(e, ctx),
                SignatureRules(e, ring, ctx), n);
  }

  lemma EngineRuleIs(e: Json, ring: Keyring, ctx: Context, n: nat)
    requires n < 27 && MeetsEngine(e, ring, ctx, n)
    ensures |PolicyRules(e, ring, ctx)| == 27
    ensures PolicyRules(e, ring, ctx)[n].holds <==> EngineRequirement(e, ring, ctx, n)
    ensures PolicyRules(e, ring, ctx)[n].code == ENGINE_CODES[n]
  {
    EngineRuleAt(e, ring, ctx, n);
    if n < 9 {
      EngineShapeRuleIs(e, ctx.host, n);
    } else if n == 9 {
      SizeRuleIs(e, ctx.host);
    } else if n < 17 {
      KeyPart(e, ring, ctx, n - 1);
    } else if n < 22 {
      assert n > 17 ==> EngineRequirement(e, ring, ctx, 17);
      ContentPart(e, ring, ctx, n - 1);
    } else {
      assert EngineRequirement(e, ring, ctx, 4);
      assert n > 24 ==> EngineRequirement(e, ring, ctx, 24);
      SignaturePart(e, ring, ctx, n - 1);
    }
  }

  /** The bin's verdict on any envelope: the code of the first requirement that is not
      met, and trust in the first key of that id when all 26 are. */
  lemma VerdictExactly(e: Json, ring: Keyring, ctx: Context, n: nat)
    requires n <= 26 && Meets(e, ring, ctx, n)
    ensures n < 26 && !Requirement(e, ring, ctx, n) ==> Judge(e, ring, ctx) == Rejected(REQUIREMENT_CODES[n])
    ensures n == 26 ==> exists j: nat :: NamesKey(e, ring.keys, j) && Judge(e, ring, ctx) == Trusted(ring.keys[j].id)
  {
    var rules := Rules(e, ring, ctx);
    forall i | 0 <= i < n ensures i < |rules| && rules[i].holds { RuleIs(e, ring, ctx, i); }
    if n < 26 {
      RuleIs(e, ring, ctx, n);
    } else {
      RuleIs(e, ring, ctx, 25);
      assert Requirement(e, ring, ctx, 11);
      var j: nat :| NamesKey(e, ring.keys, j);
      KeyExactly(e, ring);
    }
    FirstFailureAt(rules, n);
  }

  /** The engine's verdict, in the same way. */
  lemma EngineVerdictExactly(e: Json, ring: Keyring, ctx: Context, n: nat)
    requires n <= 27 && MeetsEngine(e, ring, ctx, n)
    ensures n < 27 && !EngineRequirement(e, ring, ctx, n) ==>
      FirstFailure(PolicyRules(e, ring, ctx)) == Some(ENGINE_CODES[n])
    ensures n == 27 ==> FirstFailure(PolicyRules(e, ring, ctx)) == None
  {
    var rules := PolicyRules(e, ring, ctx);
    forall i | 0 <= i < n ensures i < |rules| && rules[i].holds { EngineRuleIs(e, ring, ctx, i); }
    if n < 27 { EngineRuleIs(e, ring, ctx, n); } else { EngineRuleIs(e, ring, ctx, 26); }
    FirstFailureAt(rules, n);
  }

  // The first requirement that is not met.
  lemma {:induction false} FirstUnmet(e: Json, ring: Keyring, ctx: Context, n: nat) returns (k: nat)
    requires n <= 26
    ensures k <= n && Meets(e, ring, ctx, k) && (k < n ==> !Requirement(e, ring, ctx, k))
  {
    if n == 0 {
      k := 0;
    } else {
      k := FirstUnmet(e, ring, ctx, n - 1);
      if k == n - 1 && Requirement(e, ring, ctx, n - 1) { k := n; }
    }
  }

  /** The bin trusts an envelope exactly when it meets all 26 requirements. */
  lemma TrustedExactly(e: Json, ring: Keyring, ctx: Context)
    ensures Judge(e, ring, ctx).Trusted? <==> Meets(e, ring, ctx, 26)
  {
    var k := FirstUnmet(e, ring, ctx, 26);
    VerdictExactly(e, ring, ctx, k);
  }

  /** An envelope trusted at one time is trusted at another exactly when it has not
      expired and its key's bounds, as far as they are dates, hold then. */
  lemma TrustedExactlyInWindow(e: Json, ring: Keyring, ctx: Context, now: int, j: nat)
    requires Judge(e, ring, ctx).Trusted? && NamesKey(e, ring.keys, j)
    ensures Judge(e, ring, ctx.(now := now)).Trusted? <==>
      var expires, from, until := ctx.host.date(Field(e, Lit("expires_at"))),
                                  ctx.host.date(Str(ring.keys[j].notBefore)),
                                  ctx.host.date(Str(ring.keys[j].notAfter));
      && expires.Some? && now < expires.value
      && (from.Some? ==> from.value <= now)
      && (until.Some? ==> now < until.value)
  {
    var later := ctx.(now := now);
    TrustedExactly(e, ring, ctx);
    TrustedExactly(e, ring, later);
    KeyExactly(e, ring);
    assert Requirement(e, ring, ctx, 12) && Requirement(e, ring, ctx, 10) && Requirement(e, ring, ctx, 15);
    if Meets(e, ring, later, 26) { assert Requirement(e, ring, later, 10) && Requirement(e, ring, later, 15); }
    SameButTime(e, ring, ctx, later);
  }

  lemma SameButTime(e: Json, ring: Keyring, ctx: Context, later: Context)
    requires later == ctx.(now := later.now)
    ensures forall n :: 0 <= n < 26 && n != 10 && n != 15 ==>
      (Requirement(e, ring, ctx, n) <==> Requirement(e, ring, later, n))
  {
    forall n | 0 <= n < 26 && n != 10 && n != 15
      ensures Requirement(e, ring, ctx, n) <==> Requirement(e, ring, later, n)
    {
      if 9 <= n < 16 { SameKeyButTime(e, ring, ctx.host, ctx.now, later.now, n - 9); }
    }
  }

  lemma SameKeyButTime(e: Json, ring: Keyring, host: Host, now: int, later: int, n: nat)
    requires n != 1 && n < 6
    ensures KeyMeets(e, ring, host, now, n) <==> KeyMeets(e, ring, host, later, n)
  {
  }

  // ----- the signature that is claimed -----

  /** A checked signature is one whose fields are present, made with Ed25519, and
      verified with the key named, over the seven fields. */
  lemma CheckedSignatureExactly(e: Json, ring: Keyring, ctx: Context, j: nat)
    requires Has(e, Lit("payload_index_sha256")) && NamesKey(e, ring.keys, j)
    ensures SignatureChecked(e, ring, ctx) <==>
      var signature := Field(e, Lit("signature"));
      && Has(e, Lit("signature")) && signature.Obj?
      && Field(signature, Lit("algorithm")) == Str(Lit("Ed25519")) && NonEmptyText(Field(signature, Lit("value")))
      && SignedWith(e, ring.keys[j], ctx.host, 3) && SignedWith(e, ring.keys[j], ctx.host, 4)
  {
    KeyExactly(e, ring);
    assert PolicyToSign(e) == SevenSigned(e);
  }

  // ----- what a run is offered -----

  /** The context of an offer: the digest is over the index file's text, or over the
      canonical text of an index given as an object. */
  ghost function OfferContext(o: Offer): Context
    requires o.index.Some?
  {
    var text := match o.indexText case Some(t) => t case None => CanonicalText(o.index.value);
    Context(o.host, o.now, Some(o.host.sha256(ToBytes(text))), o.requireSignature)
  }

  lemma ShellCode(n: nat)
    requires n < 27
    ensures ENGINE_CODES[n] == SHELL_POLICY <==> n == 18
  {
  }

  lemma FaultOfFailure(o: Offer, rules: seq<Rule>, failure: Option<Code>)
    requires o.index.Some? && o.ring.Some? && o.envelope.Obj?
    requires rules == PolicyRules(o.envelope, o.ring.value, o.Ctx()) && FirstFailure(rules) == failure
    ensures Fault(o) ==
      if failure.Some? then Some(if failure.value == SHELL_POLICY then ExecutableSteps else UntrustedEnvelope)
      else match IndexIsShaped(o.index.value)
        case Throws => Some(NoVerdict)
        case Done(true) => None
        case Done(false) => Some(MalformedIndex)
  {
  }

  /** What an offer is refused for: steps that look executable when that requirement is
      the first not met, else an untrusted envelope, else a malformed index; a file
      that cannot be read, or a text that cannot be had, leaves no verdict. */
  lemma OfferFaultExactly(o: Offer, n: nat)
    requires n <= 27 && (o.index.Some? && o.ring.Some? ==> MeetsEngine(o.envelope, o.ring.value, OfferContext(o), n))
    ensures o.index == None ==> Fault(o) == Some(NoVerdict)
    ensures o.index.Some? && !o.envelope.Obj? ==> Fault(o) == Some(UntrustedEnvelope)
    ensures o.index.Some? && o.envelope.Obj? && o.ring == None ==> Fault(o) == Some(NoVerdict)
    ensures (o.index.Some? && o.envelope.Obj? && o.ring.Some? && n < 27
             && !EngineRequirement(o.envelope, o.ring.value, OfferContext(o), n)) ==>
      Fault(o) == Some(if n == 18 then ExecutableSteps else UntrustedEnvelope)
    ensures o.index.Some? && o.envelope.Obj? && o.ring.Some? && n == 27 ==>
      Fault(o) == match IndexIsShaped(o.index.value)
                  case Throws => Some(NoVerdict)
                  case Done(true) => None
                  case Done(false) => Some(MalformedIndex)
  {
    if o.index.Some? && o.ring.Some? && o.envelope.Obj? {
      var rules := PolicyRules(o.envelope, o.ring.value, OfferContext(o));
      assert o.Ctx() == OfferContext(o);
      EngineVerdictExactly(o.envelope, o.ring.value, OfferContext(o), n);
      FaultOfFailure(o, rules, FirstFailure(rules));
      if n < 27 { ShellCode(n); }
    }
  }
}
