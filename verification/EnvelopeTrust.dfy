// What an accepted envelope guarantees: when it is accepted, what revocation
// does, what the report claims, and what the signed bytes determine.
module EnvelopeTrust {
  import opened Texts
  import opened Utf8
  import opened CanonicalJson
  import opened Envelope

  // ----- time -----

  predicate WithinWindow(e: Json, k: KeyEntry, ctx: Context) {
    Unexpired(e, ctx) && WithinValidity(k, ctx)
  }

  lemma KeyRulesExactly(e: Json, ring: Keyring, ctx: Context)
    ensures AllHold(KeyRules(e, ring, ctx)) <==>
      && IsText(Field(e, AUDIENCE), Lit("agent-skills"))
      && TrustedKey(e, ring).Some?
      && var k := TrustedKey(e, ring).value;
      && !k.revoked
      && k.algorithm == Lit("Ed25519") && IsText(Field(Field(e, KEY), Lit("algorithm")), Lit("Ed25519"))
      && FingerprintMatches(e, k, ctx.host)
      && WithinWindow(e, k, ctx)
  {
    var rules := KeyRules(e, ring, ctx);
    if AllHold(rules) {
      assert rules[0].holds && rules[1].holds && rules[2].holds && rules[3].holds;
      assert rules[4].holds && rules[5].holds && rules[6].holds;
    }
  }

  /** Once an envelope is accepted at some time, it is accepted at another time
      exactly when that time lies in its window, which is an interval. */
  lemma AcceptedExactlyInWindow(e: Json, ring: Keyring, ctx: Context, now: int)
    requires Accepts(e, ring, ctx)
    ensures TrustedKey(e, ring).Some?
    ensures Accepts(e, ring, ctx.(now := now)) <==>
      WithinWindow(e, TrustedKey(e, ring).value, ctx.(now := now))
  {
    var later := ctx.(now := now);
    KeyRulesExactly(e, ring, ctx);
    KeyRulesExactly(e, ring, later);
    assert ContentRules(e, ctx) == ContentRules(e, later);
    assert SignatureRules(e, ring, ctx) == SignatureRules(e, ring, later);
  }

  /** The accepting times of an envelope have no gaps. */
  lemma AcceptingTimesAreConvex(e: Json, ring: Keyring, ctx: Context, t1: int, t2: int, t3: int)
    requires t1 <= t2 <= t3
    requires Accepts(e, ring, ctx.(now := t1)) && Accepts(e, ring, ctx.(now := t3))
    ensures Accepts(e, ring, ctx.(now := t2))
  {
    AcceptedExactlyInWindow(e, ring, ctx.(now := t1), t3);
    AcceptedExactlyInWindow(e, ring, ctx.(now := t1), t2);
    AcceptedExactlyInWindow(e, ring, ctx.(now := t1), t1);
  }

  // ----- revocation -----

  // The second keyring is the first with some entries marked revoked.
  ghost predicate Revoking(before: seq<KeyEntry>, after: seq<KeyEntry>) {
    && |before| == |after|
    && forall i :: 0 <= i < |before| ==> after[i] == before[i] || after[i] == before[i].(revoked := true)
  }

  lemma {:induction false} RevokingKeepsLookup(before: seq<KeyEntry>, after: seq<KeyEntry>, id: Json)
    requires Revoking(before, after)
    ensures FindKey(before, id).Some? <==> FindKey(after, id).Some?
    ensures FindKey(before, id).Some? ==>
      var k, r := FindKey(before, id).value, FindKey(after, id).value; r == k || r == k.(revoked := true)
  {
    if before != [] {
      RevokingKeepsLookup(before[1..], after[1..], id);
    }
  }

  lemma RevokingKeepsOtherRules(e: Json, ring: Keyring, after: seq<KeyEntry>, ctx: Context)
    requires Revoking(ring.keys, after)
    ensures SignatureRules(e, ring.(keys := after), ctx) == SignatureRules(e, ring, ctx)
  {
    RevokingKeepsLookup(ring.keys, after, Field(Field(e, KEY), Lit("id")));
  }

  lemma RevokingKeyRules(e: Json, ring: Keyring, after: seq<KeyEntry>, ctx: Context)
    requires Revoking(ring.keys, after)
    ensures var revoked := ring.(keys := after);
      AllHold(KeyRules(e, revoked, ctx)) <==>
        && AllHold(KeyRules(e, ring, ctx))
        && TrustedKey(e, revoked).Some? && !TrustedKey(e, revoked).value.revoked
  {
    var revoked := ring.(keys := after);
    RevokingKeepsLookup(ring.keys, after, Field(Field(e, KEY), Lit("id")));
    KeyRulesExactly(e, ring, ctx);
    KeyRulesExactly(e, revoked, ctx);
    assert TrustedKey(e, ring).Some? ==>
      && FingerprintMatches(e, TrustedKey(e, ring).value, ctx.host)
         == FingerprintMatches(e, TrustedKey(e, revoked).value, ctx.host)
      && WithinWindow(e, TrustedKey(e, ring).value, ctx) == WithinWindow(e, TrustedKey(e, revoked).value, ctx);
  }

  /** Revoking entries never turns a rejection into an acceptance, and rejects
      an accepted envelope exactly when it revokes the first entry with its key
      id, even when ids repeat. */
  lemma RevocationOnlyRejects(e: Json, ring: Keyring, after: seq<KeyEntry>, ctx: Context)
    requires Revoking(ring.keys, after)
    ensures Accepts(e, ring.(keys := after), ctx) <==>
      && Accepts(e, ring, ctx)
      && TrustedKey(e, ring.(keys := after)).Some?
      && !TrustedKey(e, ring.(keys := after)).value.revoked
  {
    RevokingKeepsOtherRules(e, ring, after, ctx);
    RevokingKeyRules(e, ring, after, ctx);
  }

  // ----- the verify report -----

  datatype TrustLevel = SignatureVerified | SignatureVerifiedNonproduction | Unsigned

  datatype FailureCode = Usage | Malformed | MissingPayloadIndex | Refused(code: Code)

  datatype Report =
    | Ok(key: Text, indexSha: Text, signed: bool, level: TrustLevel, productionTrust: bool, environment: Text)
    | Failed(code: FailureCode)

  // What the command reads: the parsed envelope file (None when it cannot be
  // read or parsed), and the payload-index text (None when it is missing).
  datatype VerifyInput = VerifyInput(pathGiven: bool, envelope: Option<Json>, indexText: Option<Text>)

  function VerifyContext(input: VerifyInput, host: Host, now: int, requireSignature: bool): Context
    requires input.indexText.Some?
  {
    Context(host, now, Some(host.sha256(ToBytes(input.indexText.value))), requireSignature)
  }

  method VerifyEnvelope(input: VerifyInput, ring: Keyring, host: Host, now: int, requireSignature: bool)
    returns (r: Report)
    ensures r.Ok? <==>
      && input.pathGiven && input.envelope.Some? && input.indexText.Some?
      && Judge(input.envelope.value, ring, VerifyContext(input, host, now, requireSignature)).Trusted?
    ensures r.Ok? ==>
      var e := input.envelope.value;
      var ctx := VerifyContext(input, host, now, requireSignature);
      && Judge(e, ring, ctx) == Trusted(r.key)
      && Some(r.indexSha) == ctx.indexSha
      && r.environment == ring.environment
      && (r.signed <==> SignatureChecked(e, ring, ctx))
      && (r.productionTrust <==> r.signed && ring.production)
      && (r.level == Unsigned <==> !r.signed)
      && (r.level == SignatureVerified <==> r.productionTrust)
      && (requireSignature ==> r.signed)
    ensures r.Failed? && input.pathGiven && input.envelope.Some? && input.indexText.Some? ==>
      match Judge(input.envelope.value, ring, VerifyContext(input, host, now, requireSignature))
      case Rejected(code) => r.code == FailureCode.Refused(code)
      case Trusted(_) => false
    ensures r.Failed? && r.code.Refused? ==>
      input.pathGiven && input.envelope.Some? && input.indexText.Some?
  {
    if !input.pathGiven { return Failed(Usage); }
    if input.envelope.None? { return Failed(Malformed); }
    if input.indexText.None? { return Failed(MissingPayloadIndex); }
    var e := input.envelope.value;
    var sha := host.sha256(ToBytes(input.indexText.value));
    var verdict := ValidateEnvelope(e, ring, Context(host, now, Some(sha), requireSignature));
    if verdict.Rejected? { return Failed(FailureCode.Refused(verdict.code)); }
    var signed := Has(e, SIGNATURE) && Field(e, SIGNATURE) != Null;
    AcceptsExactly(e, ring, VerifyContext(input, host, now, requireSignature));
    AcceptedSignature(e, ring, VerifyContext(input, host, now, requireSignature));
    var level := if !signed then Unsigned
                 else if ring.production then SignatureVerified
                 else SignatureVerifiedNonproduction;
    r := Ok(verdict.key, sha, signed, level, signed && ring.production, ring.environment);
  }

  /** Signature verification ran, on a present and well-formed signature with
      the key the envelope names, and succeeded. */
  predicate SignatureChecked(e: Json, ring: Keyring, ctx: Context) {
    && Has(e, SIGNATURE)
    && Field(e, SIGNATURE).Obj?
    && IsText(Field(Field(e, SIGNATURE), Lit("algorithm")), Lit("Ed25519"))
    && TextOf(Field(Field(e, SIGNATURE), Lit("value"))) != []
    && TrustedKey(e, ring).Some?
    && ctx.host.usableKey(ctx.host.decode64(TrustedKey(e, ring).value.der))
    && SignatureVerifies(e, TrustedKey(e, ring).value, ctx.host)
  }

  /** In an accepted envelope a signature field of any shape is a checked
      signature, and strict mode accepts nothing else. */
  lemma AcceptedSignature(e: Json, ring: Keyring, ctx: Context)
    requires Accepts(e, ring, ctx)
    ensures Has(e, SIGNATURE) <==> SignatureChecked(e, ring, ctx)
    ensures Has(e, SIGNATURE) ==> Field(e, SIGNATURE) != Null
    ensures ctx.requireSignature ==> SignatureChecked(e, ring, ctx)
  {
    var rules := SignatureRules(e, ring, ctx);
    assert rules[0].holds && rules[1].holds && rules[2].holds && rules[3].holds && rules[4].holds;
  }
}
