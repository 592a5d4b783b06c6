// The signed bytes determine the envelope: every field but the signature, with
// the steps determined up to lone surrogates, and exactly when they hold none.
module SignedEnvelope {
  import opened Sequences
  import opened Texts
  import opened Utf8
  import opened CanonicalJson
  import opened ShellPolicy
  import opened Envelope

  const SIGNED_FIELDS: seq<Text> :=
    [SCHEMA_FIELD, AUDIENCE, EXPIRES_AT, KEY, POLICY, STEPS_SHA256, INDEX_SHA256]

  lemma FieldNamesDiffer()
    ensures Distinct(SIGNED_FIELDS)
  {
    assert SCHEMA_FIELD[0] != POLICY[0];
  }

  lemma ShapeRulesExactly(e: Json, host: Host)
    requires AllHold(ShapeRules(e, host))
    ensures e.Obj? && HasRequired(e) && OnlyAllowed(e)
  {
    var rules := ShapeRules(e, host);
    assert rules[0].holds && rules[2].holds && rules[3].holds;
  }

  lemma ContentRulesExactly(e: Json, ctx: Context)
    requires AllHold(ContentRules(e, ctx))
    ensures Field(e, STEPS) == Str(StepsText(e)) && |StepsText(e)| <= 4096 && !ShellLike(StepsText(e))
    ensures Field(e, STEPS_SHA256) == Str(ctx.host.sha256(ToBytes(StepsText(e))))
  {
    var rules := ContentRules(e, ctx);
    assert rules[0].holds && rules[1].holds && rules[2].holds;
  }

  lemma RequiredPresent(e: Json)
    requires HasRequired(e)
    ensures Has(e, SCHEMA_FIELD) && Has(e, AUDIENCE) && Has(e, EXPIRES_AT) && Has(e, KEY) && Has(e, POLICY)
    ensures Has(e, STEPS) && Has(e, STEPS_SHA256) && Has(e, INDEX_SHA256)
  {
    assert Has(e, REQUIRED[0]) && Has(e, REQUIRED[1]) && Has(e, REQUIRED[2]) && Has(e, REQUIRED[3]);
    assert Has(e, REQUIRED[4]) && Has(e, REQUIRED[5]) && Has(e, REQUIRED[6]) && Has(e, REQUIRED[7]);
  }

  lemma PolicyFields(e: Json)
    requires Has(e, INDEX_SHA256)
    ensures |PolicyToSign(e).fields| == 7
    ensures forall i :: 0 <= i < 7 ==>
      PolicyToSign(e).fields[i] == Member(SIGNED_FIELDS[i], Field(e, SIGNED_FIELDS[i]))
  {
  }

  lemma PolicyIsWf(e: Json)
    requires Wf(e) && Has(e, INDEX_SHA256)
    ensures Wf(PolicyToSign(e))
    ensures |PolicyToSign(e).fields| == 7
    ensures forall i :: 0 <= i < 7 ==>
      PolicyToSign(e).fields[i] == Member(SIGNED_FIELDS[i], Field(e, SIGNED_FIELDS[i]))
  {
    PolicyFields(e);
    MembersAreWf(PolicyToSign(e).fields, e);
  }

  lemma MembersAreWf(fields: seq<Member>, e: Json)
    requires Wf(e) && |fields| == 7
    requires forall i :: 0 <= i < 7 ==> fields[i] == Member(SIGNED_FIELDS[i], Field(e, SIGNED_FIELDS[i]))
    ensures Wf(Obj(fields))
  {
    forall i | 0 <= i < 7 ensures Wf(fields[i].value) {
      FieldIsWf(e, SIGNED_FIELDS[i]);
    }
    FieldNamesDiffer();
    assert Keys(fields) == SIGNED_FIELDS;
  }

  lemma MeaningOfSignedField(e: Json, i: nat)
    requires Wf(e) && Has(e, INDEX_SHA256) && i < 7
    ensures SIGNED_FIELDS[i] in Meaning(PolicyToSign(e)).fields
    ensures Meaning(PolicyToSign(e)).fields[SIGNED_FIELDS[i]] == Meaning(Field(e, SIGNED_FIELDS[i]))
  {
    PolicyIsWf(e);
    var fields, k := PolicyToSign(e).fields, SIGNED_FIELDS[i];
    assert fields[i].key == k;
    var j :| 0 <= j < |fields| && fields[j] == Member(k, Get(fields, k));
    assert Keys(fields)[j] == Keys(fields)[i];
    assert i == j;
  }

  /** Equal signed bytes: every signed field has the same meaning. */
  lemma SignedBytesBindFields(e: Json, f: Json)
    requires Wf(e) && Wf(f) && Has(e, INDEX_SHA256) && Has(f, INDEX_SHA256)
    ensures SignedBytes(e) == SignedBytes(f) <==>
      forall i :: 0 <= i < 7 ==> Meaning(Field(e, SIGNED_FIELDS[i])) == Meaning(Field(f, SIGNED_FIELDS[i]))
  {
    PolicyIsWf(e);
    PolicyIsWf(f);
    BytesDetermineMeaning(PolicyToSign(e), PolicyToSign(f));
    var m, n := Meaning(PolicyToSign(e)).fields, Meaning(PolicyToSign(f)).fields;
    forall i | 0 <= i < 7
      ensures m[SIGNED_FIELDS[i]] == Meaning(Field(e, SIGNED_FIELDS[i]))
      ensures n[SIGNED_FIELDS[i]] == Meaning(Field(f, SIGNED_FIELDS[i]))
    {
      MeaningOfSignedField(e, i);
      MeaningOfSignedField(f, i);
    }
    if forall i :: 0 <= i < 7 ==> Meaning(Field(e, SIGNED_FIELDS[i])) == Meaning(Field(f, SIGNED_FIELDS[i])) {
      PolicyKeys(e);
      PolicyKeys(f);
      assert m == n;
    }
  }

  lemma PolicyKeys(e: Json)
    requires Wf(e) && Has(e, INDEX_SHA256)
    ensures forall k :: k in Meaning(PolicyToSign(e)).fields <==> exists i :: 0 <= i < 7 && k == SIGNED_FIELDS[i]
  {
    PolicyIsWf(e);
    var fields := PolicyToSign(e).fields;
    forall k ensures HasKey(fields, k) <==> exists i :: 0 <= i < 7 && k == SIGNED_FIELDS[i] {
      if i :| 0 <= i < 7 && k == SIGNED_FIELDS[i] { assert fields[i].key == k; }
      if HasKey(fields, k) {
        var i :| 0 <= i < |fields| && fields[i].key == k;
        assert k == SIGNED_FIELDS[i];
      }
    }
  }

  // ----- two accepted envelopes with the same signed bytes -----

  /** What an envelope means, its signature aside. */
  function Body(e: Json): map<Text, Value>
    requires e.Obj?
  {
    Meaning(e).fields - {SIGNATURE}
  }

  lemma MeaningOfField(e: Json, name: Text)
    requires Has(e, name)
    ensures name in Meaning(e).fields && Meaning(e).fields[name] == Meaning(Field(e, name))
  {
  }

  lemma SignatureIsNotRequired(i: nat)
    requires i < |REQUIRED|
    ensures REQUIRED[i] != SIGNATURE
  {
    if i == 5 { assert |STEPS| == 14; }
  }

  lemma BodyKeys(e: Json, k: Text)
    requires HasRequired(e) && OnlyAllowed(e)
    ensures k in Body(e) <==> k in REQUIRED
  {
    if k in Body(e) {
      var i :| 0 <= i < |e.fields| && e.fields[i].key == k;
      assert e.fields[i].key in ALLOWED;
    }
    if i :| 0 <= i < |REQUIRED| && REQUIRED[i] == k {
      SignatureIsNotRequired(i);
      assert Has(e, REQUIRED[i]);
    }
  }

  lemma BodyField(e: Json, k: Text)
    requires HasRequired(e) && OnlyAllowed(e) && k in REQUIRED
    ensures k in Body(e) && Body(e)[k] == Meaning(Field(e, k))
  {
    BodyKeys(e, k);
    var i :| 0 <= i < |REQUIRED| && REQUIRED[i] == k;
    assert Has(e, REQUIRED[i]);
    MeaningOfField(e, k);
  }

  lemma RequiredIsSignedOrSteps(k: Text)
    ensures k in REQUIRED <==> k == STEPS || k in SIGNED_FIELDS
  {
    assert REQUIRED[0] == SIGNED_FIELDS[1] && REQUIRED[1] == SIGNED_FIELDS[2] && REQUIRED[2] == SIGNED_FIELDS[3];
    assert REQUIRED[3] == SIGNED_FIELDS[4] && REQUIRED[4] == SIGNED_FIELDS[0] && REQUIRED[5] == STEPS;
    assert REQUIRED[6] == SIGNED_FIELDS[5] && REQUIRED[7] == SIGNED_FIELDS[6];
  }

  lemma StepsShareCodePoints(e: Json, f: Json, ctx: Context)
    requires Meaning(Field(e, SIGNED_FIELDS[5])) == Meaning(Field(f, SIGNED_FIELDS[5]))
    requires Field(e, STEPS_SHA256) == Str(ctx.host.sha256(ToBytes(StepsText(e))))
    requires Field(f, STEPS_SHA256) == Str(ctx.host.sha256(ToBytes(StepsText(f))))
    requires ctx.host.CollisionFree()
    ensures CodePoints(StepsText(e)) == CodePoints(StepsText(f))
  {
    assert SIGNED_FIELDS[5] == STEPS_SHA256;
    BytesDetermineCodePoints(StepsText(e), StepsText(f));
  }

  lemma SameMaps(m: map<Text, Value>, n: map<Text, Value>, s: Text)
    requires m.Keys == n.Keys && s in m
    requires forall k :: k in m && k != s ==> m[k] == n[k]
    ensures m - {s} == n - {s}
    ensures m == n <==> m[s] == n[s]
  {
  }

  lemma SameSignedField(e: Json, f: Json, k: Text)
    requires HasRequired(e) && OnlyAllowed(e) && HasRequired(f) && OnlyAllowed(f)
    requires k in REQUIRED && k != STEPS
    requires forall i :: 0 <= i < 7 ==> Meaning(Field(e, SIGNED_FIELDS[i])) == Meaning(Field(f, SIGNED_FIELDS[i]))
    ensures k in Body(e) && k in Body(f) && Body(e)[k] == Body(f)[k]
  {
    BodyField(e, k);
    BodyField(f, k);
    RequiredIsSignedOrSteps(k);
  }

  lemma SameBodyKeys(e: Json, f: Json)
    requires HasRequired(e) && OnlyAllowed(e) && HasRequired(f) && OnlyAllowed(f)
    ensures Body(e).Keys == Body(f).Keys
  {
    forall k ensures k in Body(e).Keys <==> k in Body(f).Keys {
      BodyKeys(e, k);
      BodyKeys(f, k);
    }
  }

  lemma SameBodyValues(e: Json, f: Json, k: Text)
    requires HasRequired(e) && OnlyAllowed(e) && HasRequired(f) && OnlyAllowed(f)
    requires forall i :: 0 <= i < 7 ==> Meaning(Field(e, SIGNED_FIELDS[i])) == Meaning(Field(f, SIGNED_FIELDS[i]))
    requires k in Body(e) && k in Body(f) && k != STEPS
    ensures Body(e)[k] == Body(f)[k]
  {
    BodyKeys(e, k);
    SameSignedField(e, f, k);
  }

  lemma StepsInBody(e: Json)
    requires HasRequired(e) && OnlyAllowed(e) && Field(e, STEPS).Str?
    ensures STEPS in Body(e) && Body(e)[STEPS] == VStr(StepsText(e))
  {
    RequiredIsSignedOrSteps(STEPS);
    BodyField(e, STEPS);
  }

  lemma SameBodies(e: Json, f: Json)
    requires HasRequired(e) && OnlyAllowed(e) && HasRequired(f) && OnlyAllowed(f)
    requires Field(e, STEPS).Str? && Field(f, STEPS).Str?
    requires forall i :: 0 <= i < 7 ==> Meaning(Field(e, SIGNED_FIELDS[i])) == Meaning(Field(f, SIGNED_FIELDS[i]))
    ensures Body(e) - {STEPS} == Body(f) - {STEPS}
    ensures Body(e) == Body(f) <==> StepsText(e) == StepsText(f)
  {
    SameBodyKeys(e, f);
    forall k | k in Body(e) && k != STEPS ensures Body(e)[k] == Body(f)[k] {
      assert k in Body(f).Keys;
      SameBodyValues(e, f, k);
    }
    StepsInBody(e);
    StepsInBody(f);
    SameMaps(Body(e), Body(f), STEPS);
  }

  /** Two accepted envelopes with equal signed bytes mean the same in every
      field but the signature and the steps; the steps have the same code
      points, so the envelopes are the same exactly when the steps are. */
  lemma SignedBytesDetermineEnvelope(e: Json, f: Json, ring: Keyring, ctx: Context)
    requires Wf(e) && Wf(f)
    requires Accepts(e, ring, ctx) && Accepts(f, ring, ctx)
    requires SignedBytes(e) == SignedBytes(f)
    requires ctx.host.CollisionFree()
    ensures e.Obj? && f.Obj?
    ensures Body(e) - {STEPS} == Body(f) - {STEPS}
    ensures CodePoints(StepsText(e)) == CodePoints(StepsText(f))
    ensures Body(e) == Body(f) <==> StepsText(e) == StepsText(f)
    ensures WellFormed(StepsText(e)) && WellFormed(StepsText(f)) ==> Body(e) == Body(f)
  {
    ShapeRulesExactly(e, ctx.host);
    ShapeRulesExactly(f, ctx.host);
    ContentRulesExactly(e, ctx);
    ContentRulesExactly(f, ctx);
    RequiredPresent(e);
    RequiredPresent(f);
    SignedBytesBindFields(e, f);
    StepsShareCodePoints(e, f, ctx);
    SameBodies(e, f);
    if WellFormed(StepsText(e)) && WellFormed(StepsText(f)) {
      WellFormedTextIsItsCodePoints(StepsText(e), StepsText(f));
    }
  }

  // ----- the exact condition -----

  // The envelope with other steps, field order kept.
  function WithSteps(e: Json, steps: Text): Json
    requires e.Obj?
  {
    Obj(seq(|e.fields|, i requires 0 <= i < |e.fields| =>
      if e.fields[i].key == STEPS then Member(STEPS, Str(steps)) else e.fields[i]))
  }

  lemma FieldAt(e: Json, i: nat)
    requires Wf(e) && e.Obj? && i < |e.fields|
    ensures Has(e, e.fields[i].key) && Field(e, e.fields[i].key) == e.fields[i].value
  {
    var k := e.fields[i].key;
    var j :| 0 <= j < |e.fields| && e.fields[j] == Member(k, Get(e.fields, k));
    assert Keys(e.fields)[i] == Keys(e.fields)[j];
  }

  lemma WithStepsIsWf(e: Json, steps: Text)
    requires Wf(e) && e.Obj?
    ensures Wf(WithSteps(e, steps))
  {
    assert Keys(WithSteps(e, steps).fields) == Keys(e.fields);
  }

  lemma WithStepsFields(e: Json, steps: Text, name: Text)
    requires Wf(e) && e.Obj?
    ensures Has(WithSteps(e, steps), name) <==> Has(e, name)
    ensures name != STEPS ==> Field(WithSteps(e, steps), name) == Field(e, name)
    ensures name == STEPS && Has(e, name) ==> Field(WithSteps(e, steps), name) == Str(steps)
  {
    var f := WithSteps(e, steps);
    WithStepsIsWf(e, steps);
    if Has(e, name) {
      var i :| 0 <= i < |e.fields| && e.fields[i].key == name;
      FieldAt(e, i);
      FieldAt(f, i);
    }
  }

  // Envelopes that differ at most in their steps.
  ghost predicate SameButSteps(e: Json, f: Json) {
    && e.Obj? && f.Obj?
    && (forall name :: Has(e, name) <==> Has(f, name))
    && (forall name :: name != STEPS ==> Field(e, name) == Field(f, name))
  }

  lemma SameButStepsShape(e: Json, f: Json, host: Host)
    requires SameButSteps(e, f) && AllHold(ShapeRules(e, host))
    ensures AllHold(ShapeRules(f, host))
  {
    ShapeRulesExactly(e, host);
    forall i | 0 <= i < |f.fields| ensures f.fields[i].key in ALLOWED {
      assert Has(f, f.fields[i].key) && Has(e, f.fields[i].key);
    }
    forall i | 0 <= i < |REQUIRED| ensures Has(f, REQUIRED[i]) {
      assert Has(e, REQUIRED[i]);
    }
    NamesAreNotSteps();
    assert Field(e, SCHEMA_FIELD) == Field(f, SCHEMA_FIELD);
    assert Field(e, POLICY) == Field(f, POLICY) && Field(e, INDEX_SHA256) == Field(f, INDEX_SHA256);
    assert ShapeRules(f, host) == ShapeRules(e, host);
  }

  lemma NamesAreNotSteps()
    ensures SCHEMA_FIELD != STEPS && AUDIENCE != STEPS && EXPIRES_AT != STEPS && KEY != STEPS
    ensures POLICY != STEPS && STEPS_SHA256 != STEPS && INDEX_SHA256 != STEPS && SIGNATURE != STEPS
  {
    assert |STEPS| == 14;
  }

  lemma SameButStepsKey(e: Json, f: Json, ring: Keyring, ctx: Context)
    requires SameButSteps(e, f)
    ensures KeyRules(f, ring, ctx) == KeyRules(e, ring, ctx)
  {
    NamesAreNotSteps();
    assert Field(e, AUDIENCE) == Field(f, AUDIENCE) && Field(e, EXPIRES_AT) == Field(f, EXPIRES_AT);
    assert Field(e, KEY) == Field(f, KEY);
  }

  lemma SameButStepsPolicy(e: Json, f: Json)
    requires SameButSteps(e, f)
    ensures PolicyToSign(e) == PolicyToSign(f)
  {
    NamesAreNotSteps();
    assert Field(e, SCHEMA_FIELD) == Field(f, SCHEMA_FIELD) && Field(e, AUDIENCE) == Field(f, AUDIENCE);
    assert Field(e, EXPIRES_AT) == Field(f, EXPIRES_AT) && Field(e, KEY) == Field(f, KEY);
    assert Field(e, POLICY) == Field(f, POLICY) && Field(e, STEPS_SHA256) == Field(f, STEPS_SHA256);
    assert Field(e, INDEX_SHA256) == Field(f, INDEX_SHA256) && (Has(e, INDEX_SHA256) <==> Has(f, INDEX_SHA256));
  }

  lemma SameButStepsSignature(e: Json, f: Json, ring: Keyring, ctx: Context)
    requires SameButSteps(e, f) && SignedBytes(e) == SignedBytes(f)
    ensures SignatureRules(f, ring, ctx) == SignatureRules(e, ring, ctx)
  {
    NamesAreNotSteps();
    assert Field(e, KEY) == Field(f, KEY) && Field(e, SIGNATURE) == Field(f, SIGNATURE);
    assert Has(e, SIGNATURE) <==> Has(f, SIGNATURE);
  }

  lemma SameButStepsContent(e: Json, f: Json, ctx: Context)
    requires SameButSteps(e, f) && AllHold(ContentRules(e, ctx))
    requires Field(f, STEPS).Str?
    requires SameAscii(StepsText(e), StepsText(f)) && ToBytes(StepsText(e)) == ToBytes(StepsText(f))
    ensures AllHold(ContentRules(f, ctx))
  {
    ContentRulesExactly(e, ctx);
    ShellLikeDependsOnAscii(StepsText(e), StepsText(f));
    NamesAreNotSteps();
    assert ContentRules(f, ctx) == ContentRules(e, ctx);
  }

  // Another accepted envelope with the same signed bytes, for steps that are
  // not faithful.
  ghost function TwinEnvelope(e: Json, ring: Keyring, ctx: Context): (f: Json)
    requires Wf(e) && Accepts(e, ring, ctx) && !Faithful(StepsText(e))
    ensures Wf(f) && Accepts(f, ring, ctx) && SignedBytes(f) == SignedBytes(e)
    ensures e.Obj? && f.Obj? && StepsText(f) != StepsText(e)
  {
    ShapeRulesExactly(e, ctx.host);
    var steps := Twin(StepsText(e));
    var f := WithSteps(e, steps);
    RequiredPresent(e);
    WithStepsIsWf(e, steps);
    assert SameButSteps(e, f) && Field(f, STEPS) == Str(steps) by {
      forall name
        ensures Has(e, name) <==> Has(f, name)
        ensures name != STEPS ==> Field(e, name) == Field(f, name)
      {
        WithStepsFields(e, steps, name);
      }
      WithStepsFields(e, steps, STEPS);
    }
    SameButStepsShape(e, f, ctx.host);
    SameButStepsKey(e, f, ring, ctx);
    SameButStepsPolicy(e, f);
    SameButStepsSignature(e, f, ring, ctx);
    SameButStepsContent(e, f, ctx);
    f
  }

  /** The signed bytes of an accepted envelope determine everything it means but
      its signature exactly when its steps hold neither a lone surrogate nor the
      replacement character that surrogates are encoded as. */
  lemma SignedBytesDetermineExactly(e: Json, ring: Keyring, ctx: Context)
    requires Wf(e) && Accepts(e, ring, ctx)
    requires ctx.host.CollisionFree()
    ensures e.Obj?
    ensures Faithful(StepsText(e)) <==>
      forall f | Wf(f) && Accepts(f, ring, ctx) && SignedBytes(f) == SignedBytes(e) ::
        f.Obj? && Body(f) == Body(e)
  {
    ShapeRulesExactly(e, ctx.host);
    if Faithful(StepsText(e)) {
      forall f | Wf(f) && Accepts(f, ring, ctx) && SignedBytes(f) == SignedBytes(e)
        ensures f.Obj? && Body(f) == Body(e)
      {
        SignedBytesDetermineEnvelope(f, e, ring, ctx);
        BytesDetermineCodePoints(StepsText(f), StepsText(e));
        BytesDetermineExactlyFaithful(StepsText(e));
      }
    } else {
      var f := TwinEnvelope(e, ring, ctx);
      SignedBytesDetermineEnvelope(f, e, ring, ctx);
      assert Body(f) != Body(e);
    }
  }
}
