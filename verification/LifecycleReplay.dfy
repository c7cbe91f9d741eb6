/** Every report that a completed run builds is accepted when its file is found again. */
module LifecycleReplay {
  import opened Basics
  import opened Utf8
  import opened CanonicalJson
  import opened CanonicalJsonTheorems
  import opened CanonicalText
  import opened LifecycleReport
  import opened LifecycleProof
  import opened CanonicalForm
  import opened LifecycleRules

  // ---------- The body ----------

  lemma BodyKeys(v: Fields)
    ensures |BodyOf(v)| == |BODY_KEYS| == 19
    ensures forall k | 0 <= k < 19 :: BodyOf(v)[k].key == BODY_KEYS[k] == REPORT_KEYS[k] && BodyOf(v)[k].value.Some?
    ensures REPORT_KEYS[19] == PROOF_DIGEST && REPORT_KEYS[20] == PROOF_KEY_ID && REPORT_KEYS[21] == PROOF_MAC
    ensures |REPORT_KEYS| == 22
  {
    hide VERSION, INPUT_DIGEST, API_ORIGIN, TENANT_ID, ADAPTER_ID, TRAINING_JOB_ID, EVALUATION_ID, CANARY_ID,
         ADAPTER_DIGEST, EVALUATION_ARTIFACT_ID, EVALUATION, CANARY, LIFECYCLE_REVISION, PROOF_CHECKPOINT,
         ROLLBACK_LIFECYCLE_REVISION, ELIGIBLE_BEFORE_ROLLBACK, ROLLED_BACK, ELIGIBLE_AFTER_ROLLBACK, ROLLBACK_REASON,
         PROOF_DIGEST, PROOF_KEY_ID, PROOF_MAC;
  }

  lemma KeysDiffer()
    ensures forall i, j | 0 <= i < j < 22 :: REPORT_KEYS[i] != REPORT_KEYS[j]
  {
    hide Rank, REPORT_KEYS;
    KeyRanks();
    forall i, j | 0 <= i < j < 22 ensures REPORT_KEYS[i] != REPORT_KEYS[j] {
      assert Rank(REPORT_KEYS[i]) == i && Rank(REPORT_KEYS[j]) == j;
    }
  }

  /** The nested objects have distinct keys and printable values. */
  lemma NestedWellFormed(f: Formats, v: Fields)
    requires Checked(f, v)
    ensures WellFormed(JObject(EvaluationOf(v))) && WellFormed(JObject(CanaryOf(v)))
      && WellFormed(JObject(CheckpointOf(v)))
  {
    hide IsIdentifier, IsShaText, IsHex64, EvidenceRefs, NonBlank, Decimal, ValidNumber;
    StringsWellFormed(v.evidenceRefs);
    assert |SERVING_REVISION| == 15 && |OBSERVED_AT| == 10 && |EVIDENCE_REFS| == 12;
    assert |EVENT_ID| == 7 && |EVENT_HASH| == 9 && |EVENT_SEQUENCE| == 13 && |OBSERVATION_DIGEST| == 28;
  }

  lemma StringsWellFormed(texts: seq<Text>)
    ensures WellFormed(JArray(JStrings(texts)))
  {
  }

  lemma BodyValues(f: Formats, v: Fields)
    requires Checked(f, v)
    ensures |BodyOf(v)| == 19 && forall k | 0 <= k < 19 ::
      BodyOf(v)[k].value.Some? && WellFormed(BodyOf(v)[k].value.value)
  {
    hide Checked, Decimal, ValidNumber, EvaluationOf, CanaryOf, CheckpointOf;
    NestedWellFormed(f, v);
  }

  lemma BodyIsProper(f: Formats, v: Fields)
    requires Checked(f, v)
    ensures ProperBody(BodyOf(v))
  {
    hide BodyOf, Checked, BODY_KEYS, REPORT_KEYS, Rank, PROOF_DIGEST, PROOF_KEY_ID, PROOF_MAC;
    BodyKeys(v);
    KeysDiffer();
    BodyValues(f, v);
    var body := BodyOf(v);
    forall k | 0 <= k < |body| ensures body[k].key !in {PROOF_DIGEST, PROOF_MAC, PROOF_KEY_ID} {
      assert body[k].key == REPORT_KEYS[k];
    }
  }

  // ---------- What reads back ----------

  /** The members of the report as its file gives them. */
  function ReadMembers(c: Checks, a: Authority, v: Fields): seq<Member>
    requires Canon(BuildReport(c, a, BodyOf(v))).JObject?
  {
    Canon(BuildReport(c, a, BodyOf(v))).members
  }

  lemma ReportIsObject(c: Checks, a: Authority, v: Fields)
    ensures Canon(BuildReport(c, a, BodyOf(v))).JObject?
  {
    hide BodyOf, Canon;
    CanonKeepsObject(BuildReport(c, a, BodyOf(v)).members);
  }

  /** Every field of the body reads back as its canonical value. */
  lemma FieldReads(c: Checks, a: Authority, v: Fields, k: nat)
    requires Checked(c.formats, v) && k < 19
    ensures Canon(BuildReport(c, a, BodyOf(v))).JObject?
    ensures |BODY_KEYS| == 19 && |BodyOf(v)| == 19 && BodyOf(v)[k].value.Some?
    ensures Lookup(ReadMembers(c, a, v), BODY_KEYS[k]) == Some(Canon(BodyOf(v)[k].value.value))
  {
    hide BodyOf, Checked, BODY_KEYS, REPORT_KEYS, Rank, PROOF_DIGEST, PROOF_KEY_ID, PROOF_MAC, BuildReport,
         Canon, Lookup;
    ReportIsObject(c, a, v);
    BodyKeys(v);
    KeysDiffer();
    BodyIsProper(c.formats, v);
    var body, key := BodyOf(v), BODY_KEYS[k];
    BuiltFields(c, a, body, key);
    LookupAt(body, k);
    LookupCanon(BuildReport(c, a, body).members, key);
  }

  lemma ProofFieldsRead(c: Checks, a: Authority, v: Fields)
    requires Checked(c.formats, v)
    ensures Canon(BuildReport(c, a, BodyOf(v))).JObject?
    ensures forall key | key in {PROOF_DIGEST, PROOF_KEY_ID, PROOF_MAC} ::
      Lookup(ReadMembers(c, a, v), key).Some? && Lookup(ReadMembers(c, a, v), key).value.JString?
    ensures DistinctKeys(ReadMembers(c, a, v))
  {
    hide BodyOf, Checked, PROOF_DIGEST, PROOF_KEY_ID, PROOF_MAC, BuildReport, Canon, Lookup, MacInput;
    ReportIsObject(c, a, v);
    BodyIsProper(c.formats, v);
    BuiltFields(c, a, BodyOf(v), []);
    var members := BuildReport(c, a, BodyOf(v)).members;
    forall key | key in {PROOF_DIGEST, PROOF_KEY_ID, PROOF_MAC}
      ensures Lookup(ReadMembers(c, a, v), key).Some? && Lookup(ReadMembers(c, a, v), key).value.JString?
    {
      LookupCanon(members, key);
      LeafCanon(Lookup(members, key).value);
    }
    LookupCanon(members, []);
  }

  lemma LeafCanon(v: Json)
    requires v.JString? || v.JNumber? || v.JBool?
    ensures Canon(v) == v
  {
  }

  /** The report that is read has exactly the keys of the format. */
  lemma KeysRead(c: Checks, a: Authority, v: Fields)
    requires Checked(c.formats, v)
    ensures Canon(BuildReport(c, a, BodyOf(v))).JObject? && HasExactlyKeys(ReadMembers(c, a, v), REPORT_KEYS)
  {
    hide BodyOf, Checked, BODY_KEYS, REPORT_KEYS, Rank, PROOF_DIGEST, PROOF_KEY_ID, PROOF_MAC, BuildReport,
         Canon, Lookup, ReadMembers;
    ReportIsObject(c, a, v);
    BodyKeys(v);
    ProofFieldsRead(c, a, v);
    forall k | 0 <= k < |REPORT_KEYS| ensures Lookup(ReadMembers(c, a, v), REPORT_KEYS[k]).Some? {
      if k < 19 {
        FieldReads(c, a, v, k);
      }
    }
    var members := ReadMembers(c, a, v);
    forall k | 0 <= k < |members| && members[k].value.Some? ensures members[k].key in REPORT_KEYS {
      LookupAt(members, k);
      KeyComesFromBody(c, a, v, members[k].key);
    }
  }

  lemma KeyComesFromBody(c: Checks, a: Authority, v: Fields, key: Text)
    requires Checked(c.formats, v) && Canon(BuildReport(c, a, BodyOf(v))).JObject?
    requires Lookup(ReadMembers(c, a, v), key).Some?
    ensures key in REPORT_KEYS
  {
    hide BodyOf, Checked, BODY_KEYS, REPORT_KEYS, Rank, PROOF_DIGEST, PROOF_KEY_ID, PROOF_MAC, BuildReport,
         Canon, Lookup;
    BodyKeys(v);
    BodyIsProper(c.formats, v);
    var body := BodyOf(v);
    BuiltFields(c, a, body, key);
    LookupCanon(BuildReport(c, a, body).members, key);
    if key in {PROOF_DIGEST, PROOF_KEY_ID, PROOF_MAC} {
      assert REPORT_KEYS[19] in REPORT_KEYS && REPORT_KEYS[20] in REPORT_KEYS && REPORT_KEYS[21] in REPORT_KEYS;
    } else {
      var k :| 0 <= k < |body| && body[k] == Member(key, Lookup(body, key));
      assert REPORT_KEYS[k] in REPORT_KEYS;
    }
  }

  // ---------- What stands under each key ----------

  lemma NestedReads(members: seq<Member>, k: nat)
    requires DistinctKeys(members) && k < |members| && members[k].value.Some?
    ensures Canon(JObject(members)).JObject?
    ensures Lookup(Canon(JObject(members)).members, members[k].key) == Some(Canon(members[k].value.value))
  {
    hide Canon, Lookup;
    CanonKeepsObject(members);
    LookupAt(members, k);
    LookupCanon(members, members[k].key);
  }

  /** A string, number or flag of the body reads back as it is. */
  lemma LeafReads(c: Checks, a: Authority, v: Fields, k: nat, key: Text, value: Json)
    requires Checked(c.formats, v) && k < |BodyOf(v)| && BodyOf(v)[k] == Member(key, Some(value))
    requires value.JString? || value.JNumber? || value.JBool?
    ensures Canon(BuildReport(c, a, BodyOf(v))).JObject?
    ensures Lookup(ReadMembers(c, a, v), key) == Some(value)
  {
    hide BuildReport, Lookup, ReadMembers, BodyOf, Checked, BODY_KEYS, REPORT_KEYS, Canon;
    ReportIsObject(c, a, v);
    BodyKeys(v);
    FieldReads(c, a, v, k);
    LeafCanon(value);
  }

  /** The texts at the start of the body, by position. */
  lemma BodyTexts(v: Fields)
    ensures |BodyOf(v)| == 19
    ensures BodyOf(v)[0] == Member(VERSION, Some(JString(PROOF_VERSION)))
    ensures BodyOf(v)[1] == Member(INPUT_DIGEST, Some(JString(v.inputDigest)))
    ensures BodyOf(v)[2] == Member(API_ORIGIN, Some(JString(v.apiOrigin)))
    ensures BodyOf(v)[8] == Member(ADAPTER_DIGEST, Some(JString(v.adapterDigest)))
  {
    hide Decimal, CanaryOf, CheckpointOf, EvaluationOf;
    hide VERSION, INPUT_DIGEST, API_ORIGIN, TENANT_ID, ADAPTER_ID, TRAINING_JOB_ID, EVALUATION_ID, CANARY_ID,
         ADAPTER_DIGEST, EVALUATION_ARTIFACT_ID, EVALUATION, CANARY, LIFECYCLE_REVISION, PROOF_CHECKPOINT,
         ROLLBACK_LIFECYCLE_REVISION, ELIGIBLE_BEFORE_ROLLBACK, ROLLED_BACK, ELIGIBLE_AFTER_ROLLBACK,
         ROLLBACK_REASON, PROOF_VERSION, NOT_SERVABLE;
  }

  lemma BodyIdentifiers(v: Fields)
    ensures |BodyOf(v)| == 19
    ensures BodyOf(v)[3] == Member(TENANT_ID, Some(JString(v.tenantId)))
    ensures BodyOf(v)[4] == Member(ADAPTER_ID, Some(JString(v.adapterId)))
    ensures BodyOf(v)[5] == Member(TRAINING_JOB_ID, Some(JString(v.trainingJobId)))
    ensures BodyOf(v)[6] == Member(EVALUATION_ID, Some(JString(v.evaluationId)))
    ensures BodyOf(v)[7] == Member(CANARY_ID, Some(JString(v.canaryId)))
    ensures BodyOf(v)[9] == Member(EVALUATION_ARTIFACT_ID, Some(JString(v.evaluationArtifactId)))
  {
    hide Decimal, CanaryOf, CheckpointOf, EvaluationOf;
    hide VERSION, INPUT_DIGEST, API_ORIGIN, TENANT_ID, ADAPTER_ID, TRAINING_JOB_ID, EVALUATION_ID, CANARY_ID,
         ADAPTER_DIGEST, EVALUATION_ARTIFACT_ID, EVALUATION, CANARY, LIFECYCLE_REVISION, PROOF_CHECKPOINT,
         ROLLBACK_LIFECYCLE_REVISION, ELIGIBLE_BEFORE_ROLLBACK, ROLLED_BACK, ELIGIBLE_AFTER_ROLLBACK,
         ROLLBACK_REASON, PROOF_VERSION, NOT_SERVABLE;
  }

  lemma BodyRollback(v: Fields)
    ensures |BodyOf(v)| == 19
    ensures BodyOf(v)[12] == Member(LIFECYCLE_REVISION, Some(JNumber(Decimal(v.lifecycleRevision))))
    ensures BodyOf(v)[14] == Member(ROLLBACK_LIFECYCLE_REVISION, Some(JNumber(Decimal(v.lifecycleRevision + 1))))
    ensures BodyOf(v)[15] == Member(ELIGIBLE_BEFORE_ROLLBACK, Some(JBool(true)))
    ensures BodyOf(v)[16] == Member(ROLLED_BACK, Some(JBool(true)))
    ensures BodyOf(v)[17] == Member(ELIGIBLE_AFTER_ROLLBACK, Some(JBool(false)))
    ensures BodyOf(v)[18] == Member(ROLLBACK_REASON, Some(JString(NOT_SERVABLE)))
  {
    hide Decimal, CanaryOf, CheckpointOf, EvaluationOf;
    hide VERSION, INPUT_DIGEST, API_ORIGIN, TENANT_ID, ADAPTER_ID, TRAINING_JOB_ID, EVALUATION_ID, CANARY_ID,
         ADAPTER_DIGEST, EVALUATION_ARTIFACT_ID, EVALUATION, CANARY, LIFECYCLE_REVISION, PROOF_CHECKPOINT,
         ROLLBACK_LIFECYCLE_REVISION, ELIGIBLE_BEFORE_ROLLBACK, ROLLED_BACK, ELIGIBLE_AFTER_ROLLBACK,
         ROLLBACK_REASON, PROOF_VERSION, NOT_SERVABLE;
  }

  lemma BodyObjects(v: Fields)
    ensures |BodyOf(v)| == 19
    ensures BodyOf(v)[10] == Member(EVALUATION, Some(JObject(EvaluationOf(v))))
    ensures BodyOf(v)[11] == Member(CANARY, Some(JObject(CanaryOf(v))))
    ensures BodyOf(v)[13] == Member(PROOF_CHECKPOINT, Some(JObject(CheckpointOf(v))))
  {
    hide Decimal, CanaryOf, CheckpointOf, EvaluationOf;
    hide VERSION, INPUT_DIGEST, API_ORIGIN, TENANT_ID, ADAPTER_ID, TRAINING_JOB_ID, EVALUATION_ID, CANARY_ID,
         ADAPTER_DIGEST, EVALUATION_ARTIFACT_ID, EVALUATION, CANARY, LIFECYCLE_REVISION, PROOF_CHECKPOINT,
         ROLLBACK_LIFECYCLE_REVISION, ELIGIBLE_BEFORE_ROLLBACK, ROLLED_BACK, ELIGIBLE_AFTER_ROLLBACK,
         ROLLBACK_REASON, PROOF_VERSION, NOT_SERVABLE;
  }

  /** The value of the body reads back under its key. */
  lemma KeyReads(c: Checks, a: Authority, v: Fields, k: nat, key: string, value: Json)
    requires Checked(c.formats, v) && k < |BodyOf(v)| && BodyOf(v)[k] == Member(FromAscii(key), Some(value))
    requires value.JString? || value.JNumber? || value.JBool?
    ensures Canon(BuildReport(c, a, BodyOf(v))).JObject? && Holds(ReadMembers(c, a, v), key, value)
  {
    hide BuildReport, Lookup, BodyOf, Checked, BODY_KEYS, REPORT_KEYS, Canon, FromAscii, Holds;
    LeafReads(c, a, v, k, FromAscii(key), value);
    ProofFieldsRead(c, a, v);
    HoldsExactly(ReadMembers(c, a, v), key);
  }

  /** The texts that name the run and its subject, by key. */
  ghost predicate HoldsTexts(members: seq<Member>, v: Fields) {
    && Holds(members, "version", JString(FromAscii("2026-08-30.v1")))
    && Holds(members, "inputDigest", JString(v.inputDigest)) && Holds(members, "apiOrigin", JString(v.apiOrigin))
    && Holds(members, "adapterDigest", JString(v.adapterDigest))
    && Holds(members, "tenantId", JString(v.tenantId)) && Holds(members, "adapterId", JString(v.adapterId))
    && Holds(members, "trainingJobId", JString(v.trainingJobId))
    && Holds(members, "evaluationId", JString(v.evaluationId)) && Holds(members, "canaryId", JString(v.canaryId))
    && Holds(members, "evaluationArtifactId", JString(v.evaluationArtifactId))
  }

  /** Rolling back took the lifecycle to the next revision, and the adapter out of service. */
  ghost predicate HoldsRollback(members: seq<Member>, v: Fields) {
    && Holds(members, "lifecycleRevision", JNumber(Decimal(v.lifecycleRevision)))
    && Holds(members, "rollbackLifecycleRevision", JNumber(Decimal(v.lifecycleRevision + 1)))
    && Holds(members, "eligibleBeforeRollback", JBool(true)) && Holds(members, "rolledBack", JBool(true))
    && Holds(members, "eligibleAfterRollback", JBool(false))
    && Holds(members, "rollbackReason", JString(FromAscii("lifecycle_not_servable")))
  }

  ghost predicate HoldsEvaluation(members: seq<Member>, v: Fields) {
    exists e: seq<Member> | |e| == 2 :: Holds(members, "evaluation", JObject(e)) &&
      Holds(e, "successRate", JNumber(v.successRate)) && Holds(e, "regressionRate", JNumber(v.regressionRate))
  }

  ghost predicate HoldsCanary(members: seq<Member>, v: Fields) {
    exists e: seq<Member> | |e| == 3 :: Holds(members, "canary", JObject(e)) &&
      Holds(e, "servingRevision", JString(v.servingRevision)) && Holds(e, "observedAt", JString(v.observedAt)) &&
      Holds(e, "evidenceRefs", JArray(JStrings(v.evidenceRefs)))
  }

  ghost predicate HoldsCheckpoint(members: seq<Member>, v: Fields) {
    exists e: seq<Member> | |e| == 5 :: Holds(members, "proofCheckpoint", JObject(e)) &&
      Holds(e, "eventId", JString(v.eventId)) && Holds(e, "eventHash", JString(v.eventHash)) &&
      Holds(e, "eventSequence", JNumber(Decimal(v.eventSequence))) &&
      Holds(e, "eligibilityObservationDigest", JString(v.observationDigest)) &&
      Holds(e, "observedAt", JString(v.checkpointObservedAt))
  }

  /** Each value of the run stands under its own key. */
  ghost predicate HoldsFields(members: seq<Member>, v: Fields) {
    && HoldsTexts(members, v) && HoldsRollback(members, v) && HoldsEvaluation(members, v) && HoldsCanary(members, v)
    && HoldsCheckpoint(members, v)
  }

  lemma TextsRead(c: Checks, a: Authority, v: Fields)
    requires Checked(c.formats, v)
    ensures Canon(BuildReport(c, a, BodyOf(v))).JObject? && HoldsTexts(ReadMembers(c, a, v), v)
  {
    hide BuildReport, ReadMembers, Checked, Canon, BodyOf, Holds, FromAscii;
    BodyTexts(v);
    BodyIdentifiers(v);
    KeyReads(c, a, v, 0, "version", JString(PROOF_VERSION));
    KeyReads(c, a, v, 1, "inputDigest", JString(v.inputDigest));
    KeyReads(c, a, v, 2, "apiOrigin", JString(v.apiOrigin));
    KeyReads(c, a, v, 8, "adapterDigest", JString(v.adapterDigest));
    KeyReads(c, a, v, 3, "tenantId", JString(v.tenantId));
    KeyReads(c, a, v, 4, "adapterId", JString(v.adapterId));
    KeyReads(c, a, v, 5, "trainingJobId", JString(v.trainingJobId));
    KeyReads(c, a, v, 6, "evaluationId", JString(v.evaluationId));
    KeyReads(c, a, v, 7, "canaryId", JString(v.canaryId));
    KeyReads(c, a, v, 9, "evaluationArtifactId", JString(v.evaluationArtifactId));
  }

  lemma RollbackReads(c: Checks, a: Authority, v: Fields)
    requires Checked(c.formats, v)
    ensures Canon(BuildReport(c, a, BodyOf(v))).JObject? && HoldsRollback(ReadMembers(c, a, v), v)
  {
    hide BuildReport, ReadMembers, Checked, Canon, BodyOf, Holds, FromAscii, Decimal;
    BodyRollback(v);
    KeyReads(c, a, v, 12, "lifecycleRevision", JNumber(Decimal(v.lifecycleRevision)));
    KeyReads(c, a, v, 14, "rollbackLifecycleRevision", JNumber(Decimal(v.lifecycleRevision + 1)));
    KeyReads(c, a, v, 15, "eligibleBeforeRollback", JBool(true));
    KeyReads(c, a, v, 16, "rolledBack", JBool(true));
    KeyReads(c, a, v, 17, "eligibleAfterRollback", JBool(false));
    KeyReads(c, a, v, 18, "rollbackReason", JString(NOT_SERVABLE));
  }

  /** A nested object reads back in canonical order, still with its keys and values. */
  lemma ObjectReadsBack(c: Checks, a: Authority, v: Fields, k: nat, key: string, members: seq<Member>)
    requires Checked(c.formats, v) && k < |BodyOf(v)| && BodyOf(v)[k] == Member(FromAscii(key), Some(JObject(members)))
    ensures Canon(BuildReport(c, a, BodyOf(v))).JObject? && Canon(JObject(members)).JObject?
    ensures Holds(ReadMembers(c, a, v), key, Canon(JObject(members)))
  {
    hide BuildReport, Lookup, BodyOf, Checked, BODY_KEYS, REPORT_KEYS, Canon, FromAscii, Holds;
    BodyKeys(v);
    FieldReads(c, a, v, k);
    CanonKeepsObject(members);
    ProofFieldsRead(c, a, v);
    HoldsExactly(ReadMembers(c, a, v), key);
  }

  lemma NestedHolds(members: seq<Member>, k: nat, key: string, value: Json)
    requires DistinctKeys(members) && k < |members| && members[k] == Member(FromAscii(key), Some(value))
    requires Canon(value) == value
    ensures Canon(JObject(members)).JObject? && Holds(Canon(JObject(members)).members, key, value)
  {
    hide Canon, Lookup, FromAscii, Holds;
    NestedReads(members, k);
    LookupCanon(members, []);
    HoldsExactly(Canon(JObject(members)).members, key);
  }

  lemma CanonLength(members: seq<Member>)
    requires forall k | 0 <= k < |members| :: members[k].value.Some?
    ensures Canon(JObject(members)).JObject? && |Canon(JObject(members)).members| == |members|
  {
    hide Canon, SortByKey, CanonMembers;
    CanonMembersLength(members);
    SortKeeps(CanonMembers(members));
    CanonIsSorted(members);
    SameLength(SortByKey(CanonMembers(members)), CanonMembers(members));
  }

  lemma CanonIsSorted(members: seq<Member>)
    ensures Canon(JObject(members)) == JObject(AsMembers(SortByKey(CanonMembers(members))))
  {
  }

  lemma SameLength<T>(xs: seq<T>, ys: seq<T>)
    requires multiset(xs) == multiset(ys)
    ensures |xs| == |ys|
  {
    assert |multiset(xs)| == |xs| && |multiset(ys)| == |ys|;
  }

  lemma {:induction false} CanonMembersLength(members: seq<Member>)
    requires forall k | 0 <= k < |members| :: members[k].value.Some?
    ensures |CanonMembers(members)| == |members|
  {
    if members != [] {
      assert forall k | 0 <= k < |members[1..]| :: members[1..][k] == members[k + 1];
      CanonMembersLength(members[1..]);
    }
  }

  lemma StringsCanon(texts: seq<Text>)
    ensures Canon(JArray(JStrings(texts))) == JArray(JStrings(texts))
  {
    var items := JStrings(texts);
    forall k | 0 <= k < |items| ensures CanonItems(items)[k] == items[k] {
      LeafCanon(items[k]);
    }
    assert CanonItems(items) == items;
  }

  lemma EvaluationReads(c: Checks, a: Authority, v: Fields)
    requires Checked(c.formats, v)
    ensures Canon(BuildReport(c, a, BodyOf(v))).JObject? && HoldsEvaluation(ReadMembers(c, a, v), v)
  {
    hide BuildReport, ReadMembers, Checked, Canon, BodyOf, Holds, FromAscii;
    var e := EvaluationOf(v);
    BodyObjects(v);
    ObjectReadsBack(c, a, v, 10, "evaluation", e);
    NestedWellFormed(c.formats, v);
    CanonLength(e);
    LeafCanon(e[0].value.value);
    LeafCanon(e[1].value.value);
    NestedHolds(e, 0, "successRate", JNumber(v.successRate));
    NestedHolds(e, 1, "regressionRate", JNumber(v.regressionRate));
  }

  lemma CanaryReads(c: Checks, a: Authority, v: Fields)
    requires Checked(c.formats, v)
    ensures Canon(BuildReport(c, a, BodyOf(v))).JObject? && HoldsCanary(ReadMembers(c, a, v), v)
  {
    hide BuildReport, ReadMembers, Checked, Canon, BodyOf, Holds, FromAscii;
    var e := CanaryOf(v);
    BodyObjects(v);
    ObjectReadsBack(c, a, v, 11, "canary", e);
    NestedWellFormed(c.formats, v);
    CanonLength(e);
    LeafCanon(e[0].value.value);
    LeafCanon(e[1].value.value);
    StringsCanon(v.evidenceRefs);
    NestedHolds(e, 0, "servingRevision", JString(v.servingRevision));
    NestedHolds(e, 1, "observedAt", JString(v.observedAt));
    NestedHolds(e, 2, "evidenceRefs", JArray(JStrings(v.evidenceRefs)));
  }

  lemma CheckpointReads(c: Checks, a: Authority, v: Fields)
    requires Checked(c.formats, v)
    ensures Canon(BuildReport(c, a, BodyOf(v))).JObject? && HoldsCheckpoint(ReadMembers(c, a, v), v)
  {
    hide BuildReport, ReadMembers, Checked, Canon, BodyOf, Holds, FromAscii, Decimal;
    var e := CheckpointOf(v);
    BodyObjects(v);
    ObjectReadsBack(c, a, v, 13, "proofCheckpoint", e);
    NestedWellFormed(c.formats, v);
    CanonLength(e);
    forall k | 0 <= k < 5 ensures Canon(e[k].value.value) == e[k].value.value {
      LeafCanon(e[k].value.value);
    }
    NestedHolds(e, 0, "eventId", JString(v.eventId));
    NestedHolds(e, 1, "eventHash", JString(v.eventHash));
    NestedHolds(e, 2, "eventSequence", JNumber(Decimal(v.eventSequence)));
    NestedHolds(e, 3, "eligibilityObservationDigest", JString(v.observationDigest));
    NestedHolds(e, 4, "observedAt", JString(v.checkpointObservedAt));
  }

  /** The report that is read back has one member for each name, with the value that was checked. */
  lemma ReportHolds(c: Checks, a: Authority, v: Fields)
    requires Checked(c.formats, v)
    ensures Canon(BuildReport(c, a, BodyOf(v))).JObject?
    ensures DistinctKeys(ReadMembers(c, a, v)) && HasNames(ReadMembers(c, a, v)) && HoldsFields(ReadMembers(c, a, v), v)
  {
    hide BuildReport, ReadMembers, Checked, Canon, BodyOf, HoldsTexts, HoldsRollback, HoldsEvaluation, HoldsCanary,
         HoldsCheckpoint, HasExactlyKeys, HasNames;
    ProofFieldsRead(c, a, v);
    KeysRead(c, a, v);
    KeysExactly(ReadMembers(c, a, v));
    TextsRead(c, a, v);
    RollbackReads(c, a, v);
    EvaluationReads(c, a, v);
    CanaryReads(c, a, v);
    CheckpointReads(c, a, v);
  }

  // ---------- The field rules hold ----------

  lemma EvaluationLegal(f: Formats, members: seq<Member>, v: Fields)
    requires LegalValues(f, v) && HoldsEvaluation(members, v)
    ensures HasEvaluation(f, members)
  {
    hide Holds, FromAscii, ShaText, Identifier, Hex64, HasText;
    var e: seq<Member> :| |e| == 2 && Holds(members, "evaluation", JObject(e)) &&
      Holds(e, "successRate", JNumber(v.successRate)) && Holds(e, "regressionRate", JNumber(v.regressionRate));
    assert RateUnder(f, e, "successRate") && RateUnder(f, e, "regressionRate");
  }

  lemma CanaryLegal(f: Formats, members: seq<Member>, v: Fields)
    requires LegalValues(f, v) && HoldsCanary(members, v)
    ensures HasCanary(f, members)
  {
    hide Holds, FromAscii, ShaText, Identifier, Hex64, HasText;
    var e: seq<Member> :| |e| == 3 && Holds(members, "canary", JObject(e)) &&
      Holds(e, "servingRevision", JString(v.servingRevision)) && Holds(e, "observedAt", JString(v.observedAt)) &&
      Holds(e, "evidenceRefs", JArray(JStrings(v.evidenceRefs)));
    assert LegalRefs(JStrings(v.evidenceRefs));
    assert TextUnder(e, "servingRevision") && TimeUnder(f, e, "observedAt");
  }

  lemma CheckpointLegal(f: Formats, members: seq<Member>, v: Fields)
    requires LegalValues(f, v) && HoldsCheckpoint(members, v)
    ensures HasCheckpoint(f, members)
  {
    hide Holds, FromAscii, ShaText, Identifier, Hex64, HasText, Decimal, IntegerOf;
    DecimalDenotes(v.eventSequence);
    var e: seq<Member> :| |e| == 5 && Holds(members, "proofCheckpoint", JObject(e)) &&
      Holds(e, "eventId", JString(v.eventId)) && Holds(e, "eventHash", JString(v.eventHash)) &&
      Holds(e, "eventSequence", JNumber(Decimal(v.eventSequence))) &&
      Holds(e, "eligibilityObservationDigest", JString(v.observationDigest)) &&
      Holds(e, "observedAt", JString(v.checkpointObservedAt));
    assert CountUnder(e, "eventSequence", v.eventSequence);
    assert IdentifierUnder(e, "eventId") && HexUnder(e, "eventHash");
    assert ShaUnder(e, "eligibilityObservationDigest") && TimeUnder(f, e, "observedAt");
  }

  lemma RollbackLegal(f: Formats, members: seq<Member>, v: Fields)
    requires LegalValues(f, v) && HoldsRollback(members, v)
    ensures IsRolledBack(members)
  {
    hide Holds, ShaText, Identifier, Hex64, HasText, Decimal, IntegerOf;
    DecimalDenotes(v.lifecycleRevision);
    DecimalDenotes(v.lifecycleRevision + 1);
    assert CountUnder(members, "lifecycleRevision", v.lifecycleRevision);
    assert CountUnder(members, "rollbackLifecycleRevision", v.lifecycleRevision + 1);
  }

  lemma TextsLegal(f: Formats, members: seq<Member>, v: Fields)
    requires LegalValues(f, v) && HoldsTexts(members, v)
    ensures NamesRun(members)
  {
    hide Holds, ShaText, Identifier, Hex64, HasText;
  }

  /** Whatever the run checked satisfies every rule of the validator, once read back. */
  lemma BuiltFieldsAreValid(c: Checks, a: Authority, v: Fields)
    requires Checked(c.formats, v)
    ensures Canon(BuildReport(c, a, BodyOf(v))).JObject? && LegalFields(c.formats, ReadMembers(c, a, v))
    ensures ValidFields(c.formats, ReadMembers(c, a, v))
  {
    hide BuildReport, Checked, BodyOf, Canon, HasNames, HoldsTexts, HoldsRollback, HoldsEvaluation, HoldsCanary,
         HoldsCheckpoint, ValidFields, NamesRun, HasEvaluation, HasCanary, HasCheckpoint, IsRolledBack, LegalValues;
    ReportHolds(c, a, v);
    var members := ReadMembers(c, a, v);
    CheckedExactly(c.formats, v);
    TextsLegal(c.formats, members, v);
    RollbackLegal(c.formats, members, v);
    EvaluationLegal(c.formats, members, v);
    CanaryLegal(c.formats, members, v);
    CheckpointLegal(c.formats, members, v);
    BodyIsProper(c.formats, v);
    BuiltFields(c, a, BodyOf(v), []);
    CanonIsStable(BuildReport(c, a, BodyOf(v)));
    FieldsExactly(c.formats, members);
  }

  // ---------- The file is small enough ----------

  function MemberBound(m: Member): nat {
    if m.value.Some? then 6 * |m.key| + ByteBound(m.value.value) + 4 else 0
  }

  lemma {:induction false} BoundConcat(a: seq<Member>, b: seq<Member>)
    ensures MembersBound(a + b) == MembersBound(a) + MembersBound(b)
  {
    if a == [] {
      assert a + b == b;
    } else {
      BoundConcat(a[1..], b);
      assert (a + b)[1..] == a[1..] + b;
    }
  }

  lemma {:induction false} UniformBound(members: seq<Member>, each: nat)
    requires forall k | 0 <= k < |members| :: MemberBound(members[k]) <= each
    ensures MembersBound(members) <= |members| * each
  {
    hide ByteBound;
    if members != [] {
      UniformBound(members[1..], each);
      OneMore(|members| - 1, each);
    }
  }

  lemma OneMore(n: nat, each: nat)
    ensures (n + 1) * each == n * each + each
  {
  }

  lemma ThreeRuns(a: nat, b: nat, c: nat, n: nat, each: nat)
    requires a + b + c <= n
    ensures a * each + b * each + c * each <= n * each
  {
    assert a * each + b * each + c * each == (a + b + c) * each;
    assert (n - a - b - c) * each >= 0;
  }

  lemma OneBound(m: Member)
    ensures MembersBound([m]) == MemberBound(m)
  {
    hide ByteBound;
    assert [m][1..] == [];
  }

  /** Every member at most `each`, but for two. */
  lemma AllButTwo(members: seq<Member>, i: nat, j: nat, each: nat)
    requires i < j < |members|
    requires forall k | 0 <= k < |members| && k != i && k != j :: MemberBound(members[k]) <= each
    ensures MembersBound(members) <= |members| * each + MemberBound(members[i]) + MemberBound(members[j])
  {
    hide MembersBound, MemberBound;
    var a, b, c := members[..i], members[i + 1..j], members[j + 1..];
    UniformBound(a, each);
    UniformBound(b, each);
    UniformBound(c, each);
    OneBound(members[i]);
    OneBound(members[j]);
    BoundConcat(a, [members[i]]);
    BoundConcat(a + [members[i]], b);
    BoundConcat(a + [members[i]] + b, [members[j]]);
    BoundConcat(a + [members[i]] + b + [members[j]], c);
    assert members == a + [members[i]] + b + [members[j]] + c;
    ThreeRuns(|a|, |b|, |c|, |members|, each);
  }

  lemma ListBound(members: seq<Member>, k: nat)
    requires k < |members|
    ensures MembersBound(members[k..]) == MemberBound(members[k]) + MembersBound(members[k + 1..])
  {
    hide ByteBound;
    assert members[k..][1..] == members[k + 1..];
  }

  lemma {:induction false} StringsBound(texts: seq<Text>, most: nat)
    requires forall k | 0 <= k < |texts| :: |texts[k]| <= most
    ensures ItemsBound(JStrings(texts)) <= |texts| * (6 * most + 3)
  {
    if texts != [] {
      StringsBound(texts[1..], most);
      assert JStrings(texts)[1..] == JStrings(texts[1..]);
      assert ByteBound(JStrings(texts)[0]) == 6 * |texts[0]| + 2;
    }
  }

  lemma NameLengths()
    ensures forall k | 0 <= k < |REPORT_KEYS| :: |REPORT_KEYS[k]| <= 25
    ensures |EVALUATION| == 10 && |CANARY| == 6 && |PROOF_CHECKPOINT| == 15 && |API_ORIGIN| == 9
    ensures |PROOF_DIGEST| == 11 && |PROOF_KEY_ID| == 10 && |PROOF_MAC| == 8
    ensures |SUCCESS_RATE| == 11 && |REGRESSION_RATE| == 14 && |SERVING_REVISION| == 15 && |OBSERVED_AT| == 10
    ensures |EVIDENCE_REFS| == 12 && |EVENT_ID| == 7 && |EVENT_HASH| == 9 && |EVENT_SEQUENCE| == 13
    ensures |OBSERVATION_DIGEST| == 28 && |PROOF_VERSION| == 13 && |NOT_SERVABLE| == 22 && |SHA_PREFIX| == 7
  {
  }

  lemma SafeIntegerLength(n: nat)
    requires n <= MAX_SAFE_INTEGER
    ensures |Decimal(n)| <= 16
  {
    DecimalDenotes(n);
    assert Power(16) == 10_000_000_000_000_000 by {
      assert Power(4) == 10_000;
      assert Power(8) == 100_000_000;
      assert Power(12) == 1_000_000_000_000;
    }
  }

  lemma EvaluationSize(f: Formats, v: Fields)
    requires Checked(f, v)
    ensures ByteBound(JObject(EvaluationOf(v))) <= 1_000
  {
    hide IsIdentifier, IsShaText, IsHex64, EvidenceRefs, NonBlank, Decimal, ValidNumber, SUCCESS_RATE, REGRESSION_RATE;
    NameLengths();
    var e := EvaluationOf(v);
    ListBound(e, 0);
    ListBound(e, 1);
    assert e[0..] == e && e[2..] == [];
  }

  lemma CheckpointMemberSize(f: Formats, v: Fields, k: nat)
    requires Checked(f, v) && k < 5
    ensures |CheckpointOf(v)| == 5 && MemberBound(CheckpointOf(v)[k]) <= if k == 0 then 1_300 else 700
  {
    hide EvidenceRefs, NonBlank, Decimal, ValidNumber, EVENT_ID, EVENT_HASH, EVENT_SEQUENCE, OBSERVATION_DIGEST,
         OBSERVED_AT, SHA_PREFIX;
    NameLengths();
    SafeIntegerLength(v.eventSequence);
  }

  lemma CheckpointSize(f: Formats, v: Fields)
    requires Checked(f, v)
    ensures ByteBound(JObject(CheckpointOf(v))) <= 4_200
  {
    var e := CheckpointOf(v);
    forall k | 0 <= k < 5 ensures |e| == 5 && MemberBound(e[k]) <= if k == 0 then 1_300 else 700 {
      CheckpointMemberSize(f, v, k);
    }
    hide Checked, CheckpointOf, MemberBound;
    ListBound(e, 0);
    UniformBound(e[1..], 700);
    ObjectBound(e);
    assert e[0..] == e;
  }

  lemma CanarySize(f: Formats, v: Fields)
    requires Checked(f, v)
    ensures ByteBound(JObject(CanaryOf(v))) <= 781_000
  {
    hide IsIdentifier, IsShaText, IsHex64, NonBlank, Decimal, ValidNumber, SERVING_REVISION, OBSERVED_AT, EVIDENCE_REFS,
         JStrings, ItemsBound;
    NameLengths();
    StringsBound(v.evidenceRefs, MAX_TEXT);
    assert |v.evidenceRefs| * (6 * MAX_TEXT + 3) <= 64 * 12_003;
    var e := CanaryOf(v);
    ListBound(e, 0);
    ListBound(e, 1);
    ListBound(e, 2);
    assert e[0..] == e && e[3..] == [];
    assert ByteBound(JArray(JStrings(v.evidenceRefs))) == 2 + ItemsBound(JStrings(v.evidenceRefs));
  }

  /** All members of the body but the origin and the canary are small. */
  lemma SmallMembers(f: Formats, v: Fields, k: nat)
    requires Checked(f, v) && k < 19 && k != 2 && k != 11
    ensures |BodyOf(v)| == 19 && MemberBound(BodyOf(v)[k]) <= 5_000
  {
    hide BodyOf, EvidenceRefs, NonBlank, Decimal, ValidNumber, BODY_KEYS, REPORT_KEYS, EvaluationOf, CanaryOf,
         CheckpointOf, PROOF_VERSION, NOT_SERVABLE, SHA_PREFIX, EVALUATION, PROOF_CHECKPOINT;
    NameLengths();
    BodyKeys(v);
    assert |BodyOf(v)[k].key| == |REPORT_KEYS[k]| <= 25;
    BodyTexts(v);
    BodyIdentifiers(v);
    BodyRollback(v);
    BodyObjects(v);
    EvaluationSize(f, v);
    CheckpointSize(f, v);
    SafeIntegerLength(v.lifecycleRevision);
    SafeIntegerLength(v.lifecycleRevision + 1);
  }

  /** Digests and codes are printed in their fixed forms. */
  ghost predicate FormsDigests(c: Checks) {
    (forall t :: IsShaText(c.digest(t))) && (forall k, t :: IsHex64(c.mac(k, t)))
  }

  lemma ReportSize(c: Checks, a: Authority, v: Fields)
    requires Checked(c.formats, v) && FormsDigests(c) && IsIdentifier(a.signingKeyId)
    ensures ByteBound(BuildReport(c, a, BodyOf(v))) <= 1_020_000
  {
    hide BodyOf, ByteBound, Print, MacInput, CanaryOf, PROOF_DIGEST, PROOF_KEY_ID, PROOF_MAC, SHA_PREFIX, Checked;
    NameLengths();
    var body, members := BodyOf(v), BuildReport(c, a, BodyOf(v)).members;
    BodyTexts(v);
    BodyObjects(v);
    forall k | 0 <= k < 19 && k != 2 && k != 11 ensures MemberBound(body[k]) <= 5_000 {
      SmallMembers(c.formats, v, k);
    }
    assert |members| == 22 && forall k | 0 <= k < 19 :: members[k] == body[k];
    ProofMembersSmall(c, a, v);
    AllButTwo(members, 2, 11, 5_000);
    CanaryAndOrigin(c.formats, v);
    ObjectBound(members);
  }

  lemma ObjectBound(members: seq<Member>)
    ensures ByteBound(JObject(members)) == 2 + MembersBound(members)
  {
  }

  lemma CanaryAndOrigin(f: Formats, v: Fields)
    requires Checked(f, v)
    ensures |BodyOf(v)| == 19 && MemberBound(BodyOf(v)[2]) <= 121_000 && MemberBound(BodyOf(v)[11]) <= 782_000
  {
    hide BodyOf, CanaryOf, API_ORIGIN, CANARY, EvidenceRefs, NonBlank, ValidNumber, IsIdentifier, IsShaText, IsHex64;
    NameLengths();
    BodyTexts(v);
    BodyObjects(v);
    CanarySize(f, v);
  }

  lemma ProofMembersSmall(c: Checks, a: Authority, v: Fields)
    requires Checked(c.formats, v) && FormsDigests(c) && IsIdentifier(a.signingKeyId)
    ensures var members := BuildReport(c, a, BodyOf(v)).members;
      |members| == 22 && forall k | 19 <= k < 22 :: MemberBound(members[k]) <= 5_000
  {
    hide BodyOf, Print, MacInput, PROOF_DIGEST, PROOF_KEY_ID, PROOF_MAC, SHA_PREFIX, Checked;
    NameLengths();
    BodyTexts(v);
    var members := BuildReport(c, a, BodyOf(v)).members;
    var digest := c.digest(Print(JObject(Authenticated(a, BodyOf(v)))));
    assert IsShaText(digest) && |digest| == 71;
  }

  /** The file of a built report is neither empty nor too large to be read again. */
  lemma ReportFits(c: Checks, a: Authority, v: Fields)
    requires Checked(c.formats, v) && FormsDigests(c) && IsIdentifier(a.signingKeyId)
    ensures 1 <= |FileBytes(BuildReport(c, a, BodyOf(v)))| <= MAX_FILE_BYTES
  {
    hide BodyOf, BuildReport, ByteBound, Print, Encode, Checked, FormsDigests, IsIdentifier;
    ReportSize(c, a, v);
    BodyIsProper(c.formats, v);
    var report := BuildReport(c, a, BodyOf(v));
    BuiltFields(c, a, BodyOf(v), []);
    PrintedBytesRead(report, [NEWLINE]);
    NonemptyEncodes(FileText(report));
  }

  lemma NonemptyEncodes(t: Text)
    requires t != []
    ensures Encode(t) != []
  {
  }

  // ---------- Replay ----------

  /** The fields the validator reads by name, in the report as its file gives it. */
  lemma NamedFieldsRead(c: Checks, a: Authority, v: Fields)
    requires Checked(c.formats, v)
    ensures Canon(BuildReport(c, a, BodyOf(v))).JObject?
    ensures var members, canonical := ReadMembers(c, a, v), Print(JObject(Authenticated(a, BodyOf(v))));
      && StringField(members, PROOF_KEY_ID) == Some(a.signingKeyId)
      && StringField(members, PROOF_DIGEST) == Some(c.digest(canonical))
      && StringField(members, PROOF_MAC) == Some(c.mac(a.signingKey, MacInput(c.digest(canonical), canonical)))
      && StringField(members, INPUT_DIGEST) == Some(v.inputDigest)
        && StringField(members, API_ORIGIN) == Some(v.apiOrigin)
  {
    hide Lookup, Print, BuildReport, PROOF_DIGEST, PROOF_MAC, PROOF_KEY_ID, INPUT_DIGEST, API_ORIGIN,
         Authenticated, MacInput, BodyOf, Canon, Checked, VERSION, ADAPTER_DIGEST;
    ReportIsObject(c, a, v);
    BodyIsProper(c.formats, v);
    BodyTexts(v);
    LeafReads(c, a, v, 1, INPUT_DIGEST, JString(v.inputDigest));
    LeafReads(c, a, v, 2, API_ORIGIN, JString(v.apiOrigin));
    BuiltFields(c, a, BodyOf(v), []);
    var members := BuildReport(c, a, BodyOf(v)).members;
    LookupCanon(members, PROOF_KEY_ID);
    LookupCanon(members, PROOF_DIGEST);
    LookupCanon(members, PROOF_MAC);
    LeafCanon(Lookup(members, PROOF_KEY_ID).value);
    LeafCanon(Lookup(members, PROOF_DIGEST).value);
    LeafCanon(Lookup(members, PROOF_MAC).value);
  }

  /** The file a completed run publishes is accepted on replay, for its own input and origin,
      exactly when the key its id now stands for is current or retained and yields the same
      code; the run then returns the published report in canonical order. */
  lemma BuiltReportReplays(c: Checks, a: Authority, b: Authority, v: Fields)
    requires Checked(c.formats, v) && FormsDigests(c) && IsIdentifier(a.signingKeyId)
    ensures var report, key := BuildReport(c, a, BodyOf(v)), VerificationKey(b, a.signingKeyId);
      var canonical := Print(JObject(Authenticated(a, BodyOf(v))));
      var signed := MacInput(c.digest(canonical), canonical);
      ExistingReport(c, b, FileBytes(report), v.inputDigest, v.apiOrigin) ==
        if key.Some? && c.mac(key.value, signed) == c.mac(a.signingKey, signed) then Some(Canon(report)) else None
    ensures Print(Canon(BuildReport(c, a, BodyOf(v)))) == Print(BuildReport(c, a, BodyOf(v)))
  {
    hide Lookup, Print, Canon, BuildReport, PROOF_DIGEST, PROOF_MAC, PROOF_KEY_ID, INPUT_DIGEST, API_ORIGIN,
         BodyOf, Checked, Authenticated, Without, MacInput, FileBytes, ReadDocument, WellFormed,
         VerificationKey, ValidFields, Decode, IsHex64, IsShaText, IsIdentifier;
    var report := BuildReport(c, a, BodyOf(v));
    BodyIsProper(c.formats, v);
    BuiltFields(c, a, BodyOf(v), []);
    ReadOwnFile(report);
    CanonIsStable(report);
    SignedTextReadsBack(c, a, BodyOf(v));
    NamedFieldsRead(c, a, v);
    BuiltFieldsAreValid(c, a, v);
    ReportFits(c, a, v);
  }

  /** The published file is the canonical text and one line end, and what it holds is a legal report
      of this authority, input and origin. */
  lemma BuiltReportIsLegal(c: Checks, a: Authority, v: Fields)
    requires Checked(c.formats, v) && FormsDigests(c) && IsIdentifier(a.signingKeyId)
    ensures var report := BuildReport(c, a, BodyOf(v));
      && LegalReport(c, a, Canon(report), v.inputDigest, v.apiOrigin)
      && exists text: Text | Stands(Canon(report), text) :: FileBytes(report) == Encode(text + FromAscii("\n"))
  {
    var report := BuildReport(c, a, BodyOf(v));
    BuiltReportReplays(c, a, a, v);
    BodyIsProper(c.formats, v);
    BuiltFields(c, a, BodyOf(v), []);
    FileExactly(report);
    hide *;
    ReplaysExactly(c, a, FileBytes(report), v.inputDigest, v.apiOrigin, Canon(report));
    OwnKey(a);
  }

  lemma OwnKey(a: Authority)
    ensures VerificationKey(a, a.signingKeyId) == Some(a.signingKey)
  {
  }

  lemma FileExactly(report: Json)
    requires WellFormed(report)
    ensures exists text: Text | Stands(Canon(report), text) :: FileBytes(report) == Encode(text + FromAscii("\n"))
  {
    hide Print, Canon, Stands, Encode, WellFormed;
    CanonIsStable(report);
    StandsExactly(Canon(report), Print(report));
    assert FromAscii("\n") == [NEWLINE];
  }
}
