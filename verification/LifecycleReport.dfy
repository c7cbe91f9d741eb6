/**
 The body of a lifecycle report as a completed run builds it, and the field rules by
 which an existing report is validated.
 */
module LifecycleReport {
  import opened Basics
  import opened Utf8
  import opened CanonicalJson
  import opened CanonicalText

  /** Reading of numbers and instants: a rate is a number between 0 and 1, a timestamp an ISO
      instant written the one way its instant is. */
  datatype Formats = Formats(isRate: Text -> bool, isTimestamp: Text -> bool)

  // ---------- Names ----------

  const VERSION: Text := FromAscii("version")
  const INPUT_DIGEST: Text := FromAscii("inputDigest")
  const API_ORIGIN: Text := FromAscii("apiOrigin")
  const TENANT_ID: Text := FromAscii("tenantId")
  const ADAPTER_ID: Text := FromAscii("adapterId")
  const TRAINING_JOB_ID: Text := FromAscii("trainingJobId")
  const EVALUATION_ID: Text := FromAscii("evaluationId")
  const CANARY_ID: Text := FromAscii("canaryId")
  const ADAPTER_DIGEST: Text := FromAscii("adapterDigest")
  const EVALUATION_ARTIFACT_ID: Text := FromAscii("evaluationArtifactId")
  const EVALUATION: Text := FromAscii("evaluation")
  const CANARY: Text := FromAscii("canary")
  const LIFECYCLE_REVISION: Text := FromAscii("lifecycleRevision")
  const PROOF_CHECKPOINT: Text := FromAscii("proofCheckpoint")
  const ROLLBACK_LIFECYCLE_REVISION: Text := FromAscii("rollbackLifecycleRevision")
  const ELIGIBLE_BEFORE_ROLLBACK: Text := FromAscii("eligibleBeforeRollback")
  const ROLLED_BACK: Text := FromAscii("rolledBack")
  const ELIGIBLE_AFTER_ROLLBACK: Text := FromAscii("eligibleAfterRollback")
  const ROLLBACK_REASON: Text := FromAscii("rollbackReason")
  const PROOF_DIGEST: Text := FromAscii("proofDigest")
  const PROOF_KEY_ID: Text := FromAscii("proofKeyId")
  const PROOF_MAC: Text := FromAscii("proofMac")

  const SUCCESS_RATE: Text := FromAscii("successRate")
  const REGRESSION_RATE: Text := FromAscii("regressionRate")
  const SERVING_REVISION: Text := FromAscii("servingRevision")
  const OBSERVED_AT: Text := FromAscii("observedAt")
  const EVIDENCE_REFS: Text := FromAscii("evidenceRefs")
  const EVENT_ID: Text := FromAscii("eventId")
  const EVENT_HASH: Text := FromAscii("eventHash")
  const EVENT_SEQUENCE: Text := FromAscii("eventSequence")
  const OBSERVATION_DIGEST: Text := FromAscii("eligibilityObservationDigest")

  const PROOF_VERSION: Text := FromAscii("2026-08-30.v1")
  const NOT_SERVABLE: Text := FromAscii("lifecycle_not_servable")
  const SHA_PREFIX: Text := FromAscii("sha256:")

  /** A report's keys are told apart by their length and second letter. */
  function Rank(key: Text): int {
    if |key| < 2 then -1
    else
      var second := key[1];
      match |key|
      case 6 => 11
      case 7 => 0
      case 8 => if second == 101 then 3 else if second == 97 then 7 else 21
      case 9 => if second == 112 then 2 else 4
      case 10 => if second == 118 then 10 else if second == 111 then 16 else 20
      case 11 => if second == 110 then 1 else 19
      case 12 => 6
      case 13 => if second == 114 then 5 else 8
      case 14 => 18
      case 15 => 13
      case 17 => 12
      case 20 => 9
      case 21 => 17
      case 22 => 15
      case 25 => 14
      case _ => -1
  }

  const BODY_KEYS: seq<Text> := [
    VERSION, INPUT_DIGEST, API_ORIGIN, TENANT_ID, ADAPTER_ID, TRAINING_JOB_ID, EVALUATION_ID, CANARY_ID, ADAPTER_DIGEST,
    EVALUATION_ARTIFACT_ID, EVALUATION, CANARY, LIFECYCLE_REVISION, PROOF_CHECKPOINT, ROLLBACK_LIFECYCLE_REVISION,
    ELIGIBLE_BEFORE_ROLLBACK, ROLLED_BACK, ELIGIBLE_AFTER_ROLLBACK, ROLLBACK_REASON]

  const REPORT_KEYS: seq<Text> := BODY_KEYS + [PROOF_DIGEST, PROOF_KEY_ID, PROOF_MAC]

  lemma KeyRanks()
    ensures |REPORT_KEYS| == 22 && forall k | 0 <= k < 22 :: Rank(REPORT_KEYS[k]) == k
  {
    assert Rank(VERSION) == 0 && Rank(INPUT_DIGEST) == 1 && Rank(API_ORIGIN) == 2 && Rank(TENANT_ID) == 3;
    assert Rank(ADAPTER_ID) == 4 && Rank(TRAINING_JOB_ID) == 5 && Rank(EVALUATION_ID) == 6 && Rank(CANARY_ID) == 7;
    assert Rank(ADAPTER_DIGEST) == 8 && Rank(EVALUATION_ARTIFACT_ID) == 9 && Rank(EVALUATION) == 10
      && Rank(CANARY) == 11;
    assert Rank(LIFECYCLE_REVISION) == 12 && Rank(PROOF_CHECKPOINT) == 13 && Rank(ROLLBACK_LIFECYCLE_REVISION) == 14;
    assert Rank(ELIGIBLE_BEFORE_ROLLBACK) == 15 && Rank(ROLLED_BACK) == 16 && Rank(ELIGIBLE_AFTER_ROLLBACK) == 17;
    assert Rank(ROLLBACK_REASON) == 18 && Rank(PROOF_DIGEST) == 19 && Rank(PROOF_KEY_ID) == 20 && Rank(PROOF_MAC) == 21;
  }

  // ---------- Field rules ----------

  predicate IsAlphanumeric(u: Unit) { 48 <= u <= 57 || 65 <= u <= 90 || 97 <= u <= 122 }

  predicate IsIdentifier(t: Text) {
    && 1 <= |t| <= 200 && IsAlphanumeric(t[0])
    && forall k | 0 <= k < |t| :: IsAlphanumeric(t[k]) || t[k] == 46 || t[k] == 95 || t[k] == 58 || t[k] == 45
  }

  predicate IsHex64(t: Text) { |t| == 64 && forall k | 0 <= k < |t| :: 48 <= t[k] <= 57 || 97 <= t[k] <= 102 }

  predicate IsShaText(t: Text) { SHA_PREFIX <= t && IsHex64(t[|SHA_PREFIX|..]) }

  predicate IsSpace(u: Unit) {
    || 9 <= u <= 13 || u == 32 || u == 160 || u == 0x1680 || 0x2000 <= u <= 0x200A
    || u == 0x2028 || u == 0x2029 || u == 0x202F
    || u == 0x205F || u == 0x3000 || u == 0xFEFF
  }

  predicate NonBlank(t: Text) { exists k | 0 <= k < |t| :: !IsSpace(t[k]) }

  const MAX_TEXT := 2_000
  const MAX_REFS := 64
  const MAX_SAFE_INTEGER := 9_007_199_254_740_991

  predicate IsEvidenceRef(t: Text) { NonBlank(t) && |t| <= MAX_TEXT }

  predicate EvidenceRefs(refs: seq<Text>) {
    1 <= |refs| <= MAX_REFS && forall k | 0 <= k < |refs| :: IsEvidenceRef(refs[k])
  }

  function StringField(members: seq<Member>, key: Text): Option<Text> {
    match Lookup(members, key)
    case Some(JString(s)) => Some(s)
    case _ => None
  }

  function NumberField(members: seq<Member>, key: Text): Option<Text> {
    match Lookup(members, key)
    case Some(JNumber(token)) => Some(token)
    case _ => None
  }

  function ObjectField(members: seq<Member>, key: Text): Option<seq<Member>> {
    match Lookup(members, key)
    case Some(JObject(ms)) => Some(ms)
    case _ => None
  }

  /** A safe integer of at least one under a key. */
  function PositiveField(members: seq<Member>, key: Text): Option<nat> {
    match NumberField(members, key)
    case Some(token) =>
      (match IntegerOf(token)
       case Some(n) => if 1 <= n <= MAX_SAFE_INTEGER then Some(n) else None
       case None => None)
    case None => None
  }

  predicate IdentifierField(members: seq<Member>, key: Text) {
    StringField(members, key).Some? && IsIdentifier(StringField(members, key).value)
  }

  predicate ShaField(members: seq<Member>, key: Text) {
    StringField(members, key).Some? && IsShaText(StringField(members, key).value)
  }

  predicate Hex64Field(members: seq<Member>, key: Text) {
    StringField(members, key).Some? && IsHex64(StringField(members, key).value)
  }

  predicate NonBlankField(members: seq<Member>, key: Text) {
    StringField(members, key).Some? && NonBlank(StringField(members, key).value)
  }

  predicate TimestampField(f: Formats, members: seq<Member>, key: Text) {
    StringField(members, key).Some? && f.isTimestamp(StringField(members, key).value)
  }

  predicate RateField(f: Formats, members: seq<Member>, key: Text) {
    NumberField(members, key).Some? && f.isRate(NumberField(members, key).value)
  }

  predicate Strings(items: seq<Json>) { forall k | 0 <= k < |items| :: items[k].JString? }

  function StringsOf(items: seq<Json>): (r: seq<Text>)
    requires Strings(items)
    ensures |r| == |items| && forall k | 0 <= k < |r| :: r[k] == items[k].s
  {
    seq(|items|, k requires 0 <= k < |items| => items[k].s)
  }

  predicate EvaluationRules(f: Formats, members: seq<Member>) {
    match ObjectField(members, EVALUATION)
    case Some(e) => RateField(f, e, SUCCESS_RATE) && RateField(f, e, REGRESSION_RATE)
    case None => false
  }

  predicate RefsRules(members: seq<Member>) {
    match Lookup(members, EVIDENCE_REFS)
    case Some(JArray(items)) => Strings(items) && EvidenceRefs(StringsOf(items))
    case _ => false
  }

  predicate CanaryRules(f: Formats, members: seq<Member>) {
    match ObjectField(members, CANARY)
    case Some(c) =>
      NonBlankField(c, SERVING_REVISION) && TimestampField(f, c, OBSERVED_AT) && RefsRules(c)
    case None => false
  }

  predicate CheckpointRules(f: Formats, members: seq<Member>) {
    match ObjectField(members, PROOF_CHECKPOINT)
    case Some(p) =>
      && IdentifierField(p, EVENT_ID) && Hex64Field(p, EVENT_HASH)
      && PositiveField(p, EVENT_SEQUENCE).Some?
      && ShaField(p, OBSERVATION_DIGEST) && TimestampField(f, p, OBSERVED_AT)
    case None => false
  }

  predicate IdentityRules(members: seq<Member>) {
    && StringField(members, VERSION) == Some(PROOF_VERSION)
    && ShaField(members, INPUT_DIGEST) && StringField(members, API_ORIGIN).Some? && ShaField(members, ADAPTER_DIGEST)
  }

  predicate IdentifierRules(members: seq<Member>) {
    && IdentifierField(members, TENANT_ID) && IdentifierField(members, ADAPTER_ID)
    && IdentifierField(members, TRAINING_JOB_ID) && IdentifierField(members, EVALUATION_ID)
    && IdentifierField(members, CANARY_ID) && IdentifierField(members, EVALUATION_ARTIFACT_ID)
  }

  predicate RollbackRules(members: seq<Member>) {
    && PositiveField(members, LIFECYCLE_REVISION).Some? && PositiveField(members, ROLLBACK_LIFECYCLE_REVISION).Some?
    && PositiveField(members, LIFECYCLE_REVISION).value < PositiveField(members, ROLLBACK_LIFECYCLE_REVISION).value
    && Lookup(members, ELIGIBLE_BEFORE_ROLLBACK) == Some(JBool(true))
      && Lookup(members, ROLLED_BACK) == Some(JBool(true))
    && Lookup(members, ELIGIBLE_AFTER_ROLLBACK) == Some(JBool(false))
    && StringField(members, ROLLBACK_REASON) == Some(NOT_SERVABLE)
  }

  /** The keys that hold a value. */
  predicate HasExactlyKeys(members: seq<Member>, keys: seq<Text>) {
    && (forall k | 0 <= k < |keys| :: Lookup(members, keys[k]).Some?)
    && (forall k | 0 <= k < |members| && members[k].value.Some? :: members[k].key in keys)
  }

  /** Every rule the validator has for the fields of a report. */
  predicate ValidFields(f: Formats, members: seq<Member>) {
    && HasExactlyKeys(members, REPORT_KEYS)
    && IdentityRules(members) && IdentifierRules(members) && EvaluationRules(f, members) && CanaryRules(f, members)
      && CheckpointRules(f, members)
    && RollbackRules(members)
  }

  // ---------- What a completed run builds ----------

  /** The values a run has bound and checked by the time it builds its report. */
  datatype Fields = Fields(
    inputDigest: Text, apiOrigin: Text, tenantId: Text, adapterId: Text, trainingJobId: Text, evaluationId: Text,
    canaryId: Text, adapterDigest: Text, evaluationArtifactId: Text, successRate: Text, regressionRate: Text,
    servingRevision: Text, observedAt: Text, evidenceRefs: seq<Text>, lifecycleRevision: nat, eventId: Text,
    eventHash: Text, eventSequence: nat, observationDigest: Text, checkpointObservedAt: Text)

  const MAX_ORIGIN := 20_000
  const MAX_NUMBER := 25
  const MAX_TIMESTAMP := 27

  predicate IsRateToken(f: Formats, token: Text) { ValidNumber(token) && f.isRate(token) && |token| <= MAX_NUMBER }

  predicate IsTimestampText(f: Formats, t: Text) { f.isTimestamp(t) && |t| <= MAX_TIMESTAMP }

  /** What the run checked of each value. An origin comes from a URL of at most 2000 units. */
  predicate Checked(f: Formats, v: Fields) {
    && IsShaText(v.inputDigest) && |v.apiOrigin| <= MAX_ORIGIN
    && IsIdentifier(v.tenantId) && IsIdentifier(v.adapterId) && IsIdentifier(v.trainingJobId)
      && IsIdentifier(v.evaluationId)
    && IsIdentifier(v.canaryId) && IsShaText(v.adapterDigest) && IsIdentifier(v.evaluationArtifactId)
    && IsRateToken(f, v.successRate) && IsRateToken(f, v.regressionRate)
    && NonBlank(v.servingRevision) && |v.servingRevision| <= MAX_TEXT && IsTimestampText(f, v.observedAt)
    && EvidenceRefs(v.evidenceRefs)
    && 1 <= v.lifecycleRevision && v.lifecycleRevision + 1 <= MAX_SAFE_INTEGER
    && IsIdentifier(v.eventId) && IsHex64(v.eventHash) && 1 <= v.eventSequence <= MAX_SAFE_INTEGER
    && IsShaText(v.observationDigest) && IsTimestampText(f, v.checkpointObservedAt)
  }

  function Str(key: Text, s: Text): Member { Member(key, Some(JString(s))) }

  function Int(key: Text, n: nat): Member { Member(key, Some(JNumber(Decimal(n)))) }

  function Flag(key: Text, b: bool): Member { Member(key, Some(JBool(b))) }

  function JStrings(texts: seq<Text>): (r: seq<Json>)
    ensures |r| == |texts| && forall k | 0 <= k < |r| :: r[k] == JString(texts[k])
  {
    seq(|texts|, k requires 0 <= k < |texts| => JString(texts[k]))
  }

  function EvaluationOf(v: Fields): seq<Member> {
    [Member(SUCCESS_RATE, Some(JNumber(v.successRate))), Member(REGRESSION_RATE, Some(JNumber(v.regressionRate)))]
  }

  function CanaryOf(v: Fields): seq<Member> {
    [Str(SERVING_REVISION, v.servingRevision), Str(OBSERVED_AT, v.observedAt),
     Member(EVIDENCE_REFS, Some(JArray(JStrings(v.evidenceRefs))))]
  }

  function CheckpointOf(v: Fields): seq<Member> {
    [Str(EVENT_ID, v.eventId), Str(EVENT_HASH, v.eventHash), Int(EVENT_SEQUENCE, v.eventSequence),
     Str(OBSERVATION_DIGEST, v.observationDigest), Str(OBSERVED_AT, v.checkpointObservedAt)]
  }

  /** The body of the report; rolling back took the lifecycle to the next revision. */
  function BodyOf(v: Fields): seq<Member> {
    [Str(VERSION, PROOF_VERSION), Str(INPUT_DIGEST, v.inputDigest), Str(API_ORIGIN, v.apiOrigin),
     Str(TENANT_ID, v.tenantId), Str(ADAPTER_ID, v.adapterId), Str(TRAINING_JOB_ID, v.trainingJobId),
     Str(EVALUATION_ID, v.evaluationId), Str(CANARY_ID, v.canaryId), Str(ADAPTER_DIGEST, v.adapterDigest),
     Str(EVALUATION_ARTIFACT_ID, v.evaluationArtifactId), Member(EVALUATION, Some(JObject(EvaluationOf(v)))),
     Member(CANARY, Some(JObject(CanaryOf(v)))), Int(LIFECYCLE_REVISION, v.lifecycleRevision),
     Member(PROOF_CHECKPOINT, Some(JObject(CheckpointOf(v)))),
       Int(ROLLBACK_LIFECYCLE_REVISION, v.lifecycleRevision + 1),
     Flag(ELIGIBLE_BEFORE_ROLLBACK, true), Flag(ROLLED_BACK, true), Flag(ELIGIBLE_AFTER_ROLLBACK, false),
     Str(ROLLBACK_REASON, NOT_SERVABLE)]
  }
}
