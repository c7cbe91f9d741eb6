/**
 The rules of a lifecycle report by key text, and which file is accepted on replay: a second account
 in which every key, literal, bound and shape is spelled out.
 */
module LifecycleRules {
  import opened Basics
  import opened Utf8
  import opened CanonicalJson
  import opened CanonicalJsonTheorems
  import opened CanonicalForm
  import opened JsonGrammar
  import CanonicalText
  import opened Patterns
  import opened LifecycleReport
  import opened LifecycleProof

  // ---------- Shapes ----------

  predicate Plain(t: Text) { forall k | 0 <= k < |t| :: t[k] < 0x80 }

  function Chars(t: Text): (s: string)
    requires Plain(t)
    ensures |s| == |t| && forall k | 0 <= k < |t| :: s[k] as int == t[k]
  {
    seq(|t|, k requires 0 <= k < |t| => t[k] as char)
  }

  const ALL_ALPHANUMERIC: seq<(char, char)> := [('A', 'Z'), ('a', 'z'), ('0', '9')]
  const NAME_REST: seq<(char, char)> :=
    [('A', 'Z'), ('a', 'z'), ('0', '9'), ('.', '.'), ('_', '_'), (':', ':'), ('-', '-')]

  /** `^[A-Za-z0-9][A-Za-z0-9._:-]{0,199}$` */
  ghost predicate Identifier(t: Text) {
    Plain(t) && Matches([Between(ALL_ALPHANUMERIC, 1, 1)] + [Between(NAME_REST, 0, 199)], Chars(t))
  }

  /** `^[a-f0-9]{64}$` */
  ghost predicate Hex64(t: Text) { Plain(t) && Matches([Between(HEX, 64, 64)], Chars(t)) }

  /** `^sha256:[a-f0-9]{64}$` */
  ghost predicate ShaText(t: Text) {
    Plain(t) && Matches([Fixed("sha256:")] + [Between(HEX, 64, 64)], Chars(t))
  }

  /** Some unit is neither white space nor a line end. */
  predicate HasText(t: Text) { exists k | 0 <= k < |t| :: t[k] !in WHITE_SPACE }

  lemma IdentifierExactly(t: Text)
    ensures IsIdentifier(t) <==> Identifier(t)
  {
    if IsIdentifier(t) {
      assert Plain(t);
    }
    if Plain(t) {
      PlainIdentifier(t);
    }
  }

  lemma PlainIdentifier(t: Text)
    requires Plain(t)
    ensures IsIdentifier(t) <==> Matches([Between(ALL_ALPHANUMERIC, 1, 1)] + [Between(NAME_REST, 0, 199)], Chars(t))
  {
    var s := Chars(t);
    MatchesCharacter(ALL_ALPHANUMERIC, [Between(NAME_REST, 0, 199)], s);
    hide Matches, InRanges;
    forall k | 0 <= k < |t|
      ensures IsAlphanumeric(t[k]) <==> InRanges(ALL_ALPHANUMERIC, s[k])
      ensures IsAlphanumeric(t[k]) || t[k] == 46 || t[k] == 95 || t[k] == 58 || t[k] == 45 <==>
        InRanges(NAME_REST, s[k])
    {
      NameUnits(t[k]);
    }
    hide IsAlphanumeric;
    if s != "" {
      var rest := s[1..];
      MatchesOne(Between(NAME_REST, 0, 199), rest);
      assert forall k | 0 <= k < |rest| :: rest[k] == s[k + 1];
      assert forall k | 0 < k < |s| :: s[k] == rest[k - 1];
    }
  }

  lemma NameUnits(u: Unit)
    requires u < 0x80
    ensures IsAlphanumeric(u) <==> InRanges(ALL_ALPHANUMERIC, u as char)
    ensures IsAlphanumeric(u) || u == 46 || u == 95 || u == 58 || u == 45 <==> InRanges(NAME_REST, u as char)
  {
    var c := u as char;
    assert ALL_ALPHANUMERIC[0] == ('A', 'Z') && ALL_ALPHANUMERIC[1] == ('a', 'z') && ALL_ALPHANUMERIC[2] == ('0', '9');
    assert NAME_REST[0] == ('A', 'Z') && NAME_REST[1] == ('a', 'z') && NAME_REST[2] == ('0', '9');
    assert NAME_REST[3] == ('.', '.') && NAME_REST[4] == ('_', '_') && NAME_REST[5] == (':', ':')
      && NAME_REST[6] == ('-', '-');
  }

  lemma Hex64Exactly(t: Text)
    ensures IsHex64(t) <==> Hex64(t)
  {
    if Plain(t) {
      var s := Chars(t);
      MatchesOne(Between(HEX, 64, 64), s);
      hide Matches;
      forall c ensures 'a' <= c <= 'f' || '0' <= c <= '9' <==> InRanges(HEX, c) {
        assert HEX[0] == ('a', 'f') && HEX[1] == ('0', '9');
      }
      assert forall k | 0 <= k < |s| :: s[k] == t[k] as char;
    }
  }

  /** A text starts with a plain one where its characters do. */
  lemma PlainStart(p: string, t: Text)
    requires forall k | 0 <= k < |p| :: p[k] < '\U{80}'
    requires Plain(t)
    ensures FromAscii(p) <= t <==> p <= Chars(t)
    ensures |p| <= |t| ==> Chars(t)[|p|..] == Chars(t[|p|..])
  {
    if |p| <= |t| {
      if FromAscii(p) <= t {
        assert forall k | 0 <= k < |p| :: FromAscii(p)[k] == t[k];
        assert forall k | 0 <= k < |p| :: Chars(t)[k] == p[k];
      }
      if p <= Chars(t) {
        assert forall k | 0 <= k < |p| :: Chars(t)[k] == p[k];
        assert forall k | 0 <= k < |p| :: FromAscii(p)[k] == t[k];
      }
    }
  }

  lemma ShaTextExactly(t: Text)
    ensures IsShaText(t) <==> ShaText(t)
  {
    var p := "sha256:";
    assert SHA_PREFIX == FromAscii(p) && |SHA_PREFIX| == |p|;
    assert forall k | 0 <= k < |p| :: p[k] < '\U{80}';
    hide SHA_PREFIX, IsHex64, Matches, FromAscii;
    if FromAscii(p) <= t {
      Hex64Exactly(t[|p|..]);
      PlainTail(p, t);
    }
    if Plain(t) {
      MatchesFixed(p, [Between(HEX, 64, 64)], Chars(t));
      PlainStart(p, t);
    }
  }

  lemma PlainTail(p: string, t: Text)
    requires forall k | 0 <= k < |p| :: p[k] < '\U{80}'
    requires FromAscii(p) <= t
    ensures Plain(t) <==> Plain(t[|p|..])
  {
    assert forall k | 0 <= k < |p| :: FromAscii(p)[k] == t[k];
    assert forall k | |p| <= k < |t| :: t[k] == t[|p|..][k - |p|];
  }

  lemma TextExactly(t: Text)
    ensures NonBlank(t) <==> HasText(t)
  {
    hide WHITE_SPACE, IsSpace;
    forall u: Unit ensures IsSpace(u) <==> u in WHITE_SPACE {
      WhiteSpaceExactly(u);
    }
  }

  lemma WhiteSpaceExactly(u: Unit)
    ensures IsSpace(u) <==> u in WHITE_SPACE
  {
  }

  // ---------- Values under keys ----------

  /** The value stands under the key. */
  ghost predicate Holds(members: seq<Member>, key: string, value: Json) {
    exists k | 0 <= k < |members| :: members[k] == Member(FromAscii(key), Some(value))
  }

  lemma HoldsExactly(members: seq<Member>, key: string)
    requires DistinctKeys(members)
    ensures forall value :: Holds(members, key, value) <==> Lookup(members, FromAscii(key)) == Some(value)
  {
    hide Lookup, FromAscii;
    forall value ensures Holds(members, key, value) <==> Lookup(members, FromAscii(key)) == Some(value) {
      if k :| 0 <= k < |members| && members[k] == Member(FromAscii(key), Some(value)) {
        LookupAt(members, k);
      }
    }
  }

  ghost predicate IdentifierUnder(members: seq<Member>, key: string) {
    exists t: Text :: Holds(members, key, JString(t)) && Identifier(t)
  }

  ghost predicate ShaUnder(members: seq<Member>, key: string) {
    exists t: Text :: Holds(members, key, JString(t)) && ShaText(t)
  }

  ghost predicate HexUnder(members: seq<Member>, key: string) {
    exists t: Text :: Holds(members, key, JString(t)) && Hex64(t)
  }

  ghost predicate TextUnder(members: seq<Member>, key: string) {
    exists t: Text :: Holds(members, key, JString(t)) && HasText(t)
  }

  ghost predicate TimeUnder(f: Formats, members: seq<Member>, key: string) {
    exists t: Text :: Holds(members, key, JString(t)) && f.isTimestamp(t)
  }

  ghost predicate RateUnder(f: Formats, members: seq<Member>, key: string) {
    exists t: Text :: Holds(members, key, JNumber(t)) && f.isRate(t)
  }

  /** A whole number of at least one that a double holds exactly. */
  ghost predicate CountUnder(members: seq<Member>, key: string, n: nat) {
    1 <= n < 0x20_0000_0000_0000 &&
    exists t: Text :: Holds(members, key, JNumber(t)) && CanonicalText.IntegerOf(t) == Some(n)
  }

  lemma LeavesExactly(f: Formats, members: seq<Member>, key: string)
    requires DistinctKeys(members)
    ensures IdentifierField(members, FromAscii(key)) <==> IdentifierUnder(members, key)
    ensures ShaField(members, FromAscii(key)) <==> ShaUnder(members, key)
    ensures Hex64Field(members, FromAscii(key)) <==> HexUnder(members, key)
    ensures NonBlankField(members, FromAscii(key)) <==> TextUnder(members, key)
    ensures TimestampField(f, members, FromAscii(key)) <==> TimeUnder(f, members, key)
    ensures RateField(f, members, FromAscii(key)) <==> RateUnder(f, members, key)
  {
    hide Lookup, FromAscii, Holds, IsIdentifier, Identifier, IsShaText, ShaText, IsHex64, Hex64, NonBlank, HasText;
    HoldsExactly(members, key);
    match Lookup(members, FromAscii(key)) {
      case Some(JString(t)) =>
        IdentifierExactly(t);
        ShaTextExactly(t);
        Hex64Exactly(t);
        TextExactly(t);
      case _ =>
    }
  }

  lemma CountExactly(members: seq<Member>, key: string)
    requires DistinctKeys(members)
    ensures forall n: nat :: PositiveField(members, FromAscii(key)) == Some(n) <==> CountUnder(members, key, n)
  {
    hide Lookup, FromAscii, Holds, CanonicalText.IntegerOf;
    HoldsExactly(members, key);
  }

  // ---------- The rules by key ----------

  ghost predicate NamesRun(members: seq<Member>) {
    && Holds(members, "version", JString(FromAscii("2026-08-30.v1")))
    && ShaUnder(members, "inputDigest") && ShaUnder(members, "adapterDigest")
    && (exists origin: Text :: Holds(members, "apiOrigin", JString(origin)))
    && IdentifierUnder(members, "tenantId") && IdentifierUnder(members, "adapterId")
    && IdentifierUnder(members, "trainingJobId") && IdentifierUnder(members, "evaluationId")
    && IdentifierUnder(members, "canaryId") && IdentifierUnder(members, "evaluationArtifactId")
  }

  ghost predicate HasEvaluation(f: Formats, members: seq<Member>) {
    exists e: seq<Member> ::
      Holds(members, "evaluation", JObject(e)) && RateUnder(f, e, "successRate") && RateUnder(f, e, "regressionRate")
  }

  ghost predicate LegalRefs(items: seq<Json>) {
    && 1 <= |items| <= 64
    && forall k | 0 <= k < |items| :: items[k].JString? && HasText(items[k].s) && |items[k].s| <= 2000
  }

  ghost predicate HasCanary(f: Formats, members: seq<Member>) {
    exists c: seq<Member>, items: seq<Json> ::
      && Holds(members, "canary", JObject(c)) && Holds(c, "evidenceRefs", JArray(items)) && LegalRefs(items)
      && TextUnder(c, "servingRevision") && TimeUnder(f, c, "observedAt")
  }

  ghost predicate HasCheckpoint(f: Formats, members: seq<Member>) {
    exists p: seq<Member>, n: nat ::
      && Holds(members, "proofCheckpoint", JObject(p)) && CountUnder(p, "eventSequence", n)
      && IdentifierUnder(p, "eventId") && HexUnder(p, "eventHash")
      && ShaUnder(p, "eligibilityObservationDigest") && TimeUnder(f, p, "observedAt")
  }

  ghost predicate IsRolledBack(members: seq<Member>) {
    && (exists before: nat, behind: nat ::
          && CountUnder(members, "lifecycleRevision", before)
          && CountUnder(members, "rollbackLifecycleRevision", behind) && before < behind)
    && Holds(members, "eligibleBeforeRollback", JBool(true)) && Holds(members, "rolledBack", JBool(true))
    && Holds(members, "eligibleAfterRollback", JBool(false))
    && Holds(members, "rollbackReason", JString(FromAscii("lifecycle_not_servable")))
  }

  lemma NamesRunExactly(f: Formats, members: seq<Member>)
    requires DistinctKeys(members)
    ensures IdentityRules(members) && IdentifierRules(members) <==> NamesRun(members)
  {
    hide Lookup, FromAscii, Holds, IdentifierField, IdentifierUnder, ShaField, ShaUnder;
    LeavesExactly(f, members, "inputDigest");
    LeavesExactly(f, members, "adapterDigest");
    LeavesExactly(f, members, "tenantId");
    LeavesExactly(f, members, "adapterId");
    LeavesExactly(f, members, "trainingJobId");
    LeavesExactly(f, members, "evaluationId");
    LeavesExactly(f, members, "canaryId");
    LeavesExactly(f, members, "evaluationArtifactId");
    HoldsExactly(members, "version");
    HoldsExactly(members, "apiOrigin");
  }

  lemma EvaluationExactly(f: Formats, members: seq<Member>)
    requires WellFormed(JObject(members))
    ensures EvaluationRules(f, members) <==> HasEvaluation(f, members)
  {
    hide Lookup, FromAscii, Holds, RateField, RateUnder;
    HoldsExactly(members, "evaluation");
    match ObjectField(members, EVALUATION) {
      case Some(e) =>
        NestedKeys(members, EVALUATION);
        LeavesExactly(f, e, "successRate");
        LeavesExactly(f, e, "regressionRate");
      case None =>
    }
  }

  lemma NestedKeys(members: seq<Member>, key: Text)
    requires WellFormed(JObject(members))
    ensures ObjectField(members, key).Some? ==> DistinctKeys(ObjectField(members, key).value)
  {
  }

  lemma RefsExactly(members: seq<Member>)
    requires DistinctKeys(members)
    ensures RefsRules(members) <==>
      exists items: seq<Json> :: Holds(members, "evidenceRefs", JArray(items)) && LegalRefs(items)
  {
    hide Lookup, FromAscii, Holds, NonBlank, HasText;
    HoldsExactly(members, "evidenceRefs");
    forall t ensures NonBlank(t) <==> HasText(t) {
      TextExactly(t);
    }
  }

  lemma CanaryExactly(f: Formats, members: seq<Member>)
    requires WellFormed(JObject(members))
    ensures CanaryRules(f, members) <==> HasCanary(f, members)
  {
    hide Lookup, FromAscii, Holds, RefsRules, LegalRefs, NonBlankField, TimestampField, TextUnder, TimeUnder;
    HoldsExactly(members, "canary");
    match ObjectField(members, CANARY) {
      case Some(c) =>
        NestedKeys(members, CANARY);
        LeavesExactly(f, c, "servingRevision");
        LeavesExactly(f, c, "observedAt");
        RefsExactly(c);
      case None =>
    }
  }

  lemma CheckpointExactly(f: Formats, members: seq<Member>)
    requires WellFormed(JObject(members))
    ensures CheckpointRules(f, members) <==> HasCheckpoint(f, members)
  {
    hide Lookup, FromAscii, Holds, IdentifierField, IdentifierUnder, ShaField, ShaUnder, Hex64Field, HexUnder,
         TimestampField, TimeUnder, PositiveField, CountUnder;
    HoldsExactly(members, "proofCheckpoint");
    match ObjectField(members, PROOF_CHECKPOINT) {
      case Some(p) =>
        NestedKeys(members, PROOF_CHECKPOINT);
        LeavesExactly(f, p, "eventId");
        LeavesExactly(f, p, "eventHash");
        LeavesExactly(f, p, "eligibilityObservationDigest");
        LeavesExactly(f, p, "observedAt");
        CountExactly(p, "eventSequence");
      case None =>
    }
  }

  lemma RollbackExactly(members: seq<Member>)
    requires DistinctKeys(members)
    ensures RollbackRules(members) <==> IsRolledBack(members)
  {
    hide Lookup, FromAscii, Holds, PositiveField, CountUnder;
    HoldsExactly(members, "eligibleBeforeRollback");
    HoldsExactly(members, "rolledBack");
    HoldsExactly(members, "eligibleAfterRollback");
    HoldsExactly(members, "rollbackReason");
    CountExactly(members, "lifecycleRevision");
    CountExactly(members, "rollbackLifecycleRevision");
  }

  // ---------- Which keys a report has ----------

  const NAMES: seq<string> := [
    "version", "inputDigest", "apiOrigin", "tenantId", "adapterId", "trainingJobId", "evaluationId", "canaryId",
    "adapterDigest", "evaluationArtifactId", "evaluation", "canary", "lifecycleRevision", "proofCheckpoint",
    "rollbackLifecycleRevision", "eligibleBeforeRollback", "rolledBack", "eligibleAfterRollback", "rollbackReason",
    "proofDigest", "proofKeyId", "proofMac"]

  /** Every name is the key of a value, and every value has one of the names. */
  ghost predicate HasNames(members: seq<Member>) {
    && (forall k | 0 <= k < |NAMES| :: IsDefined(members, FromAscii(NAMES[k])))
    && (forall i | 0 <= i < |members| && members[i].value.Some? ::
          exists k | 0 <= k < |NAMES| :: members[i].key == FromAscii(NAMES[k]))
  }

  lemma NamesExactly()
    ensures |NAMES| == |REPORT_KEYS| == 22 && forall k | 0 <= k < 22 :: FromAscii(NAMES[k]) == REPORT_KEYS[k]
  {
    hide FromAscii;
  }

  lemma KeysExactly(members: seq<Member>)
    requires DistinctKeys(members)
    ensures HasExactlyKeys(members, REPORT_KEYS) <==> HasNames(members)
  {
    hide Lookup, FromAscii, NAMES, REPORT_KEYS;
    NamesExactly();
    forall key ensures Lookup(members, key).Some? <==> IsDefined(members, key) {
      if i :| 0 <= i < |members| && members[i].key == key {
        LookupAt(members, i);
      }
    }
  }

  // ---------- Which report is accepted ----------

  /** The text of the members without digest and code. */
  ghost predicate Signs(members: seq<Member>, text: Text) {
    exists rest: seq<Member> | DistinctKeys(rest) :: Stands(JObject(rest), text) &&
      forall m :: m in rest <==>
        m in members && m.key != FromAscii("proofDigest") && m.key != FromAscii("proofMac")
  }

  /** The key that an id stands for: the current one, or a retained one. */
  predicate IsKeyOf(a: Authority, keyId: Text, key: Key) {
    || (keyId == a.signingKeyId && key == a.signingKey)
    || (keyId != a.signingKeyId && keyId in a.keyring && a.keyring[keyId] == Retained(key))
  }

  ghost predicate IsSigned(c: Checks, members: seq<Member>, keyId: Text, key: Key) {
    exists digest: Text, mac: Text, text: Text | Signs(members, text) ::
      && Holds(members, "proofKeyId", JString(keyId))
      && Holds(members, "proofDigest", JString(digest)) && digest == c.digest(text)
      && Holds(members, "proofMac", JString(mac)) && mac == c.mac(key, digest + [0] + text) && Hex64(mac)
  }

  ghost predicate LegalFields(f: Formats, members: seq<Member>) {
    && HasNames(members) && NamesRun(members) && HasEvaluation(f, members) && HasCanary(f, members)
    && HasCheckpoint(f, members) && IsRolledBack(members)
  }

  ghost predicate LegalReport(c: Checks, a: Authority, v: Json, inputDigest: Text, origin: Text) {
    && v.JObject? && WellFormed(v) && LegalFields(c.formats, v.members)
    && Holds(v.members, "inputDigest", JString(inputDigest)) && Holds(v.members, "apiOrigin", JString(origin))
    && exists keyId: Text, key: Key :: IsKeyOf(a, keyId, key) && IsSigned(c, v.members, keyId, key)
  }

  lemma FieldsExactly(f: Formats, members: seq<Member>)
    requires WellFormed(JObject(members))
    ensures ValidFields(f, members) <==> LegalFields(f, members)
  {
    KeysExactly(members);
    NamesRunExactly(f, members);
    EvaluationExactly(f, members);
    CanaryExactly(f, members);
    CheckpointExactly(f, members);
    RollbackExactly(members);
    hide HasExactlyKeys, IdentityRules, IdentifierRules, EvaluationRules, CanaryRules, CheckpointRules, RollbackRules,
         HasNames, NamesRun, HasEvaluation, HasCanary, HasCheckpoint, IsRolledBack;
  }

  lemma KeyExactly(a: Authority, keyId: Text, key: Key)
    ensures VerificationKey(a, keyId) == Some(key) <==> IsKeyOf(a, keyId, key)
  {
  }

  lemma SamePrint(ms: seq<Member>, ns: seq<Member>)
    requires DistinctKeys(ms) && DistinctKeys(ns) && forall m :: m in ms <==> m in ns
    ensures Print(JObject(ms)) == Print(JObject(ns))
  {
    hide PrintMembers, SortByKey, SortedEntries;
    var es, fs := PrintMembers(ms), PrintMembers(ns);
    DistinctPrinted(ms);
    DistinctPrinted(ns);
    SortSorts(es);
    SortSorts(fs);
    forall e ensures e in es <==> e in fs {
      SamePrinted(ms, ns, e);
      SamePrinted(ns, ms, e);
    }
    SortedIsUnique(SortByKey(es), SortByKey(fs));
  }

  lemma SamePrinted(ms: seq<Member>, ns: seq<Member>, e: Entry<Text>)
    requires DistinctKeys(ms) && DistinctKeys(ns) && forall m | m in ms :: m in ns
    ensures e in PrintMembers(ms) ==> e in PrintMembers(ns)
  {
    hide Print, PrintMembers;
    PrintedEntry(ms, e.key, e.item);
    PrintedEntry(ns, e.key, e.item);
    assert e == Entry(e.key, e.item);
    if i :| 0 <= i < |ms| && ms[i].key == e.key && ms[i].value.Some? && e.item == Print(ms[i].value.value) {
      assert ms[i] in ns;
      var j :| 0 <= j < |ns| && ns[j] == ms[i];
    }
  }

  lemma {:induction false} WithoutMembers(members: seq<Member>, keys: set<Text>, m: Member)
    ensures m in Without(members, keys) <==> m in members && m.key !in keys
  {
    if members != [] {
      assert members == [members[0]] + members[1..];
      WithoutMembers(members[1..], keys, m);
    }
  }

  lemma SignsExactly(members: seq<Member>, text: Text)
    requires WellFormed(JObject(members))
    ensures Signs(members, text) <==> text == Print(JObject(Without(members, {PROOF_DIGEST, PROOF_MAC})))
  {
    hide Print, Stands, Without, FromAscii;
    var names := {PROOF_DIGEST, PROOF_MAC};
    var rest := Without(members, names);
    WithoutWellFormed(members, names);
    WithoutKeepsDistinct(members, names);
    forall m ensures m in rest <==> m in members && m.key !in names {
      WithoutMembers(members, names, m);
    }
    StandsExactly(JObject(rest), text);
    if Signs(members, text) {
      var other: seq<Member> :| DistinctKeys(other) && Stands(JObject(other), text) && forall m :: m in other <==>
        m in members && m.key != FromAscii("proofDigest") && m.key != FromAscii("proofMac");
      SamePrint(other, rest);
      OtherWellFormed(other, members);
      StandsExactly(JObject(other), text);
    }
  }

  lemma OtherWellFormed(other: seq<Member>, members: seq<Member>)
    requires DistinctKeys(other) && WellFormed(JObject(members)) && forall m | m in other :: m in members
    ensures WellFormed(JObject(other))
  {
    forall k | 0 <= k < |other| && other[k].value.Some? ensures WellFormed(other[k].value.value) {
      assert other[k] in members;
    }
  }

  lemma AuthenticExactly(c: Checks, a: Authority, members: seq<Member>)
    requires WellFormed(JObject(members))
    ensures Authentic(c, a, members) <==>
      exists keyId: Text, key: Key :: IsKeyOf(a, keyId, key) && IsSigned(c, members, keyId, key)
  {
    hide Print, Without, FromAscii, Holds, Lookup, IsHex64, Hex64, Signs, VerificationKey, IsKeyOf;
    HoldsExactly(members, "proofDigest");
    HoldsExactly(members, "proofMac");
    HoldsExactly(members, "proofKeyId");
    var canonical := Print(JObject(Without(members, {PROOF_DIGEST, PROOF_MAC})));
    forall text ensures Signs(members, text) <==> text == canonical {
      SignsExactly(members, text);
    }
    forall keyId, key ensures VerificationKey(a, keyId) == Some(key) <==> IsKeyOf(a, keyId, key) {
      KeyExactly(a, keyId, key);
    }
    forall mac ensures IsHex64(mac) <==> Hex64(mac) {
      Hex64Exactly(mac);
    }
    if Authentic(c, a, members) {
      var keyId := StringField(members, PROOF_KEY_ID).value;
      var key := VerificationKey(a, keyId).value;
      assert IsKeyOf(a, keyId, key) && Signs(members, canonical);
      assert IsSigned(c, members, keyId, key);
    }
  }

  lemma AcceptsExactly(c: Checks, a: Authority, v: Json, inputDigest: Text, origin: Text)
    ensures AcceptsReport(c, a, v, inputDigest, origin) <==> LegalReport(c, a, v, inputDigest, origin)
  {
    hide WellFormed, LegalFields, ValidFields, IsSigned, IsKeyOf, Lookup, Holds, FromAscii, Print, Without, IsHex64,
         VerificationKey, MacInput;
    if v.JObject? && WellFormed(v) {
      FieldsExactly(c.formats, v.members);
      AuthenticExactly(c, a, v.members);
      KeysOfObject(v);
      HoldsExactly(v.members, "inputDigest");
      HoldsExactly(v.members, "apiOrigin");
    }
  }

  lemma KeysOfObject(v: Json)
    requires v.JObject? && WellFormed(v)
    ensures DistinctKeys(v.members)
  {
  }

  /** A file is taken for the report of an earlier run exactly when it holds a legal one. */
  lemma ReplaysExactly(c: Checks, a: Authority, file: Bytes, inputDigest: Text, origin: Text, v: Json)
    ensures ExistingReport(c, a, file, inputDigest, origin) == Some(v) <==>
      && 1 <= |file| <= 1_048_576
      && HoldsDocument(file, v)
      && LegalReport(c, a, v, inputDigest, origin)
  {
    hide AcceptsReport, LegalReport, Decode, ReadDocument, Writes;
    AcceptsExactly(c, a, v, inputDigest, origin);
    DocumentExactly(Decode(file), v);
  }

  /** A file's text is a document, with or without one line end after it. */
  predicate IsDocument(all: Text, text: Text) {
    || all == text + FromAscii("\n")
    || (all == text && !(all != [] && all[|all| - 1] == 0xA))
  }

  ghost predicate HoldsDocument(file: Bytes, v: Json) {
    exists text: Text | IsDocument(Decode(file), text) :: Writes(text, v)
  }

  lemma DocumentExactly(all: Text, v: Json)
    ensures ReadDocument(all) == Some(v) <==> exists text: Text | IsDocument(all, text) :: Writes(text, v)
  {
    hide Read, Writes;
    forall text ensures Read(text) == Some(v) <==> Writes(text, v) {
      ReadExactly(text, v);
    }
    assert FromAscii("\n") == [0xA];
    if all != [] && all[|all| - 1] == 0xA {
      assert all == all[..|all| - 1] + [0xA];
      assert IsDocument(all, all[..|all| - 1]);
      forall text | IsDocument(all, text) ensures text == all[..|all| - 1] {
      }
    } else {
      assert IsDocument(all, all);
    }
  }

  // ---------- What a run checked ----------

  ghost predicate LegalRate(f: Formats, token: Text) {
    && token != [] && (forall k | 0 <= k < |token| :: token[k] in FromAscii("0123456789.+-eE"))
    && f.isRate(token) && |token| <= 25
  }

  ghost predicate LegalTime(f: Formats, t: Text) { f.isTimestamp(t) && |t| <= 27 }

  /** The values of a run, each of its own shape. */
  ghost predicate LegalValues(f: Formats, v: Fields) {
    && ShaText(v.inputDigest) && ShaText(v.adapterDigest) && ShaText(v.observationDigest) && Hex64(v.eventHash)
    && Identifier(v.tenantId) && Identifier(v.adapterId) && Identifier(v.trainingJobId) && Identifier(v.evaluationId)
    && Identifier(v.canaryId) && Identifier(v.evaluationArtifactId) && Identifier(v.eventId)
    && LegalRate(f, v.successRate) && LegalRate(f, v.regressionRate)
    && LegalTime(f, v.observedAt) && LegalTime(f, v.checkpointObservedAt)
    && HasText(v.servingRevision) && |v.servingRevision| <= 2000 && |v.apiOrigin| <= 20_000
    && 1 <= |v.evidenceRefs| <= 64
    && (forall ref | ref in v.evidenceRefs :: HasText(ref) && |ref| <= 2000)
    && 1 <= v.lifecycleRevision < 0x20_0000_0000_0000 - 1 && 1 <= v.eventSequence < 0x20_0000_0000_0000
  }

  lemma RateExactly(f: Formats, token: Text)
    ensures IsRateToken(f, token) <==> LegalRate(f, token)
  {
    hide NumberUnit, FromAscii;
    forall u: Unit ensures NumberUnit(u) <==> u in FromAscii("0123456789.+-eE") {
      NumberUnitExactly(u);
    }
  }

  lemma CheckedExactly(f: Formats, v: Fields)
    ensures Checked(f, v) <==> LegalValues(f, v)
  {
    hide ShaText, IsShaText, Hex64, IsHex64, Identifier, IsIdentifier, LegalRate, IsRateToken, HasText, NonBlank;
    forall t: Text
      ensures (IsShaText(t) <==> ShaText(t)) && (IsHex64(t) <==> Hex64(t))
      ensures (IsIdentifier(t) <==> Identifier(t)) && (NonBlank(t) <==> HasText(t))
      ensures IsRateToken(f, t) <==> LegalRate(f, t)
    {
      ShaTextExactly(t);
      Hex64Exactly(t);
      IdentifierExactly(t);
      TextExactly(t);
      RateExactly(f, t);
    }
  }
}
