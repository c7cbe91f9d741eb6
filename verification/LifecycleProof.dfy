/**
 The signed lifecycle report: how it is authenticated, how an existing output file is
 accepted on replay, and what reading a report's own file gives. Digest and
 authentication code are arbitrary functions.
 */
module LifecycleProof {
  import opened Basics
  import opened Utf8
  import opened CanonicalJson
  import opened CanonicalJsonTheorems
  import opened CanonicalText
  import opened LifecycleReport

  type Key = Bytes

  datatype KeyStatus = Retained(key: Key) | Revoked

  datatype Authority = Authority(signingKeyId: Text, signingKey: Key, keyring: map<Text, KeyStatus>)

  /** The digest, the authentication code, and the reading of numbers and instants. */
  datatype Checks = Checks(digest: Text -> Text, mac: (Key, Text) -> Text, formats: Formats)

  const NEWLINE: Unit := 10
  const MAX_FILE_BYTES := 1024 * 1024

  // ---------- Building a report ----------

  function MacInput(digest: Text, canonical: Text): Text { digest + [0] + canonical }

  /** The body with the signing key id is authenticated by a digest and a MAC over its canonical text. */
  function BuildReport(c: Checks, a: Authority, body: seq<Member>): Json {
    var authenticated := body + [Member(PROOF_KEY_ID, Some(JString(a.signingKeyId)))];
    var canonical := Print(JObject(authenticated));
    var digest := c.digest(canonical);
    JObject(authenticated + [
      Member(PROOF_DIGEST, Some(JString(digest))),
      Member(PROOF_MAC, Some(JString(c.mac(a.signingKey, MacInput(digest, canonical)))))])
  }

  function FileText(report: Json): Text { Print(report) + [NEWLINE] }

  function FileBytes(report: Json): Bytes { Encode(FileText(report)) }

  // ---------- Accepting an existing report ----------

  function ReadDocument(t: Text): Option<Json> {
    if t != [] && t[|t| - 1] == NEWLINE then Read(t[..|t| - 1]) else Read(t)
  }

  function Without(members: seq<Member>, keys: set<Text>): (r: seq<Member>)
    ensures forall m | m in r :: m in members && m.key !in keys
  {
    if members == [] then []
    else if members[0].key in keys then Without(members[1..], keys)
    else [members[0]] + Without(members[1..], keys)
  }

  function VerificationKey(a: Authority, keyId: Text): Option<Key> {
    if keyId == a.signingKeyId then Some(a.signingKey)
    else if keyId in a.keyring && a.keyring[keyId].Retained? then Some(a.keyring[keyId].key)
    else None
  }

  /** Digest and code are those of the other members, under a current or retained key. */
  predicate Authentic(c: Checks, a: Authority, members: seq<Member>) {
    var digest, mac, keyId := StringField(members, PROOF_DIGEST), StringField(members, PROOF_MAC),
                              StringField(members, PROOF_KEY_ID);
    && digest.Some? && mac.Some? && keyId.Some?
    && var key := VerificationKey(a, keyId.value);
    && key.Some?
    && var canonical := Print(JObject(Without(members, {PROOF_DIGEST, PROOF_MAC})));
    && digest.value == c.digest(canonical)
    && IsHex64(mac.value) && mac.value == c.mac(key.value, MacInput(digest.value, canonical))
  }

  /** The report is authentic and belongs to this input and origin. */
  predicate AcceptsReport(c: Checks, a: Authority, v: Json, inputDigest: Text, origin: Text) {
    && v.JObject? && WellFormed(v)
    && Authentic(c, a, v.members)
    && ValidFields(c.formats, v.members)
    && StringField(v.members, INPUT_DIGEST) == Some(inputDigest)
    && StringField(v.members, API_ORIGIN) == Some(origin)
  }

  /** An output file that exists: it is read only if it is not empty and not too large. */
  function ExistingReport(c: Checks, a: Authority, file: Bytes, inputDigest: Text, origin: Text): Option<Json> {
    if !(1 <= |file| <= MAX_FILE_BYTES) then None
    else match ReadDocument(Decode(file))
      case Some(v) => if AcceptsReport(c, a, v, inputDigest, origin) then Some(v) else None
      case None => None
  }

  // ---------- Reading back what was built ----------

  lemma ReadOwnFile(report: Json)
    requires WellFormed(report)
    ensures ReadDocument(Decode(FileBytes(report))) == Some(Canon(report))
  {
    hide Read, Print, Canon, Encode, Decode;
    PrintedBytesRead(report, [NEWLINE]);
    ReadPrinted(report);
    assert FileText(report)[..|FileText(report)| - 1] == Print(report);
  }

  lemma SortedMembersDistinct(es: seq<Entry<Json>>)
    requires SortedEntries(es)
    ensures DistinctKeys(AsMembers(es))
  {
    var cs := AsMembers(es);
    forall i, j | 0 <= i < j < |cs| ensures cs[i].key != cs[j].key {
      LexTotal(es[i].key, es[j].key);
    }
  }

  lemma LookupSorted(es: seq<Entry<Json>>, key: Text, v: Json)
    requires SortedEntries(es)
    ensures Entry(key, v) in es <==> Lookup(AsMembers(es), key) == Some(v)
  {
    hide Lookup, SortedEntries;
    var cs := AsMembers(es);
    SortedMembersDistinct(es);
    if Entry(key, v) in es {
      var k :| 0 <= k < |es| && es[k] == Entry(key, v);
      LookupAt(cs, k);
    }
    if Lookup(cs, key) == Some(v) {
      var k :| 0 <= k < |cs| && cs[k] == Member(key, Some(v));
      assert es[k] == Entry(key, v);
    }
  }

  /** Canonicalizing an object canonicalizes each field. */
  lemma LookupCanon(members: seq<Member>, key: Text)
    requires DistinctKeys(members)
    ensures DistinctKeys(Canon(JObject(members)).members)
    ensures match Lookup(members, key)
      case Some(v) => Lookup(Canon(JObject(members)).members, key) == Some(Canon(v))
      case None => Lookup(Canon(JObject(members)).members, key) == None
  {
    hide Lookup, SortByKey, AsMembers, SortedEntries, CanonMembers;
    var es := SortByKey(CanonMembers(members));
    DistinctPrinted(members);
    SortSorts(CanonMembers(members));
    SortedMembersDistinct(es);
    assert Canon(JObject(members)) == JObject(AsMembers(es));
    match Lookup(members, key) {
      case Some(v) =>
        CanonicalMembers(members, Entry(key, Canon(v)));
        LookupSorted(es, key, Canon(v));
      case None =>
        if Lookup(AsMembers(es), key).Some? {
          var v := Lookup(AsMembers(es), key).value;
          CanonicalMembers(members, Entry(key, v));
          LookupSorted(es, key, v);
        }
    }
  }

  lemma {:induction false} LookupWithout(members: seq<Member>, keys: set<Text>, key: Text)
    ensures Lookup(Without(members, keys), key) == if key in keys then None else Lookup(members, key)
  {
    if members != [] {
      LookupWithout(members[1..], keys, key);
    }
  }

  lemma {:induction false} WithoutKeepsDistinct(members: seq<Member>, keys: set<Text>)
    requires DistinctKeys(members)
    ensures DistinctKeys(Without(members, keys))
  {
    if members != [] {
      var rest := members[1..];
      assert forall i | 0 <= i < |rest| :: rest[i] == members[i + 1];
      WithoutKeepsDistinct(rest, keys);
      forall i | 0 <= i < |Without(rest, keys)| ensures Without(rest, keys)[i].key != members[0].key {
        assert Without(rest, keys)[i] in rest;
      }
    }
  }

  lemma {:induction false} LookupAppend(members: seq<Member>, last: Member, key: Text)
    requires forall k | 0 <= k < |members| :: members[k].key != last.key
    ensures Lookup(members + [last], key) == if key == last.key then last.value else Lookup(members, key)
  {
    var all := members + [last];
    if members != [] {
      assert all[1..] == members[1..] + [last];
      LookupAppend(members[1..], last, key);
    } else {
      assert all[1..] == [];
    }
  }

  // ---------- Every built report is accepted on replay ----------

  predicate ProperBody(body: seq<Member>) {
    && WellFormed(JObject(body))
    && forall k | 0 <= k < |body| :: body[k].key !in {PROOF_DIGEST, PROOF_MAC, PROOF_KEY_ID}
  }

  function Authenticated(a: Authority, body: seq<Member>): seq<Member> {
    body + [Member(PROOF_KEY_ID, Some(JString(a.signingKeyId)))]
  }

  lemma ReservedNamesDiffer()
    ensures PROOF_DIGEST != PROOF_MAC && PROOF_DIGEST != PROOF_KEY_ID && PROOF_MAC != PROOF_KEY_ID
  {
    assert |PROOF_DIGEST| == 11 && |PROOF_MAC| == 8 && |PROOF_KEY_ID| == 10;
  }

  /** The fields of a built report, by name. */
  lemma BuiltFields(c: Checks, a: Authority, body: seq<Member>, key: Text)
    requires ProperBody(body)
    ensures BuildReport(c, a, body).JObject? && WellFormed(BuildReport(c, a, body))
    ensures var members, canonical := BuildReport(c, a, body).members, Print(JObject(Authenticated(a, body)));
      && Lookup(members, PROOF_KEY_ID) == Some(JString(a.signingKeyId))
      && Lookup(members, PROOF_DIGEST) == Some(JString(c.digest(canonical)))
      && Lookup(members, PROOF_MAC) == Some(JString(c.mac(a.signingKey, MacInput(c.digest(canonical), canonical))))
      && (key !in {PROOF_DIGEST, PROOF_MAC} ==> Lookup(members, key) == Lookup(Authenticated(a, body), key))
      && (key !in {PROOF_DIGEST, PROOF_MAC, PROOF_KEY_ID} ==> Lookup(members, key) == Lookup(body, key))
    ensures DistinctKeys(Authenticated(a, body)) && WellFormed(JObject(Authenticated(a, body)))
  {
    hide Lookup, Print, MacInput, PROOF_DIGEST, PROOF_MAC, PROOF_KEY_ID;
    ReservedNamesDiffer();
    var one := Authenticated(a, body);
    var canonical := Print(JObject(one));
    var digest := Member(PROOF_DIGEST, Some(JString(c.digest(canonical))));
    var mac := Member(PROOF_MAC, Some(JString(c.mac(a.signingKey, MacInput(c.digest(canonical), canonical)))));
    assert BuildReport(c, a, body).members == (one + [digest]) + [mac];
    forall k | k in {key, PROOF_DIGEST, PROOF_MAC, PROOF_KEY_ID}
      ensures Lookup((one + [digest]) + [mac], k) ==
        if k == PROOF_MAC then mac.value else if k == PROOF_DIGEST then digest.value
        else if k == PROOF_KEY_ID then Some(JString(a.signingKeyId)) else Lookup(body, k)
      ensures k !in {PROOF_DIGEST, PROOF_MAC} ==> Lookup((one + [digest]) + [mac], k) == Lookup(one, k)
    {
      LookupAppend(one + [digest], mac, k);
      LookupAppend(one, digest, k);
      LookupAppend(body, one[|body|], k);
    }
  }

  // ---------- Canonical values ----------

  /** The canonical value is equal to the original up to order and undefined members. */
  lemma {:induction false} CanonEquivalent(v: Json)
    requires WellFormed(v)
    ensures WellFormed(Canon(v)) && Equivalent(v, Canon(v))
    decreases v
  {
    match v {
      case JArray(items) =>
        forall k | 0 <= k < |items| ensures ChildCanon(items[k]) {
          CanonEquivalent(items[k]);
        }
        CanonArrayEquivalent(items);
      case JObject(members) =>
        forall k | 0 <= k < |members| && members[k].value.Some? ensures ChildCanon(members[k].value.value) {
          CanonEquivalent(members[k].value.value);
        }
        CanonObjectEquivalent(members);
      case _ =>
    }
  }

  predicate ChildCanon(v: Json) { WellFormed(Canon(v)) && Equivalent(v, Canon(v)) }

  lemma CanonArrayEquivalent(items: seq<Json>)
    requires forall k | 0 <= k < |items| :: ChildCanon(items[k])
    ensures WellFormed(Canon(JArray(items))) && Equivalent(JArray(items), Canon(JArray(items)))
  {
    var cs := CanonItems(items);
    assert Canon(JArray(items)) == JArray(cs);
    forall k | 0 <= k < |items| ensures WellFormed(cs[k]) && Equivalent(items[k], cs[k]) {
      assert ChildCanon(items[k]);
    }
  }

  lemma CanonObjectEquivalent(members: seq<Member>)
    requires DistinctKeys(members)
    requires forall k | 0 <= k < |members| && members[k].value.Some? :: ChildCanon(members[k].value.value)
    ensures WellFormed(Canon(JObject(members))) && Equivalent(JObject(members), Canon(JObject(members)))
  {
    hide Lookup, Canon, WellFormed, Equivalent;
    CanonObjectWellFormed(members);
    CanonKeepsObject(members);
    LookupCanon(members, []);
    LookupsGiveEquivalent(members, Canon(JObject(members)).members);
  }

  lemma CanonObjectWellFormed(members: seq<Member>)
    requires DistinctKeys(members)
    requires forall k | 0 <= k < |members| && members[k].value.Some? :: WellFormed(Canon(members[k].value.value))
    ensures WellFormed(Canon(JObject(members)))
    ensures forall key :: match Lookup(members, key)
      case Some(v) => Lookup(Canon(JObject(members)).members, key) == Some(Canon(v))
      case None => Lookup(Canon(JObject(members)).members, key) == None
  {
    hide Lookup, Canon;
    CanonKeepsObject(members);
    LookupCanon(members, []);
    var cs := Canon(JObject(members)).members;
    forall key ensures match Lookup(members, key)
      case Some(v) => Lookup(cs, key) == Some(Canon(v))
      case None => Lookup(cs, key) == None
    {
      LookupCanon(members, key);
    }
    forall k | 0 <= k < |cs| && cs[k].value.Some? ensures WellFormed(cs[k].value.value) {
      LookupAt(cs, k);
      var v := Lookup(members, cs[k].key).value;
      var i :| 0 <= i < |members| && members[i] == Member(cs[k].key, Some(v));
    }
  }

  lemma CanonKeepsObject(members: seq<Member>)
    ensures Canon(JObject(members)).JObject?
  {
  }

  /** Objects whose fields agree up to canonicalization are equivalent. */
  lemma LookupsGiveEquivalent(ms: seq<Member>, ns: seq<Member>)
    requires DistinctKeys(ms) && DistinctKeys(ns)
    requires forall key :: match Lookup(ms, key)
      case Some(v) => Lookup(ns, key) == Some(Canon(v))
      case None => Lookup(ns, key) == None
    requires forall k | 0 <= k < |ms| && ms[k].value.Some? :: Equivalent(ms[k].value.value, Canon(ms[k].value.value))
    ensures Equivalent(JObject(ms), JObject(ns))
  {
    hide Lookup, Canon;
    forall i | 0 <= i < |ms| && ms[i].value.Some?
      ensures Lookup(ns, ms[i].key) == Some(Canon(ms[i].value.value))
    {
      LookupAt(ms, i);
    }
    forall j | 0 <= j < |ns| && ns[j].value.Some? ensures Lookup(ms, ns[j].key).Some? {
      LookupAt(ns, j);
    }
  }

  /** Canonicalizing twice changes nothing, and the canonical value prints the same text. */
  lemma CanonIsStable(v: Json)
    requires WellFormed(v)
    ensures WellFormed(Canon(v)) && Canon(Canon(v)) == Canon(v) && Print(Canon(v)) == Print(v)
  {
    hide Canon, Print, Read, Equivalent, WellFormed;
    CanonEquivalent(v);
    PrintIsCanonical(v, Canon(v));
    ReadPrinted(v);
    ReadPrinted(Canon(v));
  }

  /** What the verifier recomputes from the file is the text that was signed. */
  lemma SignedTextReadsBack(c: Checks, a: Authority, body: seq<Member>)
    requires ProperBody(body)
    ensures var v := Canon(BuildReport(c, a, body));
      v.JObject? &&
      Print(JObject(Without(v.members, {PROOF_DIGEST, PROOF_MAC}))) == Print(JObject(Authenticated(a, body)))
  {
    hide Lookup, Print, Canon, Equivalent, BuildReport, PROOF_DIGEST, PROOF_MAC, PROOF_KEY_ID, Authenticated, Without,
         ProperBody;
    BuiltFields(c, a, body, []);
    var report, one := BuildReport(c, a, body), Authenticated(a, body);
    CanonKeepsObject(report.members);
    var cs := Canon(report).members;
    CanonIsStable(report);
    var rest := Without(cs, {PROOF_DIGEST, PROOF_MAC});
    WithoutKeepsDistinct(cs, {PROOF_DIGEST, PROOF_MAC});
    forall key ensures match Lookup(one, key)
      case Some(v) => Lookup(rest, key) == Some(Canon(v))
      case None => Lookup(rest, key) == None
    {
      BuiltFields(c, a, body, key);
      LookupCanon(report.members, key);
      LookupWithout(cs, {PROOF_DIGEST, PROOF_MAC}, key);
      ReservedAbsent(a, body, key);
    }
    forall k | 0 <= k < |one| && one[k].value.Some? ensures Equivalent(one[k].value.value, Canon(one[k].value.value)) {
      CanonEquivalent(one[k].value.value);
    }
    LookupsGiveEquivalent(one, rest);
    WithoutWellFormed(cs, {PROOF_DIGEST, PROOF_MAC});
    PrintIsCanonical(JObject(one), JObject(rest));
  }

  lemma WithoutWellFormed(members: seq<Member>, keys: set<Text>)
    requires WellFormed(JObject(members))
    ensures WellFormed(JObject(Without(members, keys)))
  {
    var rest := Without(members, keys);
    WithoutKeepsDistinct(members, keys);
    forall k | 0 <= k < |rest| && rest[k].value.Some? ensures WellFormed(rest[k].value.value) {
      assert rest[k] in members;
    }
  }

  lemma ReservedAbsent(a: Authority, body: seq<Member>, key: Text)
    requires ProperBody(body)
    ensures key in {PROOF_DIGEST, PROOF_MAC} ==> Lookup(Authenticated(a, body), key) == None
  {
    ReservedNamesDiffer();
    var one := Authenticated(a, body);
    if Lookup(one, key).Some? {
      var k :| 0 <= k < |one| && one[k] == Member(key, Lookup(one, key));
      assert k < |body| ==> body[k] == one[k];
    }
  }
}
