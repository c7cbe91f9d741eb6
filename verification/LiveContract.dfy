/**
 The rules of the public claims contract on live evidence: well-formed stamps that are neither
 in the future nor expired, the audited revision everywhere, and no stamp of whole seconds that
 stands for observations of different surfaces.
 */
module LiveContract {
  import opened Basics
  import opened IsoTime
  import opened RegistryJson
  import Texts

  const AUDITED_REVISION := "auditedRevision"
  const CLAIMS := "claims"
  const EVIDENCE := "evidence"
  const ID := "id"
  const TYPE := "type"
  const LIVE := "live"
  const LOCATOR := "locator"
  const OBSERVED_AT := "observedAt"
  const FRESH_UNTIL := "freshUntil"
  const REVISION := "revision"

  // ---------- Live evidence of a registry ----------

  datatype Live = Live(
    id: Option<string>, locator: Option<string>, observedAt: Option<string>, freshUntil: Option<string>,
    revision: Option<string>)

  /** The last field of a key counts. */
  function FieldOf(fields: seq<Field>, key: string): Option<Tree> {
    if fields == [] then None
    else
      var last := |fields| - 1;
      if fields[last].key == key then Some(fields[last].value) else FieldOf(fields[..last], key)
  }

  function FieldIn(tree: Tree, key: string): Option<Tree> {
    if tree.Record? then FieldOf(tree.fields, key) else None
  }

  function StringIn(tree: Tree, key: string): Option<string> {
    match FieldIn(tree, key)
    case Some(Text(content)) => Some(content)
    case _ => None
  }

  function ItemsIn(tree: Tree, key: string): seq<Tree> {
    match FieldIn(tree, key)
    case Some(List(items)) => items
    case _ => []
  }

  function LiveIn(evidence: Tree): Live {
    Live(StringIn(evidence, ID), StringIn(evidence, LOCATOR), StringIn(evidence, OBSERVED_AT),
      StringIn(evidence, FRESH_UNTIL), StringIn(evidence, REVISION))
  }

  function LiveItems(evidence: seq<Tree>): seq<Live> {
    if evidence == [] then []
    else (if StringIn(evidence[0], TYPE) == Some(LIVE) then [LiveIn(evidence[0])] else []) + LiveItems(evidence[1..])
  }

  function LiveClaims(claims: seq<Tree>): seq<Live> {
    if claims == [] then [] else LiveItems(ItemsIn(claims[0], EVIDENCE)) + LiveClaims(claims[1..])
  }

  /** The live evidence of all claims, in order. */
  function LiveOf(registry: Tree): seq<Live> { LiveClaims(ItemsIn(registry, CLAIMS)) }

  function AuditedOf(registry: Tree): Option<string> { StringIn(registry, AUDITED_REVISION) }

  // ---------- The rules ----------

  function InstantOf(stamp: Option<string>): Option<int> {
    if stamp.Some? then Parse(stamp.value) else None
  }

  /** One entry: observed by `asOf`, fresh until later than both, at the audited revision. */
  predicate Current(e: Live, audited: string, asOf: int) {
    var seen, until := InstantOf(e.observedAt), InstantOf(e.freshUntil);
    && seen.Some? && until.Some? && e.revision == Some(audited)
    && seen.value <= asOf && seen.value < until.value && asOf < until.value
  }

  function LocatorText(e: Live): string {
    if e.locator.Some? && Texts.NonBlank(e.locator.value) then e.locator.value else ""
  }

  predicate WholeSeconds(stamp: Option<string>) {
    stamp.Some? && IsIso(stamp.value) && Texts.EndsWith(stamp.value, ".000Z")
  }

  /** One stamp of whole seconds for two surfaces. */
  predicate BatchStamped(a: Live, b: Live) {
    a.observedAt == b.observedAt && WholeSeconds(a.observedAt) && LocatorText(a) != LocatorText(b)
  }

  /** The registry is at a full revision, every live entry is current at it, and no stamp is a batch's. */
  predicate LiveRules(audited: Option<string>, live: seq<Live>, asOf: int) {
    && audited.Some? && Texts.IsSha(audited.value)
    && (forall k | 0 <= k < |live| :: Current(live[k], audited.value, asOf))
    && Unbatched(live)
  }

  // ---------- The validator ----------

  datatype Code =
    | AuditedRevision
    | ObservedAt
    | FreshUntil
    | RevisionInvalid
    | RevisionMismatch
    | Future
    | FreshnessWindow
    | Stale
    | BatchStamp

  datatype Issue = Issue(code: Code, subject: string)

  function Subject(e: Live): string {
    if e.id.Some? && Texts.NonBlank(e.id.value) then e.id.value else "unknown"
  }

  /** The entry breaks the rule of this code. */
  predicate EntryBreaks(e: Live, audited: Option<string>, asOf: int, code: Code) {
    var seen, until := InstantOf(e.observedAt), InstantOf(e.freshUntil);
    match code
    case ObservedAt => seen.None?
    case FreshUntil => until.None?
    case RevisionInvalid => e.revision.None? || !Texts.IsSha(e.revision.value)
    case RevisionMismatch =>
      && e.revision.Some? && Texts.IsSha(e.revision.value)
      && audited.Some? && Texts.NonBlank(audited.value) && e.revision != audited
    case Future => seen.Some? && asOf < seen.value
    case FreshnessWindow => seen.Some? && until.Some? && until.value <= seen.value
    case Stale => until.Some? && until.value <= asOf
    case _ => false
  }

  /** Checks one entry; a missing audited revision has its own issue. */
  method ValidateEntry(e: Live, audited: Option<string>, asOf: int) returns (issues: seq<Issue>)
    requires audited.Some? ==> Texts.NonBlank(audited.value)
    ensures forall issue :: issue in issues <==>
      issue.subject == Subject(e) && EntryBreaks(e, audited, asOf, issue.code)
  {
    hide InstantOf, Subject, Texts.IsSha, Texts.NonBlank;
    issues := [];
    var seen, until := InstantOf(e.observedAt), InstantOf(e.freshUntil);
    if seen.None? {
      issues := issues + [Issue(ObservedAt, Subject(e))];
    }
    if until.None? {
      issues := issues + [Issue(FreshUntil, Subject(e))];
    }
    if e.revision.None? || !Texts.IsSha(e.revision.value) {
      issues := issues + [Issue(RevisionInvalid, Subject(e))];
    } else if audited.Some? && e.revision != audited {
      issues := issues + [Issue(RevisionMismatch, Subject(e))];
    }
    if seen.Some? && seen.value > asOf {
      issues := issues + [Issue(Future, Subject(e))];
    }
    if until.Some? && seen.Some? && until.value <= seen.value {
      issues := issues + [Issue(FreshnessWindow, Subject(e))];
    }
    if until.Some? && until.value <= asOf {
      issues := issues + [Issue(Stale, Subject(e))];
    }
  }

  /** An entry is current exactly if it breaks no rule, at a full audited revision. */
  lemma CurrentBreaksNothing(e: Live, audited: string, asOf: int)
    requires Texts.IsSha(audited)
    ensures Current(e, audited, asOf) <==> forall code :: !EntryBreaks(e, Some(audited), asOf, code)
  {
    ShaIsNonBlank(audited);
    hide InstantOf, Texts.IsSha, Texts.NonBlank;
    if !Current(e, audited, asOf) {
      var some := Some(audited);
      assert EntryBreaks(e, some, asOf, ObservedAt) || EntryBreaks(e, some, asOf, FreshUntil)
        || EntryBreaks(e, some, asOf, RevisionInvalid) || EntryBreaks(e, some, asOf, RevisionMismatch)
        || EntryBreaks(e, some, asOf, Future) || EntryBreaks(e, some, asOf, FreshnessWindow)
        || EntryBreaks(e, some, asOf, Stale);
    }
  }

  // ---------- Batch stamps ----------

  /** An entry seen at a stamp: its subject, and where. */
  datatype Sighting = Sighting(subject: string, locator: string)

  /** The entries observed at one stamp of whole seconds. */
  function Bucket(live: seq<Live>, stamp: string): seq<Sighting> {
    if live == [] then []
    else
      var last := live[|live| - 1];
      Bucket(live[..|live| - 1], stamp) +
      if last.observedAt == Some(stamp) && WholeSeconds(last.observedAt)
      then [Sighting(Subject(last), LocatorText(last))]
      else []
  }

  predicate OnePlace(bucket: seq<Sighting>) { forall k | 0 <= k < |bucket| :: bucket[k].locator == bucket[0].locator }

  lemma {:induction false} BucketHolds(live: seq<Live>, stamp: string, s: Sighting)
    ensures s in Bucket(live, stamp) <==>
      exists k | 0 <= k < |live| ::
        live[k].observedAt == Some(stamp) && WholeSeconds(live[k].observedAt)
        && s == Sighting(Subject(live[k]), LocatorText(live[k]))
  {
    hide WholeSeconds, LocatorText, Subject;
    if live != [] {
      BucketHolds(live[..|live| - 1], stamp, s);
    }
  }

  predicate Unbatched(live: seq<Live>) {
    forall i, j | 0 <= i < j < |live| :: !BatchStamped(live[i], live[j])
  }

  /** Another entry was observed at the same stamp of whole seconds elsewhere. */
  predicate SharesStamp(live: seq<Live>, k: nat)
    requires k < |live|
  {
    exists j | 0 <= j < |live| :: BatchStamped(live[k], live[j])
  }

  lemma SharedIsElsewhere(live: seq<Live>, stamp: string, s: Sighting)
    requires s in Bucket(live, stamp) && !OnePlace(Bucket(live, stamp))
    ensures exists k | 0 <= k < |live| ::
      live[k].observedAt == Some(stamp) && Subject(live[k]) == s.subject && SharesStamp(live, k)
  {
    hide WholeSeconds, LocatorText, Subject, Bucket;
    var bucket := Bucket(live, stamp);
    var other :| other in bucket && other.locator != s.locator by {
      var k :| 0 <= k < |bucket| && bucket[k].locator != bucket[0].locator;
      assert bucket[0] in bucket && bucket[k] in bucket;
      assert bucket[0].locator != s.locator || bucket[k].locator != s.locator;
    }
    BucketHolds(live, stamp, s);
    BucketHolds(live, stamp, other);
    var i :| 0 <= i < |live| && live[i].observedAt == Some(stamp) && WholeSeconds(live[i].observedAt)
      && s == Sighting(Subject(live[i]), LocatorText(live[i]));
    var j :| 0 <= j < |live| && live[j].observedAt == Some(stamp) && WholeSeconds(live[j].observedAt)
      && other == Sighting(Subject(live[j]), LocatorText(live[j]));
    assert BatchStamped(live[i], live[j]);
  }

  lemma ElsewhereIsShared(live: seq<Live>, k: nat)
    requires k < |live| && SharesStamp(live, k)
    ensures live[k].observedAt.Some?
    ensures var bucket := Bucket(live, live[k].observedAt.value);
      !OnePlace(bucket) && Sighting(Subject(live[k]), LocatorText(live[k])) in bucket
  {
    hide LocatorText, Subject, Bucket;
    var j :| 0 <= j < |live| && BatchStamped(live[k], live[j]);
    var stamp := live[k].observedAt.value;
    var one, two := Sighting(Subject(live[k]), LocatorText(live[k])), Sighting(Subject(live[j]), LocatorText(live[j]));
    BucketHolds(live, stamp, one);
    BucketHolds(live, stamp, two);
    hide WholeSeconds;
    assert one in Bucket(live, stamp) && two in Bucket(live, stamp);
    assert one.locator != two.locator;
  }

  function At(buckets: map<string, seq<Sighting>>, stamp: string): seq<Sighting> {
    if stamp in buckets then buckets[stamp] else []
  }

  method FillBuckets(live: seq<Live>) returns (buckets: map<string, seq<Sighting>>)
    ensures forall stamp :: At(buckets, stamp) == Bucket(live, stamp)
  {
    hide WholeSeconds, LocatorText, Subject;
    buckets := map[];
    for k := 0 to |live|
      invariant forall stamp :: At(buckets, stamp) == Bucket(live[..k], stamp)
    {
      ghost var before := buckets;
      if WholeSeconds(live[k].observedAt) && live[k].observedAt.Some? {
        var stamp := live[k].observedAt.value;
        buckets := buckets[stamp := At(buckets, stamp) + [Sighting(Subject(live[k]), LocatorText(live[k]))]];
      }
      assert live[..k + 1][..k] == live[..k];
      forall stamp ensures At(buckets, stamp) == Bucket(live[..k + 1], stamp) {
        assert At(before, stamp) == Bucket(live[..k], stamp);
      }
    }
    assert live[..|live|] == live;
  }

  /** One issue for every entry of a bucket of more than one place. */
  method CheckBuckets(buckets: map<string, seq<Sighting>>) returns (issues: seq<Issue>)
    ensures forall issue :: issue in issues <==> issue.code == BatchStamp && IsShared(buckets, issue.subject)
  {
    hide OnePlace;
    issues := [];
    var todo := buckets.Keys;
    while todo != {}
      invariant todo <= buckets.Keys
      invariant forall issue :: issue in issues <==>
        issue.code == BatchStamp && exists stamp | stamp in buckets && stamp !in todo ::
          !OnePlace(buckets[stamp]) && Holds(buckets[stamp], issue.subject)
    {
      var stamp :| stamp in todo;
      ghost var left := todo;
      todo := todo - {stamp};
      if !OnePlace(buckets[stamp]) {
        var found := BucketIssues(buckets[stamp]);
        issues := issues + found;
      }
      assert forall other | other in buckets :: other !in todo <==> other !in left || other == stamp;
    }
  }

  predicate Holds(bucket: seq<Sighting>, subject: string) {
    exists k | 0 <= k < |bucket| :: bucket[k].subject == subject
  }

  predicate IsShared(buckets: map<string, seq<Sighting>>, subject: string) {
    exists stamp | stamp in buckets :: !OnePlace(buckets[stamp]) && Holds(buckets[stamp], subject)
  }

  method BucketIssues(bucket: seq<Sighting>) returns (issues: seq<Issue>)
    ensures forall issue :: issue in issues <==> issue.code == BatchStamp && Holds(bucket, issue.subject)
  {
    issues := [];
    for k := 0 to |bucket|
      invariant forall issue :: issue in issues <==> issue.code == BatchStamp && Holds(bucket[..k], issue.subject)
    {
      issues := issues + [Issue(BatchStamp, bucket[k].subject)];
      assert bucket[..k + 1] == bucket[..k] + [bucket[k]];
      HoldsOneMore(bucket[..k], bucket[k]);
    }
    assert bucket[..|bucket|] == bucket;
  }

  lemma HoldsOneMore(bucket: seq<Sighting>, s: Sighting)
    ensures forall subject :: Holds(bucket + [s], subject) <==> Holds(bucket, subject) || subject == s.subject
  {
    var all := bucket + [s];
    forall subject ensures Holds(all, subject) <==> Holds(bucket, subject) || subject == s.subject {
      if Holds(bucket, subject) {
        var k :| 0 <= k < |bucket| && bucket[k].subject == subject;
        assert all[k].subject == subject;
      }
      assert all[|bucket|] == s;
    }
  }

  lemma SharedExactly(live: seq<Live>, buckets: map<string, seq<Sighting>>, subject: string)
    requires forall stamp :: At(buckets, stamp) == Bucket(live, stamp)
    ensures IsShared(buckets, subject) <==>
      exists k | 0 <= k < |live| :: Subject(live[k]) == subject && SharesStamp(live, k)
  {
    hide WholeSeconds, LocatorText, Subject, Bucket, OnePlace, SharesStamp;
    if IsShared(buckets, subject) {
      var stamp :| stamp in buckets && !OnePlace(buckets[stamp]) && Holds(buckets[stamp], subject);
      assert At(buckets, stamp) == buckets[stamp];
      var n :| 0 <= n < |buckets[stamp]| && buckets[stamp][n].subject == subject;
      SharedIsElsewhere(live, stamp, buckets[stamp][n]);
    }
    if k :| 0 <= k < |live| && Subject(live[k]) == subject && SharesStamp(live, k) {
      ElsewhereIsShared(live, k);
      var stamp := live[k].observedAt.value;
      assert At(buckets, stamp) == Bucket(live, stamp);
      NothingIsOnePlace();
      assert stamp in buckets;
      var n :| 0 <= n < |buckets[stamp]| && buckets[stamp][n] == Sighting(Subject(live[k]), LocatorText(live[k]));
      assert Holds(buckets[stamp], subject);
    }
  }

  lemma NothingIsOnePlace()
    ensures OnePlace([])
  {
  }

  lemma UnbatchedSharesNothing(live: seq<Live>)
    ensures Unbatched(live) <==> forall k | 0 <= k < |live| :: !SharesStamp(live, k)
  {
    hide WholeSeconds, LocatorText;
    if k, j :| 0 <= k < |live| && 0 <= j < |live| && BatchStamped(live[k], live[j]) {
      assert k != j && BatchStamped(live[j], live[k]);
    }
    if i, j :| 0 <= i < j < |live| && BatchStamped(live[i], live[j]) {
      assert SharesStamp(live, i);
    }
  }

  // ---------- The whole validation ----------

  /** The live evidence breaks a rule of this code, with this subject. */
  predicate Breaks(audited: Option<string>, live: seq<Live>, asOf: int, issue: Issue) {
    match issue.code
    case AuditedRevision => issue.subject == "registry" && !(audited.Some? && Texts.IsSha(audited.value))
    case BatchStamp => exists k | 0 <= k < |live| :: Subject(live[k]) == issue.subject && SharesStamp(live, k)
    case code =>
      exists k | 0 <= k < |live| :: Subject(live[k]) == issue.subject && EntryBreaks(live[k], audited, asOf, code)
  }

  /** The validator reports a code for a subject exactly if its rule is broken there, and so finds nothing exactly
      when the rules hold. */
  method ValidateLive(audited: Option<string>, live: seq<Live>, asOf: int) returns (issues: seq<Issue>)
    ensures forall issue :: issue in issues <==> Breaks(audited, live, asOf, issue)
    ensures issues == [] <==> LiveRules(audited, live, asOf)
  {
    hide Subject, Texts.IsSha, Texts.NonBlank, Bucket, EntryBreaks, SharesStamp, LiveRules;
    issues := [];
    var named := if audited.Some? && Texts.NonBlank(audited.value) then audited else None;
    if named.None? || !Texts.IsSha(named.value) {
      issues := [Issue(AuditedRevision, "registry")];
    }
    if audited.Some? {
      ShaIsNonBlank(audited.value);
    }
    ghost var first := issues;
    for k := 0 to |live|
      invariant forall issue :: issue in issues <==> issue in first || exists j | 0 <= j < k ::
        Subject(live[j]) == issue.subject && EntryBreaks(live[j], audited, asOf, issue.code)
    {
      var found := ValidateEntry(live[k], named, asOf);
      NamedBreaks(live[k], audited, asOf);
      issues := issues + found;
    }
    ghost var entries := issues;
    var buckets := FillBuckets(live);
    var batches := CheckBuckets(buckets);
    forall subject
      ensures IsShared(buckets, subject) <==>
        exists k | 0 <= k < |live| :: Subject(live[k]) == subject && SharesStamp(live, k)
    {
      SharedExactly(live, buckets, subject);
    }
    issues := issues + batches;
    forall issue ensures issue in issues <==> Breaks(audited, live, asOf, issue) {
      OneCode(audited, live, asOf, issue);
    }
    NothingBroken(audited, live, asOf);
    assert issues != [] ==> issues[0] in issues;
  }

  /** A blank audited revision counts as none. */
  lemma NamedBreaks(e: Live, audited: Option<string>, asOf: int)
    ensures var named := if audited.Some? && Texts.NonBlank(audited.value) then audited else None;
      forall code :: EntryBreaks(e, named, asOf, code) <==> EntryBreaks(e, audited, asOf, code)
  {
    hide InstantOf, Texts.IsSha, Texts.NonBlank;
  }

  /** Neither of the two other codes is an entry's. */
  lemma OneCode(audited: Option<string>, live: seq<Live>, asOf: int, issue: Issue)
    ensures issue.code == AuditedRevision || issue.code == BatchStamp ==>
      forall k | 0 <= k < |live| :: !EntryBreaks(live[k], audited, asOf, issue.code)
  {
    hide InstantOf, Texts.IsSha, Texts.NonBlank;
  }

  lemma NothingBroken(audited: Option<string>, live: seq<Live>, asOf: int)
    ensures LiveRules(audited, live, asOf) <==> forall issue :: !Breaks(audited, live, asOf, issue)
  {
    hide Current, EntryBreaks, SharesStamp, Texts.IsSha, Unbatched, Subject;
    UnbatchedSharesNothing(live);
    if LiveRules(audited, live, asOf) {
      forall k | 0 <= k < |live| ensures forall code :: !EntryBreaks(live[k], audited, asOf, code) {
        CurrentBreaksNothing(live[k], audited.value, asOf);
      }
    }
    if forall issue :: !Breaks(audited, live, asOf, issue) {
      assert !Breaks(audited, live, asOf, Issue(AuditedRevision, "registry"));
      forall k | 0 <= k < |live| ensures Current(live[k], audited.value, asOf) && !SharesStamp(live, k) {
        EntryIsCurrent(audited, live, asOf, k);
      }
    }
  }

  lemma EntryIsCurrent(audited: Option<string>, live: seq<Live>, asOf: int, k: nat)
    requires audited.Some? && Texts.IsSha(audited.value) && k < |live|
    requires forall issue :: !Breaks(audited, live, asOf, issue)
    ensures Current(live[k], audited.value, asOf) && !SharesStamp(live, k)
  {
    hide Current, EntryBreaks, SharesStamp, Texts.IsSha, Subject;
    assert !Breaks(audited, live, asOf, Issue(BatchStamp, Subject(live[k])));
    forall code ensures !EntryBreaks(live[k], audited, asOf, code) {
      assert !Breaks(audited, live, asOf, Issue(code, Subject(live[k])));
      OneCode(audited, live, asOf, Issue(code, Subject(live[k])));
    }
    CurrentBreaksNothing(live[k], audited.value, asOf);
  }

  lemma ShaIsNonBlank(s: string)
    ensures Texts.IsSha(s) ==> Texts.NonBlank(s)
  {
    if Texts.IsSha(s) {
      assert !Texts.Space(s[0]);
    }
  }
}
