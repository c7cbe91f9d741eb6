/**
 What the parts of the refresh mean, spelled out: which lines are live, which observation counts, how
 texts are ordered, what is read from the registry, and when its live evidence is in order.
 */
module LiveMeaning {
  import opened Basics
  import opened Texts
  import opened Patterns
  import opened QuotedText
  import opened IsoTime
  import opened IsoStamps
  import opened RegistryJson
  import opened LiveContract
  import opened LiveEvidence
  import opened LiveRefresh

  // ---------- Lines ----------

  lemma KeyTexts()
    ensures ID == "id" && TYPE == "type" && LIVE == "live" && LOCATOR == "locator" && OBSERVED_AT == "observedAt"
    ensures FRESH_UNTIL == "freshUntil" && REVISION == "revision" && AUDITED_REVISION == "auditedRevision"
    ensures CLAIMS == "claims" && EVIDENCE == "evidence"
    ensures EDITED_KEYS == {"observedAt", "freshUntil", "revision"}
  {
  }

  predicate AllWhite(s: string) { forall k | 0 <= k < |s| :: White(s[k]) }

  /** `\s*:\s*` */
  lemma SeparatorExactly(s: string)
    ensures Separator(s) <==> exists before, after | s == before + ":" + after :: AllWhite(before) && AllWhite(after)
  {
    hide White, Space;
    forall c ensures Space(c) <==> White(c) {
      SpaceExactly(c);
    }
    if Separator(s) {
      var c :| 0 <= c < |s| && s[c] == ':' && forall k | 0 <= k < |s| && k != c :: Space(s[k]);
      assert s == s[..c] + ":" + s[c + 1..];
      assert AllWhite(s[..c]) && AllWhite(s[c + 1..]);
    }
    if before, after :| s == before + ":" + after && AllWhite(before) && AllWhite(after) {
      var c := |before|;
      assert s[c] == ':';
      forall k | 0 <= k < |s| && k != c ensures Space(s[k]) {
        assert s[k] == if k < c then before[k] else after[k - c - 1];
      }
    }
  }

  /** The text holds `"id": "<id>"`. */
  ghost predicate HoldsId(text: string, id: string) {
    exists before, after :: text == before + "\"id\": \"" + id + "\"" + after
  }

  /** The text has a match of `"type"\s*:\s*"live"`. */
  ghost predicate HoldsType(text: string) {
    exists before, separator, after :: MatchesAfter(text, "type", before, separator, "live", after)
  }

  lemma IdIsHeld(text: string, id: string)
    requires MentionsId(PartsOf(text), id)
    ensures HoldsId(text, id)
  {
    hide Split, Joined;
    var parts := PartsOf(text);
    var k :| 1 <= k && k + 3 < |parts| && parts[k] == ID && parts[k + 1] == ": " && parts[k + 2] == id;
    PartsAreText(text);
    JoinConcat(parts[..k], parts[k..], '"');
    assert parts[..k] + parts[k..] == parts;
    JoinedStart(parts, k);
    JoinedStart(parts, k + 1);
    JoinedStart(parts, k + 2);
    var before, after := TextOf(parts[..k]), TextOf(parts[k + 3..]);
    assert text == before + "\"id\": \"" + id + "\"" + after;
  }

  lemma HeldIsMentioned(text: string, id: string, before: string, after: string)
    requires '"' !in id && text == before + "\"id\": \"" + id + "\"" + after
    ensures MentionsId(PartsOf(text), id)
  {
    hide Split;
    var quote := ['"'];
    assert text == before + quote + ("id" + quote + (": " + quote + (id + quote + after)));
    SplitParts("id", '"');
    SplitParts(": ", '"');
    SplitParts(id, '"');
    SplitConcat(id, after, '"');
    SplitConcat(": ", id + quote + after, '"');
    SplitConcat("id", ": " + quote + (id + quote + after), '"');
    SplitConcat(before, "id" + quote + (": " + quote + (id + quote + after)), '"');
    var k := |PartsOf(before)|;
    assert PartsOf(text) == PartsOf(before) + ["id", ": ", id] + PartsOf(after);
    assert PartsOf(text)[k] == "id" && PartsOf(text)[k + 1] == ": " && PartsOf(text)[k + 2] == id;
  }

  lemma TypeExactly(text: string)
    ensures MentionsType(PartsOf(text)) <==> HoldsType(text)
  {
    hide Split, Separator, MatchesAfter, TextOf;
    var parts := PartsOf(text);
    PartsAreText(text);
    if k :| 0 <= k < |parts| && KeyAt(parts, TYPE, k) && parts[k + 2] == LIVE {
      assert '"' !in LIVE;
      PlaceIsMatch(parts, TYPE, k);
    }
    if before, separator, after :| MatchesAfter(text, "type", before, separator, "live", after) {
      MatchIsPlace(text, TYPE, before, separator, "live", after);
      assert parts[|PartsOf(before)| + 2] == "live";
    }
  }

  /** A line is live for an id exactly when its text holds the id and the type. */
  lemma LiveEntryExactly(text: string, id: string)
    requires '"' !in id
    ensures IsLiveEntry(PartsOf(text), id) <==> HoldsId(text, id) && HoldsType(text)
  {
    hide Split, MentionsId, MentionsType, HoldsType;
    TypeExactly(text);
    if MentionsId(PartsOf(text), id) {
      IdIsHeld(text, id);
    }
    if before, after :| text == before + "\"id\": \"" + id + "\"" + after {
      HeldIsMentioned(text, id, before, after);
    }
  }

  /** The first full revision under its key. */
  lemma AuditedAtExactly(line: Line, k: nat)
    ensures AuditedAt(line, k) <==> KeyAt(line, "auditedRevision", k) && Matches(OBJECT_NAME, line[k + 2])
  {
    hide Separator, IsSha, Matches;
    if KeyAt(line, AUDITED_REVISION, k) {
      ShaExactly(line[k + 2]);
    }
  }

  // ---------- Observations ----------

  /** `/healthz`, then the end of the text, a query or a fragment. */
  ghost predicate NamesHealthz(locator: string) {
    exists before, after | locator == before + "/healthz" + after :: after == "" || after[0] in "?#"
  }

  lemma HealthzExactly(locator: string)
    ensures IsHealthz(locator) <==> NamesHealthz(locator)
  {
    if k :| 0 <= k < |locator| && HealthzAt(locator, k) {
      var after := locator[k + 8..];
      assert locator == locator[..k] + "/healthz" + after;
      assert after == "" || after[0] in "?#";
    }
    if NamesHealthz(locator) {
      var before, after :| locator == before + "/healthz" + after && (after == "" || after[0] in "?#");
      assert locator[|before|..|before| + 8] == "/healthz";
      assert HealthzAt(locator, |before|);
    }
  }

  /** The last observation of the id. */
  ghost predicate IsLastOf(observations: seq<Observation>, id: string, o: Observation) {
    exists k | 0 <= k < |observations| :: observations[k] == o && o.evidenceId == id &&
      forall j | k < j < |observations| :: observations[j].evidenceId != id
  }

  lemma {:induction false} ObservationExactly(observations: seq<Observation>, id: string, o: Observation)
    ensures ObservationOf(observations, id) == Some(o) <==> IsLastOf(observations, id, o)
  {
    if observations != [] {
      var n := |observations| - 1;
      var front := observations[..n];
      ObservationExactly(front, id, o);
      if observations[n].evidenceId != id {
        if IsLastOf(front, id, o) {
          var k :| 0 <= k < |front| && front[k] == o && o.evidenceId == id &&
            forall j | k < j < |front| :: front[j].evidenceId != id;
          assert observations[k] == o;
        }
        if IsLastOf(observations, id, o) {
          var k :| 0 <= k < |observations| && observations[k] == o && o.evidenceId == id &&
            forall j | k < j < |observations| :: observations[j].evidenceId != id;
          assert front[k] == o;
        }
      }
    }
  }

  /** Answered with status 200, a health check with its flag, at a readable instant that is not in the future. */
  lemma ObservesExactly(now: int, entry: Entry, o: Observation)
    ensures Observes(now, entry, o) <==>
      && o.status == 200 && (NamesHealthz(entry.locator) ==> o.healthzOk)
      && exists f | o.observedAt == Stamp(f) :: Readable(f) && Instant(f) <= now
  {
    hide IsHealthz, NamesHealthz, Stamp, Instant, IsIso, FieldsOf;
    HealthzExactly(entry.locator);
    forall at ensures Parse(o.observedAt) == Some(at) <==>
      exists f | o.observedAt == Stamp(f) :: Readable(f) && at == Instant(f)
    {
      ParseExactly(o.observedAt, at);
    }
    if f :| o.observedAt == Stamp(f) && Readable(f) && Instant(f) <= now {
      assert Parse(o.observedAt) == Some(Instant(f));
    }
  }

  // ---------- Revisions ----------

  /** The deployed revision is what production serves before and after, it is on the main branch, the
      audited revision is the same or an ancestor of it, and no audited surface changed in between. */
  ghost predicate MayAdvance(audited: string, request: Request) {
    && Matches(OBJECT_NAME, audited) && Matches(OBJECT_NAME, request.deployedRevision)
    && request.versionBefore == request.deployedRevision && request.versionAfter == request.deployedRevision
    && request.deployedIsAncestorOfMain == Ancestor
    && (audited == request.deployedRevision || request.auditedIsAncestorOfDeployed == Ancestor)
    && !request.surfaceStale
  }

  // ---------- The order of ids ----------

  ghost predicate IsBefore(a: string, b: string) {
    a <= b || exists k :: 0 <= k < |a| && k < |b| && a[..k] == b[..k] && a[k] < b[k]
  }

  lemma {:induction false} AtMostIsBefore(a: string, b: string)
    requires AtMost(a, b)
    ensures IsBefore(a, b)
  {
    if a != "" {
      assert a == [a[0]] + a[1..] && b == [b[0]] + b[1..];
      if a[0] < b[0] {
        assert a[..0] == b[..0];
      } else {
        AtMostIsBefore(a[1..], b[1..]);
        if !(a[1..] <= b[1..]) {
          var k :| 0 <= k < |a[1..]| && k < |b[1..]| && a[1..][..k] == b[1..][..k] && a[1..][k] < b[1..][k];
          assert a[..k + 1] == [a[0]] + a[1..][..k] && b[..k + 1] == [b[0]] + b[1..][..k];
        }
      }
    }
  }

  lemma {:induction false} BeforeIsAtMost(a: string, b: string)
    requires IsBefore(a, b)
    ensures AtMost(a, b)
  {
    if a != "" {
      var x, y := a[1..], b[1..];
      if !(a <= b) {
        var k :| 0 <= k < |a| && k < |b| && a[..k] == b[..k] && a[k] < b[k];
        if k > 0 {
          assert a[..k][0] == a[0] && b[..k][0] == b[0];
          assert x[..k - 1] == a[..k][1..] && y[..k - 1] == b[..k][1..];
          assert x[k - 1] < y[k - 1];
          BeforeIsAtMost(x, y);
        }
      } else {
        assert a[0] == b[0] && x <= y;
        BeforeIsAtMost(x, y);
      }
    }
  }

  lemma OrderExactly(a: string, b: string)
    ensures AtMost(a, b) <==> IsBefore(a, b)
  {
    hide AtMost, IsBefore;
    if AtMost(a, b) {
      AtMostIsBefore(a, b);
    }
    if IsBefore(a, b) {
      BeforeIsAtMost(a, b);
    }
  }

  // ---------- What is read from the registry ----------

  ghost predicate IsLastField(fields: seq<Field>, k: nat, key: string, value: Tree) {
    k < |fields| && fields[k] == Field(key, value) && forall j | k < j < |fields| :: fields[j].key != key
  }

  /** The value of the last field of the key. */
  ghost predicate Has(tree: Tree, key: string, value: Tree) {
    tree.Record? && exists k: nat :: IsLastField(tree.fields, k, key, value)
  }

  lemma {:induction false} FieldExactly(fields: seq<Field>, key: string, value: Tree)
    ensures FieldOf(fields, key) == Some(value) <==> Has(Record(fields), key, value)
  {
    if fields != [] {
      var n := |fields| - 1;
      var front := fields[..n];
      FieldExactly(front, key, value);
      if fields[n].key == key {
        LastIsLast(fields, key, value);
      } else {
        forall k: nat ensures IsLastField(fields, k, key, value) <==> IsLastField(front, k, key, value) {
        }
      }
    }
  }

  lemma LastIsLast(fields: seq<Field>, key: string, value: Tree)
    requires fields != [] && fields[|fields| - 1].key == key
    ensures Has(Record(fields), key, value) <==> fields[|fields| - 1].value == value
  {
    if fields[|fields| - 1].value == value {
      assert IsLastField(fields, |fields| - 1, key, value);
    }
  }

  lemma StringExactly(tree: Tree, key: string, content: string)
    ensures StringIn(tree, key) == Some(content) <==> Has(tree, key, Text(content))
  {
    hide FieldOf, Has;
    if tree.Record? {
      FieldExactly(tree.fields, key, Text(content));
      assert Record(tree.fields) == tree;
    } else {
      NotRecord(tree, key, Text(content));
    }
  }

  lemma NotRecord(tree: Tree, key: string, value: Tree)
    requires !tree.Record?
    ensures !Has(tree, key, value)
  {
  }

  /** The items of the list under the key, or none. */
  ghost predicate HasItems(tree: Tree, key: string, items: seq<Tree>) {
    Has(tree, key, List(items)) || (items == [] && forall other :: !Has(tree, key, List(other)))
  }

  lemma ItemsExactly(tree: Tree, key: string, items: seq<Tree>)
    ensures ItemsIn(tree, key) == items <==> HasItems(tree, key, items)
  {
    hide FieldOf, Has;
    forall value ensures FieldIn(tree, key) == Some(value) <==> Has(tree, key, value) {
      if tree.Record? {
        FieldExactly(tree.fields, key, value);
        assert Record(tree.fields) == tree;
      } else {
        NotRecord(tree, key, value);
      }
    }
  }

  /** A text that is there, or is not. */
  ghost predicate HasText(tree: Tree, key: string, content: Option<string>) {
    forall text :: content == Some(text) <==> Has(tree, key, Text(text))
  }

  lemma TextExactly(tree: Tree, key: string, content: Option<string>)
    ensures StringIn(tree, key) == content <==> HasText(tree, key, content)
  {
    hide StringIn, Has;
    forall text ensures StringIn(tree, key) == Some(text) <==> Has(tree, key, Text(text)) {
      StringExactly(tree, key, text);
    }
  }

  /** What stands in one evidence entry. */
  ghost predicate IsLiveOf(evidence: Tree, e: Live) {
    && HasText(evidence, "id", e.id) && HasText(evidence, "locator", e.locator)
    && HasText(evidence, "observedAt", e.observedAt) && HasText(evidence, "freshUntil", e.freshUntil)
    && HasText(evidence, "revision", e.revision)
  }

  lemma LiveInExactly(evidence: Tree, e: Live)
    ensures LiveIn(evidence) == e <==> IsLiveOf(evidence, e)
  {
    hide StringIn, HasText;
    TextExactly(evidence, "id", e.id);
    TextExactly(evidence, "locator", e.locator);
    TextExactly(evidence, "observedAt", e.observedAt);
    TextExactly(evidence, "freshUntil", e.freshUntil);
    TextExactly(evidence, "revision", e.revision);
  }

  /** The entries of type "live", in order. */
  ghost predicate ListsLive(evidence: seq<Tree>, live: seq<Live>)
    decreases |evidence|
  {
    if evidence == [] then live == []
    else
      var n := |evidence| - 1;
      if Has(evidence[n], "type", Text("live")) then
        live != [] && IsLiveOf(evidence[n], live[|live| - 1]) && ListsLive(evidence[..n], live[..|live| - 1])
      else ListsLive(evidence[..n], live)
  }

  /** The live entries of one claim after another. */
  ghost predicate ListsAllLive(claims: seq<Tree>, live: seq<Live>)
    decreases |claims|
  {
    if claims == [] then live == []
    else
      var n := |claims| - 1;
      exists m: nat, evidence: seq<Tree> | m <= |live| && HasItems(claims[n], "evidence", evidence) ::
        ListsLive(evidence, live[m..]) && ListsAllLive(claims[..n], live[..m])
  }

  lemma {:induction false} LiveItemsSplit(a: seq<Tree>, b: seq<Tree>)
    ensures LiveItems(a + b) == LiveItems(a) + LiveItems(b)
  {
    hide LiveIn, StringIn;
    if a == [] {
      assert a + b == b;
    } else {
      LiveItemsSplit(a[1..], b);
      assert (a + b)[1..] == a[1..] + b;
    }
  }

  lemma FirstLiveClaim(claims: seq<Tree>)
    requires claims != []
    ensures LiveClaims(claims) == LiveItems(ItemsIn(claims[0], "evidence")) + LiveClaims(claims[1..])
  {
    hide LiveItems, ItemsIn;
  }

  lemma {:induction false} LiveClaimsSplit(a: seq<Tree>, b: seq<Tree>)
    ensures LiveClaims(a + b) == LiveClaims(a) + LiveClaims(b)
  {
    hide *;
    if a == [] {
      NoLive();
      assert a + b == b;
    } else {
      LiveClaimsSplit(a[1..], b);
      FirstLiveClaim(a);
      FirstLiveClaim(a + b);
      assert (a + b)[1..] == a[1..] + b;
    }
  }

  lemma OneLiveItem(item: Tree)
    ensures LiveItems([item]) == if Has(item, "type", Text("live")) then [LiveIn(item)] else []
  {
    hide LiveIn, StringIn, Has;
    StringExactly(item, "type", "live");
    assert [item][1..] == [];
  }

  lemma OneLiveClaim(claim: Tree)
    ensures LiveClaims([claim]) == LiveItems(ItemsIn(claim, "evidence"))
  {
    hide LiveItems, ItemsIn;
    assert [claim][1..] == [];
  }

  lemma {:induction false} LiveItemsExactly(evidence: seq<Tree>, live: seq<Live>)
    ensures LiveItems(evidence) == live <==> ListsLive(evidence, live)
    decreases |evidence|
  {
    hide LiveItems, LiveIn, Has, IsLiveOf;
    if evidence == [] {
      assert LiveItems([]) == [] by { NoLive(); }
    } else {
      var n := |evidence| - 1;
      assert evidence == evidence[..n] + [evidence[n]];
      LiveItemsSplit(evidence[..n], [evidence[n]]);
      OneLiveItem(evidence[n]);
      if Has(evidence[n], "type", Text("live")) {
        if live != [] {
          LiveInExactly(evidence[n], live[|live| - 1]);
          LiveItemsExactly(evidence[..n], live[..|live| - 1]);
          assert live == live[..|live| - 1] + [live[|live| - 1]];
        }
      } else {
        LiveItemsExactly(evidence[..n], live);
      }
    }
  }

  lemma NoLive()
    ensures LiveItems([]) == [] && LiveClaims([]) == []
  {
  }

  lemma {:induction false} LiveClaimsExactly(claims: seq<Tree>, live: seq<Live>)
    ensures LiveClaims(claims) == live <==> ListsAllLive(claims, live)
    decreases |claims|
  {
    hide LiveItems, LiveClaims, ListsLive, HasItems, ItemsIn;
    if claims == [] {
      NoLive();
    } else {
      var n := |claims| - 1;
      var items := ItemsIn(claims[n], "evidence");
      assert claims == claims[..n] + [claims[n]];
      LiveClaimsSplit(claims[..n], [claims[n]]);
      OneLiveClaim(claims[n]);
      forall evidence ensures HasItems(claims[n], "evidence", evidence) <==> evidence == items {
        ItemsExactly(claims[n], "evidence", evidence);
      }
      forall m: nat | m <= |live|
        ensures ListsLive(items, live[m..]) && ListsAllLive(claims[..n], live[..m]) <==>
          LiveItems(items) == live[m..] && LiveClaims(claims[..n]) == live[..m]
      {
        LiveItemsExactly(items, live[m..]);
        LiveClaimsExactly(claims[..n], live[..m]);
      }
      if LiveClaims(claims) == live {
        var m := |LiveClaims(claims[..n])|;
        assert live[m..] == LiveItems(items) && live[..m] == LiveClaims(claims[..n]);
        assert HasItems(claims[n], "evidence", items);
      }
      if ListsAllLive(claims, live) {
        var m: nat, evidence: seq<Tree> :| m <= |live| && HasItems(claims[n], "evidence", evidence)
          && ListsLive(evidence, live[m..]) && ListsAllLive(claims[..n], live[..m]);
        assert live == live[..m] + live[m..];
      }
    }
  }

  /** The live evidence of a registry is every evidence entry of type "live" of every claim, in order. */
  lemma LiveExactly(registry: Tree, live: seq<Live>)
    ensures LiveOf(registry) == live <==>
      exists claims: seq<Tree> :: HasItems(registry, "claims", claims) && ListsAllLive(claims, live)
  {
    hide LiveClaims, ListsAllLive, HasItems, ItemsIn;
    var items := ItemsIn(registry, "claims");
    forall claims ensures HasItems(registry, "claims", claims) <==> claims == items {
      ItemsExactly(registry, "claims", claims);
    }
    LiveClaimsExactly(items, live);
    assert HasItems(registry, "claims", items);
  }

  // ---------- What the refresh knows ----------

  ghost predicate IsRegistry(read: Reader, request: Request, audited: string, live: seq<Live>) {
    exists registry: Tree, claims: seq<Tree> | read(request.registryText) == Some(registry) ::
      Has(registry, "auditedRevision", Text(audited)) && HasItems(registry, "claims", claims)
        && ListsAllLive(claims, live)
  }

  /** Every live entry has an id. */
  predicate HasIds(live: seq<Live>, ids: seq<string>) {
    |ids| == |live| && forall k | 0 <= k < |live| :: live[k].id == Some(ids[k])
  }

  lemma {:induction false} IdsExactly(live: seq<Live>, ids: seq<string>)
    ensures IdsOf(live) == Some(ids) <==> HasIds(live, ids)
  {
    if live != [] {
      IdsExactly(live[1..], if ids == [] then [] else ids[1..]);
      if HasIds(live, ids) {
        assert ids == [ids[0]] + ids[1..];
      }
      if IdsOf(live) == Some(ids) {
        assert ids[1..] == IdsOf(live[1..]).value;
      }
    }
  }

  lemma RegistryExactly(read: Reader, request: Request, audited: string, live: seq<Live>)
    ensures IsRegistry(read, request, audited, live) <==>
      && read(request.registryText).Some? && AuditedOf(read(request.registryText).value) == Some(audited)
      && LiveOf(read(request.registryText).value) == live
  {
    hide Has, HasItems, ListsAllLive, LiveOf, StringIn;
    if read(request.registryText).Some? {
      var registry := read(request.registryText).value;
      StringExactly(registry, "auditedRevision", audited);
      LiveExactly(registry, live);
    }
  }

  /** The input is the request's, with the audited revision and the ids of the registry, in ascending order. */
  ghost predicate IsInput(request: Request, audited: string, ids: seq<string>, input: Input) {
    && input.lines == LinesOf(request.registryText) && input.auditedRevision == audited
    && multiset(input.liveIds) == multiset(ids)
    && (forall i, j | 0 <= i < |input.liveIds| && 0 <= j < |input.liveIds| && j == i + 1 ::
          IsBefore(input.liveIds[i], input.liveIds[j]))
    && input.observations == request.observations && input.now == request.now && input.window == request.window
    && (RevisionsAllow(input) <==> MayAdvance(audited, request))
  }

  lemma AdvanceExactly(audited: string, ids: seq<string>, request: Request)
    ensures var input := InputFor(audited, ids, request); RevisionsAllow(input) <==> MayAdvance(audited, request)
  {
    hide Matches, IsSha;
    ShaExactly(audited);
    ShaExactly(request.deployedRevision);
  }

  /** A request is understood exactly when its registry is read and has an audited revision and an id
      for every live entry. */
  lemma InputExactly(read: Reader, request: Request)
    ensures InputOf(read, request).Some? <==>
      exists audited, live, ids | HasIds(live, ids) :: IsRegistry(read, request, audited, live)
    ensures forall audited, live, ids | HasIds(live, ids) && IsRegistry(read, request, audited, live) ::
      InputOf(read, request).Some? && IsInput(request, audited, ids, InputOf(read, request).value)
  {
    hide IsRegistry, LiveOf, AuditedOf, RevisionsAllow, MayAdvance, AtMost, IsBefore, SortTexts, LinesOf, HasIds, IdsOf;
    forall audited, live ensures IsRegistry(read, request, audited, live) <==>
      && read(request.registryText).Some? && AuditedOf(read(request.registryText).value) == Some(audited)
      && LiveOf(read(request.registryText).value) == live
    {
      RegistryExactly(read, request, audited, live);
    }
    forall live, ids ensures IdsOf(live) == Some(ids) <==> HasIds(live, ids) {
      IdsExactly(live, ids);
    }
    if InputOf(read, request).Some? {
      var registry := read(request.registryText).value;
      var live := LiveOf(registry);
      assert HasIds(live, IdsOf(live).value) && IsRegistry(read, request, AuditedOf(registry).value, live);
    }
    forall audited, live, ids | HasIds(live, ids) && IsRegistry(read, request, audited, live)
      ensures InputOf(read, request).Some? && IsInput(request, audited, ids, InputOf(read, request).value)
    {
      AdvanceExactly(audited, ids, request);
      TextsAreSorted(ids);
      forall a, b ensures AtMost(a, b) <==> IsBefore(a, b) {
        OrderExactly(a, b);
      }
    }
  }

  // ---------- When live evidence is in order ----------

  /** Its text without white space around it is not empty. */
  function Surface(e: Live): string {
    if e.locator.Some? && Trim(e.locator.value) != "" then e.locator.value else ""
  }

  /** Observed by the instant, fresh beyond it, at the audited revision. */
  ghost predicate IsCurrent(e: Live, audited: string, asOf: int) {
    exists seen, until | e.observedAt == Some(Stamp(seen)) && e.freshUntil == Some(Stamp(until)) ::
      Readable(seen) && Readable(until) && Instant(seen) <= asOf < Instant(until) && e.revision == Some(audited)
  }

  /** One stamp without a fraction of a second for two surfaces. */
  ghost predicate StampedAlike(a: Live, b: Live) {
    && a.observedAt == b.observedAt && Surface(a) != Surface(b)
    && exists f | a.observedAt == Some(Stamp(f)) :: SmallFields(f) && f.millisecond == 0
  }

  ghost predicate InOrder(audited: Option<string>, live: seq<Live>, asOf: int) {
    && audited.Some? && Matches(OBJECT_NAME, audited.value)
    && (forall k | 0 <= k < |live| :: IsCurrent(live[k], audited.value, asOf))
    && forall i, j | 0 <= i < j < |live| :: !StampedAlike(live[i], live[j])
  }

  lemma InstantOfExactly(stamp: Option<string>, at: int)
    ensures InstantOf(stamp) == Some(at) <==> exists f | stamp == Some(Stamp(f)) :: Readable(f) && Instant(f) == at
  {
    hide Stamp, Instant, Parse;
    if stamp.Some? {
      ParseExactly(stamp.value, at);
    }
  }

  lemma CurrentExactly(e: Live, audited: string, asOf: int)
    ensures Current(e, audited, asOf) <==> IsCurrent(e, audited, asOf)
  {
    hide Stamp, Instant, InstantOf;
    forall stamp, at
      ensures InstantOf(stamp) == Some(at) <==> exists f | stamp == Some(Stamp(f)) :: Readable(f) && Instant(f) == at
    {
      InstantOfExactly(stamp, at);
    }
    if Current(e, audited, asOf) {
      var a, b := InstantOf(e.observedAt).value, InstantOf(e.freshUntil).value;
      assert InstantOf(e.observedAt) == Some(a) && InstantOf(e.freshUntil) == Some(b);
    }
    if IsCurrent(e, audited, asOf) {
      var seen, until :| e.observedAt == Some(Stamp(seen)) && e.freshUntil == Some(Stamp(until)) && Readable(seen)
        && Readable(until) && Instant(seen) <= asOf < Instant(until);
      assert InstantOf(e.observedAt) == Some(Instant(seen)) && InstantOf(e.freshUntil) == Some(Instant(until));
    }
  }

  lemma ZerosExactly(s: string)
    requires IsIso(s)
    ensures EndsWith(s, ".000Z") <==> FieldsOf(s).millisecond == 0
  {
    hide DigitPair;
    assert DigitPair(s, 20);
    ZeroMillisecond(s);
    if EndsWith(s, ".000Z") {
      assert s[20] == s[19..][1] && s[21] == s[19..][2] && s[22] == s[19..][3];
    }
  }

  lemma ZeroMillisecond(s: string)
    requires IsIso(s)
    ensures FieldsOf(s).millisecond == 0 <==> s[20] == s[21] == s[22] == '0'
  {
  }

  lemma WholeSecondsExactly(stamp: Option<string>)
    ensures WholeSeconds(stamp) <==> exists f | stamp == Some(Stamp(f)) :: SmallFields(f) && f.millisecond == 0
  {
    hide Stamp, IsIso, FieldsOf, EndsWith;
    if stamp.Some? && IsIso(stamp.value) {
      ZerosExactly(stamp.value);
      FieldsAreSmall(stamp.value);
      StampExactly(stamp.value, FieldsOf(stamp.value));
    }
    forall f | stamp == Some(Stamp(f)) && SmallFields(f) && f.millisecond == 0 ensures WholeSeconds(stamp) {
      StampExactly(stamp.value, f);
    }
    if f :| stamp == Some(Stamp(f)) && SmallFields(f) {
      StampExactly(stamp.value, f);
    }
  }

  lemma BatchExactly(a: Live, b: Live)
    ensures BatchStamped(a, b) <==> StampedAlike(a, b)
  {
    hide WholeSeconds, NonBlank, Stamp, Trim;
    WholeSecondsExactly(a.observedAt);
    if a.locator.Some? {
      NonBlankExactly(a.locator.value);
    }
    if b.locator.Some? {
      NonBlankExactly(b.locator.value);
    }
  }

  /** The live rules of the contract. */
  lemma LiveRulesExactly(audited: Option<string>, live: seq<Live>, asOf: int)
    ensures LiveRules(audited, live, asOf) <==> InOrder(audited, live, asOf)
  {
    hide Current, IsCurrent, BatchStamped, StampedAlike, IsSha, Matches;
    if audited.Some? {
      ShaExactly(audited.value);
      forall k | 0 <= k < |live|
        ensures Current(live[k], audited.value, asOf) <==> IsCurrent(live[k], audited.value, asOf)
      {
        CurrentExactly(live[k], audited.value, asOf);
      }
    }
    forall i, j | 0 <= i < j < |live| ensures BatchStamped(live[i], live[j]) <==> StampedAlike(live[i], live[j]) {
      BatchExactly(live[i], live[j]);
    }
  }
}
