/**
 What the refresh makes of a registry with two live entries. On lines of their own both entries get
 their observations, even if these are two stamps of one instant. On one shared line only the first
 object is edited, with the second observation, and the contract lets that pass exactly when the
 second object's old values still do.
 */
module LiveWitness {
  import opened Basics
  import opened IsoTime
  import opened QuotedText
  import opened RegistryJson
  import opened LiveContract
  import opened LiveEvidence
  import opened LiveRefresh
  import opened LiveRegistry
  import Texts

  const SEVEN_DAYS := 604800000

  /** The end of the year 9999. */
  const END_OF_TIME := 253402300800000

  /** Instants are written as stamps that are read as them. */
  ghost predicate WritesInstants(write: Writer) {
    forall at | 0 <= at < END_OF_TIME :: Parse(write(at)) == Some(at)
  }

  /** The rules of the contract on anything but live evidence hold of the registry, whatever its live values are. */
  ghost predicate OthersHold(otherRules: Tree -> bool) {
    forall audited, a, b :: otherRules(Registry(audited, a, b))
  }

  ghost predicate Premises(read: Reader, write: Writer, otherRules: Tree -> bool) {
    ReadsJson(read) && WritesValues(write) && WritesInstants(write) && OthersHold(otherRules)
  }

  /** The registry met the live rules at `before`; later each surface was observed, at most seven days before `now`. */
  datatype Scene = Scene(
    audited: string, deployed: string, a: Stamps, b: Stamps, first: string, second: string, before: int, now: int)

  predicate InWindow(stamp: string, before: int, now: int) {
    && IsIso(stamp) && Parse(stamp).Some?
    && before < Parse(stamp).value <= now < Parse(stamp).value + SEVEN_DAYS
    && 0 <= Parse(stamp).value < END_OF_TIME - SEVEN_DAYS
  }

  predicate IsScene(s: Scene) {
    && Texts.IsSha(s.deployed) && LiveRules(Some(s.audited), LiveOf(Registry(s.audited, s.a, s.b)), s.before)
    && InWindow(s.first, s.before, s.now) && InWindow(s.second, s.before, s.now) && s.first != s.second
  }

  function ObservationsOf(s: Scene): seq<Observation> {
    [Observation(FIRST, 200, true, s.first), Observation(SECOND, 200, true, s.second)]
  }

  function OldLines(layout: Layout, s: Scene): Lines { RegistryLines(layout, s.audited, s.a, s.b) }

  function RequestOf(layout: Layout, s: Scene): Request
    requires AreLines(OldLines(layout, s))
  {
    Request(TextOfLines(OldLines(layout, s)), s.deployed, s.deployed, s.deployed, Ancestor, Ancestor,
      false, ObservationsOf(s), s.now, SEVEN_DAYS)
  }

  /** The values that an observation gives. */
  function Renewed(write: Writer, s: Scene, stamp: string): Stamps
    requires Parse(stamp).Some?
  {
    Stamps(stamp, write(Parse(stamp).value + SEVEN_DAYS), s.deployed)
  }

  /** The values of the first object after the refresh. */
  function NewFirst(write: Writer, layout: Layout, s: Scene): Stamps
    requires IsScene(s)
  {
    if layout == Shared then Renewed(write, s, s.second) else Renewed(write, s, s.first)
  }

  function NewSecond(write: Writer, layout: Layout, s: Scene): Stamps
    requires IsScene(s)
  {
    if layout == Shared then s.b else Renewed(write, s, s.second)
  }

  // ---------- What the registry says ----------

  function LiveEntry(id: string, locator: string, s: Stamps): Live {
    Live(Some(id), Some(locator), Some(s.observedAt), Some(s.freshUntil), Some(s.revision))
  }

  /** A key counts where it stands last. */
  lemma {:induction false} LastFieldCounts(fields: seq<Field>, k: nat)
    requires k < |fields| && forall j | k < j < |fields| :: fields[j].key != fields[k].key
    ensures FieldOf(fields, fields[k].key) == Some(fields[k].value)
  {
    if k + 1 < |fields| {
      LastFieldCounts(fields[..|fields| - 1], k);
    }
  }

  lemma EvidenceField(id: string, locator: string, s: Stamps, k: nat)
    requires k < 6
    ensures var fields := EvidenceFields(id, locator, s);
      && |fields| == 6 && fields[k].value.Text?
      && StringIn(Record(fields), fields[k].key) == Some(fields[k].value.content)
  {
    var fields := EvidenceFields(id, locator, s);
    LiveKeys("{", id, locator, s, k);
    forall j | k < j < |fields| ensures fields[j].key != fields[k].key {
      LiveKeys("{", id, locator, s, j);
    }
    hide EvidenceFields, FieldOf;
    LastFieldCounts(fields, k);
  }

  lemma EvidenceSays(id: string, locator: string, s: Stamps)
    ensures StringIn(Record(EvidenceFields(id, locator, s)), TYPE) == Some(LIVE)
    ensures LiveIn(Record(EvidenceFields(id, locator, s))) == LiveEntry(id, locator, s)
  {
    hide ID, TYPE, LIVE, LOCATOR, OBSERVED_AT, FRESH_UNTIL, REVISION, StringIn;
    EvidenceField(id, locator, s, 0);
    EvidenceField(id, locator, s, 1);
    EvidenceField(id, locator, s, 2);
    EvidenceField(id, locator, s, 3);
    EvidenceField(id, locator, s, 4);
    EvidenceField(id, locator, s, 5);
  }

  lemma ClaimSays(items: seq<Tree>)
    ensures ItemsIn(Record(CLAIM + [Field(EVIDENCE, List(items))]), EVIDENCE) == items
  {
    hide FieldOf, CLAIM;
    LastFieldCounts(CLAIM + [Field(EVIDENCE, List(items))], |CLAIM|);
  }

  lemma RegistryFields(audited: string, a: Stamps, b: Stamps)
    ensures AuditedOf(Registry(audited, a, b)) == Some(audited)
    ensures ItemsIn(Registry(audited, a, b), CLAIMS) == Claims(a, b).items
  {
    assert CLAIMS[0] == 'c' && AUDITED_REVISION[0] == 'a' && "destinations"[0] == 'd';
    hide FieldOf, HEAD, Claims, DESTINATIONS, AUDITED_REVISION, CLAIMS;
    var fields := Registry(audited, a, b).fields;
    LastFieldCounts(fields, |HEAD|);
    LastFieldCounts(fields, |HEAD| + 1);
  }

  lemma RegistrySays(audited: string, a: Stamps, b: Stamps)
    ensures AuditedOf(Registry(audited, a, b)) == Some(audited)
    ensures LiveOf(Registry(audited, a, b)) == [LiveEntry(FIRST, LIVEZ, a), LiveEntry(SECOND, VERSION, b)]
  {
    EvidenceSays(FIRST, LIVEZ, a);
    EvidenceSays(SECOND, VERSION, b);
    RegistryFields(audited, a, b);
    var items := Evidence(a, b);
    ClaimSays(items);
    hide EvidenceFields, CLAIM, CLAIMS, EVIDENCE, ItemsIn, LiveIn, StringIn, LiveItems, Registry, LiveEntry;
    TwoLive(items[0], items[1]);
    OneClaim(Record(CLAIM + [Field(EVIDENCE, List(items))]));
  }

  lemma OneClaim(claim: Tree)
    ensures LiveClaims([claim]) == LiveItems(ItemsIn(claim, EVIDENCE))
  {
    hide LiveItems, ItemsIn;
    assert [claim][1..] == [] && LiveClaims([]) == [];
  }

  lemma TwoLive(a: Tree, b: Tree)
    requires StringIn(a, TYPE) == StringIn(b, TYPE) == Some(LIVE)
    ensures LiveItems([a, b]) == [LiveIn(a), LiveIn(b)]
  {
    hide StringIn, LiveIn;
    assert [a, b][1..] == [b] && [b][1..] == [];
    assert LiveItems([]) == [];
    assert LiveItems([b]) == [LiveIn(b)];
  }

  // ---------- What the refresh knows ----------

  lemma {:induction false} FirstDifferenceDecides(a: string, b: string, k: nat)
    requires k < |a| && k < |b| && a[..k] == b[..k] && a[k] < b[k]
    ensures AtMost(a, b)
  {
    if k > 0 {
      assert a[0] == a[..k][0] && b[0] == b[..k][0];
      assert a[1..][..k - 1] == a[..k][1..] && b[1..][..k - 1] == b[..k][1..];
      FirstDifferenceDecides(a[1..], b[1..], k - 1);
    }
  }

  lemma FirstIsBefore()
    ensures AtMost(FIRST, SECOND) && FIRST != SECOND
  {
    hide AtMost;
    assert |FIRST| == |SECOND| == 12 && FIRST[11] == '1' && SECOND[11] == '2';
    assert FIRST[..11] == SECOND[..11];
    FirstDifferenceDecides(FIRST, SECOND, 11);
  }

  lemma IdsAreSorted()
    ensures SortTexts([FIRST, SECOND]) == [FIRST, SECOND]
  {
    FirstIsBefore();
    hide AtMost, FIRST, SECOND;
    assert [FIRST, SECOND][1..] == [SECOND] && [SECOND][1..] == [];
    assert SortTexts([]) == [];
    assert SortTexts([SECOND]) == [SECOND];
  }

  function InputFor(layout: Layout, s: Scene): Input {
    Input(OldLines(layout, s), s.audited, [FIRST, SECOND], s.deployed, s.deployed, s.deployed, Ancestor, Ancestor,
      false, ObservationsOf(s), s.now, SEVEN_DAYS)
  }

  lemma IsoIsClean(stamp: string)
    requires IsIso(stamp)
    ensures Clean(stamp)
  {
  }

  lemma ParsedIsIso(stamp: string)
    requires Parse(stamp).Some?
    ensures IsIso(stamp)
  {
  }

  lemma ShaIsClean(s: string)
    requires Texts.IsSha(s)
    ensures Clean(s)
  {
  }

  lemma CurrentIsClean(id: string, locator: string, s: Stamps, audited: string, asOf: int)
    requires Current(LiveEntry(id, locator, s), audited, asOf) && Texts.IsSha(audited)
    ensures CleanStamps(s)
  {
    hide IsIso, Clean, Parse;
    ParsedIsIso(s.observedAt);
    ParsedIsIso(s.freshUntil);
    IsoIsClean(s.observedAt);
    IsoIsClean(s.freshUntil);
    ShaIsClean(s.revision);
  }

  /** What the old registry's rules say. */
  lemma SceneFacts(s: Scene)
    requires IsScene(s)
    ensures Texts.IsSha(s.audited) && Texts.IsSha(s.deployed) && Clean(s.audited) && CleanStamps(s.a)
      && CleanStamps(s.b)
    ensures Current(LiveEntry(FIRST, LIVEZ, s.a), s.audited, s.before)
    ensures Current(LiveEntry(SECOND, VERSION, s.b), s.audited, s.before)
  {
    RegistrySays(s.audited, s.a, s.b);
    hide Registry, LiveOf, Texts.IsSha, Clean, CleanStamps, Current, InWindow, LiveEntry, Unbatched;
    var live := [LiveEntry(FIRST, LIVEZ, s.a), LiveEntry(SECOND, VERSION, s.b)];
    assert Current(live[0], s.audited, s.before) && Current(live[1], s.audited, s.before);
    ShaIsClean(s.audited);
    CurrentIsClean(FIRST, LIVEZ, s.a, s.audited, s.before);
    CurrentIsClean(SECOND, VERSION, s.b, s.audited, s.before);
  }

  lemma InputWhenRead(read: Reader, request: Request, registry: Tree, audited: string, ids: seq<string>)
    requires read(request.registryText) == Some(registry)
    requires AuditedOf(registry) == Some(audited) && IdsOf(LiveOf(registry)) == Some(ids)
    ensures InputOf(read, request) == Some(Input(LinesOf(request.registryText), audited, SortTexts(ids),
      request.deployedRevision, request.versionBefore, request.versionAfter,
      request.deployedIsAncestorOfMain, request.auditedIsAncestorOfDeployed,
      request.surfaceStale, request.observations, request.now, request.window))
  {
    hide AuditedOf, LiveOf, IdsOf, SortTexts, LinesOf;
  }

  /** The old text is read, and this is what the refresh starts from. */
  lemma SceneInput(read: Reader, layout: Layout, s: Scene)
    requires ReadsJson(read) && IsScene(s)
    ensures AreLines(OldLines(layout, s)) && InputOf(read, RequestOf(layout, s)) == Some(InputFor(layout, s))
    ensures AllUntangled(OldLines(layout, s))
  {
    SceneFacts(s);
    RegistrySays(s.audited, s.a, s.b);
    IdsAreSorted();
    RegistryIsRead(read, layout, s.audited, s.a, s.b);
    TwoIds(LiveEntry(FIRST, LIVEZ, s.a), LiveEntry(SECOND, VERSION, s.b), FIRST, SECOND);
    hide ReadsJson, IsScene, RegistryLines, Registry, LiveOf, AuditedOf, TextOfLines, LinesOf, SortTexts, IdsOf,
         AllUntangled, LiveEntry, FIRST, SECOND, AreLines, InputOf, ObservationsOf;
    ReadIsUntangled(read, TextOfLines(OldLines(layout, s)));
    InputWhenRead(read, RequestOf(layout, s), Registry(s.audited, s.a, s.b), s.audited, [FIRST, SECOND]);
  }

  lemma TwoIds(a: Live, b: Live, first: string, second: string)
    requires a.id == Some(first) && b.id == Some(second)
    ensures IdsOf([a, b]) == Some([first, second])
  {
    assert [a, b][1..] == [b] && [b][1..] == [];
    assert IdsOf([]) == Some([]);
    assert [second] + [] == [second] && [first] + [second] == [first, second];
  }

  // ---------- The live entries ----------

  function FirstEntry(): Entry { Entry(FIRST, LIVEZ, LIVE_AT) }

  function SecondEntry(layout: Layout): Entry {
    if layout == Shared then Entry(SECOND, LIVEZ, LIVE_AT) else Entry(SECOND, VERSION, LIVE_AT + 1)
  }

  lemma ClosingIsEnd()
    ensures IsEnd(["},"]) && IsEnd(["}"])
  {
    assert "},"[0] == '}' && "}"[0] == '}' && "},"[1] == ',';
  }

  lemma SecondIsEnd(s: Stamps)
    ensures IsEnd(LiveParts("}, {", SECOND, VERSION, s) + ["}"])
  {
    assert "}, {"[0] == '}' && "}, {"[1] == ',';
    LiveKeys("}, {", SECOND, VERSION, s, 0);
    hide EvidenceFields, FieldParts, Separator, IsIso;
    FieldPartsAt("}, {", EvidenceFields(SECOND, VERSION, s), 0);
    NoSeparator("}, {");
  }

  lemma NoSeparator(s: string)
    requires |s| > 0 && s[0] == '}'
    ensures !Separator(s)
  {
  }

  predicate AllButLive(lines: Lines, live: Lines, above: Lines, below: Lines) {
    lines == above + live + below && AllLack(above, TYPE) && AllLack(below, TYPE)
  }

  lemma OtherLineIsNotLive(lines: Lines, live: Lines, above: Lines, below: Lines, k: nat, id: string)
    requires AllButLive(lines, live, above, below) && k < |lines|
    ensures IsLiveEntry(lines[k], id) ==> |above| <= k < |above| + |live| && lines[k] == live[k - |above|]
  {
    hide IsLiveEntry, Lacks, TYPE;
    if k < |above| {
      LacksType(above[k], id);
    } else if k >= |above| + |live| {
      LacksType(below[k - |above| - |live|], id);
    }
  }

  lemma SceneLines(layout: Layout, s: Scene)
    ensures AllButLive(OldLines(layout, s), LiveLines(layout, s.a, s.b), Above(s.audited), LAST_LINES)
    ensures |Above(s.audited)| == LIVE_AT
    ensures |LiveLines(layout, s.a, s.b)| == if layout == Shared then 1 else 2
  {
    hide Above, LAST_LINES, AllLack, LiveParts;
    OthersLackType(s.audited);
  }

  lemma OnlyOneLive(lines: Lines, live: Lines, above: Lines, below: Lines, e: Entry, k: nat)
    requires AllButLive(lines, live, above, below) && k < |live| && e.lineIndex == |above| + k
    requires FieldValue(live[k], LOCATOR) == Some(e.locator)
    requires forall j | 0 <= j < |live| :: IsLiveEntry(live[j], e.evidenceId) <==> j == k
    ensures IsOnlyLine(lines, e)
  {
    hide IsLiveEntry, FieldValue, AllLack;
    forall j | 0 <= j < |lines| ensures IsLiveEntry(lines[j], e.evidenceId) <==> j == e.lineIndex {
      OtherLineIsNotLive(lines, live, above, below, j, e.evidenceId);
      assert |above| <= j < |above| + |live| ==> lines[j] == live[j - |above|];
    }
  }

  /** The lines of the two objects, and which ids are live on them. */
  lemma SeparateAreLive(s: Scene)
    ensures var live := LiveLines(Separate, s.a, s.b);
      && |live| == 2 && FieldValue(live[0], LOCATOR) == Some(LIVEZ) && FieldValue(live[1], LOCATOR) == Some(VERSION)
      && IsLiveEntry(live[0], FIRST) && !IsLiveEntry(live[0], SECOND)
      && IsLiveEntry(live[1], SECOND) && !IsLiveEntry(live[1], FIRST)
  {
    ClosingIsEnd();
    FirstIsBefore();
    hide IsEnd, LiveParts, FIRST, SECOND, FieldValue, IsLiveEntry;
    LocatorValue("{", FIRST, LIVEZ, s.a, ["},"]);
    LocatorValue("{", SECOND, VERSION, s.b, ["}"]);
    StartsLive("{", FIRST, LIVEZ, s.a, ["},"]);
    StartsLive("{", SECOND, VERSION, s.b, ["}"]);
    OnlyThisLive("{", FIRST, LIVEZ, s.a, ["},"], SECOND);
    OnlyThisLive("{", SECOND, VERSION, s.b, ["}"], FIRST);
  }

  lemma SharedIsLive(s: Scene)
    ensures var live := LiveLines(Shared, s.a, s.b);
      && |live| == 1 && FieldValue(live[0], LOCATOR) == Some(LIVEZ)
      && IsLiveEntry(live[0], FIRST) && IsLiveEntry(live[0], SECOND)
  {
    ClosingIsEnd();
    SecondIsEnd(s.b);
    hide IsEnd, LiveParts, FIRST, SECOND, FieldValue, MentionsId, MentionsType;
    var rest := LiveParts("}, {", SECOND, VERSION, s.b) + ["}"];
    LocatorValue("{", FIRST, LIVEZ, s.a, rest);
    StartsLive("{", FIRST, LIVEZ, s.a, rest);
    SecondIsMentioned(LiveParts("{", FIRST, LIVEZ, s.a), "}, {", SECOND, VERSION, s.b, ["}"]);
  }

  function EntriesOf(layout: Layout): seq<Entry> { [FirstEntry(), SecondEntry(layout)] }

  /** Either way, both ids are found. */
  lemma EntriesAreFound(layout: Layout, s: Scene)
    ensures forall k | 0 <= k < 2 ::
      IsOnlyLine(OldLines(layout, s), EntriesOf(layout)[k]) && EntriesOf(layout)[k].evidenceId == [FIRST, SECOND][k]
    ensures OnLines(OldLines(layout, s), EntriesOf(layout))
  {
    SceneLines(layout, s);
    SeparateAreLive(s);
    SharedIsLive(s);
    hide FieldValue, IsLiveEntry, LiveLines, OldLines, AllButLive, FIRST, SECOND;
    var lines, live := OldLines(layout, s), LiveLines(layout, s.a, s.b);
    OnlyOneLive(lines, live, Above(s.audited), LAST_LINES, FirstEntry(), 0);
    OnlyOneLive(lines, live, Above(s.audited), LAST_LINES, SecondEntry(layout), if layout == Shared then 0 else 1);
  }

  // ---------- The new text ----------

  function ChangeOf(write: Writer, s: Scene, id: string, stamp: string): Change
    requires Parse(stamp).Some?
  {
    var values := Renewed(write, s, stamp);
    Change(id, values.observedAt, values.freshUntil, values.revision)
  }

  function ChangesOf(write: Writer, s: Scene): seq<Change>
    requires IsScene(s)
  {
    [ChangeOf(write, s, FIRST, s.first), ChangeOf(write, s, SECOND, s.second)]
  }

  /** One entry's edit, on the line at its place. */
  lemma EditOfLine(above: Lines, live: Lines, below: Lines, k: nat, c: Change, line: Line)
    requires k < |live| && EditLine(live[k], c) == Some(line)
    ensures EditAt(above + live + below, |above| + k, c) == Some(above + live[k := line] + below)
  {
    hide EditLine;
    var lines := above + live + below;
    assert lines[|above| + k] == live[k];
    assert lines[|above| + k := line] == above + live[k := line] + below;
  }

  lemma TwoEdits(lines: Lines, entries: seq<Entry>, changes: seq<Change>, once: Lines, twice: Lines)
    requires |entries| == |changes| == 2 && OnLines(lines, entries)
    requires EditAt(lines, entries[0].lineIndex, changes[0]) == Some(once)
    requires entries[1].lineIndex < |once| && EditAt(once, entries[1].lineIndex, changes[1]) == Some(twice)
    ensures EditTo(lines, entries, changes, 2) == Some(twice)
  {
    hide EditAt;
    assert EditTo(lines, entries, changes, 0) == Some(lines);
    EditStep(lines, entries, changes, 0, lines);
    EditStep(lines, entries, changes, 1, once);
  }

  lemma SeparateEdits(write: Writer, s: Scene)
    requires IsScene(s)
    ensures var live, first, second := LiveLines(Separate, s.a, s.b), s.first, s.second;
      && |live| == 2 && Parse(first).Some? && Parse(second).Some?
      && var a, b := Renewed(write, s, first), Renewed(write, s, second);
         && EditLine(live[0], ChangeOf(write, s, FIRST, first)) == Some(LiveLines(Separate, a, b)[0])
         && EditLine(live[1], ChangeOf(write, s, SECOND, second)) == Some(LiveLines(Separate, a, b)[1])
  {
    ClosingIsEnd();
    hide IsEnd, LiveParts, FIRST, SECOND, EditLine, Parse, LiveRules;
    EditLive("{", FIRST, LIVEZ, s.a, ["},"], ChangeOf(write, s, FIRST, s.first));
    EditLive("{", SECOND, VERSION, s.b, ["}"], ChangeOf(write, s, SECOND, s.second));
  }

  lemma SharedEdits(write: Writer, s: Scene)
    requires IsScene(s)
    ensures var live, first, second := LiveLines(Shared, s.a, s.b), s.first, s.second;
      && |live| == 1 && Parse(first).Some? && Parse(second).Some?
      && var a, b := Renewed(write, s, first), Renewed(write, s, second);
         && EditLine(live[0], ChangeOf(write, s, FIRST, first)) == Some(LiveLines(Shared, a, s.b)[0])
         && EditLine(LiveLines(Shared, a, s.b)[0], ChangeOf(write, s, SECOND, second))
              == Some(LiveLines(Shared, b, s.b)[0])
  {
    SecondIsEnd(s.b);
    hide IsEnd, LiveParts, FIRST, SECOND, EditLine, Parse, LiveRules;
    var rest := LiveParts("}, {", SECOND, VERSION, s.b) + ["}"];
    EditLive("{", FIRST, LIVEZ, s.a, rest, ChangeOf(write, s, FIRST, s.first));
    EditLive("{", FIRST, LIVEZ, Renewed(write, s, s.first), rest, ChangeOf(write, s, SECOND, s.second));
  }

  lemma BothEdited(above: Lines, live: Lines, below: Lines, entries: seq<Entry>, changes: seq<Change>, a: Line, b: Line)
    requires |live| == |entries| == |changes| == 2 && OnLines(above + live + below, entries)
    requires entries[0].lineIndex == |above| && entries[1].lineIndex == |above| + 1
    requires EditLine(live[0], changes[0]) == Some(a) && EditLine(live[1], changes[1]) == Some(b)
    ensures EditTo(above + live + below, entries, changes, 2) == Some(above + [a, b] + below)
  {
    hide EditLine, EditAt, EditTo;
    var once := live[0 := a];
    EditOfLine(above, live, below, 0, changes[0], a);
    EditOfLine(above, once, below, 1, changes[1], b);
    assert once[1 := b] == [a, b];
    TwoEdits(above + live + below, entries, changes, above + once + below, above + [a, b] + below);
  }

  lemma OneEditedTwice(
    above: Lines, line: Line, below: Lines, entries: seq<Entry>, changes: seq<Change>, once: Line, twice: Line)
    requires |entries| == |changes| == 2 && OnLines(above + [line] + below, entries)
    requires entries[0].lineIndex == entries[1].lineIndex == |above|
    requires EditLine(line, changes[0]) == Some(once) && EditLine(once, changes[1]) == Some(twice)
    ensures EditTo(above + [line] + below, entries, changes, 2) == Some(above + [twice] + below)
  {
    hide EditLine, EditAt, EditTo;
    EditOfLine(above, [line], below, 0, changes[0], once);
    EditOfLine(above, [once], below, 0, changes[1], twice);
    assert [line][0 := once] == [once] && [once][0 := twice] == [twice];
    TwoEdits(above + [line] + below, entries, changes, above + [once] + below, above + [twice] + below);
  }

  lemma LinesOfLayout(layout: Layout, a: Stamps, b: Stamps)
    ensures var live := LiveLines(layout, a, b);
      if layout == Shared then |live| == 1 && live == [live[0]] else |live| == 2 && live == [live[0], live[1]]
  {
    hide LiveParts;
  }

  lemma EntryPlaces(layout: Layout)
    ensures EntriesOf(layout)[0].lineIndex == LIVE_AT
    ensures EntriesOf(layout)[1].lineIndex == if layout == Shared then LIVE_AT else LIVE_AT + 1
  {
  }

  /** The lines with the live entries edited. */
  lemma SceneEdited(write: Writer, layout: Layout, s: Scene)
    requires IsScene(s)
    ensures OnLines(OldLines(layout, s), EntriesOf(layout))
    ensures EditTo(OldLines(layout, s), EntriesOf(layout), ChangesOf(write, s), 2)
      == Some(RegistryLines(layout, s.audited, NewFirst(write, layout, s), NewSecond(write, layout, s)))
  {
    EntriesAreFound(layout, s);
    EntryPlaces(layout);
    SceneLines(layout, s);
    SceneFacts(s);
    var a, b := NewFirst(write, layout, s), NewSecond(write, layout, s);
    var live, now := LiveLines(layout, s.a, s.b), LiveLines(layout, a, b);
    LinesOfLayout(layout, s.a, s.b);
    LinesOfLayout(layout, a, b);
    var entries, changes := EntriesOf(layout), ChangesOf(write, s);
    if layout == Shared {
      SharedEdits(write, s);
      hide EditLine, EditTo, Above, LAST_LINES, LiveLines, AllLack, IsScene, ChangeOf, Renewed, IsOnlyLine, EntriesOf,
           OnLines, Parse, AllButLive, CleanStamps, Current;
      var once := LiveLines(layout, Renewed(write, s, s.first), s.b)[0];
      OneEditedTwice(Above(s.audited), live[0], LAST_LINES, entries, changes, once, now[0]);
    } else {
      SeparateEdits(write, s);
      hide EditLine, EditTo, Above, LAST_LINES, LiveLines, AllLack, IsScene, ChangeOf, Renewed, IsOnlyLine, EntriesOf,
           OnLines, Parse, AllButLive, CleanStamps, Current;
      BothEdited(Above(s.audited), live, LAST_LINES, entries, changes, now[0], now[1]);
    }
  }

  function NewLines(write: Writer, layout: Layout, s: Scene): Lines
    requires IsScene(s)
  {
    RegistryLines(layout, s.deployed, NewFirst(write, layout, s), NewSecond(write, layout, s))
  }

  lemma RegistryRevised(layout: Layout, audited: string, revision: string, a: Stamps, b: Stamps)
    requires Texts.IsSha(audited)
    ensures ReplaceAudited(RegistryLines(layout, audited, a, b), revision) == RegistryLines(layout, revision, a, b)
    ensures AuditedLine(RegistryLines(layout, audited, a, b)) < |RegistryLines(layout, audited, a, b)|
  {
    hide Above, LAST_LINES, LiveLines, AuditedLine, ReplaceAudited, Texts.IsSha;
    var live := LiveLines(layout, a, b);
    ReplaceAbove(audited, revision, live + LAST_LINES);
    AboveReplaced(audited, revision);
    assert Above(audited) + live + LAST_LINES == Above(audited) + (live + LAST_LINES);
    assert Above(revision) + live + LAST_LINES == Above(revision) + (live + LAST_LINES);
  }

  lemma ProducedWhen(input: Input, entries: seq<Entry>, changes: seq<Change>, edited: Lines)
    requires |entries| == |changes| && OnLines(input.lines, entries)
    requires EditTo(input.lines, entries, changes, |entries|) == Some(edited)
    ensures ProducedText(input, entries, changes) == Some(ReplaceAudited(edited, input.deployedRevision))
  {
    hide EditTo, ReplaceAudited;
  }

  lemma SceneProduced(write: Writer, layout: Layout, s: Scene)
    requires IsScene(s)
    ensures AuditedLine(OldLines(layout, s)) < |OldLines(layout, s)|
    ensures OnLines(OldLines(layout, s), EntriesOf(layout))
    ensures ProducedText(InputFor(layout, s), EntriesOf(layout), ChangesOf(write, s))
      == Some(NewLines(write, layout, s))
  {
    SceneEdited(write, layout, s);
    SceneFacts(s);
    var a, b := NewFirst(write, layout, s), NewSecond(write, layout, s);
    RegistryRevised(layout, s.audited, s.deployed, s.a, s.b);
    RegistryRevised(layout, s.audited, s.deployed, a, b);
    ProducedWhen(InputFor(layout, s), EntriesOf(layout), ChangesOf(write, s), RegistryLines(layout, s.audited, a, b));
    hide *;
  }

  // ---------- The refresh ----------

  lemma SceneObserved(s: Scene)
    requires FIRST != SECOND
    ensures ObservationOf(ObservationsOf(s), FIRST) == Some(Observation(FIRST, 200, true, s.first))
    ensures ObservationOf(ObservationsOf(s), SECOND) == Some(Observation(SECOND, 200, true, s.second))
  {
    hide FIRST, SECOND;
    var os := ObservationsOf(s);
    assert os[..1] == [os[0]];
    assert ObservationOf(os[..1], FIRST) == Some(os[0]);
  }

  lemma InWindowObserves(s: Scene, entry: Entry, id: string, stamp: string)
    requires InWindow(stamp, s.before, s.now)
    ensures Observes(s.now, entry, Observation(id, 200, true, stamp))
  {
    hide IsIso, Parse, IsHealthz;
  }

  lemma ObservedFollows(
    write: Writer, s: Scene, observations: seq<Observation>, entry: Entry, id: string, stamp: string)
    requires entry.evidenceId == id && InWindow(stamp, s.before, s.now)
    requires ObservationOf(observations, id) == Some(Observation(id, 200, true, stamp))
    ensures Follows(write, s.now, SEVEN_DAYS, s.deployed, observations, entry, ChangeOf(write, s, id, stamp))
  {
    InWindowObserves(s, entry, id, stamp);
    hide InWindow, Parse, Observes, ObservationOf;
  }

  lemma SceneFollows(write: Writer, layout: Layout, s: Scene)
    requires IsScene(s)
    ensures Follows(write, s.now, SEVEN_DAYS, s.deployed, ObservationsOf(s), FirstEntry(), ChangesOf(write, s)[0])
    ensures Follows(write, s.now, SEVEN_DAYS, s.deployed, ObservationsOf(s), SecondEntry(layout),
      ChangesOf(write, s)[1])
  {
    FirstIsBefore();
    SceneObserved(s);
    hide FIRST, SECOND, Parse, LiveRules, Follows, ObservationOf, ObservationsOf, LIVEZ, VERSION, IsIso, ChangeOf;
    ObservedFollows(write, s, ObservationsOf(s), FirstEntry(), FIRST, s.first);
    ObservedFollows(write, s, ObservationsOf(s), SecondEntry(layout), SECOND, s.second);
  }

  lemma SceneAllows(layout: Layout, s: Scene)
    requires IsScene(s)
    ensures RevisionsAllow(InputFor(layout, s))
    ensures multiset(Ids(ObservationsOf(s))) == multiset([FIRST, SECOND])
  {
    SceneFacts(s);
    hide IsScene, Texts.IsSha, OldLines, CleanStamps, Current;
    assert Ids(ObservationsOf(s)) == [FIRST, SECOND];
  }

  lemma TwoRefreshed(write: Writer, input: Input, entries: seq<Entry>, changes: seq<Change>, text: Lines)
    requires WritesValues(write) && AllUntangled(input.lines)
    requires RevisionsAllow(input) && multiset(Ids(input.observations)) == multiset(input.liveIds)
    requires |entries| == |changes| == |input.liveIds| == 2 && AuditedLine(input.lines) < |input.lines|
    requires entries[0].evidenceId == input.liveIds[0] && entries[1].evidenceId == input.liveIds[1]
    requires IsOnlyLine(input.lines, entries[0]) && IsOnlyLine(input.lines, entries[1])
    requires Follows(write, input.now, input.window, input.deployedRevision, input.observations, entries[0], changes[0])
    requires Follows(write, input.now, input.window, input.deployedRevision, input.observations, entries[1], changes[1])
    requires changes[0].observedAt != changes[1].observedAt
    requires OnLines(input.lines, entries) && ProducedText(input, entries, changes) == Some(text)
    ensures Refreshed(write, input, entries, changes, text)
  {
    hide *;
    ProducedIsRefreshed(write, input, entries, changes, text);
  }

  lemma SceneRefreshed(read: Reader, write: Writer, layout: Layout, s: Scene)
    requires ReadsJson(read) && WritesValues(write) && IsScene(s)
    ensures Refreshed(write, InputFor(layout, s), EntriesOf(layout), ChangesOf(write, s), NewLines(write, layout, s))
  {
    EntriesAreFound(layout, s);
    SceneProduced(write, layout, s);
    SceneInput(read, layout, s);
    SceneAllows(layout, s);
    SceneFollows(write, layout, s);
    var input, entries, changes := InputFor(layout, s), EntriesOf(layout), ChangesOf(write, s);
    assert changes[0].observedAt != changes[1].observedAt;
    assert IsOnlyLine(OldLines(layout, s), entries[0]) && IsOnlyLine(OldLines(layout, s), entries[1]);
    hide Follows, IsOnlyLine, OldLines, NewLines, AllUntangled, AreLines, ProducedText, AuditedLine, OnLines,
         RevisionsAllow, IsScene, Refreshed, ReadsJson, WritesValues, FIRST, SECOND, InputOf, Ids, ObservationsOf,
         FirstEntry, SecondEntry, ChangesOf;
    TwoRefreshed(write, input, entries, changes, NewLines(write, layout, s));
  }

  /** The live rules of a registry with two live entries. */
  lemma RulesOfTwo(audited: string, a: Stamps, b: Stamps, asOf: int)
    requires Texts.IsSha(audited) && a.observedAt != b.observedAt
    ensures LiveRules(AuditedOf(Registry(audited, a, b)), LiveOf(Registry(audited, a, b)), asOf) <==>
      Current(LiveEntry(FIRST, LIVEZ, a), audited, asOf) && Current(LiveEntry(SECOND, VERSION, b), audited, asOf)
  {
    RegistrySays(audited, a, b);
    var live := LiveOf(Registry(audited, a, b));
    hide Registry, LiveOf, AuditedOf, Current, FIRST, SECOND, LIVEZ, VERSION, Texts.IsSha, WholeSeconds;
    assert live[0] == LiveEntry(FIRST, LIVEZ, a) && live[1] == LiveEntry(SECOND, VERSION, b);
    assert live[0].observedAt != live[1].observedAt;
    assert Unbatched(live);
  }

  lemma RenewedIsCurrent(write: Writer, s: Scene, id: string, locator: string, stamp: string)
    requires IsScene(s) && WritesInstants(write) && InWindow(stamp, s.before, s.now)
    ensures CleanStamps(Renewed(write, s, stamp))
    ensures Current(LiveEntry(id, locator, Renewed(write, s, stamp)), s.deployed, s.now)
  {
    hide Parse, IsIso, LiveRules, Texts.IsSha, Clean;
    var until := write(Parse(stamp).value + SEVEN_DAYS);
    assert Parse(until) == Some(Parse(stamp).value + SEVEN_DAYS);
    ParsedIsIso(until);
    IsoIsClean(until);
    IsoIsClean(stamp);
    ShaIsClean(s.deployed);
  }

  /** The second observation is later than anything in the old registry. */
  lemma SecondIsNew(s: Scene)
    requires IsScene(s)
    ensures s.second != s.b.observedAt
  {
    SceneFacts(s);
    hide LiveRules, Parse, Texts.IsSha, CleanStamps, IsIso;
  }

  lemma NewIsRead(read: Reader, write: Writer, layout: Layout, s: Scene)
    requires ReadsJson(read) && WritesInstants(write) && IsScene(s)
    ensures var a, b := NewFirst(write, layout, s), NewSecond(write, layout, s);
      && AreLines(NewLines(write, layout, s)) && a.observedAt != b.observedAt
      && Current(LiveEntry(FIRST, LIVEZ, a), s.deployed, s.now)
      && (layout == Separate ==> Current(LiveEntry(SECOND, VERSION, b), s.deployed, s.now))
      && read(TextOfLines(NewLines(write, layout, s))) == Some(Registry(s.deployed, a, b))
  {
    SceneFacts(s);
    RenewedIsCurrent(write, s, FIRST, LIVEZ, s.first);
    RenewedIsCurrent(write, s, FIRST, LIVEZ, s.second);
    RenewedIsCurrent(write, s, SECOND, VERSION, s.second);
    SecondIsNew(s);
    ShaIsClean(s.deployed);
    hide LiveRules, InWindow, Current, CleanStamps, Clean, Parse, Texts.IsSha, RegistryLines, Registry, ReadsJson,
         WritesInstants, LiveEntry, TextOfLines, AreLines, LinesOf;
    RegistryIsRead(read, layout, s.deployed, NewFirst(write, layout, s), NewSecond(write, layout, s));
  }

  /** One refreshed text decides about all outcomes. */
  lemma OutcomesExactly(
    read: Reader, write: Writer, otherRules: Tree -> bool, request: Request, input: Input,
    entries: seq<Entry>, changes: seq<Change>, lines: Lines)
    requires InputOf(read, request) == Some(input) && Refreshed(write, input, entries, changes, lines)
    ensures AreLines(lines)
    ensures var text := TextOfLines(lines);
      forall t :: IsOutcome(read, write, otherRules, request, t) <==>
        t == text && read(text).Some? && MeetsContract(read(text).value, otherRules, request.now)
  {
    RefreshedIsRefreshable(write, input, entries, changes, lines);
    assert IsRefresh(write, input, lines);
    hide *;
    ProducedDecides(read, write, otherRules, request, Some(lines));
  }

  lemma OthersHoldOf(otherRules: Tree -> bool, audited: string, a: Stamps, b: Stamps)
    requires OthersHold(otherRules)
    ensures otherRules(Registry(audited, a, b))
  {
  }

  lemma NewMeets(otherRules: Tree -> bool, audited: string, a: Stamps, b: Stamps, asOf: int)
    requires OthersHold(otherRules) && Texts.IsSha(audited) && a.observedAt != b.observedAt
    requires Current(LiveEntry(FIRST, LIVEZ, a), audited, asOf)
    ensures MeetsContract(Registry(audited, a, b), otherRules, asOf) <==>
      Current(LiveEntry(SECOND, VERSION, b), audited, asOf)
  {
    RulesOfTwo(audited, a, b, asOf);
    OthersHoldOf(otherRules, audited, a, b);
    hide Registry, LiveRules, LiveOf, AuditedOf, Current, LiveEntry, OthersHold, Texts.IsSha;
  }

  /** What decides about the refresh of the scene. */
  lemma SceneDecides(read: Reader, write: Writer, otherRules: Tree -> bool, layout: Layout, s: Scene, t: string)
    requires Premises(read, write, otherRules) && IsScene(s)
    ensures AreLines(OldLines(layout, s)) && AreLines(NewLines(write, layout, s))
    ensures IsOutcome(read, write, otherRules, RequestOf(layout, s), t) <==>
      && t == TextOfLines(NewLines(write, layout, s))
      && Current(LiveEntry(SECOND, VERSION, NewSecond(write, layout, s)), s.deployed, s.now)
  {
    var a, b := NewFirst(write, layout, s), NewSecond(write, layout, s);
    SceneInput(read, layout, s);
    SceneRefreshed(read, write, layout, s);
    NewIsRead(read, write, layout, s);
    var request := RequestOf(layout, s);
    assert request.now == s.now && Texts.IsSha(s.deployed);
    hide IsScene, NewLines, OldLines, Registry, IsOutcome, InputOf, InputFor, RequestOf, NewFirst, NewSecond, Refreshed,
         AllUntangled, AreLines, TextOfLines, Current, LiveEntry, MeetsContract, EntriesOf, ChangesOf, OthersHold,
         ReadsJson, WritesValues, WritesInstants, Texts.IsSha;
    NewMeets(otherRules, s.deployed, a, b, s.now);
    OutcomesExactly(read, write, otherRules, request, InputFor(layout, s), EntriesOf(layout), ChangesOf(write, s),
      NewLines(write, layout, s));
  }

  // ---------- What the refresh makes of it ----------

  /** On lines of their own, the two entries get their own observations, and the contract is met. */
  lemma SeparateLinesAreRefreshed(read: Reader, write: Writer, otherRules: Tree -> bool, s: Scene)
    requires Premises(read, write, otherRules) && IsScene(s)
    ensures AreLines(OldLines(Separate, s))
    ensures exists t ::
      && IsOutcome(read, write, otherRules, RequestOf(Separate, s), t)
      && read(t) == Some(Registry(s.deployed, Renewed(write, s, s.first), Renewed(write, s, s.second)))
  {
    NewIsRead(read, write, Separate, s);
    var t := TextOfLines(NewLines(write, Separate, s));
    hide IsOutcome, InWindow, LiveRules, NewLines, TextOfLines, Registry, OldLines, AreLines, RequestOf, Current,
         LiveEntry, ReadsJson;
    SceneDecides(read, write, otherRules, Separate, s, t);
  }

  lemma StaysCurrent(s: Scene)
    requires IsScene(s)
    ensures Parse(s.b.freshUntil).Some?
    ensures Current(LiveEntry(SECOND, VERSION, s.b), s.deployed, s.now) <==>
      s.deployed == s.audited && s.now < Parse(s.b.freshUntil).value
  {
    SceneFacts(s);
    hide LiveRules, Parse, Texts.IsSha, CleanStamps, IsIso;
  }

  /** On a shared line, only the first object is edited, and with the second observation. That passes exactly
      when the audited revision stays the same and the second object's old values are still fresh. */
  lemma SharedLinePassesExactly(read: Reader, write: Writer, otherRules: Tree -> bool, s: Scene)
    requires Premises(read, write, otherRules) && IsScene(s)
    ensures AreLines(OldLines(Shared, s)) && Parse(s.b.freshUntil).Some?
    ensures forall t | IsOutcome(read, write, otherRules, RequestOf(Shared, s), t) ::
      read(t) == Some(Registry(s.deployed, Renewed(write, s, s.second), s.b))
    ensures (exists t :: IsOutcome(read, write, otherRules, RequestOf(Shared, s), t))
      <==> s.deployed == s.audited && s.now < Parse(s.b.freshUntil).value
  {
    NewIsRead(read, write, Shared, s);
    StaysCurrent(s);
    var text := TextOfLines(NewLines(write, Shared, s));
    hide IsOutcome, InWindow, LiveRules, NewLines, TextOfLines, Registry, OldLines, AreLines, RequestOf, Current,
         LiveEntry, ReadsJson, Parse;
    SceneDecides(read, write, otherRules, Shared, s, text);
    forall t | IsOutcome(read, write, otherRules, RequestOf(Shared, s), t) ensures t == text {
      SceneDecides(read, write, otherRules, Shared, s, t);
    }
  }

  // ---------- Two refreshes that should not be ----------

  const SHA := "0000000000000000000000000000000000000000"
  const SEEN := "2026-01-01T12:00:00.500Z"
  const UNTIL := "2026-01-08T12:00:00.500Z"
  const OLD_STAMPS := Stamps(SEEN, UNTIL, SHA)
  const MIDNIGHT := 1767312000000

  /** Seen at noon; observed again at the end of the day and at the start of the next; refreshed at once. */
  const EXAMPLE := Scene(SHA, SHA, OLD_STAMPS, OLD_STAMPS, END_OF_DAY, START_OF_DAY, MIDNIGHT - 36000000, MIDNIGHT)

  lemma ReadSeen()
    ensures IsIso(SEEN) && FieldsOf(SEEN) == Fields(2026, 1, 1, 12, 0, 0, 500)
  {
  }

  lemma ReadUntil()
    ensures IsIso(UNTIL) && FieldsOf(UNTIL) == Fields(2026, 1, 8, 12, 0, 0, 500)
  {
  }

  lemma ParseSeen()
    ensures Parse(SEEN) == Some(MIDNIGHT - 43199500) && Parse(UNTIL) == Some(MIDNIGHT + 561600500)
  {
    ReadSeen();
    ReadUntil();
    hide FieldsOf, IsIso, SEEN, UNTIL;
  }

  lemma ParseMidnight()
    ensures IsIso(END_OF_DAY) && IsIso(START_OF_DAY) && END_OF_DAY != START_OF_DAY
    ensures Parse(END_OF_DAY) == Parse(START_OF_DAY) == Some(MIDNIGHT)
  {
    ReadEndOfDay();
    ReadStartOfDay();
    JanuaryDays();
    hide FieldsOf, IsIso, END_OF_DAY, START_OF_DAY, DaysBeforeMonth, DaysBeforeYear;
  }

  lemma JanuaryDays()
    ensures DaysBeforeMonth(2026, 1) == 0 && DaysBeforeYear(2026) == 739982
  {
  }

  lemma SeenIsNoBatch()
    ensures !WholeSeconds(Some(SEEN)) && Texts.IsSha(SHA)
  {
    assert SEEN[|SEEN| - 5..][1] == '5' && ".000Z"[1] == '0';
  }

  lemma ExampleIsScene()
    ensures IsScene(EXAMPLE)
  {
    ParseSeen();
    ParseMidnight();
    SeenIsNoBatch();
    hide IsIso, Parse, SEEN, UNTIL, END_OF_DAY, START_OF_DAY, SHA, Texts.IsSha, WholeSeconds, Registry, LiveOf;
    RegistrySays(SHA, OLD_STAMPS, OLD_STAMPS);
    hide FIRST, SECOND, LIVEZ, VERSION;
  }

  /** The end of one day and the start of the next pass as two observations, although they are one instant. */
  lemma OneInstantIsRefreshed(read: Reader, write: Writer, otherRules: Tree -> bool)
    requires Premises(read, write, otherRules)
    ensures IsScene(EXAMPLE) && AreLines(OldLines(Separate, EXAMPLE)) && Parse(EXAMPLE.first) == Parse(EXAMPLE.second)
    ensures exists t :: IsOutcome(read, write, otherRules, RequestOf(Separate, EXAMPLE), t)
  {
    ExampleIsScene();
    ParseMidnight();
    assert Parse(EXAMPLE.first) == Parse(EXAMPLE.second);
    hide *;
    SeparateLinesAreRefreshed(read, write, otherRules, EXAMPLE);
  }

  /** On a shared line, the first entry comes out with an observation that was made of the second surface. */
  lemma SharedLineIsRefreshed(read: Reader, write: Writer, otherRules: Tree -> bool)
    requires Premises(read, write, otherRules)
    ensures IsScene(EXAMPLE) && AreLines(OldLines(Shared, EXAMPLE)) && EXAMPLE.first != EXAMPLE.second
    ensures exists t ::
      && IsOutcome(read, write, otherRules, RequestOf(Shared, EXAMPLE), t)
      && read(t) == Some(Registry(SHA, Renewed(write, EXAMPLE, EXAMPLE.second), OLD_STAMPS))
  {
    ExampleIsScene();
    ParseMidnight();
    ParseSeen();
    hide Parse, IsScene, IsOutcome, OldLines, AreLines, RequestOf, Registry, Premises, END_OF_DAY, START_OF_DAY, SEEN,
         UNTIL, SHA;
    SharedLinePassesExactly(read, write, otherRules, EXAMPLE);
  }
}
