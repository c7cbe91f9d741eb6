/**
 The whole refresh of the live evidence, from one registry text to the next: the text is read as
 JSON, its live entries are refreshed, and the new text is read again and judged by the contract.
 */
module LiveRefresh {
  import opened Basics
  import opened QuotedText
  import opened RegistryJson
  import opened LiveContract
  import opened LiveEvidence
  import Texts

  // ---------- Reading the registry ----------

  /** What a text is as JSON, if it is JSON. */
  type Reader = string -> Option<Tree>

  /** The reader reads every text without escapes as JSON, and in no other text it reads is a key the value of a key. */
  ghost predicate ReadsJson(read: Reader) {
    && (forall text | PlainText(LinesOf(text)) :: read(text) == ReadPlain(LinesOf(text)))
    && forall text | !PlainText(LinesOf(text)) && read(text).Some? :: AllUntangled(LinesOf(text))
  }

  lemma KeysAreNames(key: string)
    requires key in KEYS
    ensures IsName(key)
  {
    assert OBSERVED_AT[0] == 'o' && FRESH_UNTIL[0] == 'f' && REVISION[0] == 'r' && AUDITED_REVISION[0] == 'a';
    assert FRESH_UNTIL[1] == 'r';
  }

  /** In a text that is read, no key is the value of a key. */
  lemma ReadIsUntangled(read: Reader, text: string)
    requires ReadsJson(read) && read(text).Some?
    ensures AllUntangled(LinesOf(text))
  {
    hide ReadPlain, KeyAt, IsName, KEYS, PlainText;
    var lines := LinesOf(text);
    if PlainText(lines) {
      forall a, b, i, j, l | a in KEYS && b in KEYS && 0 <= l < |lines| && 0 <= i < |lines[l]| && j == i + 2
        ensures !(KeyAt(lines[l], a, i) && KeyAt(lines[l], b, j))
      {
        KeysAreNames(a);
        KeysAreNames(b);
        NoNameAfterName(lines, l, a, b, i);
      }
    }
  }

  /** The text of the lines. */
  function TextOfLines(lines: Lines): string
    requires lines != [] && forall k | 0 <= k < |lines| :: lines[k] != []
  {
    Texts.Joined(Rows(lines), '\n')
  }

  // ---------- The ids, in order ----------

  predicate AtMost(a: string, b: string) {
    a == "" || (b != "" && (a[0] < b[0] || (a[0] == b[0] && AtMost(a[1..], b[1..]))))
  }

  function Insert(s: string, sorted: seq<string>): seq<string> {
    if sorted == [] || AtMost(s, sorted[0]) then [s] + sorted else [sorted[0]] + Insert(s, sorted[1..])
  }

  function SortTexts(texts: seq<string>): seq<string> {
    if texts == [] then [] else Insert(texts[0], SortTexts(texts[1..]))
  }

  predicate Ascending(s: seq<string>) {
    forall i, j | 0 <= i < |s| && 0 <= j < |s| && j == i + 1 :: AtMost(s[i], s[j])
  }

  lemma {:induction false} OneIsAtMost(a: string, b: string)
    ensures AtMost(a, b) || AtMost(b, a)
  {
    if a != "" && b != "" {
      OneIsAtMost(a[1..], b[1..]);
    }
  }

  lemma {:induction false} InsertSorts(s: string, sorted: seq<string>)
    requires Ascending(sorted)
    ensures Ascending(Insert(s, sorted)) && multiset(Insert(s, sorted)) == multiset([s] + sorted)
    ensures Insert(s, sorted) != []
      && (Insert(s, sorted)[0] == s || (sorted != [] && Insert(s, sorted)[0] == sorted[0]))
  {
    hide AtMost;
    if sorted != [] && !AtMost(s, sorted[0]) {
      OneIsAtMost(s, sorted[0]);
      InsertSorts(s, sorted[1..]);
      assert sorted == [sorted[0]] + sorted[1..];
      assert |sorted| > 1 ==> AtMost(sorted[0], sorted[1]);
    }
  }

  /** The ids come in ascending order, and all of them come. */
  lemma {:induction false} TextsAreSorted(texts: seq<string>)
    ensures Ascending(SortTexts(texts)) && multiset(SortTexts(texts)) == multiset(texts)
  {
    hide Insert, Ascending;
    if texts == [] {
      NothingAscends();
    } else {
      TextsAreSorted(texts[1..]);
      InsertSorts(texts[0], SortTexts(texts[1..]));
      assert texts == [texts[0]] + texts[1..];
    }
  }

  lemma NothingAscends()
    ensures Ascending([])
  {
  }

  // ---------- The refresh ----------

  /** The registry text and everything observed. */
  datatype Request = Request(
    registryText: string, deployedRevision: string, versionBefore: string, versionAfter: string,
    deployedIsAncestorOfMain: Ancestry, auditedIsAncestorOfDeployed: Ancestry,
    surfaceStale: bool, observations: seq<Observation>, now: int, window: int)

  function IdsOf(live: seq<Live>): Option<seq<string>> {
    if live == [] then Some([])
    else
      var rest := IdsOf(live[1..]);
      if live[0].id.None? || rest.None? then None else Some([live[0].id.value] + rest.value)
  }

  /** What the refresh knows once the registry is read. */
  function InputOf(read: Reader, request: Request): Option<Input> {
    match read(request.registryText)
    case None => None
    case Some(registry) =>
      var audited, ids := AuditedOf(registry), IdsOf(LiveOf(registry));
      if audited.None? || ids.None? then None
      else Some(InputFor(audited.value, ids.value, request))
  }

  function InputFor(audited: string, ids: seq<string>, request: Request): Input {
    Input(LinesOf(request.registryText), audited, SortTexts(ids),
      request.deployedRevision, request.versionBefore, request.versionAfter,
      request.deployedIsAncestorOfMain, request.auditedIsAncestorOfDeployed,
      request.surfaceStale, request.observations, request.now, request.window)
  }

  /** The contract: its rules on live evidence, and its other rules. */
  predicate MeetsContract(registry: Tree, otherRules: Tree -> bool, asOf: int) {
    LiveRules(AuditedOf(registry), LiveOf(registry), asOf) && otherRules(registry)
  }

  /** The text is a refresh of the registry, and it is read as a registry that meets the contract. */
  ghost predicate IsOutcome(read: Reader, write: Writer, otherRules: Tree -> bool, request: Request, text: string) {
    var input := InputOf(read, request);
    && input.Some?
    && read(text).Some? && MeetsContract(read(text).value, otherRules, request.now)
    && exists lines | |lines| == |input.value.lines| && AreLines(lines) ::
         IsRefresh(write, input.value, lines) && text == TextOfLines(lines)
  }

  /** There are lines, and every line has a part. */
  predicate AreLines(lines: Lines) { lines != [] && forall k | 0 <= k < |lines| :: lines[k] != [] }

  lemma RefreshedAreLines(write: Writer, input: Input, text: Lines)
    requires IsRefresh(write, input, text) && AreLines(input.lines)
    ensures |text| == |input.lines| && AreLines(text)
  {
    hide Follows, RevisionsAllow, HasValues, Carries, FieldValue, IsLiveEntry, ProducedText, LastOnLine, AuditedIs,
         MayChange, AuditedLine;
  }

  lemma OutcomeIsUnique(
    read: Reader, write: Writer, otherRules: Tree -> bool, request: Request, produced: Option<Lines>, text: string)
    requires IsOutcome(read, write, otherRules, request, text)
    requires produced.Some? <==> Refreshable(InputOf(read, request).value)
    requires produced.Some? ==> IsRefresh(write, InputOf(read, request).value, produced.value)
    ensures produced.Some? && AreLines(produced.value) && text == TextOfLines(produced.value)
  {
    hide Refreshed, Refreshable, MeetsContract, InputOf;
    var input := InputOf(read, request).value;
    var lines :| |lines| == |input.lines| && AreLines(lines) && IsRefresh(write, input, lines)
      && text == TextOfLines(lines);
    var entries, changes :| Refreshed(write, input, entries, changes, lines);
    RefreshedIsRefreshable(write, input, entries, changes, lines);
    RefreshIsUnique(write, input, lines, produced.value);
  }

  lemma OutcomeMeets(read: Reader, write: Writer, otherRules: Tree -> bool, request: Request, text: string)
    requires IsOutcome(read, write, otherRules, request, text)
    ensures InputOf(read, request).Some? && read(text).Some?
    ensures MeetsContract(read(text).value, otherRules, request.now)
  {
    hide MeetsContract, InputOf;
  }

  lemma ThisIsOutcome(
    read: Reader, write: Writer, otherRules: Tree -> bool, request: Request, input: Input, produced: Lines)
    requires InputOf(read, request) == Some(input) && IsRefresh(write, input, produced)
    ensures AreLines(produced)
    ensures var text := TextOfLines(produced);
      read(text).Some? && MeetsContract(read(text).value, otherRules, request.now) ==>
        IsOutcome(read, write, otherRules, request, text)
  {
    assert AreLines(input.lines);
    hide IsRefresh, MeetsContract, InputOf;
    RefreshedAreLines(write, input, produced);
  }

  /** What is produced, once it is read and judged, decides about every text. */
  lemma ProducedDecides(
    read: Reader, write: Writer, otherRules: Tree -> bool, request: Request, produced: Option<Lines>)
    requires InputOf(read, request).Some?
    requires produced.Some? <==> Refreshable(InputOf(read, request).value)
    requires produced.Some? ==> IsRefresh(write, InputOf(read, request).value, produced.value)
    ensures produced.Some? ==> AreLines(produced.value)
    ensures forall text :: IsOutcome(read, write, otherRules, request, text) <==>
      produced.Some? && text == TextOfLines(produced.value) && read(text).Some?
        && MeetsContract(read(text).value, otherRules, request.now)
  {
    hide IsRefresh, Refreshable, MeetsContract, InputOf, IsOutcome;
    if produced.Some? {
      ThisIsOutcome(read, write, otherRules, request, InputOf(read, request).value, produced.value);
    }
    forall text | IsOutcome(read, write, otherRules, request, text)
      ensures produced.Some? && AreLines(produced.value) && text == TextOfLines(produced.value) && read(text).Some?
        && MeetsContract(read(text).value, otherRules, request.now)
    {
      OutcomeIsUnique(read, write, otherRules, request, produced, text);
      OutcomeMeets(read, write, otherRules, request, text);
    }
  }

  lemma InputIsRead(read: Reader, request: Request)
    requires InputOf(read, request).Some?
    ensures read(request.registryText).Some?
    ensures InputOf(read, request).value.lines == LinesOf(request.registryText)
  {
  }

  /** Refreshes the registry, or refuses: the result is the one refreshed text that meets the contract,
      and there is one whenever the registry is refreshable and its refreshed text meets the contract. */
  method RefreshLiveEvidence(read: Reader, write: Writer, otherRules: Tree -> bool, request: Request)
    returns (text: Option<string>)
    requires ReadsJson(read) && WritesValues(write)
    ensures forall outcome :: IsOutcome(read, write, otherRules, request, outcome) <==> text == Some(outcome)
  {
    text := None;
    var input := InputOf(read, request);
    if input.None? {
      return;
    }
    InputIsRead(read, request);
    ReadIsUntangled(read, request.registryText);
    var produced := ProduceText(write, input.value);
    ProducedDecides(read, write, otherRules, request, produced);
    if produced.None? {
      return;
    }
    hide IsOutcome, InputOf, TextOfLines, LiveRules;
    var newText := TextOfLines(produced.value);
    var registry := read(newText);
    if registry.None? {
      return;
    }
    var issues := ValidateLive(AuditedOf(registry.value), LiveOf(registry.value), request.now);
    if issues != [] || !otherRules(registry.value) {
      return;
    }
    text := Some(newText);
  }
}
