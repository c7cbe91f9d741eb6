/**
 Refreshing the live evidence of the public claims registry: an edit of the text that
 touches the audited revision and three values of every live entry, and nothing else.
 A line is kept as the parts between its quotes, which is what the patterns of the edit see.
 */
module LiveEvidence {
  import opened Basics
  import opened IsoTime
  import opened QuotedText
  import opened LiveContract
  import Texts

  type Line = Parts

  type Lines = seq<Line>

  /** The lines of a text. */
  function LinesOf(text: string): (lines: Lines)
    ensures lines != [] && forall k | 0 <= k < |lines| :: lines[k] != []
  {
    var rows := Texts.Split(text, '\n');
    seq(|rows|, k requires 0 <= k < |rows| => PartsOf(rows[k]))
  }

  function Rows(lines: Lines): (rows: seq<string>)
    requires forall k | 0 <= k < |lines| :: lines[k] != []
    ensures |rows| == |lines| && forall k | 0 <= k < |lines| :: rows[k] == TextOf(lines[k])
  {
    seq(|lines|, k requires 0 <= k < |lines| => TextOf(lines[k]))
  }

  /** The lines give the text back. */
  lemma LinesAreText(text: string)
    ensures Texts.Joined(Rows(LinesOf(text)), '\n') == text
  {
    var rows := Texts.Split(text, '\n');
    forall k | 0 <= k < |rows| ensures Rows(LinesOf(text))[k] == rows[k] {
      PartsAreText(rows[k]);
    }
    assert Rows(LinesOf(text)) == rows;
    Texts.SplitJoins(text, '\n');
  }

  /** The keys whose values are edited. */
  const EDITED_KEYS: set<string> := {OBSERVED_AT, FRESH_UNTIL, REVISION}

  const KEYS: set<string> := EDITED_KEYS + {AUDITED_REVISION}

  /** No key is itself the value of a key. A line of a JSON text is so: the quotes after the first key are
      not escaped, and no value of JSON is followed by a colon. */
  predicate Untangled(line: Line) {
    forall a, b, i, j | a in KEYS && b in KEYS && 0 <= i < |line| && 0 <= j < |line| && j == i + 2 ::
      !(KeyAt(line, a, i) && KeyAt(line, b, j))
  }

  predicate AllUntangled(lines: Lines) { forall k | 0 <= k < |lines| :: Untangled(lines[k]) }

  lemma KeysDiffer()
    ensures OBSERVED_AT != FRESH_UNTIL && OBSERVED_AT != REVISION && FRESH_UNTIL != REVISION
    ensures AUDITED_REVISION !in EDITED_KEYS
    ensures forall key | key in KEYS :: !Separator(key)
  {
    assert OBSERVED_AT[0] == 'o' && FRESH_UNTIL[0] == 'f' && REVISION[0] == 'r' && AUDITED_REVISION[0] == 'a';
    assert OBSERVED_AT[1] == 'b' && FRESH_UNTIL[1] == 'r' && REVISION[1] == 'e' && AUDITED_REVISION[1] == 'u';
  }

  // ---------- Finding the live entries ----------

  /** `"id": "<id>"` stands on the line. */
  predicate MentionsId(line: Line, id: string) {
    exists k | 1 <= k < |line| :: k + 3 < |line| && line[k] == ID && line[k + 1] == ": " && line[k + 2] == id
  }

  predicate MentionsType(line: Line) {
    exists k | 0 <= k < |line| :: KeyAt(line, TYPE, k) && line[k + 2] == LIVE
  }

  predicate IsLiveEntry(line: Line, id: string) { MentionsId(line, id) && MentionsType(line) }

  datatype Entry = Entry(evidenceId: string, locator: string, lineIndex: nat)

  /** The entry names the only line on which the evidence id is live. */
  predicate IsOnlyLine(lines: Lines, e: Entry) {
    && e.lineIndex < |lines| && FieldValue(lines[e.lineIndex], LOCATOR) == Some(e.locator)
    && forall k | 0 <= k < |lines| :: IsLiveEntry(lines[k], e.evidenceId) <==> k == e.lineIndex
  }

  method MatchingLines(lines: Lines, id: string) returns (matches: seq<nat>)
    ensures forall k :: k in matches <==> 0 <= k < |lines| && IsLiveEntry(lines[k], id)
    ensures forall i, j | 0 <= i < j < |matches| :: matches[i] < matches[j]
  {
    hide IsLiveEntry;
    matches := [];
    var index := 0;
    while index < |lines|
      invariant index <= |lines|
      invariant forall k :: k in matches <==> 0 <= k < index && IsLiveEntry(lines[k], id)
      invariant forall i, j | 0 <= i < j < |matches| :: matches[i] < matches[j]
      invariant forall i | 0 <= i < |matches| :: matches[i] < index
    {
      if IsLiveEntry(lines[index], id) {
        matches := matches + [index];
      }
      index := index + 1;
    }
  }

  ghost predicate HasOnlyLine(lines: Lines, id: string) {
    exists e: Entry :: e.evidenceId == id && IsOnlyLine(lines, e)
  }

  lemma OneMatch(lines: Lines, id: string, matches: seq<nat>)
    requires forall k :: k in matches <==> 0 <= k < |lines| && IsLiveEntry(lines[k], id)
    requires |matches| > 1 ==> matches[0] != matches[1]
    ensures HasOnlyLine(lines, id) ==>
      |matches| == 1 && matches[0] < |lines| && FieldValue(lines[matches[0]], LOCATOR).Some?
  {
    hide IsLiveEntry, FieldValue;
    if e: Entry :| e.evidenceId == id && IsOnlyLine(lines, e) {
      assert e.lineIndex in matches;
      forall i | 0 <= i < |matches| ensures matches[i] == e.lineIndex {
        assert matches[i] in matches;
      }
    }
  }

  method FindLiveEntryLines(lines: Lines, ids: seq<string>) returns (found: Option<seq<Entry>>)
    ensures found.Some? ==> |found.value| == |ids|
    ensures found.Some? ==> forall k | 0 <= k < |ids| ::
      found.value[k].evidenceId == ids[k] && IsOnlyLine(lines, found.value[k])
    ensures found.Some? ==> forall k | 0 <= k < |ids| :: found.value[k].lineIndex < |lines|
    ensures found.None? ==> exists k | 0 <= k < |ids| :: !HasOnlyLine(lines, ids[k])
  {
    hide IsLiveEntry, HasOnlyLine;
    var entries: seq<Entry> := [];
    while |entries| < |ids|
      invariant |entries| <= |ids|
      invariant forall k | 0 <= k < |entries| :: entries[k].evidenceId == ids[k] && IsOnlyLine(lines, entries[k])
    {
      var id := ids[|entries|];
      var matches := MatchingLines(lines, id);
      OneMatch(lines, id, matches);
      if |matches| != 1 {
        return None;
      }
      assert matches[0] in matches;
      var locator := FieldValue(lines[matches[0]], LOCATOR);
      if locator.None? {
        return None;
      }
      entries := entries + [Entry(id, locator.value, matches[0])];
    }
    found := Some(entries);
  }

  // ---------- The observations ----------

  datatype Observation = Observation(evidenceId: string, status: int, healthzOk: bool, observedAt: string)

  /** How an instant in milliseconds is written. */
  type Writer = int -> string

  /** A value that is no key. */
  predicate Inert(value: string) { value !in KEYS }

  ghost predicate WritesValues(write: Writer) { forall at :: Inert(write(at)) }

  datatype Change = Change(evidenceId: string, observedAt: string, freshUntil: string, revision: string)

  predicate HealthzAt(locator: string, k: nat)
    requires k < |locator|
  {
    var end := k + 8;
    end <= |locator| && locator[k..end] == "/healthz"
      && (end == |locator| || locator[end] == '?' || locator[end] == '#')
  }

  predicate IsHealthz(locator: string) { exists k | 0 <= k < |locator| :: HealthzAt(locator, k) }

  /** The last observation of an evidence id, as the map keeps it. */
  function ObservationOf(observations: seq<Observation>, id: string): Option<Observation> {
    if observations == [] then None
    else
      var last := observations[|observations| - 1];
      if last.evidenceId == id then Some(last) else ObservationOf(observations[..|observations| - 1], id)
  }

  predicate Observes(now: int, entry: Entry, o: Observation) {
    && o.status == 200
    && (IsHealthz(entry.locator) ==> o.healthzOk)
    && IsIso(o.observedAt)
    && Parse(o.observedAt).Some? && Parse(o.observedAt).value <= now
  }

  /** The entry has an observation that counts. */
  predicate Observed(now: int, observations: seq<Observation>, entry: Entry) {
    var o := ObservationOf(observations, entry.evidenceId);
    o.Some? && Observes(now, entry, o.value)
  }

  function StampOf(observations: seq<Observation>, id: string): Option<string> {
    var o := ObservationOf(observations, id);
    if o.Some? then Some(o.value.observedAt) else None
  }

  /** The change follows from the entry's observation: fresh for exactly the window from it. */
  predicate Follows(
    write: Writer, now: int, window: int, revision: string, observations: seq<Observation>, entry: Entry, c: Change)
  {
    var o := ObservationOf(observations, entry.evidenceId);
    && o.Some? && Observes(now, entry, o.value)
    && c == Change(entry.evidenceId, o.value.observedAt, write(Parse(o.value.observedAt).value + window), revision)
  }

  /** Every entry has an observation that counts, and no two share a stamp. */
  predicate Derivable(now: int, observations: seq<Observation>, entries: seq<Entry>) {
    && (forall k | 0 <= k < |entries| :: Observed(now, observations, entries[k]))
    && forall i, j | 0 <= i < j < |entries| ::
      StampOf(observations, entries[i].evidenceId) != StampOf(observations, entries[j].evidenceId)
  }

  /** Checks every observation; none may be in the future or share its stamp with another. */
  method DeriveChanges(
    write: Writer, now: int, window: int, revision: string, observations: seq<Observation>, entries: seq<Entry>)
    returns (changes: Option<seq<Change>>)
    ensures changes.Some? ==> |changes.value| == |entries|
    ensures changes.Some? ==> forall k | 0 <= k < |entries| ::
      Follows(write, now, window, revision, observations, entries[k], changes.value[k])
    ensures changes.Some? ==>
      forall i, j | 0 <= i < j < |entries| :: changes.value[i].observedAt != changes.value[j].observedAt
    ensures changes.Some? <==> Derivable(now, observations, entries)
  {
    hide Observes, ObservationOf;
    var seen: set<string> := {};
    var derived: seq<Change> := [];
    while |derived| < |entries|
      invariant |derived| <= |entries|
      invariant forall k | 0 <= k < |derived| ::
        Follows(write, now, window, revision, observations, entries[k], derived[k])
      invariant forall i, j | 0 <= i < j < |derived| :: derived[i].observedAt != derived[j].observedAt
      invariant forall stamp :: stamp in seen <==> exists k | 0 <= k < |derived| :: derived[k].observedAt == stamp
    {
      var entry := entries[|derived|];
      var o := ObservationOf(observations, entry.evidenceId);
      if o.None? || !Observes(now, entry, o.value) {
        assert !Observed(now, observations, entries[|derived|]);
        return None;
      }
      if o.value.observedAt in seen {
        var k :| 0 <= k < |derived| && derived[k].observedAt == o.value.observedAt;
        assert StampOf(observations, entries[k].evidenceId) == StampOf(observations, entry.evidenceId);
        return None;
      }
      ObservedParses(now, entry, o.value);
      seen := seen + {o.value.observedAt};
      var freshUntil := write(Parse(o.value.observedAt).value + window);
      derived := derived + [Change(entry.evidenceId, o.value.observedAt, freshUntil, revision)];
    }
    changes := Some(derived);
  }

  lemma ObservedParses(now: int, entry: Entry, o: Observation)
    requires Observes(now, entry, o)
    ensures Parse(o.observedAt).Some?
  {
  }

  // ---------- Editing ----------

  /** The three edits of one live line. */
  function EditLine(line: Line, c: Change): Option<Line> {
    match ReplaceFieldValue(line, OBSERVED_AT, c.observedAt)
    case None => None
    case Some(observed) =>
      match ReplaceFieldValue(observed, FRESH_UNTIL, c.freshUntil)
      case None => None
      case Some(renewed) => ReplaceFieldValue(renewed, REVISION, c.revision)
  }

  /** Part `k` is the observation time, freshness or revision of the line. */
  predicate IsEdited(line: Line, k: nat) {
    exists key | key in EDITED_KEYS :: k == FindKey(line, key) + 2
  }

  /** `edited` is `line` but for those three values. */
  predicate OnlyEdited(line: Line, edited: Line) {
    && |edited| == |line|
    && forall k | 0 <= k < |line| :: edited[k] == line[k] || (IsEdited(line, k) && Inert(edited[k]))
  }

  predicate Carries(line: Line, c: Change) {
    && FieldValue(line, OBSERVED_AT) == Some(c.observedAt)
    && FieldValue(line, FRESH_UNTIL) == Some(c.freshUntil)
    && FieldValue(line, REVISION) == Some(c.revision)
  }

  predicate InertChange(c: Change) { Inert(c.observedAt) && Inert(c.freshUntil) && Inert(c.revision) }

  /** An edit moves no key. */
  lemma EditKeepsPlaces(line: Line, edited: Line, key: string, j: nat)
    requires Untangled(line) && OnlyEdited(line, edited) && key in KEYS
    ensures KeyAt(edited, key, j) <==> KeyAt(line, key, j)
  {
    hide Separator, FindKey;
    KeysDiffer();
    if 1 <= j && j + 3 < |line| {
      if edited[j] != line[j] {
        var a :| a in EDITED_KEYS && j == FindKey(line, a) + 2;
        assert KeyAt(line, a, j - 2);
      }
      if edited[j + 1] != line[j + 1] {
        var a :| a in EDITED_KEYS && j + 1 == FindKey(line, a) + 2;
        assert Separator(line[j]);
      }
    }
  }

  lemma EditKeepsKeys(line: Line, edited: Line)
    requires Untangled(line) && OnlyEdited(line, edited)
    ensures Untangled(edited)
    ensures forall key | key in KEYS :: FindKey(edited, key) == FindKey(line, key)
    ensures forall k :: IsEdited(edited, k) <==> IsEdited(line, k)
  {
    hide KeyAt;
    forall key, j | key in KEYS && 0 <= j ensures KeyAt(edited, key, j) <==> KeyAt(line, key, j) {
      EditKeepsPlaces(line, edited, key, j);
    }
  }

  lemma OnlyEditedTwice(line: Line, edited: Line, again: Line)
    requires Untangled(line) && OnlyEdited(line, edited) && OnlyEdited(edited, again)
    ensures OnlyEdited(line, again)
  {
    hide Inert, IsEdited, Untangled;
    EditKeepsKeys(line, edited);
  }

  /** One replacement is an edit, and leaves the values of the other keys. */
  lemma ReplacementEdits(line: Line, key: string, value: string)
    requires Untangled(line) && key in EDITED_KEYS && Inert(value) && FieldValue(line, key).Some?
    ensures var r := ReplaceFieldValue(line, key, value).value;
      && OnlyEdited(line, r)
      && forall other | other in EDITED_KEYS && other != key :: FieldValue(r, other) == FieldValue(line, other)
  {
    hide Untangled, Inert, Separator;
    var r, k := ReplaceFieldValue(line, key, value).value, FindKey(line, key);
    assert IsEdited(line, k + 2);
    EditKeepsKeys(line, r);
    hide FindKey, ReplaceFieldValue, EDITED_KEYS, KEYS;
    forall other | other in EDITED_KEYS && other != key ensures FieldValue(r, other) == FieldValue(line, other) {
      OtherPlace(line, key, other);
      EditedKeysAreKeys(other);
    }
  }

  lemma OtherPlace(line: Line, key: string, other: string)
    requires other != key
    ensures FindKey(line, key) < |line| ==> FindKey(line, other) != FindKey(line, key)
  {
    hide FindKey, Separator;
  }

  lemma EditedKeysAreKeys(key: string)
    requires key in EDITED_KEYS
    ensures key in KEYS
  {
  }

  /** Editing a line changes only the three values, and they come out as the change says. */
  lemma EditLineIsExact(line: Line, c: Change)
    requires Untangled(line) && InertChange(c)
    ensures EditLine(line, c).Some? <==> HasValues(line)
    ensures EditLine(line, c).Some? ==> OnlyEdited(line, EditLine(line, c).value) && Carries(EditLine(line, c).value, c)
  {
    KeysDiffer();
    hide FindKey, ReplaceFieldValue, FieldValue, OnlyEdited, Inert, Untangled;
    var observed := ReplaceFieldValue(line, OBSERVED_AT, c.observedAt);
    if observed.Some? {
      ReplacementEdits(line, OBSERVED_AT, c.observedAt);
      EditKeepsKeys(line, observed.value);
      var renewed := ReplaceFieldValue(observed.value, FRESH_UNTIL, c.freshUntil);
      if renewed.Some? {
        ReplacementEdits(observed.value, FRESH_UNTIL, c.freshUntil);
        OnlyEditedTwice(line, observed.value, renewed.value);
        EditKeepsKeys(line, renewed.value);
        var revised := ReplaceFieldValue(renewed.value, REVISION, c.revision);
        if revised.Some? {
          ReplacementEdits(renewed.value, REVISION, c.revision);
          OnlyEditedTwice(line, renewed.value, revised.value);
        }
      }
    }
  }

  /** The line has the three values. */
  predicate HasValues(line: Line) {
    FieldValue(line, OBSERVED_AT).Some? && FieldValue(line, FRESH_UNTIL).Some? && FieldValue(line, REVISION).Some?
  }

  lemma EditNeedsValues(line: Line, edited: Line, c: Change)
    requires Untangled(line) && OnlyEdited(line, edited) && InertChange(c)
    ensures Untangled(edited) && (EditLine(edited, c).Some? <==> HasValues(line))
  {
    hide FindKey, EditLine, OnlyEdited, Untangled, InertChange;
    EditKeepsKeys(line, edited);
    EditLineIsExact(edited, c);
    EditedLength(line, edited);
  }

  lemma EditedLength(line: Line, edited: Line)
    requires OnlyEdited(line, edited)
    ensures |line| == |edited|
  {
  }

  /** Lines with no live entry are as they were; the others have only their three values edited. */
  ghost predicate LinesEdited(lines: Lines, entries: seq<Entry>, edited: Lines) {
    && |edited| == |lines|
    && forall i | 0 <= i < |lines| ::
      && OnlyEdited(lines[i], edited[i])
      && ((forall k | 0 <= k < |entries| :: entries[k].lineIndex != i) ==> edited[i] == lines[i])
  }

  predicate DistinctLines(entries: seq<Entry>) {
    forall i, j | 0 <= i < j < |entries| :: entries[i].lineIndex != entries[j].lineIndex
  }

  lemma UneditedIsEdited(line: Line)
    ensures OnlyEdited(line, line)
  {
  }

  predicate OnLines(lines: Lines, entries: seq<Entry>) {
    forall k | 0 <= k < |entries| :: entries[k].lineIndex < |lines|
  }

  function EditAt(lines: Lines, at: nat, c: Change): (edited: Option<Lines>)
    requires at < |lines|
    ensures edited.Some? ==> |edited.value| == |lines|
  {
    match EditLine(lines[at], c)
    case None => None
    case Some(line) => Some(lines[at := line])
  }

  /** The lines after the first `k` changes. */
  function EditTo(lines: Lines, entries: seq<Entry>, changes: seq<Change>, k: nat): (edited: Option<Lines>)
    requires k <= |entries| == |changes| && OnLines(lines, entries)
    ensures edited.Some? ==> |edited.value| == |lines|
  {
    if k == 0 then Some(lines)
    else
      match EditTo(lines, entries, changes, k - 1)
      case None => None
      case Some(edited) => EditAt(edited, entries[k - 1].lineIndex, changes[k - 1])
  }

  lemma EditStep(lines: Lines, entries: seq<Entry>, changes: seq<Change>, k: nat, edited: Lines)
    requires k < |entries| == |changes| && OnLines(lines, entries)
    requires EditTo(lines, entries, changes, k) == Some(edited)
    ensures entries[k].lineIndex < |edited| == |lines|
    ensures EditTo(lines, entries, changes, k + 1) == EditAt(edited, entries[k].lineIndex, changes[k])
  {
    hide EditAt;
  }

  /** Stopping early is stopping. */
  lemma {:induction false} EditStops(lines: Lines, entries: seq<Entry>, changes: seq<Change>, k: nat, n: nat)
    requires k <= n <= |entries| == |changes| && OnLines(lines, entries)
    requires EditTo(lines, entries, changes, k).None?
    ensures EditTo(lines, entries, changes, n).None?
    decreases n
  {
    hide EditAt;
    if k < n {
      EditStops(lines, entries, changes, k, n - 1);
    }
  }

  predicate LastOnLine(entries: seq<Entry>, k: nat)
    requires k < |entries|
  {
    forall l | k < l < |entries| :: entries[l].lineIndex != entries[k].lineIndex
  }

  /** After `k` changes: only values edited, and each line carries the last of them that is on it. */
  ghost predicate EditedSoFar(lines: Lines, entries: seq<Entry>, changes: seq<Change>, k: nat, edited: Lines)
    requires k <= |entries| == |changes|
  {
    && |edited| == |lines|
    && (forall i | 0 <= i < |lines| :: OnlyEdited(lines[i], edited[i]))
    && (forall i | 0 <= i < |lines| && (forall j | 0 <= j < k :: entries[j].lineIndex != i) :: edited[i] == lines[i])
    && forall j | 0 <= j < k && LastOnLine(entries[..k], j) ::
         entries[j].lineIndex < |edited| && Carries(edited[entries[j].lineIndex], changes[j])
  }

  lemma OneMoreEdit(lines: Lines, entries: seq<Entry>, changes: seq<Change>, k: nat, edited: Lines, line: Line)
    requires k < |entries| == |changes| && entries[k].lineIndex < |lines|
    requires EditedSoFar(lines, entries, changes, k, edited)
    requires OnlyEdited(lines[entries[k].lineIndex], line) && Carries(line, changes[k])
    ensures EditedSoFar(lines, entries, changes, k + 1, edited[entries[k].lineIndex := line])
  {
    hide OnlyEdited, Carries;
    var at, now := entries[k].lineIndex, edited[entries[k].lineIndex := line];
    forall j | 0 <= j < k + 1 && LastOnLine(entries[..k + 1], j)
      ensures entries[j].lineIndex < |now| && Carries(now[entries[j].lineIndex], changes[j])
    {
      if j < k {
        assert entries[..k + 1][k] == entries[k] && entries[..k + 1][j] == entries[j];
        assert entries[j].lineIndex != at;
        assert forall l | j < l < k :: entries[..k][l] == entries[..k + 1][l];
        assert LastOnLine(entries[..k], j);
      }
    }
  }

  lemma {:induction false} EditToFacts(lines: Lines, entries: seq<Entry>, changes: seq<Change>, k: nat)
    requires k <= |entries| == |changes| && OnLines(lines, entries)
    requires AllUntangled(lines)
    requires forall i | 0 <= i < |changes| :: InertChange(changes[i])
    ensures EditTo(lines, entries, changes, k).Some? <==>
      forall j | 0 <= j < k :: HasValues(lines[entries[j].lineIndex])
    ensures EditTo(lines, entries, changes, k).Some? ==>
      EditedSoFar(lines, entries, changes, k, EditTo(lines, entries, changes, k).value)
  {
    hide HasValues, Untangled, InertChange, EditLine, OnlyEdited, Carries, EditTo, EditedSoFar;
    if k == 0 {
      NothingEdited(lines, entries, changes);
    } else {
      EditToFacts(lines, entries, changes, k - 1);
      var before := EditTo(lines, entries, changes, k - 1);
      if before.None? {
        EditStops(lines, entries, changes, k - 1, k);
      } else {
        var at := entries[k - 1].lineIndex;
        EditStep(lines, entries, changes, k - 1, before.value);
        EditedLine(lines, entries, changes, k - 1, before.value, at);
        EditNeedsValues(lines[at], before.value[at], changes[k - 1]);
        EditLineIsExact(before.value[at], changes[k - 1]);
        var line := EditLine(before.value[at], changes[k - 1]);
        if line.Some? {
          OnlyEditedTwice(lines[at], before.value[at], line.value);
          OneMoreEdit(lines, entries, changes, k - 1, before.value, line.value);
        }
      }
    }
  }

  lemma NothingEdited(lines: Lines, entries: seq<Entry>, changes: seq<Change>)
    requires |entries| == |changes| && OnLines(lines, entries)
    ensures EditTo(lines, entries, changes, 0) == Some(lines) && EditedSoFar(lines, entries, changes, 0, lines)
  {
    hide OnlyEdited;
    forall i | 0 <= i < |lines| ensures OnlyEdited(lines[i], lines[i]) {
      UneditedIsEdited(lines[i]);
    }
  }

  lemma EditedLine(lines: Lines, entries: seq<Entry>, changes: seq<Change>, k: nat, edited: Lines, i: nat)
    requires k <= |entries| == |changes| && EditedSoFar(lines, entries, changes, k, edited) && i < |lines|
    ensures |edited| == |lines| && OnlyEdited(lines[i], edited[i])
  {
    hide OnlyEdited;
  }

  /** Applies the changes to the lines of their entries, one after the other. */
  method ApplyChanges(lines: Lines, entries: seq<Entry>, changes: seq<Change>) returns (edited: Option<Lines>)
    requires |changes| == |entries| && OnLines(lines, entries)
    ensures edited == EditTo(lines, entries, changes, |entries|)
  {
    NoneEdited(lines, entries, changes);
    hide *;
    edited := Some(lines);
    var k := 0;
    while k < |changes| && edited.Some?
      invariant k <= |changes|
      invariant edited == EditTo(lines, entries, changes, k)
    {
      EditStep(lines, entries, changes, k, edited.value);
      edited := EditAt(edited.value, entries[k].lineIndex, changes[k]);
      k := k + 1;
    }
    if edited.None? {
      EditStops(lines, entries, changes, k, |entries|);
    }
  }

  lemma NoneEdited(lines: Lines, entries: seq<Entry>, changes: seq<Change>)
    requires |changes| == |entries| && OnLines(lines, entries)
    ensures EditTo(lines, entries, changes, 0) == Some(lines)
  {
  }

  predicate AllHaveValues(lines: Lines, entries: seq<Entry>)
    requires OnLines(lines, entries)
  {
    forall k | 0 <= k < |entries| :: HasValues(lines[entries[k].lineIndex])
  }

  /** Nothing but values of live entries is edited, and the last entry on a line has its change there. */
  ghost predicate AreApplied(lines: Lines, entries: seq<Entry>, changes: seq<Change>, edited: Lines)
    requires |entries| == |changes| && OnLines(lines, entries)
  {
    && LinesEdited(lines, entries, edited)
    && forall k | 0 <= k < |entries| && LastOnLine(entries, k) :: Carries(edited[entries[k].lineIndex], changes[k])
  }

  /** The changes can be applied exactly when every live line has the three values. Then nothing else changes,
      and every entry's line carries the change of the last entry on that line. */
  lemma ChangesAreApplied(lines: Lines, entries: seq<Entry>, changes: seq<Change>)
    requires |changes| == |entries| && OnLines(lines, entries)
    requires AllUntangled(lines)
    requires forall k | 0 <= k < |changes| :: InertChange(changes[k])
    ensures EditTo(lines, entries, changes, |entries|).Some? <==> AllHaveValues(lines, entries)
    ensures EditTo(lines, entries, changes, |entries|).Some? ==>
      AreApplied(lines, entries, changes, EditTo(lines, entries, changes, |entries|).value)
  {
    hide HasValues, Untangled, InertChange, EditTo, EditedSoFar, AreApplied;
    EditToFacts(lines, entries, changes, |entries|);
    if EditTo(lines, entries, changes, |entries|).Some? {
      SoFarIsAll(lines, entries, changes, EditTo(lines, entries, changes, |entries|).value);
    }
  }

  lemma SoFarIsAll(lines: Lines, entries: seq<Entry>, changes: seq<Change>, edited: Lines)
    requires |entries| == |changes| && OnLines(lines, entries)
    requires EditedSoFar(lines, entries, changes, |entries|, edited)
    ensures AreApplied(lines, entries, changes, edited)
  {
    hide OnlyEdited, Carries;
    assert entries[..|entries|] == entries;
  }

  // ---------- The audited revision ----------

  /** A full revision is the value at place `k`. */
  predicate AuditedAt(line: Line, k: nat) { KeyAt(line, AUDITED_REVISION, k) && Texts.IsSha(line[k + 2]) }

  function FindAuditedFrom(line: Line, i: nat): (k: nat)
    requires i <= |line| && forall j | 0 <= j < i :: !AuditedAt(line, j)
    ensures i <= k <= |line| && (k < |line| ==> k + 3 < |line| && AuditedAt(line, k))
    ensures forall j | 0 <= j < k :: !AuditedAt(line, j)
    decreases |line| - i
  {
    if i == |line| || AuditedAt(line, i) then i else FindAuditedFrom(line, i + 1)
  }

  /** The first audited revision on the line, or the number of its parts. */
  function FindAudited(line: Line): (k: nat)
    ensures k <= |line| && (k < |line| ==> k + 3 < |line| && AuditedAt(line, k))
    ensures forall j | 0 <= j < k :: !AuditedAt(line, j)
  {
    FindAuditedFrom(line, 0)
  }

  /** The first line with an audited revision, or the number of lines. */
  function AuditedLine(lines: Lines): (i: nat)
    ensures i <= |lines| && (i < |lines| ==> FindAudited(lines[i]) < |lines[i]|)
    ensures forall j | 0 <= j < i :: FindAudited(lines[j]) == |lines[j]|
  {
    if lines == [] || FindAudited(lines[0]) < |lines[0]| then 0 else 1 + AuditedLine(lines[1..])
  }

  /** Replaces the first audited revision of the text. */
  function ReplaceAudited(lines: Lines, revision: string): Lines {
    var i := AuditedLine(lines);
    if i == |lines| then lines
    else
      var k := FindAudited(lines[i]);
      lines[i := lines[i][k + 2 := revision]]
  }

  lemma EditKeepsAudited(line: Line, edited: Line)
    requires Untangled(line) && OnlyEdited(line, edited)
    ensures FindAudited(edited) == FindAudited(line)
  {
    hide Untangled, Separator, Inert, FindAudited, FindKey;
    KeysDiffer();
    forall k | 0 <= k < |line| ensures AuditedAt(edited, k) <==> AuditedAt(line, k) {
      EditKeepsPlaces(line, edited, AUDITED_REVISION, k);
      assert forall a | a in EDITED_KEYS && FindKey(line, a) < |line| :: line[FindKey(line, a)] == a;
    }
  }

  lemma EditKeepsAuditedLine(lines: Lines, entries: seq<Entry>, edited: Lines)
    requires LinesEdited(lines, entries, edited) && AllUntangled(lines)
    ensures AuditedLine(edited) == AuditedLine(lines)
  {
    hide OnlyEdited, FindAudited, Untangled;
    forall i | 0 <= i < |lines| ensures FindAudited(edited[i]) == FindAudited(lines[i]) && |edited[i]| == |lines[i]| {
      EditKeepsAudited(lines[i], edited[i]);
      EditedLength(lines[i], edited[i]);
    }
    var a, b := AuditedLine(edited), AuditedLine(lines);
    assert a < |lines| ==> FindAudited(lines[a]) < |lines[a]|;
    assert b < |lines| ==> FindAudited(edited[b]) < |edited[b]|;
  }

  /** Position `(i, k)` holds a value the refresh may change: the first audited revision of the
      text, or one of the three values on the line of a live entry. */
  ghost predicate MayChange(lines: Lines, entries: seq<Entry>, i: nat, k: nat)
    requires i < |lines| && k < |lines[i]|
  {
    || (i == AuditedLine(lines) && k == FindAudited(lines[i]) + 2)
    || (IsEdited(lines[i], k) && exists e | 0 <= e < |entries| :: entries[e].lineIndex == i)
  }

  /** The row is line `i` but for those values. */
  ghost predicate RowOnlyValuesChanged(lines: Lines, entries: seq<Entry>, i: nat, row: Line)
    requires i < |lines|
  {
    && |row| == |lines[i]|
    && forall k | 0 <= k < |lines[i]| && !MayChange(lines, entries, i, k) :: row[k] == lines[i][k]
  }

  /** The same text, but for those values. */
  ghost predicate OnlyValuesChanged(lines: Lines, entries: seq<Entry>, text: Lines) {
    |text| == |lines| && forall i | 0 <= i < |lines| :: RowOnlyValuesChanged(lines, entries, i, text[i])
  }

  lemma ReplacedAuditedRows(lines: Lines, revision: string)
    ensures var text, at := ReplaceAudited(lines, revision), AuditedLine(lines);
      && |text| == |lines|
      && (forall i | 0 <= i < |lines| && i != at :: text[i] == lines[i])
      && (at < |lines| ==> |text[at]| == |lines[at]| && text[at][FindAudited(lines[at]) + 2] == revision)
      && (at < |lines| ==>
            forall k | 0 <= k < |lines[at]| && k != FindAudited(lines[at]) + 2 :: text[at][k] == lines[at][k])
  {
  }

  lemma UneditedParts(line: Line, edited: Line)
    requires OnlyEdited(line, edited)
    ensures |edited| == |line| && forall k | 0 <= k < |line| && !IsEdited(line, k) :: edited[k] == line[k]
  {
    hide IsEdited;
  }

  /** One line of the refreshed text, given how it was edited and where the audited revision is. */
  lemma RowOnlyChanged(lines: Lines, entries: seq<Entry>, edited: Lines, revision: string, i: nat)
    requires LinesEdited(lines, entries, edited) && i < |lines| && AllUntangled(lines)
    ensures |ReplaceAudited(edited, revision)| == |lines|
    ensures RowOnlyValuesChanged(lines, entries, i, ReplaceAudited(edited, revision)[i])
  {
    hide IsEdited, OnlyEdited, ReplaceAudited, AuditedLine, FindAudited, Untangled;
    EditKeepsAuditedLine(lines, entries, edited);
    ReplacedAuditedRows(edited, revision);
    assert OnlyEdited(lines[i], edited[i]);
    EditKeepsAudited(lines[i], edited[i]);
    UneditedParts(lines[i], edited[i]);
  }

  lemma AuditedReplacedOnly(lines: Lines, entries: seq<Entry>, edited: Lines, revision: string)
    requires LinesEdited(lines, entries, edited) && AllUntangled(lines)
    ensures OnlyValuesChanged(lines, entries, ReplaceAudited(edited, revision))
    ensures AuditedLine(lines) < |lines| ==> AuditedIs(lines, ReplaceAudited(edited, revision), revision)
  {
    hide RowOnlyValuesChanged, OnlyEdited, Untangled, ReplaceAudited, AuditedLine, FindAudited;
    EditKeepsAuditedLine(lines, entries, edited);
    ReplacedAuditedRows(edited, revision);
    forall i | 0 <= i < |lines| ensures RowOnlyValuesChanged(lines, entries, i, ReplaceAudited(edited, revision)[i]) {
      RowOnlyChanged(lines, entries, edited, revision, i);
    }
    AuditedReplaced(lines, entries, edited, revision);
  }

  lemma ReplacedAuditedAt(lines: Lines, revision: string)
    requires AuditedLine(lines) < |lines|
    ensures AuditedIs(lines, ReplaceAudited(lines, revision), revision)
  {
    hide AuditedAt, FindAudited, AuditedLine;
  }

  lemma AuditedReplaced(lines: Lines, entries: seq<Entry>, edited: Lines, revision: string)
    requires LinesEdited(lines, entries, edited) && AllUntangled(lines)
    ensures AuditedLine(lines) < |lines| ==> AuditedIs(lines, ReplaceAudited(edited, revision), revision)
  {
    hide OnlyEdited, ReplaceAudited, AuditedLine, FindAudited, Untangled, AuditedAt;
    EditKeepsAuditedLine(lines, entries, edited);
    var i := AuditedLine(lines);
    if i < |lines| {
      ReplacedAuditedAt(edited, revision);
      EditKeepsAudited(lines[i], edited[i]);
    }
  }

  lemma ShaIsInert(s: string)
    requires Texts.IsSha(s)
    ensures Inert(s)
  {
  }

  /** Replacing a full revision by another moves no key and no value of the others. */
  lemma AuditedKeepsField(line: Line, k: nat, revision: string, key: string)
    requires AuditedAt(line, k) && Texts.IsSha(revision) && key in EDITED_KEYS
    ensures FieldValue(line[k + 2 := revision], key) == FieldValue(line, key)
  {
    KeysDiffer();
    ShaIsInert(line[k + 2]);
    ShaIsInert(revision);
    hide Separator, Texts.IsSha;
    var changed := line[k + 2 := revision];
    forall j | 0 <= j < |line| ensures KeyAt(changed, key, j) <==> KeyAt(line, key, j) {
      assert j == k + 1 ==> Separator(line[j]);
    }
    assert FindKey(line, key) != k || k == |line|;
  }

  /** Replacing the audited revision does not touch the three values of a line. */
  lemma AuditedKeepsCarried(lines: Lines, revision: string, i: nat, c: Change)
    requires i < |lines| && Carries(lines[i], c) && Texts.IsSha(revision)
    ensures |ReplaceAudited(lines, revision)| == |lines| && Carries(ReplaceAudited(lines, revision)[i], c)
  {
    hide FieldValue, AuditedAt, Texts.IsSha, FindAudited;
    if i == AuditedLine(lines) {
      var k := FindAudited(lines[i]);
      AuditedKeepsField(lines[i], k, revision, OBSERVED_AT);
      AuditedKeepsField(lines[i], k, revision, FRESH_UNTIL);
      AuditedKeepsField(lines[i], k, revision, REVISION);
    }
  }

  // ---------- The refresh ----------

  datatype Ancestry = Ancestor | NotAncestor | Undetermined

  /** The registry text with what parsing it gives, and everything observed. */
  datatype Input = Input(
    lines: Lines, auditedRevision: string, liveIds: seq<string>,
    deployedRevision: string, versionBefore: string, versionAfter: string,
    deployedIsAncestorOfMain: Ancestry, auditedIsAncestorOfDeployed: Ancestry,
    surfaceStale: bool, observations: seq<Observation>, now: int, window: int)

  predicate RevisionsAllow(input: Input) {
    && Texts.IsSha(input.auditedRevision) && Texts.IsSha(input.deployedRevision)
    && input.versionBefore == input.versionAfter == input.deployedRevision
    && input.deployedIsAncestorOfMain == Ancestor
    && (input.deployedRevision != input.auditedRevision ==> input.auditedIsAncestorOfDeployed == Ancestor)
    && !input.surfaceStale
  }

  function Ids(observations: seq<Observation>): (r: seq<string>)
    ensures |r| == |observations| && forall k | 0 <= k < |r| :: r[k] == observations[k].evidenceId
  {
    seq(|observations|, k requires 0 <= k < |observations| => observations[k].evidenceId)
  }

  /** The text has the revision where the lines have their first audited revision. */
  ghost predicate AuditedIs(lines: Lines, text: Lines, revision: string) {
    var i := AuditedLine(lines);
    i < |lines| && i < |text| && FindAudited(lines[i]) + 2 < |text[i]| && text[i][FindAudited(lines[i]) + 2] == revision
  }

  /** The edited lines with the audited revision replaced. */
  function ProducedText(input: Input, entries: seq<Entry>, changes: seq<Change>): Option<Lines>
    requires |entries| == |changes| && OnLines(input.lines, entries)
  {
    match EditTo(input.lines, entries, changes, |entries|)
    case None => None
    case Some(edited) => Some(ReplaceAudited(edited, input.deployedRevision))
  }

  /** What a refreshed text is: only the audited revision and the live values changed, each live
      entry that is the last on its line carries its own observation, and no two entries share a stamp. */
  ghost predicate Refreshed(write: Writer, input: Input, entries: seq<Entry>, changes: seq<Change>, text: Lines) {
    && RevisionsAllow(input) && multiset(Ids(input.observations)) == multiset(input.liveIds)
    && |entries| == |changes| == |input.liveIds|
    && (forall k | 0 <= k < |entries| ::
      entries[k].evidenceId == input.liveIds[k] && IsOnlyLine(input.lines, entries[k]))
    && (forall k | 0 <= k < |entries| ::
          Follows(write, input.now, input.window, input.deployedRevision, input.observations, entries[k], changes[k]))
    && (forall i, j | 0 <= i < j < |entries| :: changes[i].observedAt != changes[j].observedAt)
    && ProducedText(input, entries, changes) == Some(text)
    && OnlyValuesChanged(input.lines, entries, text)
    && AllHaveValues(input.lines, entries)
    && AuditedIs(input.lines, text, input.deployedRevision)
    && (forall k | 0 <= k < |entries| && LastOnLine(entries, k) :: Carries(text[entries[k].lineIndex], changes[k]))
  }

  /** A refresh of the input, for some live entries and their changes. */
  ghost predicate IsRefresh(write: Writer, input: Input, text: Lines) {
    exists entries, changes :: Refreshed(write, input, entries, changes, text)
  }

  /** Everything the refresh asks for, before it judges the text it would produce. */
  ghost predicate Refreshable(input: Input) {
    && RevisionsAllow(input) && multiset(Ids(input.observations)) == multiset(input.liveIds)
    && AuditedLine(input.lines) < |input.lines|
    && (forall k | 0 <= k < |input.liveIds| :: HasOnlyLine(input.lines, input.liveIds[k]))
    && (forall e: Entry | e.evidenceId in input.liveIds && IsOnlyLine(input.lines, e) ::
          HasValues(input.lines[e.lineIndex]) && Observed(input.now, input.observations, e))
    && (forall i, j | 0 <= i < j < |input.liveIds| ::
          StampOf(input.observations, input.liveIds[i]) != StampOf(input.observations, input.liveIds[j]))
  }

  /** The checks passed on the way are all there is to ask for. */
  lemma WasRefreshable(input: Input, entries: seq<Entry>)
    requires RevisionsAllow(input) && multiset(Ids(input.observations)) == multiset(input.liveIds)
    requires AuditedLine(input.lines) < |input.lines| && |entries| == |input.liveIds|
    requires forall k | 0 <= k < |entries| ::
      entries[k].evidenceId == input.liveIds[k] && IsOnlyLine(input.lines, entries[k])
    requires OnLines(input.lines, entries)
    requires Derivable(input.now, input.observations, entries)
    requires AllHaveValues(input.lines, entries)
    ensures Refreshable(input)
  {
    hide RevisionsAllow, HasValues, Observed, IsLiveEntry, FieldValue, StampOf;
    forall e: Entry | e.evidenceId in input.liveIds && IsOnlyLine(input.lines, e) ensures e in entries {
      var k :| 0 <= k < |input.liveIds| && input.liveIds[k] == e.evidenceId;
      assert IsOnlyLine(input.lines, entries[k]);
      assert entries[k].lineIndex == e.lineIndex;
    }
  }

  /** The text produced once the checks are passed is a refreshed text. */
  lemma ProducedIsRefreshed(
    write: Writer, input: Input, entries: seq<Entry>, changes: seq<Change>, text: Lines)
    requires WritesValues(write) && AllUntangled(input.lines)
    requires RevisionsAllow(input) && multiset(Ids(input.observations)) == multiset(input.liveIds)
    requires |entries| == |changes| == |input.liveIds| && AuditedLine(input.lines) < |input.lines|
    requires forall k | 0 <= k < |entries| ::
      entries[k].evidenceId == input.liveIds[k] && IsOnlyLine(input.lines, entries[k])
    requires forall k | 0 <= k < |entries| ::
      Follows(write, input.now, input.window, input.deployedRevision, input.observations, entries[k], changes[k])
    requires forall i, j | 0 <= i < j < |entries| :: changes[i].observedAt != changes[j].observedAt
    requires OnLines(input.lines, entries) && ProducedText(input, entries, changes) == Some(text)
    ensures AllHaveValues(input.lines, entries) && Refreshed(write, input, entries, changes, text)
  {
    hide HasValues, IsOnlyLine, Follows, Carries, LinesEdited, OnlyValuesChanged, RevisionsAllow, ReplaceAudited,
         FieldValue, EditTo, Untangled;
    forall k | 0 <= k < |entries| ensures InertChange(changes[k]) {
      FollowsIsInert(write, input, entries[k], changes[k]);
    }
    ChangesAreApplied(input.lines, entries, changes);
    var edited := EditTo(input.lines, entries, changes, |entries|).value;
    RevisionIsSha(input);
    AuditedReplacedOnly(input.lines, entries, edited, input.deployedRevision);
    ReplacedAuditedRows(edited, input.deployedRevision);
    forall k | 0 <= k < |entries| && LastOnLine(entries, k)
      ensures Carries(text[entries[k].lineIndex], changes[k])
    {
      AuditedKeepsCarried(edited, input.deployedRevision, entries[k].lineIndex, changes[k]);
    }
  }

  /** The refresh up to the registry contract: it produces the refreshed text exactly when everything
      it asks for holds. */
  method ProduceText(write: Writer, input: Input) returns (text: Option<Lines>)
    requires WritesValues(write) && AllUntangled(input.lines)
    ensures text.Some? <==> Refreshable(input)
    ensures text.Some? ==> IsRefresh(write, input, text.value)
  {
    hide HasOnlyLine, HasValues, Observed, StampOf, IsOnlyLine, Follows, Carries, LinesEdited, OnlyValuesChanged,
         RevisionsAllow, ReplaceAudited, FieldValue, IsLiveEntry, EditTo, Untangled, Refreshed;
    text := None;
    if !RevisionsAllow(input) || multiset(Ids(input.observations)) != multiset(input.liveIds) {
      return;
    }
    var found := FindLiveEntryLines(input.lines, input.liveIds);
    if found.None? {
      return;
    }
    var entries := found.value;
    var derived := DeriveChanges(write, input.now, input.window, input.deployedRevision, input.observations, entries);
    if derived.None? || AuditedLine(input.lines) == |input.lines| {
      return;
    }
    var changes := derived.value;
    forall k | 0 <= k < |entries| ensures InertChange(changes[k]) {
      FollowsIsInert(write, input, entries[k], changes[k]);
    }
    ChangesAreApplied(input.lines, entries, changes);
    var edited := ApplyChanges(input.lines, entries, changes);
    if edited.None? {
      return;
    }
    var produced := ReplaceAudited(edited.value, input.deployedRevision);
    ProducedIsRefreshed(write, input, entries, changes, produced);
    WasRefreshable(input, entries);
    text := Some(produced);
  }

  /** What is refreshed was refreshable. */
  lemma RefreshedIsRefreshable(
    write: Writer, input: Input, entries: seq<Entry>, changes: seq<Change>, text: Lines)
    requires Refreshed(write, input, entries, changes, text)
    ensures Refreshable(input)
  {
    hide RevisionsAllow, HasValues, OnlyValuesChanged, Carries, AuditedLine, FieldValue, IsLiveEntry, ProducedText,
         Refreshable, LastOnLine, Observes;
    assert Derivable(input.now, input.observations, entries);
    WasRefreshable(input, entries);
  }

  lemma FollowedChange(
    write: Writer, input: Input, entry: Entry, c: Change, d: Change)
    requires Follows(write, input.now, input.window, input.deployedRevision, input.observations, entry, c)
    requires Follows(write, input.now, input.window, input.deployedRevision, input.observations, entry, d)
    ensures c == d
  {
    hide Observes;
  }

  /** There is only one refreshed text. */
  lemma RefreshIsUnique(write: Writer, input: Input, a: Lines, b: Lines)
    requires IsRefresh(write, input, a) && IsRefresh(write, input, b)
    ensures a == b
  {
    hide Follows, RevisionsAllow, HasValues, OnlyValuesChanged, Carries, AuditedLine, FieldValue, IsLiveEntry,
         ProducedText, LastOnLine, AuditedIs;
    var entries, changes :| Refreshed(write, input, entries, changes, a);
    var others, follows :| Refreshed(write, input, others, follows, b);
    forall k | 0 <= k < |entries| ensures entries[k] == others[k] && changes[k] == follows[k] {
      assert IsOnlyLine(input.lines, entries[k]) && IsOnlyLine(input.lines, others[k]);
      FollowedChange(write, input, entries[k], changes[k], follows[k]);
    }
    assert entries == others && changes == follows;
  }

  lemma FollowsIsInert(write: Writer, input: Input, entry: Entry, c: Change)
    requires WritesValues(write) && RevisionsAllow(input)
    requires Follows(write, input.now, input.window, input.deployedRevision, input.observations, entry, c)
    ensures InertChange(c) && Texts.IsSha(input.deployedRevision)
  {
    hide ObservationOf, IsHealthz, Texts.IsSha, Inert, Parse;
    ShaIsInert(input.deployedRevision);
    StampIsInert(c.observedAt);
  }

  lemma StampIsInert(stamp: string)
    requires IsIso(stamp)
    ensures Inert(stamp)
  {
    assert |OBSERVED_AT| == 10 && |FRESH_UNTIL| == 10 && |REVISION| == 8 && |AUDITED_REVISION| == 15;
  }

  lemma RevisionIsSha(input: Input)
    requires RevisionsAllow(input)
    ensures Texts.IsSha(input.deployedRevision)
  {
  }

  /** No line of the registry is live for two of the ids. */
  predicate NoSharedLine(input: Input) {
    forall i, j, l | 0 <= i < j < |input.liveIds| && 0 <= l < |input.lines| ::
      !(IsLiveEntry(input.lines[l], input.liveIds[i]) && IsLiveEntry(input.lines[l], input.liveIds[j]))
  }

  /** Every live entry carries its own observation exactly when no line is live for two ids. */
  lemma AllCarryExactly(write: Writer, input: Input, entries: seq<Entry>, changes: seq<Change>, text: Lines)
    requires Refreshed(write, input, entries, changes, text)
    ensures |text| == |input.lines|
    ensures NoSharedLine(input) <==> forall k | 0 <= k < |entries| :: Carries(text[entries[k].lineIndex], changes[k])
  {
    hide Follows, RevisionsAllow, FieldValue, MayChange, NoSharedLine;
    SharedLines(input, entries);
    if DistinctLines(entries) {
      forall k | 0 <= k < |entries| ensures LastOnLine(entries, k) {
      }
    }
    if i, j :| 0 <= i < j < |entries| && entries[i].lineIndex == entries[j].lineIndex {
      assert changes[i].observedAt != changes[j].observedAt;
    }
  }

  lemma SharedLines(input: Input, entries: seq<Entry>)
    requires |entries| == |input.liveIds|
    requires forall k | 0 <= k < |entries| ::
      entries[k].evidenceId == input.liveIds[k] && IsOnlyLine(input.lines, entries[k])
    ensures NoSharedLine(input) <==> DistinctLines(entries)
  {
    hide IsLiveEntry, FieldValue;
    forall i, j, l | 0 <= i < j < |entries| && 0 <= l < |input.lines|
      ensures (IsLiveEntry(input.lines[l], input.liveIds[i]) && IsLiveEntry(input.lines[l], input.liveIds[j]))
        <==> entries[i].lineIndex == l == entries[j].lineIndex
    {
      assert IsOnlyLine(input.lines, entries[i]) && IsOnlyLine(input.lines, entries[j]);
    }
    if DistinctLines(entries) {
    } else {
      var i, j :| 0 <= i < j < |entries| && entries[i].lineIndex == entries[j].lineIndex;
      assert IsLiveEntry(input.lines[entries[i].lineIndex], input.liveIds[i]);
    }
  }

  lemma FollowsInstant(write: Writer, input: Input, entry: Entry, c: Change)
    requires Follows(write, input.now, input.window, input.deployedRevision, input.observations, entry, c)
    ensures Parse(c.observedAt).Some? && Parse(c.observedAt).value <= input.now
    ensures c.freshUntil == write(Parse(c.observedAt).value + input.window)
  {
    hide IsHealthz, ObservationOf;
  }

  /** No instant is in the future, freshness lasts exactly the window, and two instants are distinct
      exactly when their stamps do not carry over to one normal stamp. */
  lemma InstantsAreDistinct(
    write: Writer, input: Input, entries: seq<Entry>, changes: seq<Change>, text: Lines, i: nat, j: nat)
    requires Refreshed(write, input, entries, changes, text) && i < j < |entries|
    ensures Parse(changes[i].observedAt).Some? && Parse(changes[i].observedAt).value <= input.now
    ensures changes[i].freshUntil == write(Parse(changes[i].observedAt).value + input.window)
    ensures Parse(changes[i].observedAt) != Parse(changes[j].observedAt)
      <==> !SameCarried(changes[i].observedAt, changes[j].observedAt)
    ensures NormalStamp(changes[i].observedAt) && NormalStamp(changes[j].observedAt) ==>
      Parse(changes[i].observedAt) != Parse(changes[j].observedAt)
  {
    hide Carries, OnlyValuesChanged, RevisionsAllow, IsOnlyLine, Follows, LastOnLine, Parse, SameCarried, NormalStamp,
         HasValues, ProducedText, AuditedIs;
    FollowsInstant(write, input, entries[i], changes[i]);
    FollowsInstant(write, input, entries[j], changes[j]);
    assert changes[i].observedAt != changes[j].observedAt;
    SameInstantExactly(changes[i].observedAt, changes[j].observedAt);
    if NormalStamp(changes[i].observedAt) && NormalStamp(changes[j].observedAt) {
      NormalStampsDiffer(changes[i].observedAt, changes[j].observedAt);
    }
  }
}
