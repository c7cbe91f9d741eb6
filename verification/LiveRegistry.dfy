/**
 A whole registry with two live entries, as text on lines and as the value it is read as. The two
 entries stand on lines of their own, or share one line; for both layouts it is decided what the
 refresh makes of the registry.
 */
module LiveRegistry {
  import opened Basics
  import opened QuotedText
  import opened RegistryJson
  import opened LiveContract
  import opened LiveEvidence
  import opened LiveRefresh
  import Texts

  // ---------- The registry ----------

  datatype Layout = Separate | Shared

  /** The three values of a live entry. */
  datatype Stamps = Stamps(observedAt: string, freshUntil: string, revision: string)

  const FIRST := "CLM-001-EV01"
  const SECOND := "CLM-001-EV02"
  const LIVEZ := "https://a/livez"
  const VERSION := "https://a/version"

  const HEAD: seq<Field> := [
    Field("schemaVersion", Scalar("2")), Field("website", Text("https://a")), Field("websiteStatus", Text("published"))]

  const CLAIM: seq<Field> := [
    Field(ID, Text("CLM-001")), Field("claimKind", Text("capability")),
    Field("requirementIds", List([Text("ME-GTM-001")])),
    Field("surfaces", List([Text("hero")])), Field("surfacePaths", List([Text("page")])), Field("wording", Text("a")),
    Field("owner", Text("a")), Field("evidenceOwner", Text("a")), Field("state", Text("thesis")),
    Field("scope", Text("a")), Field("limitations", List([])), Field("requiredQualifier", Scalar("null")),
    Field("lastVerifiedAt", Text("2026-01-01")), Field("expiresAt", Scalar("null"))]

  const DESTINATION: seq<Field> := [
    Field(ID, Text("DST-001")), Field("label", Text("a")), Field("href", Text("/")), Field("purpose", Text("a"))]

  const DESTINATION_CLAIM := Field("claimId", Text("CLM-001"))

  function Start(audited: string): seq<Field> { HEAD + [Field(AUDITED_REVISION, Text(audited))] }

  function EvidenceFields(id: string, locator: string, s: Stamps): seq<Field> {
    [Field(ID, Text(id)), Field(TYPE, Text(LIVE)), Field(LOCATOR, Text(locator)),
     Field(OBSERVED_AT, Text(s.observedAt)), Field(FRESH_UNTIL, Text(s.freshUntil)), Field(REVISION, Text(s.revision))]
  }

  function Evidence(a: Stamps, b: Stamps): seq<Tree> {
    [Record(EvidenceFields(FIRST, LIVEZ, a)), Record(EvidenceFields(SECOND, VERSION, b))]
  }

  function Claims(a: Stamps, b: Stamps): Tree { List([Record(CLAIM + [Field(EVIDENCE, List(Evidence(a, b)))])]) }

  const DESTINATIONS := List([Record(DESTINATION + [DESTINATION_CLAIM])])

  /** The registry at an audited revision with the values of its two live entries. */
  function Registry(audited: string, a: Stamps, b: Stamps): Tree {
    Record(Start(audited) + [Field(CLAIMS, Claims(a, b)), Field("destinations", DESTINATIONS)])
  }

  // ---------- Its text ----------

  /** A value of one line from its colon to its comma. */
  function ValueParts(value: Tree): Line {
    match value
    case Text(content) => [": ", content] + [","]
    case Scalar(word) => [": " + word + ","]
    case List(items) => if items != [] && items[0].Text? then [": [", items[0].content] + ["],"] else [": [],"]
    case Record(_) => [": {},"]
  }

  /** A field on a line of its own, with a comma. */
  function FieldLine(f: Field): Line { ["", f.key] + ValueParts(f.value) }

  function FieldLines(fields: seq<Field>): Lines {
    if fields == [] then [] else [FieldLine(fields[0])] + FieldLines(fields[1..])
  }

  /** Text fields on one line, after what stands before them. */
  function FieldParts(before: string, fields: seq<Field>): Line
    decreases |fields|
  {
    if fields == [] || !fields[0].value.Text? then []
    else [before, fields[0].key] + ([": ", fields[0].value.content] + FieldParts(", ", fields[1..]))
  }

  /** A live object without its end. */
  function LiveParts(before: string, id: string, locator: string, s: Stamps): Line {
    FieldParts(before, EvidenceFields(id, locator, s))
  }

  function LiveLines(layout: Layout, a: Stamps, b: Stamps): Lines {
    match layout
    case Separate => [LiveParts("{", FIRST, LIVEZ, a) + ["},"], LiveParts("{", SECOND, VERSION, b) + ["}"]]
    case Shared => [LiveParts("{", FIRST, LIVEZ, a) + (LiveParts("}, {", SECOND, VERSION, b) + ["}"])]
  }

  const CLAIMS_LINES: Lines := [["", CLAIMS, ": [{"]] + FieldLines(CLAIM) + [["", EVIDENCE, ": ["]]

  const LAST_LINES: Lines :=
    [["]}],"], ["", "destinations", ": [{"]] + FieldLines(DESTINATION) + [["", "claimId", ": ", "CLM-001", "}]}"]]

  /** The lines before the live entries. */
  function Above(audited: string): Lines { [["{"]] + FieldLines(Start(audited)) + CLAIMS_LINES }

  function RegistryLines(layout: Layout, audited: string, a: Stamps, b: Stamps): Lines {
    Above(audited) + LiveLines(layout, a, b) + LAST_LINES
  }

  // ---------- Tokens ----------

  lemma FirstLineTokens(line: Line, lines: Lines)
    ensures TextTokens([line] + lines) == LineTokens(line) + TextTokens(lines)
  {
    hide LineTokens;
    assert ([line] + lines)[1..] == lines;
  }

  lemma Uncons<T>(a: seq<T>, b: seq<T>)
    requires a != []
    ensures [a[0]] + a[1..] == a && [a[0]] + (a[1..] + b) == a + b
  {
  }

  lemma Grouped<T>(a: seq<T>, b: seq<T>, c: seq<T>)
    ensures a + (b + c) == a + b + c
  {
  }

  lemma {:induction false} TokensConcat(a: Lines, b: Lines)
    ensures TextTokens(a + b) == TextTokens(a) + TextTokens(b)
  {
    hide LineTokens;
    if a == [] {
      assert a + b == b && TextTokens([]) == [];
    } else {
      hide *;
      TokensConcat(a[1..], b);
      FirstLineTokens(a[0], a[1..]);
      FirstLineTokens(a[0], a[1..] + b);
      Uncons(a, b);
      Grouped(LineTokens(a[0]), TextTokens(a[1..]), TextTokens(b));
    }
  }

  lemma PairTokens(before: string, s: string, rest: Line)
    requires rest != []
    ensures LineTokens([before, s] + rest) == Marks(before) + [Str(s)] + LineTokens(rest)
  {
    hide Marks;
    assert ([before, s] + rest)[2..] == rest;
  }

  lemma FirstMark(c: char, s: string)
    ensures IsMark(c) ==> Marks([c] + s) == [Mark(c)] + Marks(s)
    ensures IsBlank(c) ==> Marks([c] + s) == Marks(s)
  {
    assert ([c] + s)[1..] == s;
  }

  lemma Punctuation()
    ensures Marks("") == [] && Marks(",") == [Mark(',')] && Marks(": ") == [Mark(':')] && Marks(", ") == [Mark(',')]
    ensures Marks("{") == [Mark('{')] && Marks("}") == [Mark('}')] && Marks("},") == [Mark('}'), Mark(',')]
  {
  }

  lemma ListPunctuation()
    ensures Marks(": [") == [Mark(':'), Mark('[')] && Marks("],") == [Mark(']'), Mark(',')]
    ensures Marks(": [],") == [Mark(':'), Mark('['), Mark(']'), Mark(',')]
  {
    FirstMark(':', " [],");
    FirstMark(' ', "[],");
    FirstMark('[', "],");
    assert ": [],"[1..] == " [],";
  }

  lemma ObjectPunctuation()
    ensures Marks("}, {") == [Mark('}'), Mark(','), Mark('{')] && Marks(": [{") == [Mark(':'), Mark('['), Mark('{')]
  {
    FirstMark('}', ", {");
    FirstMark(':', " [{");
  }

  lemma LastPunctuation()
    ensures Marks("]}],") == [Mark(']'), Mark('}'), Mark(']'), Mark(',')]
    ensures Marks("}]}") == [Mark('}'), Mark(']'), Mark('}')]
  {
    FirstMark(']', "}],");
    FirstMark('}', "]}");
  }

  /** One word, with nothing in it that ends a word. */
  predicate OneWord(word: string) { word != "" && forall k | 0 <= k < |word| :: !IsMark(word[k]) && !IsBlank(word[k]) }

  lemma {:induction false} WordEnds(word: string, rest: string)
    requires forall k | 0 <= k < |word| :: !IsMark(word[k]) && !IsBlank(word[k])
    requires rest != "" && IsMark(rest[0])
    ensures WordLength(word + rest) == |word|
  {
    if word == "" {
      assert word + rest == rest;
    } else {
      WordEnds(word[1..], rest);
      assert (word + rest)[1..] == word[1..] + rest;
    }
  }

  lemma WordMarks(word: string)
    requires OneWord(word)
    ensures Marks(": " + word + ",") == [Mark(':'), Word(word), Mark(',')]
  {
    var text := word + ",";
    WordEnds(word, ",");
    Punctuation();
    assert text[..|word|] == word && text[|word|..] == ",";
    assert Marks(text) == [Word(word), Mark(',')];
    FirstMark(' ', text);
    FirstMark(':', [' '] + text);
    assert [':'] + ([' '] + text) == ": " + word + ",";
  }

  // ---------- A field on a line ----------

  /** The fields that stand on one line. */
  predicate Simple(f: Field) {
    match f.value
    case Text(content) => true
    case Scalar(word) => OneWord(word) && IsLiteral(word)
    case List(items) => items == [] || (|items| == 1 && items[0].Text?)
    case Record(_) => false
  }

  lemma SoleTokens(part: string)
    ensures LineTokens([part]) == Marks(part)
  {
  }

  lemma FieldLineTokens(f: Field)
    requires Simple(f)
    ensures LineTokens(FieldLine(f)) == ShowField(f) + [Mark(',')]
  {
    ValueTokens(f);
    hide Marks, LineTokens, ValueParts, Simple, Show;
    Punctuation();
    PairTokens("", f.key, ValueParts(f.value));
  }

  lemma ValueTokens(f: Field)
    requires Simple(f)
    ensures ValueParts(f.value) != []
    ensures LineTokens(ValueParts(f.value)) == [Mark(':')] + Show(f.value) + [Mark(',')]
  {
    hide Marks, LineTokens, OneWord;
    Punctuation();
    ListPunctuation();
    match f.value {
      case Text(content) =>
        PairTokens(": ", content, [","]);
        SoleTokens(",");
      case Scalar(word) =>
        SoleTokens(": " + word + ",");
        WordMarks(word);
      case List(items) =>
        if items == [] {
          SoleTokens(": [],");
        } else {
          PairTokens(": [", items[0].content, ["],"]);
          SoleTokens("],");
        }
    }
  }

  predicate AllSimple(fields: seq<Field>) { forall k | 0 <= k < |fields| :: Simple(fields[k]) }

  /** The lines of the fields, before further fields. */
  lemma FirstFieldLine(f: Field, fields: seq<Field>)
    ensures FieldLines([f] + fields) == [FieldLine(f)] + FieldLines(fields)
  {
    hide FieldLine;
    assert ([f] + fields)[1..] == fields;
  }

  lemma {:induction false} FieldLinesTokens(fields: seq<Field>, more: seq<Field>)
    requires more != [] && AllSimple(fields)
    ensures TextTokens(FieldLines(fields)) + ShowFields(more) == ShowFields(fields + more)
  {
    hide Simple, FieldLine, LineTokens, ShowField, ShowFields;
    if fields == [] {
      assert fields + more == more;
    } else {
      var f, rest := fields[0], fields[1..];
      assert AllSimple(rest) && Simple(f);
      hide *;
      FieldLinesTokens(rest, more);
      FieldLineTokens(f);
      FirstFieldLine(f, rest);
      FirstLineTokens(FieldLine(f), FieldLines(rest));
      FieldsShown(f, rest + more);
      Uncons(fields, more);
      Grouped(ShowField(f) + [Mark(',')], TextTokens(FieldLines(rest)), ShowFields(more));
      Grouped(ShowField(f), [Mark(',')], ShowFields(rest + more));
    }
  }

  // ---------- Live objects ----------

  predicate AllTexts(fields: seq<Field>) { forall k | 0 <= k < |fields| :: fields[k].value.Text? }

  lemma {:induction false} FieldPartsTokens(before: string, fields: seq<Field>, rest: Line)
    requires fields != [] && rest != [] && AllTexts(fields)
    ensures LineTokens(FieldParts(before, fields) + rest) == Marks(before) + ShowFields(fields) + LineTokens(rest)
    decreases |fields|
  {
    hide Marks, LineTokens, ShowFields;
    Punctuation();
    var f, more := fields[0], fields[1..];
    var tail := FieldParts(", ", more) + rest;
    PairTokens(before, f.key, [": ", f.value.content] + tail);
    PairTokens(": ", f.value.content, tail);
    assert FieldParts(before, fields) + rest == [before, f.key] + ([": ", f.value.content] + tail);
    FieldsShown(f, more);
    assert fields == [f] + more;
    if more == [] {
      assert tail == rest;
    } else {
      FieldPartsTokens(", ", more, rest);
    }
  }

  lemma LiveTokens(before: string, id: string, locator: string, s: Stamps, rest: Line)
    requires rest != []
    ensures LineTokens(LiveParts(before, id, locator, s) + rest)
      == Marks(before) + ShowFields(EvidenceFields(id, locator, s)) + LineTokens(rest)
  {
    hide Marks, LineTokens, ShowFields, FieldParts;
    FieldPartsTokens(before, EvidenceFields(id, locator, s), rest);
  }

  lemma TwoLines(a: Line, b: Line)
    ensures TextTokens([a, b]) == LineTokens(a) + LineTokens(b) && TextTokens([a]) == LineTokens(a)
  {
    hide LineTokens;
    assert [a, b][1..] == [b] && [a][1..] == [] && [b][1..] == [] && TextTokens([]) == [];
    assert TextTokens([b]) == LineTokens(b) && TextTokens([a]) == LineTokens(a);
  }

  lemma TwoShown(a: Tree, b: Tree)
    ensures ShowItems([a, b]) == Show(a) + [Mark(',')] + Show(b)
  {
    hide Show;
    assert [a, b][1..] == [b];
  }

  lemma RecordShown(fields: seq<Field>)
    ensures Show(Record(fields)) == [Mark('{')] + ShowFields(fields) + [Mark('}')]
  {
    hide ShowFields;
  }

  /** The live entries are the same, however they stand on lines. */
  lemma LiveLinesTokens(layout: Layout, a: Stamps, b: Stamps)
    ensures TextTokens(LiveLines(layout, a, b)) == ShowItems(Evidence(a, b))
  {
    hide Marks, LineTokens, ShowFields, LiveParts, Show, ShowItems, EvidenceFields, TextTokens;
    Punctuation();
    ObjectPunctuation();
    SoleTokens("},");
    SoleTokens("}");
    var first, second := EvidenceFields(FIRST, LIVEZ, a), EvidenceFields(SECOND, VERSION, b);
    TwoShown(Record(first), Record(second));
    RecordShown(first);
    RecordShown(second);
    match layout {
      case Separate =>
        LiveTokens("{", FIRST, LIVEZ, a, ["},"]);
        LiveTokens("{", SECOND, VERSION, b, ["}"]);
        TwoLines(LiveParts("{", FIRST, LIVEZ, a) + ["},"], LiveParts("{", SECOND, VERSION, b) + ["}"]);
      case Shared =>
        var rest := LiveParts("}, {", SECOND, VERSION, b) + ["}"];
        LiveTokens("}, {", SECOND, VERSION, b, ["}"]);
        LiveTokens("{", FIRST, LIVEZ, a, rest);
        TwoLines(LiveParts("{", FIRST, LIVEZ, a) + rest, rest);
    }
  }

  // ---------- The whole text ----------

  lemma LineShown(line: Line)
    ensures TextTokens([line]) == LineTokens(line)
  {
    TwoLines(line, line);
  }

  lemma OpeningTokens(key: string, rest: string)
    ensures TextTokens([["", key, rest]]) == [Str(key)] + Marks(rest)
  {
    hide Marks, LineTokens;
    Punctuation();
    LineShown(["", key, rest]);
    PairTokens("", key, [rest]);
    SoleTokens(rest);
    assert ["", key, rest] == ["", key] + [rest];
  }

  lemma OneFieldShown(f: Field)
    ensures ShowFields([f]) == ShowField(f)
  {
    hide ShowField;
  }

  lemma OneItemShown(item: Tree)
    ensures ShowItems([item]) == Show(item)
  {
    hide Show;
  }

  lemma ListShown(items: seq<Tree>)
    ensures Show(List(items)) == [Mark('[')] + ShowItems(items) + [Mark(']')]
  {
    hide ShowItems;
  }

  lemma FieldShown(key: string, value: Tree)
    ensures ShowField(Field(key, value)) == [Str(key), Mark(':')] + Show(value)
  {
    hide Show;
  }

  lemma ConstantsAreSimple()
    ensures AllSimple(HEAD) && AllSimple(CLAIM) && AllSimple(DESTINATION)
  {
  }

  lemma ClaimsTokens(a: Stamps, b: Stamps)
    ensures ShowField(Field(CLAIMS, Claims(a, b)))
      == TextTokens(CLAIMS_LINES) + ShowItems(Evidence(a, b)) + [Mark(']'), Mark('}'), Mark(']')]
  {
    ConstantsAreSimple();
    hide Marks, LineTokens, ShowFields, ShowItems, ShowField, Show, TextTokens, Evidence, CLAIM, FieldLines, AllSimple;
    var evidence := Field(EVIDENCE, List(Evidence(a, b)));
    FieldShown(CLAIMS, Claims(a, b));
    ListShown([Record(CLAIM + [evidence])]);
    OneItemShown(Record(CLAIM + [evidence]));
    RecordShown(CLAIM + [evidence]);
    FieldLinesTokens(CLAIM, [evidence]);
    OneFieldShown(evidence);
    FieldShown(EVIDENCE, evidence.value);
    ListShown(Evidence(a, b));
    ListPunctuation();
    ObjectPunctuation();
    OpeningTokens(CLAIMS, ": [{");
    OpeningTokens(EVIDENCE, ": [");
    TokensConcat([["", CLAIMS, ": [{"]], FieldLines(CLAIM));
    TokensConcat([["", CLAIMS, ": [{"]] + FieldLines(CLAIM), [["", EVIDENCE, ": ["]]);
  }

  lemma LastTokens()
    ensures TextTokens(LAST_LINES) == [Mark(']'), Mark('}'), Mark(']'), Mark(',')]
      + ShowField(Field("destinations", DESTINATIONS)) + [Mark('}')]
  {
    ConstantsAreSimple();
    hide Marks, LineTokens, ShowFields, ShowItems, ShowField, Show, TextTokens, DESTINATION, FieldLines, AllSimple;
    FieldShown("destinations", DESTINATIONS);
    ListShown([Record(DESTINATION + [DESTINATION_CLAIM])]);
    OneItemShown(Record(DESTINATION + [DESTINATION_CLAIM]));
    RecordShown(DESTINATION + [DESTINATION_CLAIM]);
    FieldLinesTokens(DESTINATION, [DESTINATION_CLAIM]);
    OneFieldShown(DESTINATION_CLAIM);
    ClosingTokens();
    LastPunctuation();
    ObjectPunctuation();
    OpeningTokens("destinations", ": [{");
    LineShown(["]}],"]);
    SoleTokens("]}],");
    var opening: Lines := [["]}],"]] + [["", "destinations", ": [{"]];
    TokensConcat([["]}],"]], [["", "destinations", ": [{"]]);
    TokensConcat(opening, FieldLines(DESTINATION));
    TokensConcat(opening + FieldLines(DESTINATION), [["", "claimId", ": ", "CLM-001", "}]}"]]);
    assert LAST_LINES == opening + FieldLines(DESTINATION) + [["", "claimId", ": ", "CLM-001", "}]}"]];
  }

  lemma ClosingTokens()
    ensures TextTokens([["", "claimId", ": ", "CLM-001", "}]}"]])
      == ShowField(DESTINATION_CLAIM) + [Mark('}'), Mark(']'), Mark('}')]
  {
    hide Marks, LineTokens, TextTokens;
    Punctuation();
    LastPunctuation();
    var line := ["", "claimId", ": ", "CLM-001", "}]}"];
    LineShown(line);
    PairTokens("", "claimId", [": ", "CLM-001"] + ["}]}"]);
    PairTokens(": ", "CLM-001", ["}]}"]);
    SoleTokens("}]}");
    assert line == ["", "claimId"] + ([": ", "CLM-001"] + ["}]}"]);
  }

  /** The lines are the text of the registry. */
  lemma RegistryTokens(layout: Layout, audited: string, a: Stamps, b: Stamps)
    ensures TextTokens(RegistryLines(layout, audited, a, b)) == Show(Registry(audited, a, b))
  {
    hide Marks, LineTokens, ShowFields, ShowItems, ShowField, Show, TextTokens, FieldLines, Evidence, LiveLines,
         CLAIMS_LINES, LAST_LINES, Claims, DESTINATIONS, AllSimple;
    StartIsSimple(audited);
    hide Start;
    var start, claims := FieldLines(Start(audited)), Field(CLAIMS, Claims(a, b));
    var destinations := Field("destinations", DESTINATIONS);
    RecordShown(Start(audited) + [claims, destinations]);
    FieldLinesTokens(Start(audited), [claims, destinations]);
    FieldsShown(claims, [destinations]);
    assert [claims] + [destinations] == [claims, destinations];
    OneFieldShown(destinations);
    ClaimsTokens(a, b);
    LastTokens();
    LiveLinesTokens(layout, a, b);
    Punctuation();
    LineShown(["{"]);
    SoleTokens("{");
    TokensConcat([["{"]], start);
    TokensConcat([["{"]] + start, CLAIMS_LINES);
    TokensConcat([["{"]] + start + CLAIMS_LINES, LiveLines(layout, a, b));
    TokensConcat([["{"]] + start + CLAIMS_LINES + LiveLines(layout, a, b), LAST_LINES);
  }

  lemma StartIsSimple(audited: string)
    ensures AllSimple(Start(audited))
  {
    ConstantsAreSimple();
    hide HEAD;
  }

  lemma SimpleIsProper(fields: seq<Field>)
    requires AllSimple(fields)
    ensures Proper(Record(fields))
  {
    hide OneWord, IsLiteral, Simple;
    forall k | 0 <= k < |fields| ensures Proper(fields[k].value) {
      SimpleValueIsProper(fields[k]);
    }
  }

  lemma SimpleValueIsProper(f: Field)
    requires Simple(f)
    ensures Proper(f.value)
  {
    hide OneWord, IsLiteral;
  }

  lemma TextsAreProper(fields: seq<Field>)
    requires AllTexts(fields)
    ensures Proper(Record(fields))
  {
  }

  lemma ProperWith(fields: seq<Field>, f: Field)
    requires Proper(Record(fields)) && Proper(f.value)
    ensures Proper(Record(fields + [f]))
  {
    var all := fields + [f];
    assert Record(fields).fields == fields && Record(all).fields == all;
    forall k | 0 <= k < |all| ensures Proper(all[k].value) {
      assert k < |fields| ==> all[k] == fields[k];
    }
  }

  lemma TwoAreProper(a: Tree, b: Tree)
    requires Proper(a) && Proper(b)
    ensures Proper(List([a, b])) && Proper(List([a]))
  {
  }

  lemma EvidenceIsProper(a: Stamps, b: Stamps)
    ensures Proper(List(Evidence(a, b)))
  {
    TextsAreProper(EvidenceFields(FIRST, LIVEZ, a));
    TextsAreProper(EvidenceFields(SECOND, VERSION, b));
    hide EvidenceFields, Proper;
    TwoAreProper(Record(EvidenceFields(FIRST, LIVEZ, a)), Record(EvidenceFields(SECOND, VERSION, b)));
  }

  lemma RegistryIsProper(audited: string, a: Stamps, b: Stamps)
    ensures Proper(Registry(audited, a, b))
  {
    ConstantsAreSimple();
    StartIsSimple(audited);
    TextsAreProper([DESTINATION_CLAIM]);
    assert Proper(DESTINATION_CLAIM.value);
    hide HEAD, CLAIM, DESTINATION, Evidence, AllSimple, Proper, Start;
    SimpleIsProper(CLAIM);
    SimpleIsProper(DESTINATION);
    SimpleIsProper(Start(audited));
    EvidenceIsProper(a, b);
    var evidence, claims := Field(EVIDENCE, List(Evidence(a, b))), Field(CLAIMS, Claims(a, b));
    var destinations := Field("destinations", DESTINATIONS);
    ProperWith(CLAIM, evidence);
    TwoAreProper(Record(CLAIM + [evidence]), Record(CLAIM + [evidence]));
    ProperWith(DESTINATION, DESTINATION_CLAIM);
    TwoAreProper(Record(DESTINATION + [DESTINATION_CLAIM]), Record(DESTINATION + [DESTINATION_CLAIM]));
    ProperWith(Start(audited), claims);
    ProperWith(Start(audited) + [claims], destinations);
    assert Start(audited) + [claims] + [destinations] == Start(audited) + [claims, destinations];
  }

  // ---------- The places of the keys ----------

  lemma {:induction false} FieldPartsAt(before: string, fields: seq<Field>, k: nat)
    requires AllTexts(fields) && k < |fields|
    ensures var parts := FieldParts(before, fields);
      && |parts| == 4 * |fields| && parts[4 * k] == (if k == 0 then before else ", ")
      && parts[4 * k + 1] == fields[k].key && parts[4 * k + 2] == ": " && parts[4 * k + 3] == fields[k].value.content
    decreases |fields|
  {
    if |fields| > 1 {
      FieldPartsAt(", ", fields[1..], if k == 0 then 0 else k - 1);
    }
  }

  lemma Separators()
    ensures Separator(": ") && !Separator(", ")
  {
    var s, t := ": ", ", ";
    assert s[0] == ':' && Texts.Space(s[1]);
    assert t[0] == ',' && t[1] == ' ';
  }

  /** A key stands exactly at its fields. */
  lemma KeyInParts(before: string, fields: seq<Field>, rest: Line, key: string, j: nat)
    requires AllTexts(fields) && rest != [] && j < 4 * |fields|
    requires key != before && key != ", " && key != ": "
    requires !Separator(rest[0])
    ensures |FieldParts(before, fields)| == 4 * |fields|
    ensures KeyAt(FieldParts(before, fields) + rest, key, j) <==> j % 4 == 1 && fields[j / 4].key == key
  {
    hide FieldParts, Separator;
    Separators();
    var k := j / 4;
    FieldPartsAt(before, fields, k);
    assert j == 4 * k + j % 4;
    if k + 1 < |fields| {
      FieldPartsAt(before, fields, k + 1);
    }
  }

  predicate NewKeyAt(fields: seq<Field>, k: nat)
    requires k < |fields|
  {
    forall j | 0 <= j < k :: fields[j].key != fields[k].key
  }

  predicate NoPunctuation(before: string, key: string) { key != before && key != ", " && key != ": " }

  lemma FirstKeyAt(line: Line, key: string, k: nat)
    requires KeyAt(line, key, k) && forall j | 0 <= j < k :: !KeyAt(line, key, j)
    ensures FindKey(line, key) == k
  {
    hide Separator;
  }

  lemma FindInParts(before: string, fields: seq<Field>, rest: Line, k: nat)
    requires AllTexts(fields) && rest != [] && !Separator(rest[0]) && k < |fields| && NewKeyAt(fields, k)
    requires NoPunctuation(before, fields[k].key)
    ensures var line := FieldParts(before, fields) + rest;
      FindKey(line, fields[k].key) == 4 * k + 1 && 4 * k + 3 < |line| && line[4 * k + 3] == fields[k].value.content
  {
    hide FieldParts, Separator, KeyAt;
    var line, key := FieldParts(before, fields) + rest, fields[k].key;
    FieldPartsAt(before, fields, k);
    forall j | 0 <= j <= 4 * k + 1 ensures KeyAt(line, key, j) <==> j == 4 * k + 1 {
      KeyInParts(before, fields, rest, key, j);
      assert j < 4 * k + 1 && j % 4 == 1 ==> j / 4 < k;
    }
    FirstKeyAt(line, key, 4 * k + 1);
  }

  /** Replacing a value is replacing its field. */
  lemma ReplaceInParts(before: string, fields: seq<Field>, rest: Line, k: nat, value: string)
    requires AllTexts(fields) && rest != [] && !Separator(rest[0]) && k < |fields| && NewKeyAt(fields, k)
    requires NoPunctuation(before, fields[k].key)
    ensures ReplaceFieldValue(FieldParts(before, fields) + rest, fields[k].key, value)
      == Some(FieldParts(before, fields[k := Field(fields[k].key, Text(value))]) + rest)
  {
    hide FieldParts, Separator, FindKey;
    var changed := fields[k := Field(fields[k].key, Text(value))];
    FindInParts(before, fields, rest, k);
    SameParts(before, fields, k, value);
    assert (FieldParts(before, fields) + rest)[4 * k + 3 := value] == FieldParts(before, changed) + rest;
  }

  lemma SameParts(before: string, fields: seq<Field>, k: nat, value: string)
    requires AllTexts(fields) && k < |fields|
    ensures |FieldParts(before, fields)| == 4 * |fields|
    ensures FieldParts(before, fields[k := Field(fields[k].key, Text(value))])
      == FieldParts(before, fields)[4 * k + 3 := value]
  {
    hide FieldParts;
    var changed := fields[k := Field(fields[k].key, Text(value))];
    FieldPartsAt(before, fields, k);
    FieldPartsAt(before, changed, k);
    var parts, others := FieldParts(before, fields)[4 * k + 3 := value], FieldParts(before, changed);
    forall j | 0 <= j < |parts| ensures parts[j] == others[j] {
      FieldPartsAt(before, fields, j / 4);
      FieldPartsAt(before, changed, j / 4);
      assert j == 4 * (j / 4) + j % 4;
    }
  }

  // ---------- Editing a live object ----------

  predicate IsBefore(before: string) { before == "{" || before == "}, {" }

  predicate IsEnd(rest: Line) { rest != [] && !Separator(rest[0]) }

  function Keys(fields: seq<Field>): (keys: seq<string>)
    ensures |keys| == |fields| && forall k | 0 <= k < |fields| :: keys[k] == fields[k].key
  {
    seq(|fields|, k requires 0 <= k < |fields| => fields[k].key)
  }

  /** The keys of a live object: all different, and no punctuation. */
  lemma LiveKeys(before: string, id: string, locator: string, s: Stamps, k: nat)
    requires IsBefore(before) && k < 6
    ensures var fields := EvidenceFields(id, locator, s);
      AllTexts(fields) && |fields| == 6 && NewKeyAt(fields, k) && NoPunctuation(before, fields[k].key)
  {
    assert ID[0] == 'i' && TYPE[0] == 't' && LOCATOR[0] == 'l' && OBSERVED_AT[0] == 'o' && FRESH_UNTIL[0] == 'f'
      && REVISION[0] == 'r';
    assert before[0] == '{' || before[0] == '}';
    var fields := EvidenceFields(id, locator, s);
    assert Keys(fields) == [ID, TYPE, LOCATOR, OBSERVED_AT, FRESH_UNTIL, REVISION];
  }

  lemma FieldsEdited(id: string, locator: string, s: Stamps, c: Change)
    ensures var fields := EvidenceFields(id, locator, s);
      && fields[3 := Field(OBSERVED_AT, Text(c.observedAt))]
        == EvidenceFields(id, locator, s.(observedAt := c.observedAt))
      && fields[4 := Field(FRESH_UNTIL, Text(c.freshUntil))]
        == EvidenceFields(id, locator, s.(freshUntil := c.freshUntil))
      && fields[5 := Field(REVISION, Text(c.revision))] == EvidenceFields(id, locator, s.(revision := c.revision))
      && fields[3].key == OBSERVED_AT && fields[4].key == FRESH_UNTIL && fields[5].key == REVISION
  {
    hide OBSERVED_AT, FRESH_UNTIL, REVISION, ID, TYPE, LIVE, LOCATOR;
  }

  lemma ReplaceStamp(before: string, id: string, locator: string, s: Stamps, rest: Line, k: nat, value: string)
    requires IsBefore(before) && IsEnd(rest) && k < 6
    ensures var fields := EvidenceFields(id, locator, s);
      && |fields| == 6 && fields[k].value.Text?
      && ReplaceFieldValue(FieldParts(before, fields) + rest, fields[k].key, value)
        == Some(FieldParts(before, fields[k := Field(fields[k].key, Text(value))]) + rest)
  {
    LiveKeys(before, id, locator, s, k);
    hide FieldParts, EvidenceFields, NewKeyAt, NoPunctuation, ReplaceFieldValue, Separator, IsBefore;
    ReplaceInParts(before, EvidenceFields(id, locator, s), rest, k, value);
  }

  /** The edit of a live object gives it the three values of the change. */
  lemma EditLive(before: string, id: string, locator: string, s: Stamps, rest: Line, c: Change)
    requires IsBefore(before) && IsEnd(rest)
    ensures EditLine(LiveParts(before, id, locator, s) + rest, c)
      == Some(LiveParts(before, id, locator, Stamps(c.observedAt, c.freshUntil, c.revision)) + rest)
  {
    hide FieldParts, EvidenceFields, ReplaceFieldValue, IsEnd, IsBefore, OBSERVED_AT, FRESH_UNTIL, REVISION;
    var observed := s.(observedAt := c.observedAt);
    var renewed := observed.(freshUntil := c.freshUntil);
    FieldsEdited(id, locator, s, c);
    FieldsEdited(id, locator, observed, c);
    FieldsEdited(id, locator, renewed, c);
    ReplaceStamp(before, id, locator, s, rest, 3, c.observedAt);
    ReplaceStamp(before, id, locator, observed, rest, 4, c.freshUntil);
    ReplaceStamp(before, id, locator, renewed, rest, 5, c.revision);
  }

  lemma LiveValue(before: string, id: string, locator: string, s: Stamps, rest: Line, k: nat)
    requires IsBefore(before) && IsEnd(rest) && k < 6
    ensures var fields := EvidenceFields(id, locator, s);
      && |fields| == 6 && fields[k].value.Text?
      && FieldValue(LiveParts(before, id, locator, s) + rest, fields[k].key) == Some(fields[k].value.content)
  {
    LiveKeys(before, id, locator, s, k);
    hide FieldParts, EvidenceFields, NewKeyAt, NoPunctuation, Separator, IsBefore, FindKey;
    FindInParts(before, EvidenceFields(id, locator, s), rest, k);
  }

  lemma LocatorValue(before: string, id: string, locator: string, s: Stamps, rest: Line)
    requires IsBefore(before) && IsEnd(rest)
    ensures FieldValue(LiveParts(before, id, locator, s) + rest, LOCATOR) == Some(locator)
  {
    hide FieldParts, FieldValue, IsEnd, IsBefore, OBSERVED_AT, FRESH_UNTIL, REVISION, ID, TYPE, LOCATOR;
    LiveValue(before, id, locator, s, rest, 2);
  }

  // ---------- Which lines are live ----------

  lemma LiveKeyAt(before: string, id: string, locator: string, s: Stamps, rest: Line, k: nat)
    requires IsBefore(before) && IsEnd(rest) && k < 6
    ensures var line, fields := LiveParts(before, id, locator, s) + rest, EvidenceFields(id, locator, s);
      && |fields| == 6 && fields[k].value.Text? && 4 * k + 4 < |line| && |line| == 24 + |rest|
      && KeyAt(line, fields[k].key, 4 * k + 1) && line[4 * k + 2] == ": " && line[4 * k + 3] == fields[k].value.content
  {
    LiveKeys(before, id, locator, s, k);
    hide FieldParts, EvidenceFields, NewKeyAt, NoPunctuation, Separator, IsBefore, KeyAt;
    FieldPartsAt(before, EvidenceFields(id, locator, s), k);
    KeyInParts(before, EvidenceFields(id, locator, s), rest, EvidenceFields(id, locator, s)[k].key, 4 * k + 1);
  }

  lemma StartsLive(before: string, id: string, locator: string, s: Stamps, rest: Line)
    requires IsBefore(before) && IsEnd(rest)
    ensures IsLiveEntry(LiveParts(before, id, locator, s) + rest, id)
  {
    hide FieldParts, IsEnd, IsBefore, KeyAt, ID, TYPE, LIVE;
    LiveKeyAt(before, id, locator, s, rest, 0);
    LiveKeyAt(before, id, locator, s, rest, 1);
    var line := LiveParts(before, id, locator, s) + rest;
    PlaceOfId(line, id);
    assert line[1] == ID && line[2] == ": " && line[3] == id;
    assert KeyAt(line, TYPE, 5) && line[7] == LIVE;
  }

  /** With one part after it, the object is the only one on the line. */
  lemma OnlyThisLive(before: string, id: string, locator: string, s: Stamps, rest: Line, other: string)
    requires IsBefore(before) && IsEnd(rest) && |rest| == 1 && other != id
    ensures !IsLiveEntry(LiveParts(before, id, locator, s) + rest, other)
  {
    hide FieldParts, KeyAt, ID, TYPE, LIVE, Separator, EvidenceFields, NewKeyAt, NoPunctuation, IsBefore;
    var line, fields := LiveParts(before, id, locator, s) + rest, EvidenceFields(id, locator, s);
    LiveKeyAt(before, id, locator, s, rest, 0);
    FirstIsId(id, locator, s);
    if k :| 1 <= k < |line| && k + 3 < |line| && line[k] == ID && line[k + 1] == ": " && line[k + 2] == other {
      ColonIsKey(line, ID, k);
      LiveKeys(before, id, locator, s, k / 4);
      LiveKeys(before, id, locator, s, 0);
      KeyInParts(before, fields, rest, ID, k);
      NewKeyIsFirst(fields, k / 4);
    }
  }

  lemma NewKeyIsFirst(fields: seq<Field>, k: nat)
    requires k < |fields| && NewKeyAt(fields, k) && fields[k].key == fields[0].key
    ensures k == 0
  {
  }

  lemma FirstIsId(id: string, locator: string, s: Stamps)
    ensures EvidenceFields(id, locator, s)[0] == Field(ID, Text(id))
  {
  }

  lemma ColonIsKey(line: Line, key: string, k: nat)
    requires 1 <= k && k + 3 < |line| && line[k] == key && line[k + 1] == ": "
    ensures KeyAt(line, key, k)
  {
    Separators();
  }

  /** A second object on the line is mentioned too. */
  lemma SecondIsMentioned(line: Line, before: string, id: string, locator: string, s: Stamps, rest: Line)
    requires IsBefore(before) && IsEnd(rest)
    ensures MentionsId(line + (LiveParts(before, id, locator, s) + rest), id)
  {
    hide FieldParts, IsEnd, IsBefore, KeyAt, ID, TYPE, LIVE;
    LiveKeyAt(before, id, locator, s, rest, 0);
    PlaceOfId(LiveParts(before, id, locator, s) + rest, id);
    var all, k := line + (LiveParts(before, id, locator, s) + rest), |line| + 1;
    assert all[k] == ID && all[k + 1] == ": " && all[k + 2] == id;
  }

  lemma PlaceOfId(line: Line, id: string)
    requires KeyAt(line, ID, 1)
    ensures 4 < |line| && line[1] == ID
  {
    hide Separator;
  }

  // ---------- The other lines ----------

  /** At most one field, and not of this key. */
  predicate Lacks(line: Line, key: string) { |line| <= 5 && (|line| == 5 ==> line[1] != key) }

  lemma LacksKey(line: Line, key: string, k: nat)
    requires Lacks(line, key)
    ensures !KeyAt(line, key, k)
  {
    hide Separator;
  }

  lemma LacksType(line: Line, id: string)
    requires Lacks(line, TYPE)
    ensures !IsLiveEntry(line, id)
  {
    hide Lacks, TYPE, Separator;
    if MentionsType(line) {
      var k :| 0 <= k < |line| && KeyAt(line, TYPE, k) && line[k + 2] == LIVE;
      LacksKey(line, TYPE, k);
    }
  }

  lemma LacksAudited(line: Line)
    requires Lacks(line, AUDITED_REVISION)
    ensures FindAudited(line) == |line|
  {
    hide KeyAt, Lacks, AUDITED_REVISION, Texts.IsSha;
    var k := FindAudited(line);
    if k < |line| {
      LacksKey(line, AUDITED_REVISION, k);
    }
  }

  predicate AllLack(lines: Lines, key: string) { forall k | 0 <= k < |lines| :: Lacks(lines[k], key) }

  lemma {:induction false} FieldLinesLack(fields: seq<Field>, key: string)
    requires forall k | 0 <= k < |fields| :: fields[k].key != key
    ensures |FieldLines(fields)| == |fields| && AllLack(FieldLines(fields), key)
  {
    if fields != [] {
      FieldLinesLack(fields[1..], key);
    }
  }

  lemma ConstantsLack(fields: seq<Field>, key: string)
    requires fields == HEAD || fields == CLAIM || fields == DESTINATION
    requires key == TYPE || (key == AUDITED_REVISION && fields == HEAD)
    ensures forall k | 0 <= k < |fields| :: fields[k].key != key
  {
    assert TYPE[0] == 't' && AUDITED_REVISION[0] == 'a';
    assert forall k | 0 <= k < |HEAD| :: HEAD[k].key[0] != 't' && HEAD[k].key[0] != 'a';
    assert forall k | 0 <= k < 7 :: CLAIM[k].key[0] != 't';
    assert forall k | 7 <= k < |CLAIM| :: CLAIM[k].key[0] != 't';
    assert forall k | 0 <= k < |DESTINATION| :: DESTINATION[k].key[0] != 't';
  }

  const AUDITED_AT := 4
  const LIVE_AT := 21

  lemma {:induction false} FieldLinesAt(fields: seq<Field>, k: nat)
    requires k < |fields|
    ensures |FieldLines(fields)| == |fields| && FieldLines(fields)[k] == FieldLine(fields[k])
  {
    hide FieldLine;
    if k > 0 {
      FieldLinesAt(fields[1..], k - 1);
    } else if |fields| > 1 {
      FieldLinesAt(fields[1..], 0);
    }
  }

  lemma LackConcat(a: Lines, b: Lines, key: string)
    requires AllLack(a, key) && AllLack(b, key)
    ensures AllLack(a + b, key)
  {
    hide Lacks;
  }

  /** No other line is of a live entry. */
  lemma OthersLackType(audited: string)
    ensures AllLack(Above(audited), TYPE) && |Above(audited)| == LIVE_AT && AllLack(LAST_LINES, TYPE)
  {
    ConstantsLack(HEAD, TYPE);
    ConstantsLack(CLAIM, TYPE);
    ConstantsLack(DESTINATION, TYPE);
    FieldLinesLack(Start(audited), TYPE) by {
      assert TYPE[0] == 't' && AUDITED_REVISION[0] == 'a';
    }
    FieldLinesLack(CLAIM, TYPE);
    FieldLinesLack(DESTINATION, TYPE);
    assert AllLack([["{"]], TYPE) && AllLack([["", CLAIMS, ": [{"]], TYPE) && AllLack([["", EVIDENCE, ": ["]], TYPE);
    assert AllLack([["]}],"], ["", "destinations", ": [{"]], TYPE);
    assert AllLack([["", "claimId", ": ", "CLM-001", "}]}"]], TYPE) by {
      assert "claimId"[0] == 'c' && TYPE[0] == 't';
    }
    hide FieldLines, AllLack;
    LackConcat([["{"]], FieldLines(Start(audited)), TYPE);
    LackConcat([["", CLAIMS, ": [{"]], FieldLines(CLAIM), TYPE);
    LackConcat([["", CLAIMS, ": [{"]] + FieldLines(CLAIM), [["", EVIDENCE, ": ["]], TYPE);
    LackConcat([["{"]] + FieldLines(Start(audited)), CLAIMS_LINES, TYPE);
    LackConcat([["]}],"], ["", "destinations", ": [{"]], FieldLines(DESTINATION), TYPE);
    LackConcat([["]}],"], ["", "destinations", ": [{"]] + FieldLines(DESTINATION),
      [["", "claimId", ": ", "CLM-001", "}]}"]], TYPE);
  }

  /** The line of the audited revision, and the lines before it. */
  lemma AuditedAbove(audited: string, j: nat)
    requires j <= AUDITED_AT
    ensures j < |Above(audited)|
    ensures j < AUDITED_AT ==> Lacks(Above(audited)[j], AUDITED_REVISION)
    ensures Above(audited)[AUDITED_AT] == FieldLine(Field(AUDITED_REVISION, Text(audited)))
  {
    ConstantsLack(HEAD, AUDITED_REVISION);
    hide FieldLines, CLAIMS_LINES;
    FieldLinesAt(Start(audited), 3);
    if 0 < j < AUDITED_AT {
      FieldLinesAt(Start(audited), j - 1);
    }
  }

  lemma AuditedValue(audited: string)
    requires Texts.IsSha(audited)
    ensures FindAudited(FieldLine(Field(AUDITED_REVISION, Text(audited)))) == 1
  {
    Separators();
    hide Separator, Texts.IsSha, AUDITED_REVISION;
    var line := FieldLine(Field(AUDITED_REVISION, Text(audited)));
    assert line[1] == AUDITED_REVISION && line[2] == ": " && line[3] == audited && |line| == 5;
    assert AuditedAt(line, 1) && !AuditedAt(line, 0);
  }

  lemma FirstAuditedAt(lines: Lines, i: nat)
    requires i < |lines| && FindAudited(lines[i]) < |lines[i]|
    requires forall j | 0 <= j < i :: FindAudited(lines[j]) == |lines[j]|
    ensures AuditedLine(lines) == i
  {
    hide FindAudited;
  }

  lemma AboveReplaced(audited: string, revision: string)
    ensures |Above(audited)| == |Above(revision)| && |Above(audited)| > AUDITED_AT
    ensures forall j | 0 <= j < |Above(audited)| && j != AUDITED_AT :: Above(audited)[j] == Above(revision)[j]
  {
    hide FieldLine, CLAIMS_LINES;
    forall j | 0 <= j < |Start(audited)|
      ensures |FieldLines(Start(audited))| == |FieldLines(Start(revision))| == |Start(audited)| == 4
      ensures j != 3 ==> FieldLines(Start(audited))[j] == FieldLines(Start(revision))[j]
    {
      FieldLinesAt(Start(audited), j);
      FieldLinesAt(Start(revision), j);
    }
    assert |Start(audited)| == 4;
    FieldLinesAt(Start(audited), 0);
    FieldLinesAt(Start(revision), 0);
  }

  /** Replacing the audited revision. */
  lemma ReplaceAbove(audited: string, revision: string, below: Lines)
    requires Texts.IsSha(audited)
    ensures AuditedLine(Above(audited) + below) == AUDITED_AT
    ensures ReplaceAudited(Above(audited) + below, revision) == Above(revision) + below
  {
    hide Above, FindAudited, AuditedLine, FieldLine, AUDITED_REVISION;
    AboveReplaced(audited, revision);
    AuditedAbove(audited, AUDITED_AT);
    AuditedAbove(revision, AUDITED_AT);
    AuditedValue(audited);
    var lines := Above(audited) + below;
    forall j | 0 <= j < AUDITED_AT ensures FindAudited(lines[j]) == |lines[j]| {
      AuditedAbove(audited, j);
      LacksAudited(lines[j]);
    }
    FieldLineRevised(audited, revision);
    FirstAuditedAt(lines, AUDITED_AT);
    assert lines[AUDITED_AT := lines[AUDITED_AT][3 := revision]] == Above(revision) + below;
  }

  lemma FieldLineRevised(audited: string, revision: string)
    ensures var line := FieldLine(Field(AUDITED_REVISION, Text(audited)));
      |line| == 5 && line[3 := revision] == FieldLine(Field(AUDITED_REVISION, Text(revision)))
  {
    hide AUDITED_REVISION;
  }

  // ---------- Reading the text ----------

  /** Text without quotes, escapes and control characters. */
  predicate Clean(s: string) { forall k | 0 <= k < |s| :: s[k] >= ' ' && s[k] != '\\' && s[k] != '"' }

  predicate CleanLine(line: Line) { |line| % 2 == 1 && forall k | 0 <= k < |line| :: Clean(line[k]) }

  predicate CleanLines(lines: Lines) { forall k | 0 <= k < |lines| :: CleanLine(lines[k]) }

  lemma CleanLineSplits(line: Line)
    requires CleanLine(line)
    ensures line != [] && PartsOf(TextOf(line)) == line && '\n' !in TextOf(line) && PlainLine(line)
  {
    hide Texts.Split;
    forall k | 0 <= k < |line| ensures '"' !in line[k] && '\n' !in line[k] && Plain(line[k]) {
      assert Clean(line[k]);
    }
    Texts.JoinSplits(line, '"');
    Texts.JoinedLacks(line, '"', '\n');
  }

  /** The text of clean lines has these lines again, and they are plain. */
  lemma CleanTextSplits(lines: Lines)
    requires lines != [] && CleanLines(lines)
    ensures AreLines(lines) && LinesOf(TextOfLines(lines)) == lines && PlainText(lines)
  {
    hide CleanLine, TextOf, Texts.Split, PlainLine;
    forall k | 0 <= k < |lines|
      ensures lines[k] != [] && PartsOf(TextOf(lines[k])) == lines[k] && '\n' !in TextOf(lines[k])
        && PlainLine(lines[k])
    {
      CleanLineSplits(lines[k]);
    }
    Texts.JoinSplits(Rows(lines), '\n');
  }

  predicate CleanStamps(s: Stamps) { Clean(s.observedAt) && Clean(s.freshUntil) && Clean(s.revision) }

  predicate CleanValue(value: Tree) {
    match value
    case Text(content) => Clean(content)
    case Scalar(word) => Clean(word)
    case List(items) => items == [] || (items[0].Text? && Clean(items[0].content))
    case Record(_) => true
  }

  predicate CleanField(f: Field) { Clean(f.key) && CleanValue(f.value) }

  predicate CleanFields(fields: seq<Field>) { forall k | 0 <= k < |fields| :: CleanField(fields[k]) }

  lemma HeadIsClean()
    ensures CleanFields(HEAD)
  {
    assert Clean("schemaVersion") && Clean("2");
    assert Clean("website") && Clean("https://a");
    assert Clean("websiteStatus") && Clean("published");
    hide Clean;
  }

  lemma DestinationIsClean()
    ensures CleanFields(DESTINATION + [DESTINATION_CLAIM])
  {
    assert Clean(ID) && Clean("DST-001");
    assert Clean("label") && Clean("a");
    assert Clean("href") && Clean("/");
    assert Clean("purpose");
    assert Clean("claimId") && Clean("CLM-001");
    hide Clean;
  }

  lemma KeyedIsClean()
    ensures Clean("claimKind") && Clean("capability")
    ensures Clean("requirementIds") && Clean("ME-GTM-001")
    ensures Clean("surfaces") && Clean("hero")
  {
  }

  lemma ClaimStartIsClean()
    ensures CleanFields(CLAIM[..4])
  {
    assert Clean(ID) && Clean("CLM-001");
    KeyedIsClean();
    hide Clean;
  }

  lemma ClaimSurfacesAreClean()
    ensures CleanFields(CLAIM[4..7])
  {
    assert Clean("surfacePaths") && Clean("page");
    assert Clean("wording") && Clean("a");
    assert Clean("owner");
    hide Clean;
  }

  lemma ClaimMiddleIsClean()
    ensures CleanFields(CLAIM[7..10])
  {
    assert Clean("evidenceOwner") && Clean("a");
    assert Clean("state") && Clean("thesis");
    assert Clean("scope");
    hide Clean;
  }

  lemma ClaimEndIsClean()
    ensures CleanFields(CLAIM[10..])
  {
    assert Clean("limitations");
    assert Clean("requiredQualifier") && Clean("null");
    assert Clean("lastVerifiedAt") && Clean("2026-01-01");
    assert Clean("expiresAt");
    hide Clean;
  }

  lemma ClaimIsClean()
    ensures CleanFields(CLAIM)
  {
    ClaimStartIsClean();
    ClaimSurfacesAreClean();
    ClaimMiddleIsClean();
    ClaimEndIsClean();
    hide CleanField;
    assert forall k | 0 <= k < 4 :: CLAIM[..4][k] == CLAIM[k];
    assert forall k | 4 <= k < 7 :: CLAIM[4..7][k - 4] == CLAIM[k];
    assert forall k | 7 <= k < 10 :: CLAIM[7..10][k - 7] == CLAIM[k];
    assert forall k | 10 <= k < 14 :: CLAIM[10..][k - 10] == CLAIM[k];
  }

  lemma PunctuationIsClean()
    ensures Clean("") && Clean(": ") && Clean(",") && Clean(": [") && Clean("],") && Clean(": [],") && Clean(": {},")
    ensures Clean(", ") && Clean("{") && Clean("}") && Clean("},") && Clean("}, {")
    ensures Clean(": [{") && Clean("]}],") && Clean("}]}")
  {
  }

  lemma FieldLineIsClean(f: Field)
    requires CleanField(f)
    ensures CleanLine(FieldLine(f))
  {
    PunctuationIsClean();
    match f.value {
      case Scalar(word) =>
        assert Clean(": " + word + ",");
      case _ =>
    }
    hide Clean;
  }

  lemma {:induction false} FieldLinesAreClean(fields: seq<Field>)
    requires CleanFields(fields)
    ensures CleanLines(FieldLines(fields))
  {
    hide CleanLine, FieldLine, CleanField;
    if fields != [] {
      FieldLineIsClean(fields[0]);
      FieldLinesAreClean(fields[1..]);
    }
  }

  lemma KeysAreClean()
    ensures Clean(ID) && Clean(TYPE) && Clean(LIVE) && Clean(LOCATOR)
    ensures Clean(OBSERVED_AT) && Clean(FRESH_UNTIL) && Clean(REVISION)
    ensures Clean(AUDITED_REVISION)
  {
  }

  lemma ValuesAreClean()
    ensures Clean(FIRST) && Clean(SECOND) && Clean(LIVEZ) && Clean(VERSION)
  {
  }

  lemma EvidenceIsClean(id: string, locator: string, s: Stamps)
    requires Clean(id) && Clean(locator) && CleanStamps(s)
    ensures CleanFields(EvidenceFields(id, locator, s))
  {
    KeysAreClean();
    hide Clean, OBSERVED_AT, FRESH_UNTIL, REVISION, ID, TYPE, LIVE, LOCATOR;
  }

  lemma CleanFieldOf(fields: seq<Field>, k: nat)
    requires CleanFields(fields) && AllTexts(fields) && k < |fields|
    ensures Clean(fields[k].key) && Clean(fields[k].value.content)
  {
    hide Clean;
    assert CleanField(fields[k]);
  }

  lemma FieldPartsAreClean(before: string, fields: seq<Field>)
    requires fields != [] && AllTexts(fields) && CleanFields(fields) && Clean(before)
    ensures var parts := FieldParts(before, fields);
      |parts| == 4 * |fields| && forall j | 0 <= j < |parts| :: Clean(parts[j])
  {
    PunctuationIsClean();
    hide Clean, FieldParts, CleanFields;
    var parts := FieldParts(before, fields);
    FieldPartsAt(before, fields, 0);
    forall j | 0 <= j < |parts| ensures Clean(parts[j]) {
      FieldPartsAt(before, fields, j / 4);
      CleanFieldOf(fields, j / 4);
      assert j == 4 * (j / 4) + j % 4;
    }
  }

  lemma LivePartsAreClean(before: string, id: string, locator: string, s: Stamps)
    requires IsBefore(before) && Clean(id) && Clean(locator) && CleanStamps(s)
    ensures var parts := LiveParts(before, id, locator, s);
      |parts| == 24 && forall j | 0 <= j < |parts| :: Clean(parts[j])
  {
    EvidenceIsClean(id, locator, s);
    LiveKeys(before, id, locator, s, 0);
    PunctuationIsClean();
    hide Clean, EvidenceFields, FieldParts;
    FieldPartsAreClean(before, EvidenceFields(id, locator, s));
  }

  lemma LiveLinesAreClean(layout: Layout, a: Stamps, b: Stamps)
    requires CleanStamps(a) && CleanStamps(b)
    ensures CleanLines(LiveLines(layout, a, b))
  {
    ValuesAreClean();
    PunctuationIsClean();
    hide Clean, CleanStamps, LiveParts;
    LivePartsAreClean("{", FIRST, LIVEZ, a);
    LivePartsAreClean("{", SECOND, VERSION, b);
    LivePartsAreClean("}, {", SECOND, VERSION, b);
  }

  lemma CleanConcat(a: Lines, b: Lines)
    requires CleanLines(a) && CleanLines(b)
    ensures CleanLines(a + b)
  {
    hide CleanLine;
  }

  lemma OneLineIsClean(line: Line)
    requires CleanLine(line)
    ensures CleanLines([line])
  {
    hide CleanLine;
  }

  lemma OtherLinesAreClean()
    ensures CleanLine(["{"]) && CleanLine(["]}],"]) && CleanLine(["", "destinations", ": [{"])
    ensures CleanLine(["", CLAIMS, ": [{"]) && CleanLine(["", EVIDENCE, ": ["])
    ensures CleanLine(["", "claimId", ": ", "CLM-001", "}]}"])
  {
    PunctuationIsClean();
    assert Clean(CLAIMS) && Clean(EVIDENCE) && Clean("destinations");
    assert Clean("claimId") && Clean("CLM-001");
    hide Clean;
  }

  lemma AboveIsClean(audited: string)
    requires Clean(audited)
    ensures CleanLines(Above(audited))
  {
    HeadIsClean();
    ClaimIsClean();
    KeysAreClean();
    OtherLinesAreClean();
    hide Clean, HEAD, CLAIM, FieldLines, CleanLine;
    assert CleanFields(Start(audited));
    FieldLinesAreClean(Start(audited));
    FieldLinesAreClean(CLAIM);
    OneLineIsClean(["{"]);
    OneLineIsClean(["", CLAIMS, ": [{"]);
    OneLineIsClean(["", EVIDENCE, ": ["]);
    hide CleanLines;
    CleanConcat([["{"]], FieldLines(Start(audited)));
    CleanConcat([["", CLAIMS, ": [{"]], FieldLines(CLAIM));
    CleanConcat([["", CLAIMS, ": [{"]] + FieldLines(CLAIM), [["", EVIDENCE, ": ["]]);
    CleanConcat([["{"]] + FieldLines(Start(audited)), CLAIMS_LINES);
  }

  lemma LastIsClean()
    ensures CleanLines(LAST_LINES)
  {
    DestinationIsClean();
    OtherLinesAreClean();
    assert forall k | 0 <= k < 4 :: (DESTINATION + [DESTINATION_CLAIM])[k] == DESTINATION[k];
    hide Clean, DESTINATION, FieldLines, CleanLine, CleanField;
    FieldLinesAreClean(DESTINATION);
    OneLineIsClean(["]}],"]);
    OneLineIsClean(["", "destinations", ": [{"]);
    OneLineIsClean(["", "claimId", ": ", "CLM-001", "}]}"]);
    hide CleanLines;
    CleanConcat([["]}],"]], [["", "destinations", ": [{"]]);
    assert [["]}],"]] + [["", "destinations", ": [{"]] == [["]}],"], ["", "destinations", ": [{"]];
    CleanConcat([["]}],"], ["", "destinations", ": [{"]], FieldLines(DESTINATION));
    CleanConcat([["]}],"], ["", "destinations", ": [{"]] + FieldLines(DESTINATION),
      [["", "claimId", ": ", "CLM-001", "}]}"]]);
  }

  /** Either way, the text is read as the registry. */
  lemma RegistryIsRead(read: Reader, layout: Layout, audited: string, a: Stamps, b: Stamps)
    requires ReadsJson(read) && Clean(audited) && CleanStamps(a) && CleanStamps(b)
    ensures var lines := RegistryLines(layout, audited, a, b);
      && AreLines(lines) && LinesOf(TextOfLines(lines)) == lines
      && read(TextOfLines(lines)) == Some(Registry(audited, a, b))
  {
    AboveIsClean(audited);
    LiveLinesAreClean(layout, a, b);
    LastIsClean();
    RegistryTokens(layout, audited, a, b);
    RegistryIsProper(audited, a, b);
    var lines := RegistryLines(layout, audited, a, b);
    assert lines != [];
    CleanConcat(Above(audited), LiveLines(layout, a, b));
    CleanConcat(Above(audited) + LiveLines(layout, a, b), LAST_LINES);
    hide CleanLines, Clean, CleanStamps, Above, LiveLines, LAST_LINES, Registry, Proper, Show, ReadTree, LinesOf,
         TextOfLines;
    CleanTextSplits(lines);
    ReadsExactly(TextTokens(lines), Registry(audited, a, b));
  }
}
