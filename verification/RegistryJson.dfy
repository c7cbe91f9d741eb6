/**
 Reading the registry text as JSON. Lines are the parts between their quotes, so in a text
 without escapes every second part is a string and the others hold marks, words and white space.
 What is read is exactly what can be shown as these tokens.
 */
module RegistryJson {
  import opened Basics
  import opened Texts
  import opened QuotedText

  datatype Token = Mark(c: char) | Word(text: string) | Str(content: string)

  datatype Tree = Scalar(word: string) | Text(content: string) | List(items: seq<Tree>) | Record(fields: seq<Field>)

  datatype Field = Field(key: string, value: Tree)

  // ---------- Tokens ----------

  predicate IsMark(c: char) { c == '{' || c == '}' || c == '[' || c == ']' || c == ',' || c == ':' }

  predicate IsBlank(c: char) { c == ' ' || c == '\t' || c == '\n' || c == '\r' }

  function WordLength(s: string): (n: nat)
    ensures n <= |s| && (s != "" && !IsMark(s[0]) && !IsBlank(s[0]) ==> n > 0)
  {
    if s == "" || IsMark(s[0]) || IsBlank(s[0]) then 0 else 1 + WordLength(s[1..])
  }

  /** The tokens between two strings. */
  function Marks(s: string): seq<Token>
    decreases |s|
  {
    if s == "" then []
    else if IsBlank(s[0]) then Marks(s[1..])
    else if IsMark(s[0]) then [Mark(s[0])] + Marks(s[1..])
    else [Word(s[..WordLength(s)])] + Marks(s[WordLength(s)..])
  }

  function LineTokens(line: Parts): seq<Token>
    decreases |line|
  {
    if line == [] then []
    else if |line| == 1 then Marks(line[0])
    else Marks(line[0]) + [Str(line[1])] + LineTokens(line[2..])
  }

  function TextTokens(lines: seq<Parts>): seq<Token> {
    if lines == [] then [] else LineTokens(lines[0]) + TextTokens(lines[1..])
  }

  /** No escape, and no control character that a string may not hold. */
  predicate Plain(s: string) { forall k | 0 <= k < |s| :: s[k] >= ' ' && s[k] != '\\' }

  /** All strings of the line are closed on it, and all of it is plain. */
  predicate PlainLine(line: Parts) { |line| % 2 == 1 && forall k | 0 <= k < |line| :: Plain(line[k]) }

  predicate PlainText(lines: seq<Parts>) { forall k | 0 <= k < |lines| :: PlainLine(lines[k]) }

  // ---------- Words ----------

  function SkipDigits(s: string): string {
    if s == "" || !Digit(s[0]) then s else SkipDigits(s[1..])
  }

  predicate IsExponent(s: string) {
    s == "" ||
    ((s[0] == 'e' || s[0] == 'E') &&
     var digits := if |s| > 1 && (s[1] == '+' || s[1] == '-') then s[2..] else s[1..];
     digits != "" && SkipDigits(digits) == "")
  }

  predicate IsFraction(s: string) {
    if s != "" && s[0] == '.' then |s| > 1 && Digit(s[1]) && IsExponent(SkipDigits(s[1..])) else IsExponent(s)
  }

  /** A number of JSON, section 6 of RFC 8259. */
  predicate IsNumber(s: string) {
    var digits := if s != "" && s[0] == '-' then s[1..] else s;
    digits != "" && Digit(digits[0]) && IsFraction(if digits[0] == '0' then digits[1..] else SkipDigits(digits))
  }

  predicate IsLiteral(word: string) { word == "true" || word == "false" || word == "null" || IsNumber(word) }

  // ---------- The reader ----------

  function ReadTree(t: seq<Token>): (r: Option<(Tree, seq<Token>)>)
    ensures r.Some? ==> |r.value.1| < |t|
    decreases |t|, 1
  {
    if t == [] then None
    else match t[0]
      case Str(content) => Some((Text(content), t[1..]))
      case Word(word) => if IsLiteral(word) then Some((Scalar(word), t[1..])) else None
      case Mark(c) =>
        if c == '[' then
          if |t| > 1 && t[1] == Mark(']') then Some((List([]), t[2..]))
          else match ReadItems(t[1..])
            case Some(pair) => Some((List(pair.0), pair.1))
            case None => None
        else if c == '{' then
          if |t| > 1 && t[1] == Mark('}') then Some((Record([]), t[2..]))
          else match ReadFields(t[1..])
            case Some(pair) => Some((Record(pair.0), pair.1))
            case None => None
        else None
  }

  function ReadItems(t: seq<Token>): (r: Option<(seq<Tree>, seq<Token>)>)
    ensures r.Some? ==> |r.value.1| < |t|
    decreases |t|, 2
  {
    match ReadTree(t)
    case None => None
    case Some(first) =>
      if first.1 == [] then None
      else if first.1[0] == Mark(']') then Some(([first.0], first.1[1..]))
      else if first.1[0] != Mark(',') then None
      else match ReadItems(first.1[1..])
        case Some(pair) => Some(([first.0] + pair.0, pair.1))
        case None => None
  }

  function ReadFields(t: seq<Token>): (r: Option<(seq<Field>, seq<Token>)>)
    ensures r.Some? ==> |r.value.1| < |t|
    decreases |t|, 2
  {
    if |t| < 2 || !t[0].Str? || t[1] != Mark(':') then None
    else match ReadTree(t[2..])
      case None => None
      case Some(first) =>
        var field := Field(t[0].content, first.0);
        if first.1 == [] then None
        else if first.1[0] == Mark('}') then Some(([field], first.1[1..]))
        else if first.1[0] != Mark(',') then None
        else match ReadFields(first.1[1..])
          case Some(pair) => Some(([field] + pair.0, pair.1))
          case None => None
  }

  /** The whole text is one value. */
  function ReadAll(t: seq<Token>): Option<Tree> {
    match ReadTree(t)
    case Some(pair) => if pair.1 == [] then Some(pair.0) else None
    case None => None
  }

  /** What a text without escapes is as JSON. */
  function ReadPlain(lines: seq<Parts>): Option<Tree>
    requires PlainText(lines)
  {
    ReadAll(TextTokens(lines))
  }

  // ---------- Showing ----------

  predicate Proper(tree: Tree) {
    match tree
    case Scalar(word) => IsLiteral(word)
    case Text(_) => true
    case List(items) => forall k | 0 <= k < |items| :: Proper(items[k])
    case Record(fields) => forall k | 0 <= k < |fields| :: Proper(fields[k].value)
  }

  function Show(tree: Tree): (t: seq<Token>)
    ensures t != [] && t[0] != Mark(']') && t[0] != Mark('}')
    decreases tree, 1
  {
    match tree
    case Scalar(word) => [Word(word)]
    case Text(content) => [Str(content)]
    case List(items) => [Mark('[')] + ShowItems(items) + [Mark(']')]
    case Record(fields) => [Mark('{')] + ShowFields(fields) + [Mark('}')]
  }

  function ShowItems(items: seq<Tree>): (t: seq<Token>)
    ensures items != [] ==> t != [] && t[0] != Mark(']')
    decreases items, 0
  {
    if items == [] then []
    else if |items| == 1 then Show(items[0])
    else Show(items[0]) + [Mark(',')] + ShowItems(items[1..])
  }

  function ShowField(field: Field): seq<Token>
    decreases field, 2
  {
    [Str(field.key), Mark(':')] + Show(field.value)
  }

  function ShowFields(fields: seq<Field>): (t: seq<Token>)
    ensures fields != [] ==> t != [] && t[0].Str?
    decreases fields, 0
  {
    if fields == [] then []
    else if |fields| == 1 then ShowField(fields[0])
    else ShowField(fields[0]) + [Mark(',')] + ShowFields(fields[1..])
  }

  // ---------- What is shown is read ----------

  lemma {:induction false} ShownReads(tree: Tree, rest: seq<Token>)
    requires Proper(tree)
    ensures ReadTree(Show(tree) + rest) == Some((tree, rest))
    decreases tree, 1
  {
    hide IsLiteral;
    var t := Show(tree) + rest;
    match tree {
      case Scalar(word) => assert t[1..] == rest;
      case Text(content) => assert t[1..] == rest;
      case List(items) =>
        assert t[1..] == ShowItems(items) + [Mark(']')] + rest;
        if items == [] {
          assert t[1] == Mark(']') && t[2..] == rest;
        } else {
          ItemsRead(items, rest);
          assert t[1] == ShowItems(items)[0];
        }
      case Record(fields) =>
        assert t[1..] == ShowFields(fields) + [Mark('}')] + rest;
        if fields == [] {
          assert t[1] == Mark('}') && t[2..] == rest;
        } else {
          FieldsRead(fields, rest);
          assert t[1] == ShowFields(fields)[0];
        }
    }
  }

  lemma OneItemReads(t: seq<Token>, item: Tree, rest: seq<Token>)
    requires ReadTree(t) == Some((item, [Mark(']')] + rest))
    ensures ReadItems(t) == Some(([item], rest))
  {
    hide ReadTree;
    assert ([Mark(']')] + rest)[1..] == rest;
  }

  lemma MoreItemsRead(t: seq<Token>, item: Tree, tail: seq<Token>, items: seq<Tree>, rest: seq<Token>)
    requires ReadTree(t) == Some((item, [Mark(',')] + tail)) && ReadItems(tail) == Some((items, rest))
    ensures ReadItems(t) == Some(([item] + items, rest))
  {
    hide ReadTree;
    assert ([Mark(',')] + tail)[1..] == tail;
  }

  lemma {:induction false} ItemsRead(items: seq<Tree>, rest: seq<Token>)
    requires items != [] && forall k | 0 <= k < |items| :: Proper(items[k])
    ensures ReadItems(ShowItems(items) + [Mark(']')] + rest) == Some((items, rest))
    decreases items, 0
  {
    hide Proper, Show, ReadTree, ReadItems;
    var t := ShowItems(items) + [Mark(']')] + rest;
    if |items| == 1 {
      ShownReads(items[0], [Mark(']')] + rest);
      assert t == Show(items[0]) + ([Mark(']')] + rest) && items == [items[0]];
      OneItemReads(t, items[0], rest);
    } else {
      var tail := ShowItems(items[1..]) + [Mark(']')] + rest;
      ShownReads(items[0], [Mark(',')] + tail);
      ItemsRead(items[1..], rest);
      assert t == Show(items[0]) + ([Mark(',')] + tail) && items == [items[0]] + items[1..];
      MoreItemsRead(t, items[0], tail, items[1..], rest);
    }
  }

  lemma OneFieldReads(t: seq<Token>, field: Field, rest: seq<Token>)
    requires |t| > 1 && t[0] == Str(field.key) && t[1] == Mark(':')
    requires ReadTree(t[2..]) == Some((field.value, [Mark('}')] + rest))
    ensures ReadFields(t) == Some(([field], rest))
  {
    hide ReadTree;
    assert ([Mark('}')] + rest)[1..] == rest;
  }

  lemma MoreFieldsRead(t: seq<Token>, field: Field, tail: seq<Token>, fields: seq<Field>, rest: seq<Token>)
    requires |t| > 1 && t[0] == Str(field.key) && t[1] == Mark(':')
    requires ReadTree(t[2..]) == Some((field.value, [Mark(',')] + tail)) && ReadFields(tail) == Some((fields, rest))
    ensures ReadFields(t) == Some(([field] + fields, rest))
  {
    hide ReadTree;
    assert ([Mark(',')] + tail)[1..] == tail;
  }

  lemma FieldStart(field: Field, rest: seq<Token>)
    ensures var t := ShowField(field) + rest;
      |t| > 1 && t[0] == Str(field.key) && t[1] == Mark(':') && t[2..] == Show(field.value) + rest
  {
    hide Show;
  }

  lemma {:induction false} FieldsRead(fields: seq<Field>, rest: seq<Token>)
    requires fields != [] && forall k | 0 <= k < |fields| :: Proper(fields[k].value)
    ensures ReadFields(ShowFields(fields) + [Mark('}')] + rest) == Some((fields, rest))
    decreases fields, 0
  {
    hide Proper, Show, ShowField, ReadTree, ReadFields;
    var t, value := ShowFields(fields) + [Mark('}')] + rest, fields[0].value;
    if |fields| == 1 {
      ShownReads(value, [Mark('}')] + rest);
      FieldStart(fields[0], [Mark('}')] + rest);
      assert t == ShowField(fields[0]) + ([Mark('}')] + rest) && fields == [fields[0]];
      OneFieldReads(t, fields[0], rest);
    } else {
      var tail := ShowFields(fields[1..]) + [Mark('}')] + rest;
      ShownReads(value, [Mark(',')] + tail);
      FieldStart(fields[0], [Mark(',')] + tail);
      FieldsRead(fields[1..], rest);
      assert t == ShowField(fields[0]) + ([Mark(',')] + tail) && fields == [fields[0]] + fields[1..];
      MoreFieldsRead(t, fields[0], tail, fields[1..], rest);
    }
  }

  // ---------- What is read was shown ----------

  lemma {:induction false} ReadWasShown(t: seq<Token>)
    ensures ReadTree(t).Some? ==>
      Proper(ReadTree(t).value.0) && t == Show(ReadTree(t).value.0) + ReadTree(t).value.1
    decreases |t|, 1
  {
    hide IsLiteral;
    if ReadTree(t).Some? {
      if t[0].Mark? && |t| > 1 {
        var rest := t[1..];
        if t[0] == Mark('[') && t[1] != Mark(']') {
          ItemsWereShown(rest);
          assert t == [t[0]] + rest;
        } else if t[0] == Mark('{') && t[1] != Mark('}') {
          FieldsWereShown(rest);
          assert t == [t[0]] + rest;
        } else {
          assert t == [t[0], t[1]] + t[2..];
        }
      } else {
        assert t == [t[0]] + t[1..];
      }
    }
  }

  lemma {:induction false} ItemsWereShown(t: seq<Token>)
    ensures ReadItems(t).Some? ==>
      && (forall k | 0 <= k < |ReadItems(t).value.0| :: Proper(ReadItems(t).value.0[k]))
      && t == ShowItems(ReadItems(t).value.0) + [Mark(']')] + ReadItems(t).value.1
    decreases |t|, 2
  {
    hide Proper, Show, ReadTree, ShowItems;
    if ReadItems(t).Some? {
      ReadWasShown(t);
      var first := ReadTree(t).value;
      var item, after := first.0, first.1;
      if after[0] == Mark(',') {
        ItemsWereShown(after[1..]);
        var more := ReadItems(after[1..]).value;
        ItemsShown(item, more.0);
        assert after == [Mark(',')] + after[1..];
        assert t == Show(item) + [Mark(',')] + ShowItems(more.0) + [Mark(']')] + more.1;
      } else {
        ItemsShown(item, []);
        assert after == [Mark(']')] + after[1..] && [item] + [] == [item];
      }
    }
  }

  lemma ItemsShown(item: Tree, items: seq<Tree>)
    ensures ShowItems([item] + items) == Show(item) + if items == [] then [] else [Mark(',')] + ShowItems(items)
  {
    hide Show;
    assert ([item] + items)[1..] == items;
  }

  lemma FieldsShown(field: Field, fields: seq<Field>)
    ensures ShowFields([field] + fields) ==
      ShowField(field) + if fields == [] then [] else [Mark(',')] + ShowFields(fields)
  {
    hide ShowField;
    assert ([field] + fields)[1..] == fields;
  }

  lemma MoreFieldsShown(field: Field, after: seq<Token>, fields: seq<Field>, rest: seq<Token>)
    requires after == [Mark(',')] + ShowFields(fields) + [Mark('}')] + rest && fields != []
    ensures ShowField(field) + after == ShowFields([field] + fields) + [Mark('}')] + rest
  {
    hide ShowField, ShowFields;
    FieldsShown(field, fields);
  }

  lemma LastFieldShown(field: Field, rest: seq<Token>)
    ensures ShowField(field) + ([Mark('}')] + rest) == ShowFields([field]) + [Mark('}')] + rest
  {
    hide ShowField;
    FieldsShown(field, []);
    assert [field] + [] == [field];
  }

  lemma {:induction false} FieldsWereShown(t: seq<Token>)
    ensures ReadFields(t).Some? ==>
      && ReadFields(t).value.0 != []
      && (forall k | 0 <= k < |ReadFields(t).value.0| :: Proper(ReadFields(t).value.0[k].value))
      && t == ShowFields(ReadFields(t).value.0) + [Mark('}')] + ReadFields(t).value.1
    decreases |t|, 2
  {
    hide Proper, Show, ReadTree, ShowFields;
    if ReadFields(t).Some? {
      ReadWasShown(t[2..]);
      var first := ReadTree(t[2..]).value;
      var field, after := Field(t[0].content, first.0), first.1;
      assert t == [t[0], t[1]] + t[2..];
      assert t == ShowField(field) + after;
      hide ShowField;
      if after[0] == Mark(',') {
        FieldsWereShown(after[1..]);
        var more := ReadFields(after[1..]).value;
        assert after == [Mark(',')] + after[1..];
        MoreFieldsShown(field, after, more.0, more.1);
      } else {
        assert after == [Mark('}')] + after[1..];
        LastFieldShown(field, after[1..]);
      }
    }
  }

  /** A text is read as a tree exactly when its tokens are those that show the tree. */
  lemma ReadsExactly(t: seq<Token>, tree: Tree)
    ensures ReadAll(t) == Some(tree) <==> Proper(tree) && t == Show(tree)
  {
    hide Proper, Show;
    ReadWasShown(t);
    if Proper(tree) && t == Show(tree) {
      ShownReads(tree, []);
      assert t == Show(tree) + [];
    }
    if ReadAll(t) == Some(tree) {
      assert Show(tree) + [] == Show(tree);
    }
  }

  // ---------- What no JSON text holds ----------

  /** Every word is a literal, and no string stands between two colons. */
  ghost predicate Sound(t: seq<Token>) {
    && (forall k | 0 <= k < |t| && t[k].Word? :: IsLiteral(t[k].text))
    && forall i, j, k | 0 <= i < j < k < |t| && j == i + 1 && k == j + 1 ::
      !(t[i] == Mark(':') && t[j].Str? && t[k] == Mark(':'))
  }

  predicate StartsWithColon(t: seq<Token>) { t != [] && t[0] == Mark(':') }

  predicate EndsWithColon(t: seq<Token>) { t != [] && t[|t| - 1] == Mark(':') }

  lemma SoundConcat(a: seq<Token>, b: seq<Token>)
    requires Sound(a) && Sound(b) && !EndsWithColon(a) && !StartsWithColon(b)
    ensures Sound(a + b)
  {
    hide IsLiteral;
  }

  lemma SoundPart(a: seq<Token>, b: seq<Token>, c: seq<Token>)
    requires Sound(a + b + c)
    ensures Sound(b)
  {
    hide IsLiteral;
    var t := a + b + c;
    assert forall k | 0 <= k < |b| :: b[k] == t[|a| + k];
  }

  /** Complete tokens: sound, and neither starting nor ending with a colon. */
  ghost predicate Whole(t: seq<Token>) { Sound(t) && !StartsWithColon(t) && !EndsWithColon(t) }

  lemma WholeConcat(a: seq<Token>, b: seq<Token>)
    requires Whole(a) && Whole(b)
    ensures Whole(a + b)
  {
    hide Sound;
    SoundConcat(a, b);
    if a == [] {
      assert a + b == b;
    } else if b == [] {
      assert a + b == a;
    }
  }

  lemma OneIsWhole(token: Token)
    requires token != Mark(':') && (token.Word? ==> IsLiteral(token.text))
    ensures Whole([token])
  {
    hide IsLiteral;
  }

  lemma {:induction false} ShownIsWhole(tree: Tree)
    requires Proper(tree)
    ensures Whole(Show(tree)) && (Show(tree)[0].Str? ==> |Show(tree)| == 1)
    decreases tree, 1
  {
    hide Whole, IsLiteral;
    match tree {
      case Scalar(word) => OneIsWhole(Word(word));
      case Text(content) => OneIsWhole(Str(content));
      case List(items) =>
        ItemsAreWhole(items);
        OneIsWhole(Mark('['));
        OneIsWhole(Mark(']'));
        WholeConcat([Mark('[')], ShowItems(items));
        WholeConcat([Mark('[')] + ShowItems(items), [Mark(']')]);
      case Record(fields) =>
        FieldsAreWhole(fields);
        OneIsWhole(Mark('{'));
        OneIsWhole(Mark('}'));
        WholeConcat([Mark('{')], ShowFields(fields));
        WholeConcat([Mark('{')] + ShowFields(fields), [Mark('}')]);
    }
  }

  lemma {:induction false} ItemsAreWhole(items: seq<Tree>)
    requires forall k | 0 <= k < |items| :: Proper(items[k])
    ensures Whole(ShowItems(items))
    decreases items, 0
  {
    hide Whole, Proper, Show;
    if items == [] {
      NothingIsWhole();
    } else {
      ShownIsWhole(items[0]);
      if |items| > 1 {
        ItemsAreWhole(items[1..]);
        OneIsWhole(Mark(','));
        WholeConcat(Show(items[0]), [Mark(',')]);
        WholeConcat(Show(items[0]) + [Mark(',')], ShowItems(items[1..]));
      }
    }
  }

  lemma NothingIsWhole()
    ensures Whole([])
  {
  }

  lemma FieldIsWhole(field: Field)
    requires Whole(Show(field.value)) && (Show(field.value)[0].Str? ==> |Show(field.value)| == 1)
    ensures Whole(ShowField(field))
  {
    hide Show, IsLiteral;
    var t, value := ShowField(field), Show(field.value);
    assert forall k | 2 <= k < |t| :: t[k] == value[k - 2];
  }

  lemma {:induction false} FieldsAreWhole(fields: seq<Field>)
    requires forall k | 0 <= k < |fields| :: Proper(fields[k].value)
    ensures Whole(ShowFields(fields))
    decreases fields, 0
  {
    hide Whole, Proper, Show, ShowField;
    if fields == [] {
      NothingIsWhole();
    } else {
      ShownIsWhole(fields[0].value);
      FieldIsWhole(fields[0]);
      if |fields| > 1 {
        FieldsAreWhole(fields[1..]);
        OneIsWhole(Mark(','));
        WholeConcat(ShowField(fields[0]), [Mark(',')]);
        WholeConcat(ShowField(fields[0]) + [Mark(',')], ShowFields(fields[1..]));
      }
    }
  }

  // ---------- So no key is the value of a key ----------

  lemma {:induction false} LineTokensAt(line: Parts, m: nat)
    requires 2 * m <= |line|
    ensures LineTokens(line) == LineTokens(line[..2 * m]) + LineTokens(line[2 * m..])
    decreases m
  {
    if m == 0 {
      assert line[..0] == [] && line[0..] == line;
    } else {
      LineTokensAt(line[2..], m - 1);
      assert line[2..][..2 * m - 2] == line[..2 * m][2..];
      assert line[2..][2 * m - 2..] == line[2 * m..];
    }
  }

  lemma {:induction false} TextTokensAt(lines: seq<Parts>, l: nat)
    requires l < |lines|
    ensures TextTokens(lines) == TextTokens(lines[..l]) + LineTokens(lines[l]) + TextTokens(lines[l + 1..])
  {
    hide LineTokens;
    if l == 0 {
      assert lines[..0] == [];
    } else {
      TextTokensAt(lines[1..], l - 1);
      assert lines[1..][..l - 1] == lines[..l][1..] && lines[1..][l..] == lines[l + 1..];
    }
  }

  /** A word that is no literal of JSON. */
  predicate IsName(s: string) {
    && s != "" && s != "true" && s != "false" && s != "null"
    && forall k | 0 <= k < |s| :: Lower(s[k]) || 'A' <= s[k] <= 'Z'
  }

  predicate HasBadWord(t: seq<Token>) { exists k | 0 <= k < |t| :: t[k].Word? && !IsLiteral(t[k].text) }

  lemma {:induction false} WholeWord(s: string)
    requires forall k | 0 <= k < |s| :: !IsMark(s[k]) && !IsBlank(s[k])
    ensures WordLength(s) == |s|
  {
    if s != "" {
      WholeWord(s[1..]);
    }
  }

  lemma NameIsBadWord(s: string)
    requires IsName(s)
    ensures Marks(s) == [Word(s)] && HasBadWord(Marks(s))
  {
    WholeWord(s);
    assert s[..|s|] == s && Marks(s[|s|..]) == [];
    assert Marks(s)[0] == Word(s);
  }

  /** White space gives no tokens, or a word, if it is none of JSON's. */
  lemma {:induction false} SpacesGiveNothing(s: string)
    requires forall k | 0 <= k < |s| :: Space(s[k])
    ensures Marks(s) == [] || HasBadWord(Marks(s))
  {
    if s != "" {
      if IsBlank(s[0]) {
        SpacesGiveNothing(s[1..]);
      } else {
        assert Marks(s)[0] == Word(s[..WordLength(s)]);
      }
    }
  }

  lemma {:induction false} SeparatorGivesColon(s: string)
    requires Separator(s)
    ensures Marks(s) == [Mark(':')] || HasBadWord(Marks(s))
  {
    var c :| 0 <= c < |s| && s[c] == ':' && forall k | 0 <= k < |s| && k != c :: Space(s[k]);
    if c == 0 {
      SpacesGiveNothing(s[1..]);
      if HasBadWord(Marks(s[1..])) {
        var k :| 0 <= k < |Marks(s[1..])| && Marks(s[1..])[k].Word? && !IsLiteral(Marks(s[1..])[k].text);
        assert Marks(s)[k + 1] == Marks(s[1..])[k];
      }
    } else if IsBlank(s[0]) {
      assert s[1..][c - 1] == ':' && forall k | 0 <= k < |s[1..]| && k != c - 1 :: Space(s[1..][k]);
      SeparatorGivesColon(s[1..]);
    } else {
      assert Marks(s)[0] == Word(s[..WordLength(s)]);
    }
  }

  lemma BadWordIsUnsound(a: seq<Token>, b: seq<Token>, c: seq<Token>)
    requires HasBadWord(b)
    ensures !Sound(a + b + c)
  {
    hide IsLiteral;
    if Sound(a + b + c) {
      SoundPart(a, b, c);
    }
  }

  /** A text that reads has no name as the value of a name on a line. */
  lemma NoNameAfterName(lines: seq<Parts>, l: nat, a: string, b: string, i: nat)
    requires PlainText(lines) && ReadPlain(lines).Some? && l < |lines| && IsName(a) && IsName(b)
    ensures !(KeyAt(lines[l], a, i) && KeyAt(lines[l], b, i + 2))
  {
    hide Separator, IsLiteral, Sound, HasBadWord, IsName, ReadTree, Marks, Show, Proper;
    var line, t := lines[l], TextTokens(lines);
    if KeyAt(line, a, i) && KeyAt(line, b, i + 2) {
      ReadsExactly(t, ReadPlain(lines).value);
      ShownIsWhole(ReadPlain(lines).value);
      TextTokensAt(lines, l);
      SoundPart(TextTokens(lines[..l]), LineTokens(line), TextTokens(lines[l + 1..]));
      NamesAreUnsound(line, a, b, i);
    }
  }

  lemma FirstTokens(line: Parts)
    requires |line| > 1
    ensures LineTokens(line) == Marks(line[0]) + [Str(line[1])] + LineTokens(line[2..])
  {
    hide Marks;
  }

  lemma NamesAreUnsound(line: Parts, a: string, b: string, i: nat)
    requires KeyAt(line, a, i) && KeyAt(line, b, i + 2) && IsName(a) && IsName(b)
    ensures !Sound(LineTokens(line))
  {
    hide Separator, IsLiteral, Sound, HasBadWord, IsName, Marks, LineTokens;
    if i % 2 == 0 {
      LineTokensAt(line, i / 2);
      NameIsBadWord(a);
      StartsUnsound(LineTokens(line[..i]), line[i..]);
    } else {
      LineTokensAt(line, (i + 1) / 2);
      ColonsAreUnsound(LineTokens(line[..i + 1]), line[i + 1..]);
    }
  }

  lemma StartsUnsound(before: seq<Token>, rest: Parts)
    requires |rest| > 1 && HasBadWord(Marks(rest[0]))
    ensures !Sound(before + LineTokens(rest))
  {
    hide IsLiteral, Sound, HasBadWord, Marks, LineTokens;
    FirstTokens(rest);
    var after := [Str(rest[1])] + LineTokens(rest[2..]);
    BadWordIsUnsound(before, Marks(rest[0]), after);
    assert before + LineTokens(rest) == before + Marks(rest[0]) + after;
  }

  lemma ColonsTooClose(before: seq<Token>, content: string, after: seq<Token>)
    ensures !Sound(before + [Mark(':'), Str(content), Mark(':')] + after)
  {
    hide IsLiteral;
    var t, n := before + [Mark(':'), Str(content), Mark(':')] + after, |before|;
    assert t[n] == Mark(':') && t[n + 1] == Str(content) && t[n + 2] == Mark(':');
  }

  lemma TwoFirstTokens(rest: Parts)
    requires |rest| > 3
    ensures LineTokens(rest) ==
      Marks(rest[0]) + [Str(rest[1])] + Marks(rest[2]) + ([Str(rest[3])] + LineTokens(rest[4..]))
  {
    hide Marks, LineTokens;
    FirstTokens(rest);
    FirstTokens(rest[2..]);
    assert rest[2..][2..] == rest[4..];
  }

  lemma SeparatedUnsound(before: seq<Token>, first: seq<Token>, content: string, second: seq<Token>, after: seq<Token>)
    requires first == [Mark(':')] || HasBadWord(first)
    requires second == [Mark(':')] || HasBadWord(second)
    ensures !Sound(before + (first + [Str(content)] + second + after))
  {
    hide HasBadWord, Sound;
    var t := before + (first + [Str(content)] + second + after);
    if HasBadWord(first) {
      BadWordIsUnsound(before, first, [Str(content)] + second + after);
      assert t == before + first + ([Str(content)] + second + after);
    } else if HasBadWord(second) {
      BadWordIsUnsound(before + first + [Str(content)], second, after);
      assert t == before + first + [Str(content)] + second + after;
    } else {
      ColonsTooClose(before, content, after);
      assert t == before + [Mark(':'), Str(content), Mark(':')] + after;
    }
  }

  lemma ColonsAreUnsound(before: seq<Token>, rest: Parts)
    requires |rest| > 3 && Separator(rest[0]) && Separator(rest[2])
    ensures !Sound(before + LineTokens(rest))
  {
    SeparatorGivesColon(rest[0]);
    SeparatorGivesColon(rest[2]);
    TwoFirstTokens(rest);
    hide *;
    SeparatedUnsound(before, Marks(rest[0]), rest[1], Marks(rest[2]), [Str(rest[3])] + LineTokens(rest[4..]));
  }
}
