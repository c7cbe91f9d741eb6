/**
 A second account of the tokens of the registry text: numbers by the grammar of section 6 of RFC 8259,
 and marks and words by how they may be laid out.
 */
module JsonTokens {
  import opened Basics
  import opened Texts
  import opened QuotedText
  import opened RegistryJson

  // ---------- Numbers ----------

  predicate AllDigits(s: string) { forall k | 0 <= k < |s| :: '0' <= s[k] <= '9' }

  predicate Digits(s: string) { s != "" && AllDigits(s) }

  /** `0` or `[1-9][0-9]*` */
  predicate Whole(s: string) { Digits(s) && (s[0] == '0' ==> |s| == 1) }

  /** `(\.[0-9]+)?` */
  predicate Fraction(s: string) { s == "" || (s[0] == '.' && Digits(s[1..])) }

  /** `([eE][+-]?[0-9]+)?` */
  predicate Exponent(s: string) {
    s == "" ||
    (s[0] in "eE" && (Digits(s[1..]) || (|s| > 1 && s[1] in "+-" && Digits(s[2..]))))
  }

  /** `-?`, a whole number, a fraction and an exponent. */
  ghost predicate Numeral(s: string) {
    exists sign, whole, fraction, exponent | sign in {"", "-"} && s == sign + (whole + (fraction + exponent)) ::
      Whole(whole) && Fraction(fraction) && Exponent(exponent)
  }

  lemma {:induction false} SkipSplits(s: string) returns (digits: string)
    ensures s == digits + SkipDigits(s) && AllDigits(digits)
    ensures SkipDigits(s) != "" ==> !Digit(SkipDigits(s)[0])
    ensures s != "" && Digit(s[0]) ==> digits != "" && digits[0] == s[0]
  {
    if s == "" || !Digit(s[0]) {
      digits := "";
    } else {
      var rest := SkipSplits(s[1..]);
      digits := [s[0]] + rest;
    }
  }

  lemma {:induction false} SkipRun(digits: string, rest: string)
    requires AllDigits(digits) && (rest != "" ==> !Digit(rest[0]))
    ensures SkipDigits(digits + rest) == rest
  {
    if digits == "" {
      assert digits + rest == rest;
    } else {
      SkipRun(digits[1..], rest);
      assert (digits + rest)[1..] == digits[1..] + rest;
    }
  }

  lemma SkipAll(s: string)
    ensures SkipDigits(s) == "" <==> AllDigits(s)
  {
    hide SkipDigits;
    var digits := SkipSplits(s);
    if AllDigits(s) {
      SkipRun(s, "");
      assert s + "" == s;
    }
  }

  lemma ExponentExactly(s: string)
    ensures IsExponent(s) <==> Exponent(s)
  {
    hide SkipDigits;
    if |s| > 1 {
      SkipAll(s[1..]);
      SkipAll(s[2..]);
      if s[1] == '+' || s[1] == '-' {
        assert s[1..][0] == s[1];
      }
    }
  }

  lemma FractionExactly(s: string)
    ensures IsFraction(s) <==> exists fraction, exponent | s == fraction + exponent ::
      Fraction(fraction) && Exponent(exponent)
  {
    hide SkipDigits, IsExponent;
    ExponentExactly(s);
    if s != "" && s[0] == '.' {
      var digits := SkipSplits(s[1..]);
      var rest := SkipDigits(s[1..]);
      ExponentExactly(rest);
      assert s == ['.'] + digits + rest;
      assert (['.'] + digits)[1..] == digits;
      if IsFraction(s) {
        assert Fraction(['.'] + digits) && Exponent(rest);
      }
    } else if IsFraction(s) {
      assert s == "" + s && Fraction("");
    }
    if fraction, exponent :| s == fraction + exponent && Fraction(fraction) && Exponent(exponent) {
      FractionIsRead(fraction, exponent);
    }
  }

  lemma FractionIsRead(fraction: string, exponent: string)
    requires Fraction(fraction) && Exponent(exponent)
    ensures IsFraction(fraction + exponent)
  {
    hide SkipDigits, IsExponent;
    var s := fraction + exponent;
    ExponentExactly(exponent);
    if fraction == "" {
      assert s == exponent;
    } else {
      SkipRun(fraction[1..], exponent);
      assert s[1..] == fraction[1..] + exponent && s[1] == fraction[1..][0];
    }
  }

  lemma FractionStart(rest: string)
    requires IsFraction(rest) && rest != ""
    ensures !Digit(rest[0])
  {
    hide SkipDigits;
  }

  lemma WholeIsRead(whole: string, rest: string)
    requires Whole(whole) && IsFraction(rest)
    ensures IsNumber(whole + rest) && IsNumber(['-'] + (whole + rest))
  {
    hide SkipDigits, IsFraction;
    var s := whole + rest;
    if rest != "" {
      FractionStart(rest);
    }
    SkipRun(whole, rest);
    assert whole[0] == '0' ==> s[1..] == rest;
    assert (['-'] + s)[1..] == s;
  }

  lemma NumberSplits(s: string)
    requires IsNumber(s)
    ensures Numeral(s)
  {
    hide SkipDigits, IsFraction, Fraction, Exponent, Numeral;
    var sign := if s != "" && s[0] == '-' then "-" else "";
    var digits := s[|sign|..];
    var run := SkipSplits(digits);
    var whole := if digits[0] == '0' then "0" else run;
    var rest := digits[|whole|..];
    assert digits == whole + rest && Whole(whole);
    assert IsFraction(rest);
    hide IsNumber, Whole;
    FractionExactly(rest);
    var fraction, exponent :| rest == fraction + exponent && Fraction(fraction) && Exponent(exponent);
    PartsMakeNumeral(s, sign, whole, fraction, exponent);
  }

  lemma PartsMakeNumeral(s: string, sign: string, whole: string, fraction: string, exponent: string)
    requires sign in {"", "-"} && s == sign + (whole + (fraction + exponent))
    requires Whole(whole) && Fraction(fraction) && Exponent(exponent)
    ensures Numeral(s)
  {
    hide Whole, Fraction, Exponent;
  }

  /** The numbers that are read are those of the grammar. */
  lemma NumberExactly(s: string)
    ensures IsNumber(s) <==> Numeral(s)
  {
    hide IsNumber, IsFraction, Whole, Fraction, Exponent;
    if IsNumber(s) {
      NumberSplits(s);
    }
    if Numeral(s) {
      var sign, whole, fraction, exponent :| sign in {"", "-"} && s == sign + (whole + (fraction + exponent))
        && Whole(whole) && Fraction(fraction) && Exponent(exponent);
      FractionIsRead(fraction, exponent);
      WholeIsRead(whole, fraction + exponent);
      assert "" + (whole + (fraction + exponent)) == whole + (fraction + exponent);
    }
  }

  /** The words that are values. */
  lemma LiteralExactly(word: string)
    ensures IsLiteral(word) <==> word in ["true", "false", "null"] || Numeral(word)
  {
    hide IsNumber, Numeral;
    NumberExactly(word);
  }

  // ---------- Layout ----------

  predicate Blanks(s: string) { forall k | 0 <= k < |s| :: s[k] in " \t\n\r" }

  /** What a mark or a word is written as. */
  predicate Writes(token: Token, s: string) {
    match token
    case Mark(c) => s == [c] && c in "{}[],:"
    case Word(text) => s == text != "" && forall k | 0 <= k < |s| :: s[k] !in "{}[],: \t\n\r"
    case Str(_) => false
  }

  /** White space, the token, and after a word its end. */
  predicate StartsWith(s: string, token: Token, from: nat, to: nat) {
    && from < to <= |s| && Blanks(s[..from]) && Writes(token, s[from..to])
    && (token.Word? && to < |s| ==> s[to] in "{}[],: \t\n\r")
  }

  /** The text is these marks and words, with white space between them. */
  ghost predicate LaidOut(s: string, tokens: seq<Token>)
    decreases |tokens|
  {
    if tokens == [] then Blanks(s)
    else exists from: nat, to: nat | StartsWith(s, tokens[0], from, to) :: LaidOut(s[to..], tokens[1..])
  }

  lemma CharactersExactly(c: char)
    ensures IsMark(c) <==> c in "{}[],:"
    ensures IsBlank(c) <==> c in " \t\n\r"
    ensures IsMark(c) || IsBlank(c) <==> c in "{}[],: \t\n\r"
  {
  }

  lemma {:induction false} WordLengthStops(s: string)
    ensures forall k | 0 <= k < WordLength(s) :: !IsMark(s[k]) && !IsBlank(s[k])
    ensures WordLength(s) < |s| ==> IsMark(s[WordLength(s)]) || IsBlank(s[WordLength(s)])
  {
    hide IsMark, IsBlank;
    if WordLength(s) > 0 {
      WordLengthStops(s[1..]);
      assert forall k | 0 < k < |s| :: s[k] == s[1..][k - 1];
    }
  }

  lemma {:induction false} WordLengthExactly(s: string, n: nat)
    requires n <= |s| && (forall k | 0 <= k < n :: !IsMark(s[k]) && !IsBlank(s[k]))
    requires n < |s| ==> IsMark(s[n]) || IsBlank(s[n])
    ensures WordLength(s) == n
  {
    hide IsMark, IsBlank;
    if n > 0 {
      WordLengthExactly(s[1..], n - 1);
    }
  }

  lemma {:induction false} BlanksAreSkipped(s: string, from: nat)
    requires from <= |s| && Blanks(s[..from])
    ensures Marks(s) == Marks(s[from..])
  {
    if from > 0 {
      CharactersExactly(s[0]);
      assert s[..from][0] == s[0];
      assert s[1..][..from - 1] == s[..from][1..];
      BlanksAreSkipped(s[1..], from - 1);
      assert s[1..][from - 1..] == s[from..];
    } else {
      assert s[0..] == s;
    }
  }

  lemma TokenIsRead(s: string, token: Token, from: nat, to: nat)
    requires StartsWith(s, token, from, to)
    ensures Marks(s) == [token] + Marks(s[to..])
  {
    BlanksAreSkipped(s, from);
    forall c ensures (IsMark(c) <==> c in "{}[],:") && (IsMark(c) || IsBlank(c) <==> c in "{}[],: \t\n\r") {
      CharactersExactly(c);
    }
    hide IsMark, IsBlank;
    var rest := s[from..];
    assert rest[..to - from] == s[from..to] && rest[to - from..] == s[to..];
    assert rest[0] == s[from..to][0];
    if token.Word? {
      assert forall k | 0 <= k < to - from :: rest[k] == s[from..to][k];
      WordLengthExactly(rest, to - from);
    }
  }

  lemma {:induction false} LaidOutIsRead(s: string, tokens: seq<Token>)
    requires LaidOut(s, tokens)
    ensures Marks(s) == tokens
    decreases |tokens|
  {
    hide Marks, Blanks, Writes;
    if tokens == [] {
      BlanksGiveNothing(s);
    } else {
      var from: nat, to: nat :| StartsWith(s, tokens[0], from, to) && to <= |s| && LaidOut(s[to..], tokens[1..]);
      TokenIsRead(s, tokens[0], from, to);
      LaidOutIsRead(s[to..], tokens[1..]);
    }
  }

  lemma BlanksGiveNothing(s: string)
    requires Blanks(s)
    ensures Marks(s) == []
  {
    assert s[..|s|] == s;
    BlanksAreSkipped(s, |s|);
  }

  /** The first token that is read, and where it stands. */
  lemma {:induction false} FirstToken(s: string) returns (from: nat, to: nat)
    requires Marks(s) != []
    ensures StartsWith(s, Marks(s)[0], from, to) && Marks(s)[1..] == Marks(s[to..])
    decreases |s|
  {
    CharactersExactly(s[0]);
    if IsBlank(s[0]) {
      from, to := FirstToken(s[1..]);
      StartsLater(s, Marks(s)[0], from, to);
      assert s[1..][to..] == s[to + 1..];
      from, to := from + 1, to + 1;
    } else if IsMark(s[0]) {
      from, to := 0, 1;
    } else {
      from, to := 0, WordLength(s);
      WordStarts(s);
    }
  }

  lemma StartsLater(s: string, token: Token, from: nat, to: nat)
    requires s != "" && IsBlank(s[0]) && StartsWith(s[1..], token, from, to)
    ensures StartsWith(s, token, from + 1, to + 1)
  {
    CharactersExactly(s[0]);
    var rest := s[1..];
    assert s == [s[0]] + rest;
    assert s[..from + 1] == [s[0]] + rest[..from];
    assert forall k | from <= k < to :: rest[k] == s[k + 1];
    assert s[from + 1..to + 1] == rest[from..to];
  }

  lemma WordStarts(s: string)
    requires s != "" && !IsMark(s[0]) && !IsBlank(s[0])
    ensures StartsWith(s, Word(s[..WordLength(s)]), 0, WordLength(s))
  {
    WordLengthStops(s);
    forall c ensures IsMark(c) || IsBlank(c) <==> c in "{}[],: \t\n\r" {
      CharactersExactly(c);
    }
    hide IsMark, IsBlank, WordLength;
    assert s[0..WordLength(s)] == s[..WordLength(s)];
  }

  lemma {:induction false} ReadIsLaidOut(s: string)
    ensures LaidOut(s, Marks(s))
    decreases |s|
  {
    hide StartsWith, Blanks;
    if Marks(s) == [] {
      NothingIsBlanks(s);
    } else {
      var from, to := FirstToken(s);
      TokenMoves(s, Marks(s)[0], from, to);
      hide Marks;
      ReadIsLaidOut(s[to..]);
    }
  }

  lemma TokenMoves(s: string, token: Token, from: nat, to: nat)
    requires StartsWith(s, token, from, to)
    ensures 0 < to <= |s|
  {
  }

  lemma {:induction false} NothingIsBlanks(s: string)
    requires Marks(s) == []
    ensures Blanks(s)
    decreases |s|
  {
    if s != "" {
      CharactersExactly(s[0]);
      NothingIsBlanks(s[1..]);
      assert forall k | 0 < k < |s| :: s[k] == s[1..][k - 1];
    }
  }

  /** The tokens of a text between strings are those it is laid out as. */
  lemma MarksExactly(s: string, tokens: seq<Token>)
    ensures Marks(s) == tokens <==> LaidOut(s, tokens)
  {
    hide Marks, LaidOut;
    ReadIsLaidOut(s);
    if LaidOut(s, tokens) {
      LaidOutIsRead(s, tokens);
    }
  }

  // ---------- Plain lines ----------

  predicate InParts(parts: seq<string>, c: char) { exists k | 0 <= k < |parts| :: c in parts[k] }

  /** There is one part more than separators, and every other character is in some part. */
  lemma {:induction false} PartsExactly(s: string, separator: char, c: char)
    requires c != separator
    ensures |Split(s, separator)| == 1 + multiset(s)[separator]
    ensures c in s <==> InParts(Split(s, separator), c)
  {
    if s != "" {
      PartsExactly(s[1..], separator, c);
      assert s == [s[0]] + s[1..];
      FirstPartHolds(s[0], Split(s[1..], separator), separator, c);
      assert Split(s, separator) == Prepended(s[0], Split(s[1..], separator), separator);
    }
  }

  lemma FirstPartHolds(first: char, rest: seq<string>, separator: char, c: char)
    requires c != separator && rest != []
    ensures InParts(Prepended(first, rest, separator), c) <==> c == first || InParts(rest, c)
  {
    var parts := Prepended(first, rest, separator);
    if first == separator {
      forall k | 0 <= k < |rest| ensures parts[k + 1] == rest[k] {
      }
      if InParts(rest, c) {
        var k :| 0 <= k < |rest| && c in rest[k];
        assert c in parts[k + 1];
      }
      if InParts(parts, c) {
        var k :| 0 <= k < |parts| && c in parts[k];
        assert c in rest[k - 1];
      }
    } else {
      assert forall k | 0 < k < |parts| :: parts[k] == rest[k];
      if InParts(rest, c) {
        var k :| 0 <= k < |rest| && c in rest[k];
        assert c in parts[k];
      }
      if c == first {
        assert c in parts[0];
      }
      if InParts(parts, c) {
        var k :| 0 <= k < |parts| && c in parts[k];
        assert k > 0 ==> c in rest[k];
      }
    }
  }

  /** The quotes of the line are closed on it, and it has no escape and no control character. */
  lemma PlainLineExactly(row: string)
    ensures PlainLine(PartsOf(row)) <==>
      multiset(row)['"'] % 2 == 0 && forall c | c in row :: c >= '\U{20}' && c != '\\'
  {
    hide Split;
    var parts := PartsOf(row);
    PartsExactly(row, '"', ' ');
    forall c | c != '"' ensures c in row <==> InParts(parts, c) {
      PartsExactly(row, '"', c);
    }
    if PlainLine(parts) {
      forall c | c in row ensures c >= '\U{20}' && c != '\\' {
        if c != '"' {
          var k :| 0 <= k < |parts| && c in parts[k];
        }
      }
    }
    if forall c | c in row :: c >= '\U{20}' && c != '\\' {
      forall k | 0 <= k < |parts| ensures Plain(parts[k]) {
        PartHasNo(row, k);
        forall j | 0 <= j < |parts[k]| ensures parts[k][j] >= ' ' && parts[k][j] != '\\' {
          var c := parts[k][j];
          assert c in parts[k] && c != '"';
          assert c in row;
        }
      }
    }
  }

  lemma PartHasNo(row: string, k: nat)
    requires k < |PartsOf(row)|
    ensures '"' !in PartsOf(row)[k]
  {
    SplitParts(row, '"');
    assert PartsOf(row)[k] in PartsOf(row);
  }
}
