/**
 Text as the parts between its quotes. Neither the key, nor the separator, nor the value of the
 pattern `"key"\s*:\s*"[^"]*"` holds a quote, so a match is three consecutive parts, and the first
 match of the text is the first such place in its parts.
 */
module QuotedText {
  import opened Basics
  import opened Texts

  /** The text before, between and after the quotes: at least one part, and none holds a quote. */
  type Parts = seq<string>

  function PartsOf(text: string): Parts { Split(text, '"') }

  function TextOf(parts: Parts): string
    requires parts != []
  {
    Joined(parts, '"')
  }

  /** The parts give the text back. */
  lemma PartsAreText(text: string)
    ensures TextOf(PartsOf(text)) == text
  {
    SplitJoins(text, '"');
  }

  // ---------- The pattern ----------

  /** `\s*:\s*` */
  predicate Separator(s: string) {
    exists c | 0 <= c < |s| :: s[c] == ':' && forall k | 0 <= k < |s| && k != c :: Space(s[k])
  }

  /** The pattern of this key matches after `before`. */
  predicate MatchesAfter(text: string, key: string, before: string, separator: string, value: string, after: string) {
    && text == before + ['"'] + (key + ['"'] + (separator + ['"'] + (value + ['"'] + after)))
    && Separator(separator) && '"' !in value
  }

  /** A key, a separator and a value at three consecutive parts, all between quotes. */
  predicate KeyAt(parts: Parts, key: string, i: nat) {
    1 <= i && i + 3 < |parts| && parts[i] == key && Separator(parts[i + 1])
  }

  function FindFrom(parts: Parts, key: string, i: nat): (k: nat)
    requires i <= |parts| && forall j | 0 <= j < i :: !KeyAt(parts, key, j)
    ensures i <= k <= |parts| && (k < |parts| ==> KeyAt(parts, key, k))
    ensures forall j | 0 <= j < k :: !KeyAt(parts, key, j)
    decreases |parts| - i
  {
    if i == |parts| || KeyAt(parts, key, i) then i else FindFrom(parts, key, i + 1)
  }

  /** The first place of the key, or the number of parts. */
  function FindKey(parts: Parts, key: string): (k: nat)
    ensures k <= |parts| && (k < |parts| ==> KeyAt(parts, key, k))
    ensures forall j | 0 <= j < k :: !KeyAt(parts, key, j)
  {
    FindFrom(parts, key, 0)
  }

  lemma SeparatorHasNoQuote(s: string)
    requires Separator(s)
    ensures '"' !in s
  {
  }

  lemma MatchIsPlace(text: string, key: string, before: string, separator: string, value: string, after: string)
    requires '"' !in key && MatchesAfter(text, key, before, separator, value, after)
    ensures PartsOf(text) == PartsOf(before) + [key, separator, value] + PartsOf(after)
    ensures KeyAt(PartsOf(text), key, |PartsOf(before)|)
  {
    hide Split, Separator;
    SeparatorHasNoQuote(separator);
    SplitParts(key, '"');
    SplitParts(separator, '"');
    SplitParts(value, '"');
    SplitConcat(value, after, '"');
    SplitConcat(separator, value + ['"'] + after, '"');
    SplitConcat(key, separator + ['"'] + (value + ['"'] + after), '"');
    SplitConcat(before, key + ['"'] + (separator + ['"'] + (value + ['"'] + after)), '"');
  }

  lemma JoinedStart(parts: Parts, k: nat)
    requires k + 1 < |parts|
    ensures TextOf(parts[k..]) == parts[k] + ['"'] + TextOf(parts[k + 1..])
  {
    assert parts[k..][1..] == parts[k + 1..];
  }

  /** The text around one place of its parts. */
  lemma PlaceIsMatch(parts: Parts, key: string, k: nat)
    requires KeyAt(parts, key, k) && '"' !in parts[k + 2]
    ensures MatchesAfter(TextOf(parts), key, TextOf(parts[..k]), parts[k + 1], parts[k + 2], TextOf(parts[k + 3..]))
  {
    hide Separator;
    JoinConcat(parts[..k], parts[k..], '"');
    assert parts[..k] + parts[k..] == parts;
    JoinedStart(parts, k);
    JoinedStart(parts, k + 1);
    JoinedStart(parts, k + 2);
  }

  /** The first place of the key is the pattern's first match in the text, and without one there is none. */
  lemma FirstMatch(text: string, key: string)
    requires '"' !in key
    ensures var parts, k := PartsOf(text), FindKey(PartsOf(text), key);
      k < |parts| ==> MatchesAfter(text, key, TextOf(parts[..k]), parts[k + 1], parts[k + 2], TextOf(parts[k + 3..]))
    ensures forall before, separator, value, after | MatchesAfter(text, key, before, separator, value, after) ::
      var parts, k := PartsOf(text), FindKey(PartsOf(text), key);
      0 < k < |parts| && |TextOf(parts[..k])| <= |before|
  {
    hide Split, MatchesAfter, Separator, TextOf;
    var parts, k := PartsOf(text), FindKey(PartsOf(text), key);
    PartsAreText(text);
    if k < |parts| {
      PartHasNoQuote(text, k);
      PlaceIsMatch(parts, key, k);
    }
    forall before, separator, value, after | MatchesAfter(text, key, before, separator, value, after)
      ensures 0 < k < |parts| && |TextOf(parts[..k])| <= |before|
    {
      MatchIsPlace(text, key, before, separator, value, after);
      LaterIsLonger(parts, before, k);
    }
  }

  lemma PartHasNoQuote(text: string, k: nat)
    requires k + 2 < |PartsOf(text)|
    ensures '"' !in PartsOf(text)[k + 2]
  {
    SplitParts(text, '"');
  }

  /** A place no later than the end of `before` is no further in the text. */
  lemma LaterIsLonger(parts: Parts, before: string, k: nat)
    requires 1 <= k <= |PartsOf(before)| <= |parts| && parts[..|PartsOf(before)|] == PartsOf(before)
    ensures |TextOf(parts[..k])| <= |before|
  {
    var n := |PartsOf(before)|;
    SplitJoins(before, '"');
    if k < n {
      JoinConcat(parts[..k], parts[k..n], '"');
      assert parts[..k] + parts[k..n] == parts[..n];
    }
  }

  // ---------- Replacing ----------

  function FieldValue(parts: Parts, key: string): Option<string> {
    var k := FindKey(parts, key);
    if k < |parts| then Some(parts[k + 2]) else None
  }

  /** Replaces the value of the key's first place and keeps all other parts. */
  function ReplaceFieldValue(parts: Parts, key: string, value: string): (r: Option<Parts>)
    ensures r.Some? <==> FieldValue(parts, key).Some?
    ensures r.Some? ==> FieldValue(r.value, key) == Some(value)
    ensures r.Some? ==> r.value == parts[FindKey(parts, key) + 2 := value]
  {
    var k := FindKey(parts, key);
    if k == |parts| then None
    else
      FoundFirst(parts, parts[k + 2 := value], key);
      Some(parts[k + 2 := value])
  }

  /** The first place is found before its own value is looked at. */
  lemma FoundFirst(parts: Parts, changed: Parts, key: string)
    requires |changed| == |parts| && FindKey(parts, key) < |parts|
    requires forall i | 0 <= i < FindKey(parts, key) + 2 :: changed[i] == parts[i]
    ensures FindKey(changed, key) == FindKey(parts, key)
  {
    hide Separator;
    var k := FindKey(parts, key);
    assert KeyAt(changed, key, k);
    forall j | 0 <= j < k ensures !KeyAt(changed, key, j) {
      assert !KeyAt(parts, key, j);
    }
  }

  /** In the text, the value of the pattern's first match is replaced, and every other character stays. */
  lemma ReplacesFirstMatch(text: string, key: string, value: string)
    requires '"' !in key && '"' !in value && FieldValue(PartsOf(text), key).Some?
    ensures exists before, separator, old_, after ::
      && MatchesAfter(text, key, before, separator, old_, after)
      && MatchesAfter(TextOf(ReplaceFieldValue(PartsOf(text), key, value).value), key, before, separator, value, after)
      && forall b, s, v, a | MatchesAfter(text, key, b, s, v, a) :: |before| <= |b|
  {
    hide Split, MatchesAfter, Separator, FindKey, TextOf;
    var parts, k := PartsOf(text), FindKey(PartsOf(text), key);
    FirstMatch(text, key);
    var changed := ReplaceFieldValue(parts, key, value).value;
    assert KeyAt(changed, key, k) by {
      FoundFirst(parts, changed, key);
    }
    PlaceIsMatch(changed, key, k);
    assert changed[..k] == parts[..k] && changed[k + 3..] == parts[k + 3..];
  }
}
