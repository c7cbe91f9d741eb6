/** Option, bytes and the few text predicates that several modules share. */
module Basics {

  datatype Option<+T> = None | Some(value: T)

  newtype byte = x: int | 0 <= x < 256

  type Bytes = seq<byte>

  function Get<K, V>(m: map<K, V>, k: K): Option<V> {
    if k in m then Some(m[k]) else None
  }

  predicate Distinct<T(==)>(s: seq<T>) {
    forall i, j | 0 <= i < j < |s| :: s[i] != s[j]
  }

  /** The list names every member of the set exactly once. */
  predicate Enumerates<T(==)>(s: seq<T>, all: set<T>) {
    Distinct(s) && (forall x | x in s :: x in all) && (forall x | x in all :: x in s)
  }

  function Last<T>(s: seq<T>): Option<T> {
    if s == [] then None else Some(s[|s| - 1])
  }
}

/** Predicates on path and identifier text, and splitting at a separator. */
module Texts {

  predicate EndsWith(s: string, suffix: string) {
    |suffix| <= |s| && s[|s| - |suffix|..] == suffix
  }

  predicate Lower(c: char) { 'a' <= c <= 'z' }

  predicate Digit(c: char) { '0' <= c <= '9' }

  predicate Slug(c: char) { Lower(c) || Digit(c) || c == '-' }

  /** White space and line ends, as trimming and `\s` see them. */
  predicate Space(c: char) {
    || '\t' <= c <= '\r' || c == ' ' || c == '\U{A0}' || c == '\U{1680}' || '\U{2000}' <= c <= '\U{200A}'
    || c == '\U{2028}' || c == '\U{2029}' || c == '\U{202F}' || c == '\U{205F}' || c == '\U{3000}' || c == '\U{FEFF}'
  }

  /** The text is not empty once leading and trailing white space is removed. */
  predicate NonBlank(s: string) {
    exists k | 0 <= k < |s| :: !Space(s[k])
  }

  /** Removing leading and trailing white space changes nothing. */
  predicate Trimmed(s: string) {
    s != "" ==> !Space(s[0]) && !Space(s[|s| - 1])
  }

  /** `prefix`, then one or more slug characters, then `suffix`. */
  predicate SlugPath(s: string, prefix: string, suffix: string) {
    && |prefix| + |suffix| < |s|
    && prefix <= s
    && EndsWith(s, suffix)
    && forall k | |prefix| <= k < |s| - |suffix| :: Slug(s[k])
  }

  /** The parts between separators; always at least one part. */
  function Split(s: string, separator: char): (parts: seq<string>)
    ensures |parts| >= 1
  {
    if s == "" then [""]
    else
      var rest := Split(s[1..], separator);
      if s[0] == separator then [""] + rest
      else [[s[0]] + rest[0]] + rest[1..]
  }

  lemma {:induction false} SplitParts(s: string, separator: char)
    ensures forall part | part in Split(s, separator) :: separator !in part
    ensures separator !in s ==> Split(s, separator) == [s]
  {
    if s != "" {
      SplitParts(s[1..], separator);
      var rest := Split(s[1..], separator);
      assert s == [s[0]] + s[1..];
      assert forall part | part in rest[1..] :: part in rest;
      assert rest[0] in rest;
    }
  }

  lemma {:induction false} SplitConcat(a: string, b: string, separator: char)
    ensures Split(a + [separator] + b, separator) == Split(a, separator) + Split(b, separator)
  {
    var text := a + [separator] + b;
    if a == "" {
      assert text[1..] == b;
    } else {
      SplitConcat(a[1..], b, separator);
      assert text[1..] == a[1..] + [separator] + b && text[0] == a[0];
      PartsAppend(a[0], Split(a[1..], separator), Split(b, separator), separator);
    }
  }

  function Prepended(c: char, rest: seq<string>, separator: char): seq<string>
    requires rest != []
  {
    if c == separator then [""] + rest else [[c] + rest[0]] + rest[1..]
  }

  lemma PartsAppend(c: char, front: seq<string>, back: seq<string>, separator: char)
    requires front != []
    ensures Prepended(c, front + back, separator) == Prepended(c, front, separator) + back
  {
    assert (front + back)[1..] == front[1..] + back;
  }

  predicate HexLower(c: char) { Digit(c) || 'a' <= c <= 'f' }

  /** A full lowercase Git object name. */
  predicate IsSha(s: string) {
    |s| == 40 && forall k | 0 <= k < |s| :: HexLower(s[k])
  }

  /** What stands before the text's first mark, or all of it. */
  ghost predicate StandsBefore(text: string, mark: char, part: string) {
    mark !in part && (text == part || exists rest :: text == part + [mark] + rest)
  }

  lemma StandsBeforeExactly(text: string, mark: char, part: string)
    ensures StandsBefore(text, mark, part) <==> part == Split(text, mark)[0]
  {
    FirstPart(text, mark);
    if StandsBefore(text, mark, part) {
      SplitParts(part, mark);
      if text != part {
        var rest :| text == part + [mark] + rest;
        SplitConcat(part, rest, mark);
      }
    }
  }

  lemma FirstPart(text: string, mark: char)
    ensures StandsBefore(text, mark, Split(text, mark)[0])
  {
    var parts := Split(text, mark);
    SplitJoins(text, mark);
    SplitParts(text, mark);
    assert parts[0] in parts;
    hide Split;
    if |parts| > 1 {
      assert text == parts[0] + [mark] + Joined(parts[1..], mark);
    }
  }

  // ---------- Joining at a separator ----------

  function Joined(parts: seq<string>, separator: char): string
    requires parts != []
  {
    if |parts| == 1 then parts[0] else parts[0] + [separator] + Joined(parts[1..], separator)
  }

  lemma JoinPrepended(c: char, rest: seq<string>, separator: char)
    requires rest != []
    ensures Joined(Prepended(c, rest, separator), separator) == [c] + Joined(rest, separator)
  {
    if c == separator {
      assert ([""] + rest)[1..] == rest;
    } else {
      assert ([[c] + rest[0]] + rest[1..])[1..] == rest[1..];
    }
  }

  lemma {:induction false} SplitJoins(text: string, separator: char)
    ensures Joined(Split(text, separator), separator) == text
  {
    if text != "" {
      SplitJoins(text[1..], separator);
      assert Split(text, separator) == Prepended(text[0], Split(text[1..], separator), separator);
      hide Split, Prepended, Joined;
      JoinPrepended(text[0], Split(text[1..], separator), separator);
    }
  }

  lemma {:induction false} JoinSplits(parts: seq<string>, separator: char)
    requires parts != [] && forall k | 0 <= k < |parts| :: separator !in parts[k]
    ensures Split(Joined(parts, separator), separator) == parts
  {
    SplitParts(parts[0], separator);
    if |parts| > 1 {
      JoinSplits(parts[1..], separator);
      SplitConcat(parts[0], Joined(parts[1..], separator), separator);
    }
  }

  lemma {:induction false} JoinedLacks(parts: seq<string>, separator: char, c: char)
    requires parts != [] && c != separator && forall k | 0 <= k < |parts| :: c !in parts[k]
    ensures c !in Joined(parts, separator)
  {
    if |parts| > 1 {
      JoinedLacks(parts[1..], separator, c);
    }
  }

  lemma {:induction false} JoinConcat(a: seq<string>, b: seq<string>, separator: char)
    requires a != [] && b != []
    ensures Joined(a + b, separator) == Joined(a, separator) + [separator] + Joined(b, separator)
  {
    if |a| == 1 {
      assert (a + b)[1..] == b;
    } else {
      assert (a + b)[1..] == a[1..] + b;
      JoinConcat(a[1..], b, separator);
    }
  }
}
