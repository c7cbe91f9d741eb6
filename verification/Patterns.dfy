/**
 Patterns as the scripts write them, and trimming: a second account of every shape of text that a
 rule depends on. A pattern is a list of pieces; a text matches when it can be cut into parts that fit.
 */
module Patterns {
  import opened Texts

  /** A fixed text, or a number of characters within bounds, each from one of the ranges. */
  datatype Piece =
    | Fixed(text: string)
    | Between(ranges: seq<(char, char)>, least: nat, most: nat)
    | AtLeast(ranges: seq<(char, char)>, least: nat)

  predicate InRanges(ranges: seq<(char, char)>, c: char) {
    exists k | 0 <= k < |ranges| :: ranges[k].0 <= c <= ranges[k].1
  }

  predicate AllInRanges(ranges: seq<(char, char)>, s: string) { forall k | 0 <= k < |s| :: InRanges(ranges, s[k]) }

  predicate Fits(piece: Piece, s: string) {
    match piece
    case Fixed(text) => s == text
    case Between(ranges, least, most) => least <= |s| <= most && AllInRanges(ranges, s)
    case AtLeast(ranges, least) => least <= |s| && AllInRanges(ranges, s)
  }

  ghost predicate Matches(pattern: seq<Piece>, s: string) {
    if pattern == [] then s == ""
    else exists n | 0 <= n <= |s| :: Fits(pattern[0], s[..n]) && Matches(pattern[1..], s[n..])
  }

  // ---------- Matching piece by piece ----------

  lemma MatchesOne(piece: Piece, s: string)
    ensures Matches([piece], s) <==> Fits(piece, s)
  {
    hide Fits;
    assert [piece][1..] == [];
    assert s[..|s|] == s && s[|s|..] == "";
    if n :| 0 <= n <= |s| && Fits(piece, s[..n]) && Matches([], s[n..]) {
      assert s[..n] == s;
    }
    if Fits(piece, s) {
      assert Fits(piece, s[..|s|]) && Matches([], s[|s|..]);
    }
  }

  lemma MatchesFixed(text: string, rest: seq<Piece>, s: string)
    ensures Matches([Fixed(text)] + rest, s) <==> text <= s && Matches(rest, s[|text|..])
  {
    hide Matches;
    MatchesFirst(Fixed(text), rest, s);
    if text <= s {
      assert s[..|text|] == text;
    }
  }

  lemma MatchesFirst(piece: Piece, rest: seq<Piece>, s: string)
    ensures Matches([piece] + rest, s) <==> exists n | 0 <= n <= |s| :: Fits(piece, s[..n]) && Matches(rest, s[n..])
  {
    hide Fits;
    assert ([piece] + rest)[1..] == rest;
  }

  /** One character of the ranges, and then the rest. */
  lemma MatchesCharacter(ranges: seq<(char, char)>, rest: seq<Piece>, s: string)
    ensures Matches([Between(ranges, 1, 1)] + rest, s) <==> s != "" && InRanges(ranges, s[0]) && Matches(rest, s[1..])
  {
    hide Matches, InRanges;
    MatchesFirst(Between(ranges, 1, 1), rest, s);
    if s != "" {
      assert s[..1][0] == s[0];
    }
  }

  /** An optional character of the ranges, and then the rest. */
  lemma MatchesOptional(ranges: seq<(char, char)>, rest: seq<Piece>, s: string)
    ensures Matches([Between(ranges, 0, 1)] + rest, s) <==>
      Matches(rest, s) || (s != "" && InRanges(ranges, s[0]) && Matches(rest, s[1..]))
  {
    hide Matches, InRanges;
    MatchesFirst(Between(ranges, 0, 1), rest, s);
    assert s[0..] == s && Fits(Between(ranges, 0, 1), s[..0]);
    if s != "" {
      assert s[..1][0] == s[0];
    }
  }

  lemma MatchesTail(ranges: seq<(char, char)>, suffix: string, s: string)
    ensures Matches([AtLeast(ranges, 1)] + [Fixed(suffix)], s) <==>
      |suffix| < |s| && EndsWith(s, suffix) && AllInRanges(ranges, s[..|s| - |suffix|])
  {
    hide Matches, AllInRanges;
    MatchesFirst(AtLeast(ranges, 1), [Fixed(suffix)], s);
    forall n | 0 <= n <= |s| ensures Matches([Fixed(suffix)], s[n..]) <==> s[n..] == suffix {
      MatchesOne(Fixed(suffix), s[n..]);
    }
  }

  /** A fixed start, then characters of the ranges, then a fixed end. */
  lemma MatchesFramed(prefix: string, ranges: seq<(char, char)>, suffix: string, s: string)
    ensures Matches([Fixed(prefix), AtLeast(ranges, 1), Fixed(suffix)], s) <==>
      && |prefix| + |suffix| < |s| && prefix <= s && EndsWith(s, suffix)
      && AllInRanges(ranges, s[|prefix|..|s| - |suffix|])
  {
    hide Matches, AllInRanges;
    var tail := [AtLeast(ranges, 1)] + [Fixed(suffix)];
    assert [Fixed(prefix), AtLeast(ranges, 1), Fixed(suffix)] == [Fixed(prefix)] + tail;
    MatchesFixed(prefix, tail, s);
    if prefix <= s {
      var rest := s[|prefix|..];
      MatchesTail(ranges, suffix, rest);
      EndOfRest(prefix, suffix, s);
    }
  }

  lemma EndOfRest(prefix: string, suffix: string, s: string)
    requires prefix <= s
    ensures |suffix| < |s[|prefix|..]| && EndsWith(s[|prefix|..], suffix) <==>
      |prefix| + |suffix| < |s| && EndsWith(s, suffix)
    ensures |prefix| + |suffix| < |s| ==>
      s[|prefix|..][..|s| - |prefix| - |suffix|] == s[|prefix|..|s| - |suffix|]
  {
    if |prefix| + |suffix| < |s| {
      assert s[|prefix|..][|s| - |prefix| - |suffix|..] == s[|s| - |suffix|..];
    }
  }

  // ---------- The shapes of the authority's fields ----------

  const SLUG: seq<(char, char)> := [('a', 'z'), ('0', '9'), ('-', '-')]

  /** `prefix`, one or more of `[a-z0-9-]`, `suffix` */
  lemma SlugPathExactly(s: string, prefix: string, suffix: string)
    ensures SlugPath(s, prefix, suffix) <==> Matches([Fixed(prefix), AtLeast(SLUG, 1), Fixed(suffix)], s)
  {
    MatchesFramed(prefix, SLUG, suffix, s);
    hide Matches;
    SlugExactly();
    if |prefix| + |suffix| < |s| {
      var middle := s[|prefix|..|s| - |suffix|];
      assert forall k | 0 <= k < |middle| :: middle[k] == s[|prefix| + k];
      assert forall k | |prefix| <= k < |s| - |suffix| :: s[k] == middle[k - |prefix|];
    }
  }

  lemma SlugExactly()
    ensures forall c :: Slug(c) <==> InRanges(SLUG, c)
  {
    forall c ensures Slug(c) <==> InRanges(SLUG, c) {
      assert SLUG[0] == ('a', 'z') && SLUG[1] == ('0', '9') && SLUG[2] == ('-', '-');
    }
  }

  const ALPHANUMERIC: seq<(char, char)> := [('a', 'z'), ('0', '9')]
  const ID_REST: seq<(char, char)> := [('a', 'z'), ('0', '9'), ('.', '.'), ('_', '_'), ('-', '-')]

  /** `^[a-z0-9][a-z0-9._-]{7,127}$` */
  const ROTATION_ID: seq<Piece> := [Between(ALPHANUMERIC, 1, 1), Between(ID_REST, 7, 127)]

  const HEX: seq<(char, char)> := [('a', 'f'), ('0', '9')]

  /** `^[a-f0-9]{40}$` */
  const OBJECT_NAME: seq<Piece> := [Between(HEX, 40, 40)]

  lemma ShaExactly(s: string)
    ensures IsSha(s) <==> Matches(OBJECT_NAME, s)
  {
    MatchesOne(Between(HEX, 40, 40), s);
    hide Matches;
    forall c ensures HexLower(c) <==> InRanges(HEX, c) {
      assert HEX[0] == ('a', 'f') && HEX[1] == ('0', '9');
    }
  }

  // ---------- Trimming ----------

  /** White space and line ends, as the language's standard lists them (section 22.1.3.32 of ECMA-262). */
  const WHITE_SPACE: set<int> := {
    0x9, 0xA, 0xB, 0xC, 0xD, 0x20, 0xA0, 0x1680, 0x2000, 0x2001, 0x2002, 0x2003, 0x2004, 0x2005, 0x2006,
    0x2007, 0x2008, 0x2009, 0x200A, 0x2028, 0x2029, 0x202F, 0x205F, 0x3000, 0xFEFF}

  predicate White(c: char) { c as int in WHITE_SPACE }

  function TrimStart(s: string): string { if s != "" && White(s[0]) then TrimStart(s[1..]) else s }

  function TrimEnd(s: string): string { if s != "" && White(s[|s| - 1]) then TrimEnd(s[..|s| - 1]) else s }

  function Trim(s: string): string { TrimEnd(TrimStart(s)) }

  lemma SpaceExactly(c: char)
    ensures Space(c) <==> White(c)
  {
  }

  lemma {:induction false} TrimStartIsSuffix(s: string)
    ensures |TrimStart(s)| <= |s| && TrimStart(s) == s[|s| - |TrimStart(s)|..]
    ensures forall k | 0 <= k < |s| - |TrimStart(s)| :: White(s[k])
    ensures TrimStart(s) != "" ==> !White(TrimStart(s)[0])
  {
    hide White;
    if s != "" && White(s[0]) {
      TrimStartIsSuffix(s[1..]);
      assert forall k | 0 < k < |s| :: s[k] == s[1..][k - 1];
    }
  }

  lemma {:induction false} TrimEndIsPrefix(s: string)
    ensures TrimEnd(s) <= s && (forall k | |TrimEnd(s)| <= k < |s| :: White(s[k]))
    ensures TrimEnd(s) != "" ==> !White(TrimEnd(s)[|TrimEnd(s)| - 1])
  {
    hide White;
    if s != "" && White(s[|s| - 1]) {
      TrimEndIsPrefix(s[..|s| - 1]);
    }
  }

  lemma NonBlankExactly(s: string)
    ensures NonBlank(s) <==> Trim(s) != ""
  {
    hide White, Space, TrimStart, TrimEnd;
    forall c ensures Space(c) <==> White(c) {
      SpaceExactly(c);
    }
    TrimStartIsSuffix(s);
    TrimEndIsPrefix(TrimStart(s));
  }

  lemma TrimmedExactly(s: string)
    ensures Trimmed(s) <==> Trim(s) == s
  {
    hide White, Space, TrimStart, TrimEnd;
    forall c ensures Space(c) <==> White(c) {
      SpaceExactly(c);
    }
    TrimStartIsSuffix(s);
    TrimEndIsPrefix(TrimStart(s));
    if s != "" && !White(s[0]) {
      assert TrimStart(s) == s;
    }
  }
}
