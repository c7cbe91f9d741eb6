/**
 Two parsers of Git output: the NUL-separated recursive tree listing, and the
 stream of `cat-file --batch`. Each gives back exactly what was printed.
 */
module GitStreams {
  import opened Basics

  const NUL: byte := 0
  const TAB: byte := 9
  const LF: byte := 10
  const CR: byte := 13
  const SPACE: byte := 32
  const DASH: byte := 45
  const DOT: byte := 46
  const SLASH: byte := 47

  // ---------- Searching and decimal numbers ----------

  /** The first position of `b` at or after `start`, or the length. */
  function IndexOf(s: Bytes, b: byte, start: nat): (k: nat)
    requires start <= |s|
    ensures start <= k <= |s|
    ensures forall j | start <= j < k :: s[j] != b
    ensures k < |s| ==> s[k] == b
    decreases |s| - start
  {
    if start == |s| || s[start] == b then start else IndexOf(s, b, start + 1)
  }

  lemma IndexAfter(a: Bytes, b: byte, rest: Bytes, start: nat)
    requires start <= |a| && forall j | start <= j < |a| :: a[j] != b
    ensures IndexOf(a + [b] + rest, b, start) == |a|
  {
    var s := a + [b] + rest;
    assert s[|a|] == b;
    assert forall j | start <= j < |a| :: s[j] == a[j];
  }

  lemma SegmentFound(before: Bytes, segment: Bytes, b: byte, rest: Bytes)
    requires b !in segment
    ensures IndexOf(before + segment + [b] + rest, b, |before|) == |before| + |segment|
  {
    hide IndexOf;
    var a := before + segment;
    forall j | |before| <= j < |a| ensures a[j] != b {
      assert a[j] == segment[j - |before|];
    }
    IndexAfter(a, b, rest, |before|);
  }

  lemma Regroup(a: Bytes, b: Bytes, c: Bytes)
    ensures a + b + c == a + (b + c)
  {
  }

  /** `segment` stands between `before` and the next `b`. */
  lemma SegmentEnds(before: Bytes, segment: Bytes, b: byte, rest: Bytes)
    requires b !in segment
    ensures var s := before + segment + [b] + rest;
      && IndexOf(s, b, |before|) == |before| + |segment|
      && s[|before|..|before| + |segment|] == segment
  {
    hide IndexOf;
    SegmentFound(before, segment, b, rest);
    Regroup(before + segment, [b], rest);
    SegmentAt(before, segment, [b] + rest);
  }

  lemma SegmentAt(before: Bytes, segment: Bytes, after: Bytes)
    ensures (before + segment + after)[|before|..|before| + |segment|] == segment
  {
    var s := before + segment + after;
    assert s[..|before| + |segment|] == before + segment;
  }

  predicate IsDigit(b: byte) { 48 <= b <= 57 }

  predicate IsDigits(s: Bytes) { s != [] && forall k | 0 <= k < |s| :: IsDigit(s[k]) }

  function DigitsValue(s: Bytes): nat
    requires forall k | 0 <= k < |s| :: IsDigit(s[k])
  {
    if s == [] then 0
    else
      var last := s[|s| - 1];
      assert IsDigit(last);
      DigitsValue(s[..|s| - 1]) * 10 + (last as int - 48)
  }

  function Decimal(n: nat): (s: Bytes)
    ensures IsDigits(s)
  {
    if n < 10 then [(48 + n) as byte] else Decimal(n / 10) + [(48 + n % 10) as byte]
  }

  lemma {:induction false} DecimalValue(n: nat)
    ensures DigitsValue(Decimal(n)) == n
  {
    if n >= 10 {
      DecimalValue(n / 10);
      assert Decimal(n)[..|Decimal(n)| - 1] == Decimal(n / 10);
    } else {
      assert Decimal(n)[..0] == [];
    }
  }

  // ---------- The recursive tree listing ----------

  datatype Kind = Blob | Tree | Commit

  datatype GitEntry = GitEntry(path: Bytes, mode: Bytes, kind: Kind, sha: Bytes, size: Option<nat>)

  datatype TreeError =
    | NotTerminated | RecordInvalid | HeaderInvalid | PathInvalid | DuplicatePath | EntryInvalid | BudgetExceeded

  datatype TreeResult = Ok(tree: seq<GitEntry>) | Err(error: TreeError)

  const MAX_ENTRIES := 200_000
  const MAX_SAFE_INTEGER := 9_007_199_254_740_991
  const BLOB_NAME: Bytes := [98, 108, 111, 98]
  const TREE_NAME: Bytes := [116, 114, 101, 101]
  const COMMIT_NAME: Bytes := [99, 111, 109, 109, 105, 116]
  const REGULAR_MODE: Bytes := [49, 48, 48, 54, 52, 52]
  const EXECUTABLE_MODE: Bytes := [49, 48, 48, 55, 53, 53]
  const SYMLINK_MODE: Bytes := [49, 50, 48, 48, 48, 48]
  const TREE_MODE: Bytes := [48, 52, 48, 48, 48, 48]
  const COMMIT_MODE: Bytes := [49, 54, 48, 48, 48, 48]

  function KindName(kind: Kind): Bytes {
    match kind
    case Blob => BLOB_NAME
    case Tree => TREE_NAME
    case Commit => COMMIT_NAME
  }

  predicate IsHex(b: byte) { IsDigit(b) || 97 <= b <= 102 }

  predicate IsObjectName(s: Bytes) { |s| == 40 && forall k | 0 <= k < |s| :: IsHex(s[k]) }

  predicate IsOctal(s: Bytes) { |s| == 6 && forall k | 0 <= k < |s| :: 48 <= s[k] <= 55 }

  /** No part between slashes, starting at `start`, is empty, `.` or `..`. */
  predicate PartsValid(path: Bytes, start: nat)
    requires start <= |path|
    decreases |path| - start
  {
    var end := IndexOf(path, SLASH, start);
    var part := path[start..end];
    part != [] && part != [DOT] && part != [DOT, DOT] && (end < |path| ==> PartsValid(path, end + 1))
  }

  predicate ValidPath(path: Bytes) { path != [] && NUL !in path && PartsValid(path, 0) }

  predicate ValidMode(kind: Kind, mode: Bytes) {
    match kind
    case Blob => mode == REGULAR_MODE || mode == EXECUTABLE_MODE || mode == SYMLINK_MODE
    case Tree => mode == TREE_MODE
    case Commit => mode == COMMIT_MODE
  }

  /** Blobs have a safe size and nothing else has one. */
  predicate ValidSize(kind: Kind, size: Option<nat>) {
    if kind.Blob? then size.Some? && size.value <= MAX_SAFE_INTEGER else size.None?
  }

  predicate ValidEntry(utf8: Bytes -> bool, e: GitEntry) {
    ValidPath(e.path) && utf8(e.path) && ValidMode(e.kind, e.mode) && IsObjectName(e.sha) && ValidSize(e.kind, e.size)
  }

  /** What Git prints for one entry: the size is right-aligned in a field of at least seven. */
  function Spaces(n: nat): (s: Bytes)
    ensures |s| == n && forall k | 0 <= k < n :: s[k] == SPACE
  {
    if n == 0 then [] else [SPACE] + Spaces(n - 1)
  }

  function SizeText(size: Option<nat>): Bytes {
    match size
    case Some(n) => Decimal(n)
    case None => [DASH]
  }

  function Padding(size: Option<nat>): nat { if |SizeText(size)| >= 7 then 1 else 8 - |SizeText(size)| }

  function PrintHeader(e: GitEntry): Bytes {
    e.mode + [SPACE] + KindName(e.kind) + [SPACE] + e.sha + Spaces(Padding(e.size)) + SizeText(e.size)
  }

  function PrintEntry(e: GitEntry): Bytes { PrintHeader(e) + [TAB] + e.path + [NUL] }

  function PrintTree(entries: seq<GitEntry>): Bytes {
    if entries == [] then [] else PrintEntry(entries[0]) + PrintTree(entries[1..])
  }

  // The parser.

  datatype Header = Header(mode: Bytes, kind: Kind, sha: Bytes, size: Option<nat>)

  /** Reading a byte as ASCII drops its high bit. */
  function Ascii(s: Bytes): (r: Bytes)
    ensures |r| == |s|
    ensures forall k | 0 <= k < |s| :: r[k] == s[k] % 128
  {
    seq(|s|, k requires 0 <= k < |s| => s[k] % 128)
  }

  function SkipSpaces(s: Bytes): Bytes {
    if s != [] && s[0] == SPACE then SkipSpaces(s[1..]) else s
  }

  /** A kind name followed by a space, and what comes after. */
  function ParseKind(s: Bytes): Option<(Kind, Bytes)> {
    if BLOB_NAME + [SPACE] <= s then Some((Blob, s[5..]))
    else if TREE_NAME + [SPACE] <= s then Some((Tree, s[5..]))
    else if COMMIT_NAME + [SPACE] <= s then Some((Commit, s[7..]))
    else None
  }

  function ParseHeader(h: Bytes): Option<Header> {
    if |h| < 7 || !IsOctal(h[..6]) || h[6] != SPACE then None
    else match ParseKind(h[7..])
      case None => None
      case Some(kind) =>
        if |kind.1| < 41 || !IsObjectName(kind.1[..40]) || kind.1[40] != SPACE then None
        else
          var size := SkipSpaces(kind.1[40..]);
          if size == [DASH] then Some(Header(h[..6], kind.0, kind.1[..40], None))
          else if IsDigits(size) then Some(Header(h[..6], kind.0, kind.1[..40], Some(DigitsValue(size))))
          else None
  }

  function ParseRecord(utf8: Bytes -> bool, record: Bytes, seen: set<Bytes>): TreeResult {
    var separator := IndexOf(record, TAB, 0);
    if separator == 0 || separator >= |record| - 1 then Err(RecordInvalid)
    else match ParseHeader(Ascii(record[..separator]))
      case None => Err(HeaderInvalid)
      case Some(h) =>
        var path := record[separator + 1..];
        if !utf8(path) || !ValidPath(path) then Err(PathInvalid)
        else if path in seen then Err(DuplicatePath)
        else if !ValidMode(h.kind, h.mode) || !ValidSize(h.kind, h.size) then Err(EntryInvalid)
        else Ok([GitEntry(path, h.mode, h.kind, h.sha, h.size)])
  }

  function Paths(tree: seq<GitEntry>): set<Bytes> { set e | e in tree :: e.path }

  /** The listing from `start` on, after the entries already read. */
  function ParseFrom(utf8: Bytes -> bool, output: Bytes, start: nat, tree: seq<GitEntry>): TreeResult
    requires start <= |output|
    decreases |output| - start
  {
    if start == |output| then Ok(tree)
    else
      var end := IndexOf(output, NUL, start);
      if end == |output| then Err(RecordInvalid)
      else match ParseRecord(utf8, output[start..end], Paths(tree))
        case Err(error) => Err(error)
        case Ok(entry) =>
          if |tree + entry| > MAX_ENTRIES then Err(BudgetExceeded)
          else ParseFrom(utf8, output, end + 1, tree + entry)
  }

  function ParseTree(utf8: Bytes -> bool, output: Bytes): TreeResult {
    if output != [] && output[|output| - 1] != NUL then Err(NotTerminated) else ParseFrom(utf8, output, 0, [])
  }

  lemma EmptyPaths()
    ensures Paths([]) == {}
  {
  }

  lemma PathsAppend(a: seq<GitEntry>, b: seq<GitEntry>)
    ensures Paths(a + b) == Paths(a) + Paths(b)
  {
  }

  /** The cursor loop over the listing. */
  method ReadTree(utf8: Bytes -> bool, output: Bytes) returns (r: TreeResult)
    ensures r == ParseTree(utf8, output)
  {
    hide ParseRecord, IndexOf, Paths;
    EmptyPaths();
    if |output| > 0 && output[|output| - 1] != NUL {
      return Err(NotTerminated);
    }
    var tree: seq<GitEntry> := [];
    var paths: set<Bytes> := {};
    var start := 0;
    while start < |output|
      invariant start <= |output|
      invariant paths == Paths(tree)
      invariant ParseFrom(utf8, output, start, tree) == ParseFrom(utf8, output, 0, [])
    {
      var end := IndexOf(output, NUL, start);
      if end == |output| {
        return Err(RecordInvalid);
      }
      var record := ParseRecord(utf8, output[start..end], paths);
      if record.Err? {
        return record;
      }
      PathsAppend(tree, record.tree);
      paths := paths + Paths(record.tree);
      tree := tree + record.tree;
      if |tree| > MAX_ENTRIES {
        return Err(BudgetExceeded);
      }
      start := end + 1;
    }
    r := Ok(tree);
  }

  // ---------- The object stream ----------

  /** One answer of the batch stream: an object, or a name that was not found. */
  datatype Answer = Present(sha: Bytes, kind: Bytes, content: Bytes) | Missing(sha: Bytes)

  const MISSING: Bytes := [109, 105, 115, 115, 105, 110, 103]

  predicate IsWord(s: Bytes) { s != [] && SPACE !in s && LF !in s }

  predicate ValidAnswer(a: Answer) {
    IsWord(a.sha) && (a.Present? ==> IsWord(a.kind) && a.kind != MISSING)
  }

  function PrintAnswer(a: Answer): Bytes {
    match a
    case Present(sha, kind, content) => sha + [SPACE] + kind + [SPACE] + Decimal(|content|) + [LF] + content + [LF]
    case Missing(sha) => sha + [SPACE] + MISSING + [LF]
  }

  function PrintAnswers(answers: seq<Answer>): Bytes {
    if answers == [] then [] else PrintAnswer(answers[0]) + PrintAnswers(answers[1..])
  }

  /** The words between single spaces. */
  function Words(s: Bytes, start: nat): (w: seq<Bytes>)
    requires start <= |s|
    ensures |w| >= 1
    decreases |s| - start
  {
    var end := IndexOf(s, SPACE, start);
    if end == |s| then [s[start..]] else [s[start..end]] + Words(s, end + 1)
  }

  function ScanFrom(output: Bytes, pos: nat, withCr: set<Bytes>): set<Bytes>
    decreases |output| - pos
  {
    if pos >= |output| then withCr
    else
      var nl := IndexOf(output, LF, pos);
      if nl == |output| then withCr
      else
        var parts := Words(output[pos..nl], 0);
        if |parts| < 3 then withCr
        else if parts[1] == MISSING then ScanFrom(output, nl + 1, withCr)
        else
          var size := parts[|parts| - 1];
          if !IsDigits(size) then withCr
          else
            var start, end := nl + 1, nl + 1 + DigitsValue(size);
            var content := output[start..if end <= |output| then end else |output|];
            ScanFrom(output, end + 1, if CR in content then withCr + {parts[0]} else withCr)
  }

  /** The cursor loop over the stream. */
  method ShasWithCr(output: Bytes) returns (withCr: set<Bytes>)
    ensures withCr == ScanFrom(output, 0, {})
  {
    hide Words, IndexOf, DigitsValue;
    withCr := {};
    var pos := 0;
    while pos < |output|
      invariant ScanFrom(output, pos, withCr) == ScanFrom(output, 0, {})
      decreases |output| - pos
    {
      var nl := IndexOf(output, LF, pos);
      if nl == |output| {
        break;
      }
      var parts := Words(output[pos..nl], 0);
      pos := nl + 1;
      if |parts| < 3 {
        break;
      }
      if parts[1] == MISSING {
        continue;
      }
      if !IsDigits(parts[|parts| - 1]) {
        break;
      }
      var size := DigitsValue(parts[|parts| - 1]);
      var content := output[pos..if pos + size <= |output| then pos + size else |output|];
      if CR in content {
        withCr := withCr + {parts[0]};
      }
      pos := pos + size + 1;
    }
  }

  // ---------- The tree listing reads back ----------

  predicate Plain(s: Bytes) { forall k | 0 <= k < |s| :: SPACE <= s[k] < 128 }

  lemma HeaderIsPlain(e: GitEntry)
    requires ValidMode(e.kind, e.mode) && IsObjectName(e.sha)
    ensures Plain(PrintHeader(e))
  {
    assert Plain(e.mode) && Plain(KindName(e.kind)) && Plain([SPACE]) && Plain(e.sha);
    assert Plain(SizeText(e.size)) && Plain(Spaces(Padding(e.size)));
    PlainAppend(e.mode, [SPACE]);
    PlainAppend(e.mode + [SPACE], KindName(e.kind));
    PlainAppend(e.mode + [SPACE] + KindName(e.kind), [SPACE]);
    PlainAppend(e.mode + [SPACE] + KindName(e.kind) + [SPACE], e.sha);
    PlainAppend(e.mode + [SPACE] + KindName(e.kind) + [SPACE] + e.sha, Spaces(Padding(e.size)));
    PlainAppend(e.mode + [SPACE] + KindName(e.kind) + [SPACE] + e.sha + Spaces(Padding(e.size)), SizeText(e.size));
  }

  lemma PlainAppend(a: Bytes, b: Bytes)
    requires Plain(a) && Plain(b)
    ensures Plain(a + b)
  {
  }

  lemma AsciiOfPlain(s: Bytes)
    requires Plain(s)
    ensures Ascii(s) == s
  {
  }

  lemma {:induction false} SkipsSpaces(n: nat, rest: Bytes)
    requires rest != [] && rest[0] != SPACE
    ensures SkipSpaces(Spaces(n) + rest) == rest
  {
    if n > 0 {
      assert (Spaces(n) + rest)[1..] == Spaces(n - 1) + rest;
      SkipsSpaces(n - 1, rest);
    } else {
      assert Spaces(n) + rest == rest;
    }
  }

  lemma KindReads(kind: Kind, rest: Bytes)
    ensures ParseKind(KindName(kind) + [SPACE] + rest) == Some((kind, rest))
  {
    var s, name := KindName(kind) + [SPACE] + rest, KindName(kind) + [SPACE];
    assert s[..|name|] == name && s[|name|..] == rest;
    assert s[0] == name[0];
  }

  lemma SizeReads(size: Option<nat>)
    ensures var t := SizeText(size);
      && t != [] && t[0] != SPACE
      && (size.None? ==> t == [DASH])
      && (size.Some? ==> t != [DASH] && IsDigits(t) && DigitsValue(t) == size.value)
  {
    if size.Some? {
      DecimalValue(size.value);
    }
  }

  lemma ModeIsOctal(kind: Kind, mode: Bytes)
    requires ValidMode(kind, mode)
    ensures IsOctal(mode)
  {
  }

  lemma HeaderReads(e: GitEntry)
    requires ValidMode(e.kind, e.mode) && IsObjectName(e.sha)
    ensures ParseHeader(PrintHeader(e)) == Some(Header(e.mode, e.kind, e.sha, e.size))
  {
    hide Decimal, KindName, Spaces, SkipSpaces, ParseKind, ValidMode, SizeText, IsOctal, IsDigits, Padding, DigitsValue;
    ModeIsOctal(e.kind, e.mode);
    var h := PrintHeader(e);
    var sizeField := Spaces(Padding(e.size)) + SizeText(e.size);
    var afterKind := e.sha + sizeField;
    OctalLength(e.mode);
    assert h == e.mode + ([SPACE] + (KindName(e.kind) + [SPACE] + afterKind));
    assert h[..6] == e.mode && h[6] == SPACE;
    assert h[7..] == KindName(e.kind) + [SPACE] + afterKind;
    KindReads(e.kind, afterKind);
    SizeReads(e.size);
    PaddingPositive(e.size);
    assert afterKind[..40] == e.sha && afterKind[40] == sizeField[0] == SPACE && afterKind[40..] == sizeField;
    SkipsSpaces(Padding(e.size), SizeText(e.size));
  }

  lemma OctalLength(s: Bytes)
    requires IsOctal(s)
    ensures |s| == 6
  {
  }

  lemma PaddingPositive(size: Option<nat>)
    ensures Padding(size) >= 1 && |Spaces(Padding(size))| >= 1 && Spaces(Padding(size))[0] == SPACE
  {
  }

  /** One printed record parses to its entry. */
  lemma RecordReads(utf8: Bytes -> bool, e: GitEntry, seen: set<Bytes>)
    requires ValidEntry(utf8, e) && e.path !in seen
    ensures ParseRecord(utf8, PrintHeader(e) + [TAB] + e.path, seen) == Ok([e])
  {
    hide PrintHeader, ParseHeader, ValidPath, ValidMode, ValidSize, IsObjectName, Ascii;
    var h := PrintHeader(e);
    var record := h + [TAB] + e.path;
    HeaderIsPlain(e);
    AsciiOfPlain(h);
    HeaderReads(e);
    HeaderNonempty(e);
    PathNonempty(e.path);
    IndexAfter(h, TAB, e.path, 0);
    assert record[..|h|] == h && record[|h| + 1..] == e.path;
  }

  lemma HeaderNonempty(e: GitEntry)
    ensures PrintHeader(e) != []
  {
  }

  lemma PathNonempty(path: Bytes)
    requires ValidPath(path)
    ensures path != [] && NUL !in path
  {
  }

  lemma NoNulInRecord(utf8: Bytes -> bool, e: GitEntry)
    requires ValidEntry(utf8, e)
    ensures NUL !in PrintHeader(e) + [TAB] + e.path
  {
    hide PrintHeader;
    HeaderIsPlain(e);
    var record := PrintHeader(e) + [TAB] + e.path;
    forall k | 0 <= k < |record| ensures record[k] != NUL {
      if k > |PrintHeader(e)| {
        assert record[k] == e.path[k - |PrintHeader(e)| - 1];
      }
    }
  }

  predicate DistinctPaths(entries: seq<GitEntry>) {
    forall i, j | 0 <= i < j < |entries| :: entries[i].path != entries[j].path
  }

  /** One round of the parser over a printed record. */
  lemma RecordStep(utf8: Bytes -> bool, before: Bytes, e: GitEntry, rest: Bytes, tree: seq<GitEntry>)
    requires ValidEntry(utf8, e) && e.path !in Paths(tree) && |tree| < MAX_ENTRIES
    ensures ParseFrom(utf8, before + PrintEntry(e) + rest, |before|, tree) ==
      ParseFrom(utf8, before + PrintEntry(e) + rest, |before + PrintEntry(e)|, tree + [e])
  {
    hide PrintHeader, ParseRecord, ValidEntry, IndexOf, Paths;
    var record := PrintHeader(e) + [TAB] + e.path;
    NoNulInRecord(utf8, e);
    RecordReads(utf8, e, Paths(tree));
    SegmentEnds(before, record, NUL, rest);
    assert before + PrintEntry(e) + rest == before + record + [NUL] + rest;
  }

  lemma {:induction false} EntriesRead(utf8: Bytes -> bool, before: Bytes, tree: seq<GitEntry>, entries: seq<GitEntry>)
    requires forall k | 0 <= k < |entries| :: ValidEntry(utf8, entries[k]) && entries[k].path !in Paths(tree)
    requires DistinctPaths(entries) && |tree| + |entries| <= MAX_ENTRIES
    ensures ParseFrom(utf8, before + PrintTree(entries), |before|, tree) == Ok(tree + entries)
    decreases |entries|
  {
    hide PrintEntry, ParseFrom, ValidEntry, Paths;
    if entries == [] {
      ParseEnds(utf8, before, tree);
      assert tree + entries == tree && before + PrintTree(entries) == before;
    } else {
      var e, rest := entries[0], entries[1..];
      RecordStep(utf8, before, e, PrintTree(rest), tree);
      assert before + PrintTree(entries) == before + PrintEntry(e) + PrintTree(rest);
      OnePath(tree, e);
      forall k | 0 <= k < |rest| ensures ValidEntry(utf8, rest[k]) && rest[k].path !in Paths(tree + [e]) {
        assert rest[k] == entries[k + 1];
      }
      assert forall k | 0 <= k < |rest| :: rest[k] == entries[k + 1];
      EntriesRead(utf8, before + PrintEntry(e), tree + [e], rest);
      assert tree + entries == tree + [e] + rest;
    }
  }

  lemma ParseEnds(utf8: Bytes -> bool, output: Bytes, tree: seq<GitEntry>)
    ensures ParseFrom(utf8, output, |output|, tree) == Ok(tree)
  {
  }

  lemma OnePath(tree: seq<GitEntry>, e: GitEntry)
    ensures Paths(tree + [e]) == Paths(tree) + {e.path}
  {
    PathsAppend(tree, [e]);
    assert Paths([e]) == {e.path};
  }

  /** Any listing of valid entries with distinct paths, within the entry budget, parses
      back to the same entries in the same order. */
  lemma PrintedTreeParses(utf8: Bytes -> bool, entries: seq<GitEntry>)
    requires forall k | 0 <= k < |entries| :: ValidEntry(utf8, entries[k])
    requires DistinctPaths(entries) && |entries| <= MAX_ENTRIES
    ensures ParseTree(utf8, PrintTree(entries)) == Ok(entries)
  {
    hide PrintTree, ValidEntry, ParseFrom, Paths, DistinctPaths;
    EmptyPaths();
    EntriesRead(utf8, [], [], entries);
    EndsInNul(entries);
    assert [] + PrintTree(entries) == PrintTree(entries);
    assert [] + entries == entries;
  }

  lemma {:induction false} EndsInNul(entries: seq<GitEntry>)
    ensures entries == [] ==> PrintTree(entries) == []
    ensures entries != [] ==> PrintTree(entries) != [] && PrintTree(entries)[|PrintTree(entries)| - 1] == NUL
  {
    hide PrintHeader;
    if entries != [] {
      EndsInNul(entries[1..]);
      if |entries| == 1 {
        assert PrintTree(entries) == PrintEntry(entries[0]);
      }
    }
  }

  lemma {:induction false} ParsedFromIsValid(utf8: Bytes -> bool, output: Bytes, start: nat, tree: seq<GitEntry>)
    requires start <= |output| && ParseFrom(utf8, output, start, tree).Ok?
    requires (forall k | 0 <= k < |tree| :: ValidEntry(utf8, tree[k])) && DistinctPaths(tree) && |tree| <= MAX_ENTRIES
    ensures var r := ParseFrom(utf8, output, start, tree).tree;
      (forall k | 0 <= k < |r| :: ValidEntry(utf8, r[k])) && DistinctPaths(r) && |r| <= MAX_ENTRIES
    decreases |output| - start
  {
    hide ValidEntry, ParseRecord;
    if start < |output| {
      var end := IndexOf(output, NUL, start);
      var record := ParseRecord(utf8, output[start..end], Paths(tree));
      ParsedRecordIsValid(utf8, output[start..end], Paths(tree));
      var next := tree + record.tree;
      forall i, j | 0 <= i < j < |next| ensures next[i].path != next[j].path {
        if j == |tree| {
          assert tree[i].path in Paths(tree);
        }
      }
      ParsedFromIsValid(utf8, output, end + 1, next);
    }
  }

  lemma ParsedRecordIsValid(utf8: Bytes -> bool, record: Bytes, seen: set<Bytes>)
    requires ParseRecord(utf8, record, seen).Ok?
    ensures var r := ParseRecord(utf8, record, seen).tree;
      |r| == 1 && ValidEntry(utf8, r[0]) && r[0].path !in seen
  {
    hide ValidPath, ValidMode, ValidSize, Ascii, ParseKind, SkipSpaces;
  }

  /** Whatever the parser accepts is a list of valid entries with distinct paths within the budget. */
  lemma ParsedTreeIsValid(utf8: Bytes -> bool, output: Bytes)
    requires ParseTree(utf8, output).Ok?
    ensures var r := ParseTree(utf8, output).tree;
      (forall k | 0 <= k < |r| :: ValidEntry(utf8, r[k])) && DistinctPaths(r) && |r| <= MAX_ENTRIES
  {
    hide ValidEntry, ParseRecord;
    ParsedFromIsValid(utf8, output, 0, []);
  }

  // ---------- The object stream finds exactly the contents with a carriage return ----------

  /** The answers before the first missing one. */
  function BeforeMissing(answers: seq<Answer>): seq<Answer> {
    if answers == [] || answers[0].Missing? then [] else [answers[0]] + BeforeMissing(answers[1..])
  }

  function CrShas(answers: seq<Answer>): set<Bytes> {
    set a | a in answers && a.Present? && CR in a.content :: a.sha
  }

  /** A word up to the next space. */
  lemma FirstWord(before: Bytes, word: Bytes, rest: Bytes)
    requires IsWord(word)
    ensures var s := before + word + [SPACE] + rest;
      Words(s, |before|) == [word] + Words(s, |before| + |word| + 1)
  {
    hide IndexOf;
    SegmentEnds(before, word, SPACE, rest);
  }

  lemma LastWord(before: Bytes, word: Bytes)
    requires IsWord(word)
    ensures Words(before + word, |before|) == [word]
  {
    var s := before + word;
    assert forall j | |before| <= j < |s| :: s[j] == word[j - |before|];
    assert s[|before|..] == word;
  }

  lemma WordsOfTwo(a: Bytes, b: Bytes)
    requires IsWord(a) && IsWord(b)
    ensures Words(a + [SPACE] + b, 0) == [a, b]
  {
    hide IsWord, Words;
    var s := a + [SPACE] + b;
    assert s == [] + a + [SPACE] + b;
    FirstWord([], a, b);
    LastWord(a + [SPACE], b);
  }

  lemma WordsOfThree(a: Bytes, b: Bytes, c: Bytes)
    requires IsWord(a) && IsWord(b) && IsWord(c)
    ensures Words(a + [SPACE] + b + [SPACE] + c, 0) == [a, b, c]
  {
    hide IsWord, Words;
    var s := a + [SPACE] + b + [SPACE] + c;
    assert s == [] + a + [SPACE] + (b + [SPACE] + c);
    FirstWord([], a, b + [SPACE] + c);
    assert s == (a + [SPACE]) + b + [SPACE] + c;
    FirstWord(a + [SPACE], b, c);
    assert s == (a + [SPACE] + b + [SPACE]) + c;
    LastWord(a + [SPACE] + b + [SPACE], c);
  }

  lemma DecimalIsWord(n: nat)
    ensures IsWord(Decimal(n))
  {
    var d := Decimal(n);
    assert forall k | 0 <= k < |d| :: IsDigit(d[k]);
  }

  lemma NoLineFeed(a: Bytes, b: Bytes, c: Bytes)
    requires IsWord(a) && IsWord(b) && IsWord(c)
    ensures LF !in a + [SPACE] + b + [SPACE] + c
    ensures LF !in a + [SPACE] + b
  {
  }

  /** One round of the scan over a well-formed object header. */
  lemma ScanObject(output: Bytes, pos: nat, nl: nat, sha: Bytes, kind: Bytes, n: nat, withCr: set<Bytes>)
    requires pos < |output| && IndexOf(output, LF, pos) == nl && nl + 1 + n <= |output|
    requires Words(output[pos..nl], 0) == [sha, kind, Decimal(n)] && kind != MISSING
    ensures ScanFrom(output, pos, withCr) ==
      ScanFrom(output, nl + n + 2, if CR in output[nl + 1..nl + 1 + n] then withCr + {sha} else withCr)
  {
    hide Words, Decimal, IndexOf, DigitsValue, IsDigits;
    DecimalValue(n);
  }

  function ObjectHeader(sha: Bytes, kind: Bytes, n: nat): Bytes { sha + [SPACE] + kind + [SPACE] + Decimal(n) }

  lemma AnswerText(before: Bytes, a: Answer, rest: Bytes)
    ensures before + PrintAnswer(a) + rest == before + (PrintAnswer(a) + rest)
    ensures a.Present? ==>
      PrintAnswer(a) + rest == ObjectHeader(a.sha, a.kind, |a.content|) + [LF] + (a.content + ([LF] + rest))
    ensures a.Missing? ==> PrintAnswer(a) + rest == (a.sha + [SPACE] + MISSING) + [LF] + rest
    ensures a.Present? ==> |PrintAnswer(a)| == |ObjectHeader(a.sha, a.kind, |a.content|)| + |a.content| + 2
  {
    hide Decimal;
  }

  lemma LineText(before: Bytes, header: Bytes, after: Bytes)
    ensures before + (header + [LF] + after) == before + header + [LF] + after
  {
  }

  lemma ContentAt(before: Bytes, header: Bytes, content: Bytes, rest: Bytes)
    ensures var s, start := before + header + [LF] + (content + rest), |before| + |header| + 1;
      start + |content| <= |s| && s[start..start + |content|] == content
  {
    var s, start := before + header + [LF] + (content + rest), |before| + |header| + 1;
    assert s[start..] == content + rest;
  }

  lemma HeaderWords(sha: Bytes, kind: Bytes, n: nat)
    requires IsWord(sha) && IsWord(kind)
    ensures Words(ObjectHeader(sha, kind, n), 0) == [sha, kind, Decimal(n)]
    ensures LF !in ObjectHeader(sha, kind, n)
  {
    hide Decimal, Words, IsWord;
    DecimalIsWord(n);
    NoLineFeed(sha, kind, Decimal(n));
    WordsOfThree(sha, kind, Decimal(n));
  }

  /** A present object is scanned by its declared size, whatever bytes its content holds. */
  lemma PresentScans(before: Bytes, a: Answer, rest: Bytes, withCr: set<Bytes>)
    requires ValidAnswer(a) && a.Present?
    ensures ScanFrom(before + PrintAnswer(a) + rest, |before|, withCr) ==
      ScanFrom(before + PrintAnswer(a) + rest, |before + PrintAnswer(a)|,
               if CR in a.content then withCr + {a.sha} else withCr)
  {
    hide Words, IsWord, Decimal, IsDigits, DigitsValue, ScanFrom, IndexOf, PrintAnswer, ObjectHeader;
    var header := ObjectHeader(a.sha, a.kind, |a.content|);
    HeaderWords(a.sha, a.kind, |a.content|);
    AnswerText(before, a, rest);
    var after := a.content + ([LF] + rest);
    LineText(before, header, after);
    SegmentEnds(before, header, LF, after);
    ContentAt(before, header, a.content, [LF] + rest);
    ScanObject(before + header + [LF] + after, |before|, |before| + |header|, a.sha, a.kind, |a.content|, withCr);
  }

  /** A missing object's line has two words, so the scan ends there. */
  lemma MissingStops(before: Bytes, a: Answer, rest: Bytes, withCr: set<Bytes>)
    requires ValidAnswer(a) && a.Missing?
    ensures ScanFrom(before + PrintAnswer(a) + rest, |before|, withCr) == withCr
  {
    hide Words, IsWord, IndexOf, PrintAnswer, MISSING;
    var header := a.sha + [SPACE] + MISSING;
    MissingIsWord();
    NoLineFeed(a.sha, MISSING, MISSING);
    WordsOfTwo(a.sha, MISSING);
    AnswerText(before, a, rest);
    LineText(before, header, rest);
    SegmentEnds(before, header, LF, rest);
  }

  lemma MissingIsWord()
    ensures IsWord(MISSING)
  {
  }

  lemma {:induction false} AnswersScan(before: Bytes, answers: seq<Answer>, withCr: set<Bytes>)
    requires forall k | 0 <= k < |answers| :: ValidAnswer(answers[k])
    ensures ScanFrom(before + PrintAnswers(answers), |before|, withCr) == withCr + CrShas(BeforeMissing(answers))
    decreases |answers|
  {
    hide PrintAnswer, ValidAnswer;
    if answers == [] {
    } else {
      var a, rest := answers[0], answers[1..];
      assert before + PrintAnswers(answers) == before + PrintAnswer(a) + PrintAnswers(rest);
      if a.Missing? {
        MissingStops(before, a, PrintAnswers(rest), withCr);
      } else {
        var next := if CR in a.content then withCr + {a.sha} else withCr;
        PresentScans(before, a, PrintAnswers(rest), withCr);
        AnswersScan(before + PrintAnswer(a), rest, next);
        CrShasStep(a, BeforeMissing(rest));
      }
    }
  }

  lemma CrShasStep(a: Answer, rest: seq<Answer>)
    requires a.Present?
    ensures CrShas([a] + rest) == (if CR in a.content then {a.sha} else {}) + CrShas(rest)
  {
    assert forall x :: x in [a] + rest <==> x == a || x in rest;
  }

  /** The scan returns exactly the names of the objects before the first missing one
      whose content holds a carriage return. */
  lemma ScanIsExact(answers: seq<Answer>)
    requires forall k | 0 <= k < |answers| :: ValidAnswer(answers[k])
    ensures ScanFrom(PrintAnswers(answers), 0, {}) == CrShas(BeforeMissing(answers))
  {
    hide PrintAnswer, ValidAnswer, ScanFrom;
    AnswersScan([], answers, {});
    assert [] + PrintAnswers(answers) == PrintAnswers(answers);
  }
}
