/**
 The recursive tree listing, spelled out: which bytes are read as which entries. A record is a header by the
 source's pattern, a tab and a path, and ends in a zero byte.
 */
module GitForm {
  import opened Basics
  import opened Patterns
  import opened GitStreams

  /** A text written out in the scripts, as bytes. */
  function Raw(s: string): (b: Bytes)
    ensures |b| == |s| && forall k | 0 <= k < |s| :: b[k] as int == s[k] as int % 256
  {
    seq(|s|, k requires 0 <= k < |s| => (s[k] as int % 256) as byte)
  }

  // ---------- Entries ----------

  const OCTAL: seq<(char, char)> := [('0', '7')]
  const DECIMAL: seq<(char, char)> := [('0', '9')]

  predicate AllIn(s: Bytes, ranges: seq<(char, char)>) { forall k | 0 <= k < |s| :: InRanges(ranges, s[k] as char) }

  function JoinNames(names: seq<Bytes>): Bytes
    requires names != []
  {
    if |names| == 1 then names[0] else names[0] + Raw("/") + JoinNames(names[1..])
  }

  predicate LegalName(name: Bytes) {
    name != [] && name != Raw(".") && name != Raw("..") && 0 !in name && Raw("/")[0] !in name
  }

  /** Names between slashes, none of them empty, `.` or `..`, and without a zero byte. */
  ghost predicate LegalPath(path: Bytes) {
    exists names: seq<Bytes> | names != [] && path == JoinNames(names) :: forall name | name in names :: LegalName(name)
  }

  predicate LegalMode(kind: Kind, mode: Bytes) {
    match kind
    case Blob => mode in [Raw("100644"), Raw("100755"), Raw("120000")]
    case Tree => mode == Raw("040000")
    case Commit => mode == Raw("160000")
  }

  /** `[a-f0-9]{40}` */
  predicate LegalSha(s: Bytes) { |s| == 40 && AllIn(s, HEX) }

  predicate LegalSize(kind: Kind, size: Option<nat>) {
    (size.Some? <==> kind.Blob?) && (size.Some? ==> size.value < 0x20_0000_0000_0000)
  }

  lemma SlashExactly()
    ensures Raw("/") == [SLASH] && Raw(".") == [DOT] && Raw("..") == [DOT, DOT]
  {
  }

  lemma ModeExactly(kind: Kind, mode: Bytes)
    ensures ValidMode(kind, mode) <==> LegalMode(kind, mode)
  {
    assert Raw("100644") == REGULAR_MODE && Raw("100755") == EXECUTABLE_MODE && Raw("120000") == SYMLINK_MODE;
    assert Raw("040000") == TREE_MODE && Raw("160000") == COMMIT_MODE;
    hide Raw, REGULAR_MODE, EXECUTABLE_MODE, SYMLINK_MODE, TREE_MODE, COMMIT_MODE;
  }

  lemma CharacterExactly(b: byte)
    ensures IsHex(b) <==> InRanges(HEX, b as char)
    ensures IsDigit(b) <==> InRanges(DECIMAL, b as char)
    ensures 48 <= b <= 55 <==> InRanges(OCTAL, b as char)
  {
    assert HEX[0] == ('a', 'f') && HEX[1] == ('0', '9') && DECIMAL[0] == ('0', '9') && OCTAL[0] == ('0', '7');
  }

  lemma ShapesExactly(s: Bytes)
    ensures IsObjectName(s) <==> LegalSha(s)
    ensures IsDigits(s) <==> s != [] && AllIn(s, DECIMAL)
    ensures IsOctal(s) <==> |s| == 6 && AllIn(s, OCTAL)
  {
    forall k | 0 <= k < |s|
      ensures IsHex(s[k]) <==> InRanges(HEX, s[k] as char)
      ensures IsDigit(s[k]) <==> InRanges(DECIMAL, s[k] as char)
      ensures 48 <= s[k] <= 55 <==> InRanges(OCTAL, s[k] as char)
    {
      CharacterExactly(s[k]);
    }
    hide InRanges, IsHex, IsDigit;
  }

  predicate LegalPart(part: Bytes) { part != [] && part != [DOT] && part != [DOT, DOT] && SLASH !in part }

  /** The parts of the path from a position on are legal names. */
  lemma {:induction false} PartsSplit(path: Bytes, start: nat) returns (names: seq<Bytes>)
    requires start <= |path| && PartsValid(path, start)
    ensures names != [] && path[start..] == JoinNames(names) && forall name | name in names :: LegalPart(name)
    decreases |path| - start
  {
    SlashExactly();
    var end := IndexOf(path, SLASH, start);
    var part := path[start..end];
    names := [part];
    if end < |path| {
      var rest := PartsSplit(path, end + 1);
      names := [part] + rest;
      assert names[1..] == rest;
      assert path[start..] == part + [SLASH] + path[end + 1..];
    }
  }

  lemma PartStep(path: Bytes, start: nat, part: Bytes, rest: Bytes)
    requires start <= |path| && SLASH !in part && path[start..] == part + [SLASH] + rest
    ensures var end := IndexOf(path, SLASH, start);
      end < |path| && path[start..end] == part && path[end + 1..] == rest
  {
    hide IndexOf;
    var before := path[..start];
    assert path == before + part + [SLASH] + rest;
    SegmentFound(before, part, SLASH, rest);
    SegmentAt(before, part, [SLASH] + rest);
    assert path == before + part + ([SLASH] + rest);
  }

  lemma LastPart(path: Bytes, start: nat)
    requires start <= |path| && SLASH !in path[start..]
    ensures IndexOf(path, SLASH, start) == |path| && path[start..|path|] == path[start..]
  {
    hide IndexOf;
    forall j | start <= j < |path| ensures path[j] != SLASH {
      assert path[j] == path[start..][j - start];
    }
  }

  lemma {:induction false} PartsJoin(path: Bytes, start: nat, names: seq<Bytes>)
    requires start <= |path| && names != [] && path[start..] == JoinNames(names)
    requires forall name | name in names :: LegalPart(name)
    ensures PartsValid(path, start)
    decreases |names|
  {
    hide IndexOf, Raw;
    SlashExactly();
    assert LegalPart(names[0]);
    if |names| == 1 {
      LastPart(path, start);
    } else {
      PartStep(path, start, names[0], JoinNames(names[1..]));
      PartsJoin(path, IndexOf(path, SLASH, start) + 1, names[1..]);
    }
  }

  lemma {:induction false} JoinedHolds(names: seq<Bytes>, b: byte)
    requires names != [] && b != SLASH
    ensures b in JoinNames(names) <==> exists k | 0 <= k < |names| :: b in names[k]
  {
    SlashExactly();
    if |names| > 1 {
      JoinedHolds(names[1..], b);
      assert forall k | 0 < k < |names| :: names[k] == names[1..][k - 1];
      if k :| 0 <= k < |names[1..]| && b in names[1..][k] {
        assert b in names[k + 1];
      }
    } else {
      assert b in names[0] ==> exists k | 0 <= k < |names| :: b in names[k];
    }
  }

  lemma PathExactly(path: Bytes)
    ensures ValidPath(path) <==> LegalPath(path)
  {
    hide IndexOf, PartsValid, JoinNames;
    SlashExactly();
    assert path[0..] == path;
    if ValidPath(path) {
      var names := PartsSplit(path, 0);
      JoinedHolds(names, NUL);
      forall name | name in names ensures LegalName(name) {
        var k :| 0 <= k < |names| && names[k] == name;
      }
    }
    if names: seq<Bytes> :| names != [] && path == JoinNames(names) && forall name | name in names :: LegalName(name) {
      PartsJoin(path, 0, names);
      JoinedHolds(names, NUL);
      forall k | 0 <= k < |names| ensures NUL !in names[k] {
        assert names[k] in names;
      }
      NamesNotEmpty(names);
    }
  }

  lemma NamesNotEmpty(names: seq<Bytes>)
    requires names != [] && forall name | name in names :: LegalName(name)
    ensures JoinNames(names) != []
  {
    assert names[0] in names;
  }

  ghost predicate LegalEntry(utf8: Bytes -> bool, e: GitEntry) {
    && LegalPath(e.path) && utf8(e.path) && LegalMode(e.kind, e.mode) && LegalSha(e.sha) && LegalSize(e.kind, e.size)
  }

  /** Which entries are valid. */
  lemma EntryExactly(utf8: Bytes -> bool, e: GitEntry)
    ensures ValidEntry(utf8, e) <==> LegalEntry(utf8, e)
  {
    hide ValidPath, LegalPath, ValidMode, LegalMode, IsObjectName, LegalSha;
    PathExactly(e.path);
    ModeExactly(e.kind, e.mode);
    ShapesExactly(e.sha);
  }

  // ---------- Headers ----------

  function Named(kind: Kind): Bytes {
    match kind
    case Blob => Raw("blob")
    case Tree => Raw("tree")
    case Commit => Raw("commit")
  }

  predicate IsGap(s: Bytes) { s != [] && forall k | 0 <= k < |s| :: s[k] == 32 }

  /** `([0-9]+|-)`, with the number it writes. */
  predicate IsSize(s: Bytes, size: Option<nat>) {
    match size
    case None => s == Raw("-")
    case Some(n) => IsDigits(s) && DigitsValue(s) == n
  }

  /** `^([0-7]{6}) (blob|tree|commit) ([a-f0-9]{40}) +([0-9]+|-)$` */
  ghost predicate HeaderText(h: Bytes, x: Header) {
    && |x.mode| == 6 && AllIn(x.mode, OCTAL) && LegalSha(x.sha)
    && exists gap: Bytes, size: Bytes | IsGap(gap) && IsSize(size, x.size) ::
         h == x.mode + Raw(" ") + Named(x.kind) + Raw(" ") + x.sha + gap + size
  }

  lemma KindExactly(kind: Kind)
    ensures Named(kind) == KindName(kind) && Raw(" ") == [SPACE] && Raw("-") == [DASH]
  {
    assert Raw("blob") == BLOB_NAME && Raw("tree") == TREE_NAME && Raw("commit") == COMMIT_NAME;
  }

  lemma {:induction false} GapSkipped(gap: Bytes, rest: Bytes)
    requires (forall k | 0 <= k < |gap| :: gap[k] == 32) && rest != [] && rest[0] != SPACE
    ensures SkipSpaces(gap + rest) == rest
  {
    if gap == [] {
      assert gap + rest == rest;
    } else {
      assert (gap + rest)[1..] == gap[1..] + rest;
      GapSkipped(gap[1..], rest);
    }
  }

  lemma {:induction false} SkippedGap(s: Bytes) returns (gap: Bytes)
    ensures s == gap + SkipSpaces(s) && forall k | 0 <= k < |gap| :: gap[k] == 32
    ensures s != [] && s[0] == SPACE ==> gap != []
  {
    gap := [];
    if s != [] && s[0] == SPACE {
      var rest := SkippedGap(s[1..]);
      gap := [s[0]] + rest;
    }
  }

  lemma KindSplits(s: Bytes)
    requires ParseKind(s).Some?
    ensures s == KindName(ParseKind(s).value.0) + [SPACE] + ParseKind(s).value.1
  {
    var name := KindName(ParseKind(s).value.0) + [SPACE];
    assert name <= s && s == name + s[|name|..];
  }

  lemma HeaderSplits(h: Bytes)
    requires ParseHeader(h).Some?
    ensures HeaderText(h, ParseHeader(h).value)
  {
    hide SkipSpaces, ParseKind, IsDigits, IsOctal, IsObjectName, Raw, AllIn, LegalSha, KindName, DigitsValue;
    var x := ParseHeader(h).value;
    KindSplits(h[7..]);
    var after := ParseKind(h[7..]).value.1;
    KindExactly(x.kind);
    ShapesExactly(x.mode);
    ShapesExactly(x.sha);
    var gap := SkippedGap(after[40..]);
    var size := SkipSpaces(after[40..]);
    assert IsGap(gap) && IsSize(size, x.size);
    assert h == h[..6] + [SPACE] + h[7..];
    assert after == after[..40] + after[40..];
    assert h == x.mode + Raw(" ") + Named(x.kind) + Raw(" ") + x.sha + gap + size;
  }

  lemma SizeStarts(s: Bytes, size: Option<nat>)
    requires IsSize(s, size)
    ensures s != [] && s[0] != SPACE && (s == [DASH] <==> size.None?)
  {
    KindExactly(Blob);
  }

  lemma HeaderIsParsed(h: Bytes, x: Header, gap: Bytes, size: Bytes)
    requires IsOctal(x.mode) && IsObjectName(x.sha) && IsGap(gap) && IsSize(size, x.size)
    requires h == x.mode + [SPACE] + KindName(x.kind) + [SPACE] + x.sha + gap + size
    ensures ParseHeader(h) == Some(x)
  {
    hide SkipSpaces, ParseKind, IsDigits, IsObjectName, Raw, KindName, DigitsValue, IsGap, IsSize;
    OctalLength(x.mode);
    ShaLength(x.sha);
    var rest := x.sha + (gap + size);
    KindReads(x.kind, rest);
    assert h == x.mode + [SPACE] + (KindName(x.kind) + [SPACE] + rest);
    assert h[..6] == x.mode && h[7..] == KindName(x.kind) + [SPACE] + rest;
    assert rest[..40] == x.sha && rest[40..] == gap + size;
    GapStarts(gap, size);
    SizeStarts(size, x.size);
    GapIsSkipped(gap, size);
    SizeIsParsed(size, x.size);
    hide IsOctal;
  }

  lemma ShaLength(s: Bytes)
    requires IsObjectName(s)
    ensures |s| == 40
  {
  }

  lemma GapStarts(gap: Bytes, size: Bytes)
    requires IsGap(gap)
    ensures gap != [] && (gap + size)[0] == SPACE
  {
  }

  lemma GapIsSkipped(gap: Bytes, size: Bytes)
    requires IsGap(gap) && size != [] && size[0] != SPACE
    ensures SkipSpaces(gap + size) == size
  {
    GapSkipped(gap, size);
  }

  lemma SizeIsParsed(size: Bytes, n: Option<nat>)
    requires IsSize(size, n)
    ensures n.None? ==> size == [DASH]
    ensures n.Some? ==> size != [DASH] && IsDigits(size) && DigitsValue(size) == n.value
  {
    KindExactly(Blob);
  }

  lemma HeaderExactly(h: Bytes, x: Header)
    ensures ParseHeader(h) == Some(x) <==> HeaderText(h, x)
  {
    hide ParseHeader, Raw, AllIn, LegalSha, IsOctal, IsObjectName, KindName, Named;
    if ParseHeader(h) == Some(x) {
      HeaderSplits(h);
    }
    if HeaderText(h, x) {
      var gap: Bytes, size: Bytes :| IsGap(gap) && IsSize(size, x.size)
        && h == x.mode + Raw(" ") + Named(x.kind) + Raw(" ") + x.sha + gap + size;
      KindExactly(x.kind);
      ShapesExactly(x.mode);
      ShapesExactly(x.sha);
      HeaderIsParsed(h, x, gap, size);
    }
  }

  // ---------- Records ----------

  /** The high bit of each byte does not count. */
  predicate SevenBits(s: Bytes, t: Bytes) {
    |s| == |t| && forall k | 0 <= k < |s| :: t[k] == if s[k] >= 128 then s[k] - 128 else s[k]
  }

  /** A header, the record's first tab, and the path. */
  ghost predicate RecordText(utf8: Bytes -> bool, record: Bytes, e: GitEntry) {
    && LegalEntry(utf8, e)
    && exists head: Bytes, plain: Bytes | head != [] && 9 !in head && SevenBits(head, plain) ::
         HeaderText(plain, Header(e.mode, e.kind, e.sha, e.size)) && record == head + [9] + e.path
  }

  lemma SevenBitsExactly(s: Bytes, t: Bytes)
    ensures SevenBits(s, t) <==> t == Ascii(s)
  {
    forall k | 0 <= k < |s| ensures s[k] % 128 == if s[k] >= 128 then s[k] - 128 else s[k] {
    }
  }

  lemma HeaderShape(h: Bytes)
    ensures ParseHeader(h).Some? ==> IsObjectName(ParseHeader(h).value.sha)
  {
    hide SkipSpaces, ParseKind, IsDigits, IsOctal;
  }

  lemma RecordSplits(utf8: Bytes -> bool, record: Bytes, seen: set<Bytes>, e: GitEntry)
    requires ParseRecord(utf8, record, seen) == Ok([e])
    ensures RecordText(utf8, record, e) && e.path !in seen
  {
    hide ParseHeader, ValidPath, ValidMode, ValidSize, IsObjectName, HeaderText, LegalEntry, SevenBits, Ascii;
    var separator := IndexOf(record, TAB, 0);
    var head := record[..separator];
    SevenBitsExactly(head, Ascii(head));
    HeaderExactly(Ascii(head), ParseHeader(Ascii(head)).value);
    HeaderShape(Ascii(head));
    EntryExactly(utf8, e);
    assert record == head + [TAB] + record[separator + 1..];
  }

  lemma RecordIsParsed(utf8: Bytes -> bool, record: Bytes, seen: set<Bytes>, e: GitEntry)
    requires RecordText(utf8, record, e) && e.path !in seen
    ensures ParseRecord(utf8, record, seen) == Ok([e])
  {
    hide ParseHeader, ValidPath, ValidMode, ValidSize, IsObjectName, HeaderText, LegalEntry, SevenBits, Ascii, IndexOf;
    var head: Bytes, plain: Bytes :| head != [] && 9 !in head && SevenBits(head, plain)
      && HeaderText(plain, Header(e.mode, e.kind, e.sha, e.size)) && record == head + [9] + e.path;
    SevenBitsExactly(head, plain);
    HeaderExactly(plain, Header(e.mode, e.kind, e.sha, e.size));
    EntryExactly(utf8, e);
    PathNonempty(e.path);
    SegmentFound([], head, TAB, e.path);
    assert [] + head + [TAB] + e.path == record;
    assert record[..|head|] == head && record[|head| + 1..] == e.path;
  }

  /** A record is read as an entry exactly if it is its text, and the path is new. */
  lemma RecordExactly(utf8: Bytes -> bool, record: Bytes, seen: set<Bytes>, e: GitEntry)
    ensures ParseRecord(utf8, record, seen) == Ok([e]) <==> RecordText(utf8, record, e) && e.path !in seen
  {
    hide ParseRecord, RecordText;
    if ParseRecord(utf8, record, seen) == Ok([e]) {
      RecordSplits(utf8, record, seen, e);
    }
    if RecordText(utf8, record, e) && e.path !in seen {
      RecordIsParsed(utf8, record, seen, e);
    }
  }

  // ---------- The listing ----------

  /** Each record, and a zero byte after it. */
  function Terminated(records: seq<Bytes>): Bytes {
    if records == [] then [] else records[0] + [0] + Terminated(records[1..])
  }

  /** The records write the entries one by one, each with a path that was not seen before. */
  ghost predicate WritesTree(utf8: Bytes -> bool, records: seq<Bytes>, tree: seq<GitEntry>, seen: set<Bytes>)
    decreases |records|
  {
    if records == [] || tree == [] then records == [] && tree == []
    else
      && 0 !in records[0] && RecordText(utf8, records[0], tree[0]) && tree[0].path !in seen
      && WritesTree(utf8, records[1..], tree[1..], seen + {tree[0].path})
  }

  lemma WritesCons(
    utf8: Bytes -> bool, record: Bytes, e: GitEntry, records: seq<Bytes>, tree: seq<GitEntry>, seen: set<Bytes>)
    ensures WritesTree(utf8, [record] + records, [e] + tree, seen) <==>
      && 0 !in record && RecordText(utf8, record, e) && e.path !in seen
      && WritesTree(utf8, records, tree, seen + {e.path})
  {
    hide RecordText;
    assert ([record] + records)[1..] == records && ([e] + tree)[1..] == tree;
  }

  lemma OneRecord(utf8: Bytes -> bool, record: Bytes, seen: set<Bytes>)
    ensures ParseRecord(utf8, record, seen).Ok? ==> exists e :: ParseRecord(utf8, record, seen) == Ok([e])
  {
    hide ParseHeader, ValidPath, ValidMode, ValidSize, IndexOf;
  }

  lemma {:induction false} ListingSplits(utf8: Bytes -> bool, output: Bytes, start: nat, tree: seq<GitEntry>)
    returns (records: seq<Bytes>)
    requires start <= |output| && ParseFrom(utf8, output, start, tree).Ok? && |tree| <= MAX_ENTRIES
    ensures var all := ParseFrom(utf8, output, start, tree).tree;
      && tree <= all && |all| <= MAX_ENTRIES && output[start..] == Terminated(records)
      && WritesTree(utf8, records, all[|tree|..], Paths(tree))
    decreases |output| - start
  {
    hide IndexOf, ParseRecord, RecordText, Paths, WritesTree;
    records := [];
    NothingWritten(utf8, Paths(tree));
    if start < |output| {
      var end := IndexOf(output, NUL, start);
      var record := output[start..end];
      OneRecord(utf8, record, Paths(tree));
      var e :| ParseRecord(utf8, record, Paths(tree)) == Ok([e]);
      RecordExactly(utf8, record, Paths(tree), e);
      var rest := ListingSplits(utf8, output, end + 1, tree + [e]);
      records := [record] + rest;
      assert records[1..] == rest;
      var all := ParseFrom(utf8, output, start, tree).tree;
      OnePath(tree, e);
      assert output[start..] == record + [0] + output[end + 1..];
      assert all[|tree|..] == [e] + all[|tree| + 1..];
      WritesCons(utf8, record, e, rest, all[|tree| + 1..], Paths(tree));
    }
  }

  lemma RecordTaken(utf8: Bytes -> bool, output: Bytes, start: nat, tree: seq<GitEntry>, e: GitEntry)
    requires start < |output| && |tree| < MAX_ENTRIES && IndexOf(output, NUL, start) < |output|
    requires ParseRecord(utf8, output[start..IndexOf(output, NUL, start)], Paths(tree)) == Ok([e])
    ensures ParseFrom(utf8, output, start, tree) ==
      ParseFrom(utf8, output, IndexOf(output, NUL, start) + 1, tree + [e])
  {
    hide IndexOf, ParseRecord, Paths;
  }

  lemma {:induction false} ListingIsParsed(
    utf8: Bytes -> bool, output: Bytes, start: nat, tree: seq<GitEntry>, records: seq<Bytes>, more: seq<GitEntry>)
    requires start <= |output| && output[start..] == Terminated(records)
    requires WritesTree(utf8, records, more, Paths(tree)) && |tree| + |more| <= MAX_ENTRIES
    ensures ParseFrom(utf8, output, start, tree) == Ok(tree + more)
    decreases |records|
  {
    hide IndexOf, ParseRecord, RecordText, Paths, WritesTree, ParseFrom;
    ParseEnds(utf8, output, tree);
    Alike(utf8, records, more, Paths(tree));
    if records == [] {
      assert more == [] && tree + more == tree && start == |output|;
    } else {
      var record, rest, e := records[0], Terminated(records[1..]), more[0];
      assert records == [record] + records[1..] && more == [e] + more[1..];
      WritesCons(utf8, record, e, records[1..], more[1..], Paths(tree));
      NulStep(output, start, record, rest);
      var end := IndexOf(output, NUL, start);
      RecordExactly(utf8, record, Paths(tree), e);
      OnePath(tree, e);
      RecordTaken(utf8, output, start, tree, e);
      var tail := more[1..];
      ListingIsParsed(utf8, output, end + 1, tree + [e], records[1..], tail);
      assert tree + [e] + tail == tree + more;
    }
  }

  lemma Alike(utf8: Bytes -> bool, records: seq<Bytes>, tree: seq<GitEntry>, seen: set<Bytes>)
    requires WritesTree(utf8, records, tree, seen)
    ensures records == [] <==> tree == []
  {
  }

  lemma NothingWritten(utf8: Bytes -> bool, seen: set<Bytes>)
    ensures WritesTree(utf8, [], [], seen)
  {
  }

  lemma NulStep(output: Bytes, start: nat, record: Bytes, rest: Bytes)
    requires start <= |output| && 0 !in record && output[start..] == record + [0] + rest
    ensures var end := IndexOf(output, NUL, start);
      end < |output| && output[start..end] == record && output[end + 1..] == rest
  {
    hide IndexOf;
    var before := output[..start];
    assert output == before + record + [NUL] + rest;
    SegmentFound(before, record, NUL, rest);
    SegmentAt(before, record, [NUL] + rest);
    assert output == before + record + ([NUL] + rest);
  }

  lemma {:induction false} TerminatedEnds(records: seq<Bytes>)
    ensures records != [] ==> Terminated(records) != [] && Terminated(records)[|Terminated(records)| - 1] == 0
  {
    if |records| > 1 {
      TerminatedEnds(records[1..]);
    }
  }

  /** A listing is read as a tree exactly if it is the terminated records of entries with distinct paths, at
      most 200,000 of them. */
  lemma TreeExactly(utf8: Bytes -> bool, output: Bytes, tree: seq<GitEntry>)
    ensures ParseTree(utf8, output) == Ok(tree) <==>
      |tree| <= 200_000 &&
      exists records: seq<Bytes> | output == Terminated(records) :: WritesTree(utf8, records, tree, {})
  {
    hide ParseFrom, WritesTree;
    EmptyPaths();
    assert output[0..] == output;
    if ParseTree(utf8, output) == Ok(tree) {
      var records := ListingSplits(utf8, output, 0, []);
      assert tree[0..] == tree;
    }
    if records: seq<Bytes> :| output == Terminated(records) && WritesTree(utf8, records, tree, {}) {
      TerminatedEnds(records);
      if |tree| <= MAX_ENTRIES {
        ListingIsParsed(utf8, output, 0, [], records, tree);
        assert [] + tree == tree;
      }
    }
  }

  // ---------- The object stream ----------

  /** What Git prints for one object: `<sha> <kind> <size>`, a line end, the content and a line end, or
      `<sha> missing` and a line end. */
  lemma AnswerExactly(a: Answer)
    ensures PrintAnswer(a) ==
      match a
      case Present(sha, kind, content) =>
        sha + Raw(" ") + kind + Raw(" ") + Decimal(|content|) + [10] + content + [10]
      case Missing(sha) => sha + Raw(" missing") + [10]
  {
    hide Decimal;
    assert Raw(" ") == [SPACE] && Raw(" missing") == [SPACE] + MISSING;
  }

  /** The objects found are those whose content holds a carriage return. */
  lemma {:induction false} FoundExactly(answers: seq<Answer>, sha: Bytes)
    ensures sha in CrShas(answers) <==>
      exists k | 0 <= k < |answers| :: answers[k].Present? && answers[k].sha == sha && 13 in answers[k].content
  {
    if answers != [] {
      FoundExactly(answers[1..], sha);
      assert forall k | 0 < k < |answers| :: answers[k] == answers[1..][k - 1];
      if k :| 0 <= k < |answers| && answers[k].Present? && answers[k].sha == sha && 13 in answers[k].content {
        assert k > 0 ==> answers[1..][k - 1] == answers[k];
      }
    }
  }
}
