/**
 The digest of a path, spelled out: a file's is the hash of its content, a directory's that of the text
 `[["path",length,"digest"],...]` over the files below it.
 */
module DigestForm {
  import opened Basics
  import opened Utf8
  import opened CanonicalJson
  import opened CanonicalJsonTheorems
  import opened CanonicalForm
  import opened CanonicalText
  import opened FileTrees

  /** The names with slashes between them. */
  function PathText(path: Path): Text {
    if path == [] then []
    else if |path| == 1 then path[0]
    else PathText(path[..|path| - 1]) + FromAscii("/") + path[|path| - 1]
  }

  function OneSlash(u: Unit): Unit { if u == 0x5C then 0x2F else u }

  /** Backslashes count as slashes. */
  function Portable(t: Text): (r: Text)
    ensures |r| == |t| && forall k | 0 <= k < |t| :: r[k] == OneSlash(t[k])
  {
    seq(|t|, k requires 0 <= k < |t| => OneSlash(t[k]))
  }

  /** `["path",length,"digest"]` */
  function EntryText(hash: Hash, path: Path, content: Bytes): Text {
    FromAscii("[") + Quoted(Portable(PathText(path))) + FromAscii(",") + Decimal(|content|) + FromAscii(",")
    + Quoted(hash(content)) + FromAscii("]")
  }

  function EntryTexts(hash: Hash, files: Listing): (texts: seq<Text>)
    ensures |texts| == |files|
    ensures forall k | 0 <= k < |files| :: texts[k] == EntryText(hash, files[k].0, files[k].1)
  {
    seq(|files|, k requires 0 <= k < |files| => EntryText(hash, files[k].0, files[k].1))
  }

  lemma {:induction false} SlashedExactly(path: Path)
    ensures Slashed(path) == PathText(path)
  {
    assert FromAscii("/") == [SLASH];
    if |path| > 1 {
      var front, last := path[..|path| - 1], path[|path| - 1];
      SlashedExactly(front);
      SlashedAppend(front, last);
      assert path == front + [last];
    }
  }

  lemma {:induction false} SlashedAppend(front: Path, last: Text)
    requires front != []
    ensures Slashed(front + [last]) == Slashed(front) + [SLASH] + last
  {
    if |front| == 1 {
      assert (front + [last])[1..] == [last];
    } else {
      SlashedAppend(front[1..], last);
      assert (front + [last])[1..] == front[1..] + [last];
    }
  }

  lemma PortableExactly(t: Text)
    ensures ForwardSlashes(t) == Portable(t)
  {
  }

  lemma EntryExactly(hash: Hash, file: (Path, Bytes))
    ensures Print(Listed(hash, file)) == EntryText(hash, file.0, file.1)
  {
    hide PrintString, Quoted, Decimal, Portable, Slashed, PathText, ForwardSlashes;
    SlashedExactly(file.0);
    PortableExactly(PathText(file.0));
    var path, digest := Portable(PathText(file.0)), hash(file.1);
    QuotedExactly(path);
    QuotedExactly(digest);
    assert FromAscii("[") == [LBRACKET] && FromAscii("]") == [RBRACKET] && FromAscii(",") == [COMMA];
    ThreePrinted(JString(path), JNumber(Decimal(|file.1|)), JString(digest));
  }

  lemma ThreeJoined(a: Text, b: Text, c: Text)
    ensures Join([a, b, c]) == a + [COMMA] + b + [COMMA] + c
  {
    var texts := [a, b, c];
    assert texts[1..] == [b, c] && texts[1..][1..] == [c];
    assert Join([c]) == c && Join([b, c]) == b + [COMMA] + c;
  }

  lemma Grouped(open: Text, a: Text, b: Text, c: Text, close: Text)
    ensures open + (a + [COMMA] + b + [COMMA] + c) + close == open + a + [COMMA] + b + [COMMA] + c + close
  {
  }

  lemma ThreeTexts(a: Json, b: Json, c: Json)
    ensures PrintItems([a, b, c]) == [Print(a), Print(b), Print(c)]
  {
    hide Print;
    assert forall k | 0 <= k < 3 :: PrintItems([a, b, c])[k] == [Print(a), Print(b), Print(c)][k];
  }

  lemma ThreePrinted(a: Json, b: Json, c: Json)
    ensures Print(JArray([a, b, c])) ==
      [LBRACKET] + Print(a) + [COMMA] + Print(b) + [COMMA] + Print(c) + [RBRACKET]
  {
    assert FromAscii("[") == [LBRACKET] && FromAscii("]") == [RBRACKET];
    hide *;
    ArrayPrinted([a, b, c]);
    ThreeTexts(a, b, c);
    ThreeJoined(Print(a), Print(b), Print(c));
    Grouped([LBRACKET], Print(a), Print(b), Print(c), [RBRACKET]);
  }

  /** The text of a directory's listing. */
  function ListingText(hash: Hash, n: Node): Text {
    FromAscii("[") + Separated(EntryTexts(hash, Flatten(n, []))) + FromAscii("]")
  }

  /** Only files and directories with distinct names without slashes have a digest, and this one. */
  lemma DigestExactly(hash: Hash, n: Node)
    ensures DigestOf(hash, n) == if !Plain(n) then None
      else if n.File? then Some(hash(n.content)) else Some(hash(Encode(ListingText(hash, n))))
  {
    hide Print, Separated, Join, EntryText, Listed, Encode, Flatten, Plain;
    var files := Flatten(n, []);
    var items := ListedAll(hash, files);
    forall k | 0 <= k < |files| ensures PrintItems(items)[k] == EntryTexts(hash, files)[k] {
      EntryExactly(hash, files[k]);
    }
    assert PrintItems(items) == EntryTexts(hash, files);
    SeparatedExactly(PrintItems(items));
    ArrayPrinted(items);
  }

  lemma ArrayPrinted(items: seq<Json>)
    ensures Print(JArray(items)) == FromAscii("[") + Join(PrintItems(items)) + FromAscii("]")
  {
    assert FromAscii("[") == [LBRACKET] && FromAscii("]") == [RBRACKET];
  }

  /** The files of a tree whose names differ: those that its paths lead to. */
  lemma {:induction false} FilesExactly(n: Node, at: Path, path: Path, content: Bytes)
    requires Plain(n)
    ensures (at + path, content) in Flatten(n, at) <==> NodeAt(n, path) == Some(File(content))
    decreases n
  {
    match n {
      case Directory(entries) =>
        PathsUnderAll(entries, at);
        if path != [] {
          FilesExactlyAll(entries, at, path, content);
        } else {
          assert at + path == at;
        }
      case File(own) =>
        assert |at + path| == |at| + |path|;
        assert path == [] ==> at + path == at;
    }
  }

  lemma {:induction false} FilesExactlyAll(entries: seq<Child>, at: Path, path: Path, content: Bytes)
    requires DistinctNames(entries) && AllPlain(entries) && path != []
    ensures (at + path, content) in FlattenAll(entries, at) <==>
      exists k | 0 <= k < |entries| :: entries[k].name == path[0]
        && NodeAt(entries[k].node, path[1..]) == Some(File(content))
    decreases entries
  {
    if entries != [] {
      var first, rest := entries[0], entries[1..];
      var below := at + [first.name];
      assert forall k | 0 <= k < |rest| :: rest[k] == entries[k + 1];
      FilesExactlyAll(rest, at, path, content);
      PathsUnder(first.node, below);
      if first.name == path[0] {
        assert below + path[1..] == at + path;
        FilesExactly(first.node, below, path[1..], content);
      }
      assert below[|at|] == first.name && (at + path)[|at|] == path[0];
    }
  }
}
