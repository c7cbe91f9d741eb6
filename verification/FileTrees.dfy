/**
 File trees, their digest, and the create-only copy. A file's digest hashes its content;
 a directory's hashes the JSON text that lists path, length and digest of every file
 below it. The hash is any injective function from bytes to text.
 */
module FileTrees {
  import opened Basics
  import opened Utf8
  import opened CanonicalJson
  import opened CanonicalJsonTheorems
  import opened CanonicalText

  /** A directory keeps its entries in the order the digest visits them. */
  datatype Node = File(content: Bytes) | Directory(entries: seq<Child>) | Redirect | Special

  datatype Child = Child(name: Text, node: Node)

  type Path = seq<Text>

  type Listing = seq<(Path, Bytes)>

  type Hash = Bytes -> Text

  ghost predicate Injective(hash: Hash) { forall a, b :: hash(a) == hash(b) ==> a == b }

  const SLASH: Unit := 47

  predicate DistinctNames(entries: seq<Child>) {
    forall i, j | 0 <= i < j < |entries| :: entries[i].name != entries[j].name
  }

  /** Only files and directories; a directory's names differ and hold no slash. */
  predicate Plain(n: Node) {
    match n
    case File(_) => true
    case Directory(entries) => DistinctNames(entries) && AllPlain(entries) && NoSlash(entries)
    case _ => false
  }

  predicate NoSlash(entries: seq<Child>) { forall k | 0 <= k < |entries| :: SLASH !in entries[k].name }

  predicate AllPlain(entries: seq<Child>) {
    forall k | 0 <= k < |entries| :: Plain(entries[k].node)
  }

  /** The files below a node, visited depth first. */
  function Flatten(n: Node, at: Path): Listing {
    match n
    case File(content) => [(at, content)]
    case Directory(entries) => FlattenAll(entries, at)
    case _ => []
  }

  function FlattenAll(entries: seq<Child>, at: Path): Listing {
    if entries == [] then []
    else Flatten(entries[0].node, at + [entries[0].name]) + FlattenAll(entries[1..], at)
  }

  /** The relative path of a file, with slashes between its names. */
  function Slashed(path: Path): Text {
    if path == [] then []
    else if |path| == 1 then path[0]
    else path[0] + [SLASH] + Slashed(path[1..])
  }

  /** Every backslash becomes a slash. */
  function ForwardSlashes(t: Text): (r: Text)
    ensures |r| == |t| && forall k | 0 <= k < |t| :: r[k] == if t[k] == BACKSLASH then SLASH else t[k]
  {
    seq(|t|, k requires 0 <= k < |t| => if t[k] == BACKSLASH then SLASH else t[k])
  }

  /** The entry of one file: path, length, and digest of the content. */
  function Listed(hash: Hash, file: (Path, Bytes)): Json {
    JArray([JString(ForwardSlashes(Slashed(file.0))), JNumber(Decimal(|file.1|)), JString(hash(file.1))])
  }

  function ListedAll(hash: Hash, files: Listing): (r: seq<Json>)
    ensures |r| == |files| && forall k | 0 <= k < |r| :: r[k] == Listed(hash, files[k])
  {
    seq(|files|, k requires 0 <= k < |files| => Listed(hash, files[k]))
  }

  /** The bytes a directory's digest hashes. */
  function ListingBytes(hash: Hash, n: Node): Bytes { Encode(Print(JArray(ListedAll(hash, Flatten(n, []))))) }

  /** The digest of a path, which fails on anything but files and directories. */
  function DigestOf(hash: Hash, n: Node): Option<Text> {
    if !Plain(n) then None
    else match n
      case File(content) => Some(hash(content))
      case _ => Some(hash(ListingBytes(hash, n)))
  }

  /** The node without its empty directories; a directory of only those is itself empty. */
  function Prune(n: Node): Option<Node> {
    match n
    case File(_) => Some(n)
    case Directory(entries) => var kept := PruneAll(entries); if kept == [] then None else Some(Directory(kept))
    case _ => None
  }

  function PruneAll(entries: seq<Child>): seq<Child> {
    if entries == [] then []
    else
      var first := Prune(entries[0].node);
      (if first.Some? then [Child(entries[0].name, first.value)] else []) + PruneAll(entries[1..])
  }

  /** The same files at the same paths. */
  predicate SameFiles(a: Node, b: Node) { a.File? == b.File? && Prune(a) == Prune(b) }

  // ---------- Equal digests mean the same files ----------

  predicate Under(path: Path, at: Path) { at <= path }

  lemma {:induction false} PathsUnder(n: Node, at: Path)
    ensures forall k | 0 <= k < |Flatten(n, at)| :: Under(Flatten(n, at)[k].0, at)
    ensures n.Directory? ==> forall k | 0 <= k < |Flatten(n, at)| :: |at| < |Flatten(n, at)[k].0|
    decreases n
  {
    if n.Directory? {
      PathsUnderAll(n.entries, at);
    }
  }

  /** Paths below an entry list start with one of its names. */
  lemma {:induction false} PathsUnderAll(entries: seq<Child>, at: Path)
    ensures forall k | 0 <= k < |FlattenAll(entries, at)| ::
      var path := FlattenAll(entries, at)[k].0;
      Under(path, at) && |at| < |path| && exists e | 0 <= e < |entries| :: entries[e].name == path[|at|]
    decreases entries
  {
    if entries != [] {
      var below := at + [entries[0].name];
      PathsUnder(entries[0].node, below);
      PathsUnderAll(entries[1..], at);
      var first, rest, all := Flatten(entries[0].node, below), FlattenAll(entries[1..], at), FlattenAll(entries, at);
      forall k | 0 <= k < |all|
        ensures Under(all[k].0, at) && |at| < |all[k].0|
        ensures exists e | 0 <= e < |entries| :: entries[e].name == all[k].0[|at|]
      {
        if k < |first| {
          assert Under(first[k].0, below) && below[|at|] == entries[0].name;
          assert all[k] == first[k];
          assert all[k].0[..|below|] == below && at == below[..|at|];
          assert entries[0].name == all[k].0[|at|];
        } else {
          assert all[k] == rest[k - |first|];
          var e :| 0 <= e < |entries[1..]| && entries[1..][e].name == rest[k - |first|].0[|at|];
          assert entries[e + 1].name == all[k].0[|at|];
        }
      }
    }
  }

  /** A tree in which every directory holds a file. */
  predicate Full(n: Node) {
    match n
    case File(_) => true
    case Directory(entries) => entries != [] && DistinctNames(entries) && AllFull(entries)
    case _ => false
  }

  predicate AllFull(entries: seq<Child>) {
    forall k | 0 <= k < |entries| :: Full(entries[k].node)
  }

  lemma {:induction false} FullHasFiles(n: Node, at: Path)
    requires Full(n)
    ensures Flatten(n, at) != []
    decreases n
  {
    if n.Directory? {
      FullHasFiles(n.entries[0].node, at + [n.entries[0].name]);
    }
  }

  lemma {:induction false} PruneIsFull(n: Node)
    requires Plain(n)
    ensures Prune(n).Some? ==> Full(Prune(n).value) && Prune(n).value.File? == n.File?
    decreases n
  {
    if n.Directory? {
      PruneAllIsFull(n.entries);
    }
  }

  predicate HasName(entries: seq<Child>, name: Text) {
    exists e | 0 <= e < |entries| :: entries[e].name == name
  }

  lemma {:induction false} PruneAllNames(entries: seq<Child>, k: nat)
    requires k < |PruneAll(entries)|
    ensures HasName(entries, PruneAll(entries)[k].name)
  {
    var rest, all := entries[1..], PruneAll(entries);
    if |all| > |PruneAll(rest)| && k == 0 {
      assert entries[0].name == all[0].name;
    } else {
      var j := k - (|all| - |PruneAll(rest)|);
      PruneAllNames(rest, j);
      var e :| 0 <= e < |rest| && rest[e].name == PruneAll(rest)[j].name;
      assert entries[e + 1].name == all[k].name;
    }
  }

  lemma ConsFull(first: Child, kept: seq<Child>)
    requires Full(first.node) && DistinctNames(kept) && AllFull(kept)
    requires forall k | 0 <= k < |kept| :: kept[k].name != first.name
    ensures DistinctNames([first] + kept) && AllFull([first] + kept)
  {
  }

  lemma {:induction false} PruneAllIsFull(entries: seq<Child>)
    requires DistinctNames(entries) && AllPlain(entries)
    ensures DistinctNames(PruneAll(entries)) && AllFull(PruneAll(entries))
    decreases entries
  {
    hide Full;
    if entries != [] {
      var first, rest := Prune(entries[0].node), entries[1..];
      assert Plain(entries[0].node);
      assert forall k | 0 <= k < |rest| :: rest[k] == entries[k + 1];
      PruneIsFull(entries[0].node);
      PruneAllIsFull(rest);
      var kept := PruneAll(rest);
      forall k | 0 <= k < |kept| ensures kept[k].name != entries[0].name {
        PruneAllNames(rest, k);
      }
      if first.Some? {
        ConsFull(Child(entries[0].name, first.value), kept);
      } else {
        assert PruneAll(entries) == kept;
      }
    }
  }

  lemma {:induction false} PruneKeepsFiles(n: Node, at: Path)
    ensures Flatten(n, at) == if Prune(n).Some? then Flatten(Prune(n).value, at) else []
    decreases n
  {
    if n.Directory? {
      PruneAllKeepsFiles(n.entries, at);
    }
  }

  lemma {:induction false} PruneAllKeepsFiles(entries: seq<Child>, at: Path)
    ensures FlattenAll(entries, at) == FlattenAll(PruneAll(entries), at)
    decreases entries
  {
    if entries != [] {
      PruneKeepsFiles(entries[0].node, at + [entries[0].name]);
      PruneAllKeepsFiles(entries[1..], at);
      var first, kept, all := Prune(entries[0].node), PruneAll(entries[1..]), PruneAll(entries);
      if first.Some? {
        assert all == [Child(entries[0].name, first.value)] + kept && all[1..] == kept;
      } else {
        assert all == kept;
      }
    }
  }

  /** How many leading files lie under a path. */
  function Leading(files: Listing, below: Path): nat {
    if files == [] || !Under(files[0].0, below) then 0 else 1 + Leading(files[1..], below)
  }

  lemma {:induction false} LeadingOf(a: Listing, b: Listing, below: Path)
    requires forall k | 0 <= k < |a| :: Under(a[k].0, below)
    requires b != [] ==> !Under(b[0].0, below)
    ensures Leading(a + b, below) == |a|
  {
    if a == [] {
      assert a + b == b;
    } else {
      assert (a + b)[1..] == a[1..] + b;
      assert forall k | 0 <= k < |a[1..]| :: a[1..][k] == a[k + 1];
      LeadingOf(a[1..], b, below);
    }
  }

  /** A listing splits in one way into files under a path and files that are not. */
  lemma SplitsAlike(a: Listing, b: Listing, c: Listing, d: Listing, below: Path)
    requires a + b == c + d
    requires forall k | 0 <= k < |a| :: Under(a[k].0, below)
    requires forall k | 0 <= k < |c| :: Under(c[k].0, below)
    requires b != [] ==> !Under(b[0].0, below)
    requires d != [] ==> !Under(d[0].0, below)
    ensures a == c && b == d
  {
    LeadingOf(a, b, below);
    LeadingOf(c, d, below);
    assert a == (a + b)[..|a|] && b == (a + b)[|a|..];
    assert c == (c + d)[..|c|] && d == (c + d)[|c|..];
  }

  /** The later entries' first file does not lie under the first entry's name. */
  lemma LaterNotUnder(entries: seq<Child>, at: Path, rest: Listing)
    requires entries != [] && DistinctNames(entries) && rest == FlattenAll(entries[1..], at)
    ensures rest != [] ==> !Under(rest[0].0, at + [entries[0].name])
  {
    PathsUnderAll(entries[1..], at);
    if rest != [] {
      var e :| 0 <= e < |entries[1..]| && entries[1..][e].name == rest[0].0[|at|];
      assert entries[e + 1].name != entries[0].name && (at + [entries[0].name])[|at|] == entries[0].name;
    }
  }

  /** The name of the first entry can be read off the first file. */
  lemma FirstName(entries: seq<Child>, at: Path)
    requires entries != [] && AllFull(entries)
    ensures var all := FlattenAll(entries, at);
      all != [] && |at| < |all[0].0| && all[0].0[|at|] == entries[0].name
  {
    var below := at + [entries[0].name];
    assert Full(entries[0].node);
    FullHasFiles(entries[0].node, below);
    PathsUnder(entries[0].node, below);
    var first := Flatten(entries[0].node, below);
    assert FlattenAll(entries, at)[0] == first[0] && Under(first[0].0, below) && below[|at|] == entries[0].name;
  }

  lemma {:induction false} FullDetermined(a: Node, b: Node, at: Path)
    requires Full(a) && Full(b) && Flatten(a, at) == Flatten(b, at)
    ensures a == b
    decreases a
  {
    FullHasFiles(a, at);
    PathsUnder(a, at);
    PathsUnder(b, at);
    var first := Flatten(a, at)[0];
    assert a.File? ==> first.0 == at;
    assert b.File? ==> first.0 == at;
    if a.Directory? && b.Directory? {
      AllFullDetermined(a.entries, b.entries, at);
    }
  }

  lemma {:induction false} AllFullDetermined(a: seq<Child>, b: seq<Child>, at: Path)
    requires AllFull(a) && AllFull(b) && DistinctNames(a) && DistinctNames(b)
    requires FlattenAll(a, at) == FlattenAll(b, at)
    ensures a == b
    decreases a
  {
    hide Full, Under;
    if a != [] {
      FirstName(a, at);
    }
    if b != [] {
      FirstName(b, at);
    }
    if a != [] && b != [] {
      var below := at + [a[0].name];
      PathsUnder(a[0].node, below);
      PathsUnder(b[0].node, below);
      var restA, restB := FlattenAll(a[1..], at), FlattenAll(b[1..], at);
      LaterNotUnder(a, at, restA);
      LaterNotUnder(b, at, restB);
      SplitsAlike(Flatten(a[0].node, below), restA, Flatten(b[0].node, below), restB, below);
      FullDetermined(a[0].node, b[0].node, below);
      assert forall k | 0 <= k < |a[1..]| :: a[1..][k] == a[k + 1];
      assert forall k | 0 <= k < |b[1..]| :: b[1..][k] == b[k + 1];
      AllFullDetermined(a[1..], b[1..], at);
      assert a == [a[0]] + a[1..] && b == [b[0]] + b[1..];
    }
  }

  // ---------- From digests to files ----------

  /** No name on the way to a file holds a backslash. */
  predicate CleanPaths(n: Node) { CleanListing(Flatten(n, [])) }

  predicate CleanListing(files: Listing) {
    forall k, j | 0 <= k < |files| && 0 <= j < |files[k].0| :: BACKSLASH !in files[k].0[j]
  }

  /** Paths as a file system has them: at least one name, and none with a slash. */
  predicate ProperListing(files: Listing) { forall k | 0 <= k < |files| :: ProperPath(files[k].0) }

  predicate ProperPath(path: Path) { path != [] && NamesProper(path) }

  predicate NamesProper(path: Path) { forall j | 0 <= j < |path| :: SLASH !in path[j] }

  predicate AllProper(files: Listing) { forall k | 0 <= k < |files| :: NamesProper(files[k].0) }

  lemma {:induction false} NamesBelow(n: Node, at: Path)
    requires Plain(n) && NamesProper(at)
    ensures AllProper(Flatten(n, at))
    decreases n
  {
    if n.Directory? {
      NamesBelowAll(n.entries, at);
    }
  }

  lemma {:induction false} NamesBelowAll(entries: seq<Child>, at: Path)
    requires AllPlain(entries) && NoSlash(entries) && NamesProper(at)
    ensures AllProper(FlattenAll(entries, at))
    decreases entries
  {
    hide Plain;
    if entries != [] {
      assert Plain(entries[0].node) && SLASH !in entries[0].name;
      NamesBelow(entries[0].node, at + [entries[0].name]);
      assert forall k | 0 <= k < |entries[1..]| :: entries[1..][k] == entries[k + 1];
      NamesBelowAll(entries[1..], at);
    }
  }

  lemma DirectoryListing(n: Node)
    requires Plain(n) && n.Directory?
    ensures ProperListing(Flatten(n, []))
  {
    hide Plain;
    NamesBelow(n, []);
    PathsUnder(n, []);
  }

  lemma {:induction false} SlashedHasSlash(path: Path)
    requires |path| > 1
    ensures SLASH in Slashed(path)
  {
    assert Slashed(path)[|path[0]|] == SLASH;
  }

  /** The first name ends at the first slash. */
  lemma FirstNameEnds(a: Text, x: Text, b: Text, y: Text)
    requires a + [SLASH] + x == b + [SLASH] + y && SLASH !in a && SLASH !in b
    ensures a == b && x == y
  {
    var s := a + [SLASH] + x;
    assert s[|a|] == SLASH && s[|b|] == SLASH;
    assert forall j | 0 <= j < |a| :: s[j] == a[j];
    assert forall j | 0 <= j < |b| :: s[j] == b[j];
    assert a == s[..|a|] && b == s[..|b|] && x == s[|a| + 1..] && y == s[|b| + 1..];
  }

  /** Joined paths determine their names. */
  lemma {:induction false} SlashedDetermines(p: Path, q: Path)
    requires ProperPath(p) && ProperPath(q) && Slashed(p) == Slashed(q)
    ensures p == q
    decreases |p|
  {
    if |p| > 1 {
      SlashedHasSlash(p);
    }
    if |q| > 1 {
      SlashedHasSlash(q);
    }
    if |p| > 1 && |q| > 1 {
      FirstNameEnds(p[0], Slashed(p[1..]), q[0], Slashed(q[1..]));
      assert forall j | 0 <= j < |p[1..]| :: p[1..][j] == p[j + 1];
      assert forall j | 0 <= j < |q[1..]| :: q[1..][j] == q[j + 1];
      SlashedDetermines(p[1..], q[1..]);
      assert p == [p[0]] + p[1..] && q == [q[0]] + q[1..];
    }
  }

  lemma {:induction false} CleanSlashed(path: Path)
    requires forall j | 0 <= j < |path| :: BACKSLASH !in path[j]
    ensures BACKSLASH !in Slashed(path) && ForwardSlashes(Slashed(path)) == Slashed(path)
  {
    if |path| > 1 {
      assert forall j | 0 <= j < |path[1..]| :: path[1..][j] == path[j + 1];
      CleanSlashed(path[1..]);
    }
  }

  lemma ListingWellFormed(hash: Hash, files: Listing)
    ensures WellFormed(JArray(ListedAll(hash, files)))
  {
    forall k | 0 <= k < |files| ensures WellFormed(Listed(hash, files[k])) {
    }
  }

  /** Equal listing bytes list the same path texts and contents, in order. */
  lemma EqualBytesEqualLists(hash: Hash, a: Listing, b: Listing)
    requires Injective(hash)
    requires Encode(Print(JArray(ListedAll(hash, a)))) == Encode(Print(JArray(ListedAll(hash, b))))
    ensures |a| == |b|
    ensures forall k | 0 <= k < |a| ::
      ForwardSlashes(Slashed(a[k].0)) == ForwardSlashes(Slashed(b[k].0)) && a[k].1 == b[k].1
  {
    hide Print, Encode, Decode, Injective, Slashed, Decimal, NoLoneSurrogate, ValidNumber;
    var x, y := JArray(ListedAll(hash, a)), JArray(ListedAll(hash, b));
    ListingWellFormed(hash, a);
    ListingWellFormed(hash, b);
    PrintText(x);
    PrintText(y);
    EncodeReads(Print(x));
    EncodeReads(Print(y));
    PrintIsCanonical(x, y);
    forall k | 0 <= k < |a|
      ensures ForwardSlashes(Slashed(a[k].0)) == ForwardSlashes(Slashed(b[k].0)) && a[k].1 == b[k].1
    {
      EquivalentItems(x.items, y.items, k);
      SameListed(hash, a[k], b[k]);
    }
  }

  lemma EquivalentItems(xs: seq<Json>, ys: seq<Json>, k: nat)
    requires Equivalent(JArray(xs), JArray(ys)) && k < |xs|
    ensures |xs| == |ys| && Equivalent(xs[k], ys[k])
  {
  }

  lemma SameListed(hash: Hash, f: (Path, Bytes), g: (Path, Bytes))
    requires Injective(hash) && Equivalent(Listed(hash, f), Listed(hash, g))
    ensures ForwardSlashes(Slashed(f.0)) == ForwardSlashes(Slashed(g.0)) && f.1 == g.1
  {
    hide Slashed, Decimal;
    var x, y := Listed(hash, f), Listed(hash, g);
    EquivalentItems(x.items, y.items, 0);
    EquivalentItems(x.items, y.items, 2);
  }

  lemma CleanListingsDetermined(hash: Hash, a: Listing, b: Listing)
    requires Injective(hash) && CleanListing(a) && CleanListing(b) && ProperListing(a) && ProperListing(b)
    requires Encode(Print(JArray(ListedAll(hash, a)))) == Encode(Print(JArray(ListedAll(hash, b))))
    ensures a == b
  {
    hide Print, Encode, Injective, Slashed, ListedAll;
    EqualBytesEqualLists(hash, a, b);
    forall k | 0 <= k < |a| ensures a[k] == b[k] {
      CleanSlashed(a[k].0);
      CleanSlashed(b[k].0);
      assert ProperPath(a[k].0) && ProperPath(b[k].0);
      SlashedDetermines(a[k].0, b[k].0);
    }
  }

  /** Two directories list the same files exactly when pruning makes them equal. */
  lemma ListingIdentifiesFiles(a: Node, b: Node)
    requires Plain(a) && Plain(b) && a.Directory? && b.Directory?
    ensures Flatten(a, []) == Flatten(b, []) <==> SameFiles(a, b)
  {
    hide Plain, Full;
    PlainKinds(a);
    PlainKinds(b);
    PruneIsFull(a);
    PruneIsFull(b);
    PruneKeepsFiles(a, []);
    PruneKeepsFiles(b, []);
    if Prune(a).Some? {
      FullHasFiles(Prune(a).value, []);
    }
    if Prune(b).Some? {
      FullHasFiles(Prune(b).value, []);
    }
    if Flatten(a, []) == Flatten(b, []) && Prune(a).Some? && Prune(b).Some? {
      FullDetermined(Prune(a).value, Prune(b).value, []);
    }
  }

  /** Trees with the same files have the same digest. For a directory whose file paths hold no
      backslash, the digest identifies another tree up to empty directories exactly when that
      tree is a directory whose file paths hold none either. */
  lemma DigestIdentifiesFiles(hash: Hash, a: Node, b: Node)
    requires Injective(hash) && Plain(a) && Plain(b)
    ensures SameFiles(a, b) ==> DigestOf(hash, a) == DigestOf(hash, b)
    ensures a.Directory? && CleanPaths(a) && DigestOf(hash, a) == DigestOf(hash, b) ==>
      (SameFiles(a, b) <==> b.Directory? && CleanPaths(b))
  {
    hide Plain, Prune, Print, Encode, ListedAll;
    PlainKinds(a);
    PlainKinds(b);
    if a.Directory? && b.Directory? {
      ListingIdentifiesFiles(a, b);
      DirectoryListing(a);
      DirectoryListing(b);
      if CleanPaths(a) && CleanPaths(b) && DigestOf(hash, a) == DigestOf(hash, b) {
        DirectoryDigest(hash, a);
        DirectoryDigest(hash, b);
        CleanListingsDetermined(hash, Flatten(a, []), Flatten(b, []));
      }
    }
  }

  lemma DirectoryDigest(hash: Hash, n: Node)
    requires Plain(n) && n.Directory?
    ensures DigestOf(hash, n) == Some(hash(ListingBytes(hash, n)))
  {
  }

  /** A file that holds a directory's listing has that directory's digest. */
  lemma ListingFileCollides(hash: Hash, n: Node)
    requires Plain(n) && n.Directory?
    ensures DigestOf(hash, File(ListingBytes(hash, n))) == DigestOf(hash, n)
    ensures !SameFiles(File(ListingBytes(hash, n)), n)
  {
  }

  /** The two bytes of an empty list have the digest of an empty directory. */
  lemma EmptyListCollides(hash: Hash)
    ensures ListingBytes(hash, Directory([])) == [0x5B, 0x5D]
    ensures DigestOf(hash, File([0x5B, 0x5D])) == DigestOf(hash, Directory([]))
  {
    ListingFileCollides(hash, Directory([]));
    assert ListedAll(hash, []) == [];
    var text: Text := [LBRACKET, RBRACKET];
    assert Print(JArray([])) == text;
    assert text[1..] == [RBRACKET] && text[1..][1..] == [];
    assert Encode([RBRACKET]) == [0x5D] && Encode(text) == [0x5B, 0x5D];
  }

  const LETTER_A: Text := [97]
  const LETTER_B: Text := [98]
  const A_BACKSLASH_B: Text := [97, 92, 98]

  lemma OneChild(name: Text, node: Node, at: Path)
    ensures Flatten(Directory([Child(name, node)]), at) == Flatten(node, at + [name])
    ensures Prune(node).Some? ==>
      Prune(Directory([Child(name, node)])) == Some(Directory([Child(name, Prune(node).value)]))
  {
    var entries := [Child(name, node)];
    assert entries[1..] == [];
    assert PruneAll(entries[1..]) == [] && FlattenAll(entries[1..], at) == [];
    assert FlattenAll(entries, at) == Flatten(node, at + [name]) + [];
    if Prune(node).Some? {
      var kept: seq<Child> := [Child(name, Prune(node).value)];
      assert PruneAll(entries) == kept + [] == kept;
    }
  }

  lemma PlainChild(name: Text, node: Node)
    requires Plain(node) && SLASH !in name
    ensures Plain(Directory([Child(name, node)]))
  {
  }

  lemma SameText()
    ensures ForwardSlashes(Slashed([LETTER_A, LETTER_B])) == ForwardSlashes(Slashed([A_BACKSLASH_B]))
  {
    assert [LETTER_A, LETTER_B][1..] == [LETTER_B];
    var nested, flat := Slashed([LETTER_A, LETTER_B]), Slashed([A_BACKSLASH_B]);
    assert nested == [97, 47, 98] && flat == [97, 92, 98];
    var x, y := ForwardSlashes(nested), ForwardSlashes(flat);
    assert x[0] == y[0] == 97 && x[1] == y[1] == 47 && x[2] == y[2] == 98;
  }

  /** A file whose name holds a backslash lists like the same file in a directory. */
  lemma BackslashCollides(hash: Hash, content: Bytes)
    ensures var flat, nested := Directory([Child(A_BACKSLASH_B, File(content))]),
                                Directory([Child(LETTER_A, Directory([Child(LETTER_B, File(content))]))]);
      && Plain(flat) && Plain(nested) && !SameFiles(flat, nested)
      && DigestOf(hash, flat) == DigestOf(hash, nested)
  {
    hide Print, Encode, Flatten, Prune, Plain;
    var inner := Directory([Child(LETTER_B, File(content))]);
    var flat, nested := Directory([Child(A_BACKSLASH_B, File(content))]), Directory([Child(LETTER_A, inner)]);
    OneChild(A_BACKSLASH_B, File(content), []);
    OneChild(LETTER_A, inner, []);
    OneChild(LETTER_B, File(content), [LETTER_A]);
    FileAlone(content, [A_BACKSLASH_B]);
    FileAlone(content, [LETTER_A, LETTER_B]);
    PlainChild(A_BACKSLASH_B, File(content));
    PlainChild(LETTER_B, File(content));
    PlainChild(LETTER_A, inner);
    assert [] + [LETTER_A] == [LETTER_A] && [] + [A_BACKSLASH_B] == [A_BACKSLASH_B];
    assert [LETTER_A] + [LETTER_B] == [LETTER_A, LETTER_B] && [LETTER_A, LETTER_B][1..] == [LETTER_B];
    SameText();
    assert ListedAll(hash, Flatten(flat, [])) == ListedAll(hash, Flatten(nested, []));
  }

  lemma FileAlone(content: Bytes, at: Path)
    ensures Flatten(File(content), at) == [(at, content)] && Prune(File(content)) == Some(File(content))
    ensures Plain(File(content))
  {
  }

  lemma PlainKinds(n: Node)
    requires Plain(n)
    ensures n.File? || n.Directory?
    ensures n.File? ==> Prune(n) == Some(n)
    ensures n.Directory? && Prune(n).Some? ==> Prune(n).value.Directory?
  {
  }

  // ---------- The create-only copy ----------

  /** The position of a name among the entries, or their number. */
  function FindName(entries: seq<Child>, name: Text): (k: nat)
    ensures k <= |entries| && (k < |entries| ==> entries[k].name == name)
    ensures forall j | 0 <= j < k :: entries[j].name != name
  {
    if entries == [] || entries[0].name == name then 0 else 1 + FindName(entries[1..], name)
  }

  function NodeAt(n: Node, path: Path): Option<Node> {
    if path == [] then Some(n)
    else match n
      case Directory(entries) =>
        var k := FindName(entries, path[0]);
        if k == |entries| then None else NodeAt(entries[k].node, path[1..])
      case _ => None
  }

  /** Creates a new entry at a path; the directory above it must be there. */
  function Create(n: Node, path: Path, item: Node): Node
    requires path != []
    decreases path
  {
    match n
    case Directory(entries) =>
      if |path| == 1 then Directory(entries + [Child(path[0], item)])
      else
        var k := FindName(entries, path[0]);
        if k == |entries| then n
        else Directory(entries[k := Child(path[0], Create(entries[k].node, path[1..], item))])
    case _ => n
  }

  /** The tree with another node at a path that is there. */
  function Graft(n: Node, path: Path, item: Node): Node
    decreases path
  {
    if path == [] then item
    else match n
      case Directory(entries) =>
        var k := FindName(entries, path[0]);
        if k == |entries| then n
        else Directory(entries[k := Child(path[0], Graft(entries[k].node, path[1..], item))])
      case _ => n
  }

  lemma FindReplaced(entries: seq<Child>, name: Text, node: Node)
    requires FindName(entries, name) < |entries|
    ensures FindName(entries[FindName(entries, name) := Child(name, node)], name) == FindName(entries, name)
  {
    hide FindName;
    var k := FindName(entries, name);
    var replaced := entries[k := Child(name, node)];
    var j := FindName(replaced, name);
    assert forall i | 0 <= i < k :: replaced[i] == entries[i];
    assert replaced[k].name == name;
  }

  lemma FindAppended(entries: seq<Child>, name: Text, node: Node)
    requires FindName(entries, name) == |entries|
    ensures FindName(entries + [Child(name, node)], name) == |entries|
  {
    hide FindName;
    var all := entries + [Child(name, node)];
    var j := FindName(all, name);
    assert all[|entries|].name == name;
    assert forall i | 0 <= i < |entries| :: all[i] == entries[i];
  }

  lemma {:induction false} NodeAtGraft(n: Node, path: Path, item: Node, rest: Path)
    requires NodeAt(n, path).Some?
    ensures NodeAt(Graft(n, path, item), path + rest) == NodeAt(item, rest)
    decreases path
  {
    hide FindName;
    if path == [] {
      assert path + rest == rest;
    } else {
      var k := FindName(n.entries, path[0]);
      var node := Graft(n.entries[k].node, path[1..], item);
      FindReplaced(n.entries, path[0], node);
      NodeAtGraft(n.entries[k].node, path[1..], item, rest);
      assert (path + rest)[1..] == path[1..] + rest;
    }
  }

  /** Creating an entry below a grafted directory grafts the longer directory. */
  lemma {:induction false} CreateInGraft(n: Node, path: Path, entries: seq<Child>, name: Text, item: Node)
    requires NodeAt(n, path).Some?
    ensures Create(Graft(n, path, Directory(entries)), path + [name], item) ==
      Graft(n, path, Directory(entries + [Child(name, item)]))
    decreases path
  {
    hide FindName;
    if path == [] {
      assert path + [name] == [name];
    } else {
      var k := FindName(n.entries, path[0]);
      FindReplaced(n.entries, path[0], Graft(n.entries[k].node, path[1..], Directory(entries)));
      CreateInGraft(n.entries[k].node, path[1..], entries, name, item);
      assert (path + [name])[1..] == path[1..] + [name];
    }
  }

  /** Grafting below the last entry of a grafted directory grafts the directory with it. */
  lemma {:induction false} GraftInGraft(n: Node, path: Path, entries: seq<Child>, name: Text, before: Node, item: Node)
    requires NodeAt(n, path).Some? && FindName(entries, name) == |entries|
    ensures Graft(Graft(n, path, Directory(entries + [Child(name, before)])), path + [name], item) ==
      Graft(n, path, Directory(entries + [Child(name, item)]))
    decreases path
  {
    hide FindName;
    FindAppended(entries, name, before);
    var all := entries + [Child(name, before)];
    if path == [] {
      assert path + [name] == [name] && [name][1..] == [];
      assert all[|entries| := Child(name, item)] == entries + [Child(name, item)];
    } else {
      var k := FindName(n.entries, path[0]);
      FindReplaced(n.entries, path[0], Graft(n.entries[k].node, path[1..], Directory(all)));
      GraftInGraft(n.entries[k].node, path[1..], entries, name, before, item);
      assert (path + [name])[1..] == path[1..] + [name];
    }
  }

  /** Nothing below is a link or a special file, and no operation on a path fails. */
  predicate CanCopy(entries: seq<Child>, to: Path, fails: Path -> bool) {
    entries == [] ||
    (CanCopyNode(entries[0].node, to + [entries[0].name], fails) && CanCopy(entries[1..], to, fails))
  }

  predicate CanCopyNode(n: Node, to: Path, fails: Path -> bool) {
    match n
    case File(_) => !fails(to)
    case Directory(entries) => !fails(to) && CanCopy(entries, to, fails)
    case _ => false
  }

  /** The tree at the copy's destination, which may not exist. */
  class CopyTarget {
    var tree: Option<Node>

    constructor ()
      ensures tree == None
    {
      tree := None;
    }

    /** Copies the entries into the empty directory at `to`. */
    method Visit(entries: seq<Child>, to: Path, fails: Path -> bool) returns (ok: bool)
      requires tree.Some? && NodeAt(tree.value, to) == Some(Directory([])) && NamesDistinct(entries)
      modifies this
      ensures ok <==> CanCopy(entries, to, fails)
      ensures ok ==> tree == Some(Graft(old(tree).value, to, Directory(entries)))
      decreases entries
    {
      hide NodeAt, Graft, Create, FindName;
      ghost var before := tree.value;
      GraftNothing(before, to, Directory([]));
      var i := 0;
      while i < |entries|
        invariant i <= |entries|
        invariant tree == Some(Graft(before, to, Directory(entries[..i])))
        invariant CanCopy(entries, to, fails) <==> CanCopy(entries[i..], to, fails)
      {
        var name, path := entries[i].name, to + [entries[i].name];
        assert entries[i..][0] == entries[i] && entries[i..][1..] == entries[i + 1..];
        assert entries[..i + 1] == entries[..i] + [entries[i]];
        match entries[i].node {
          case File(content) =>
            if fails(path) {
              return false;
            }
            CreateInGraft(before, to, entries[..i], name, File(content));
            tree := Some(Create(tree.value, path, File(content)));
          case Directory(children) =>
            if fails(path) {
              return false;
            }
            CreateInGraft(before, to, entries[..i], name, Directory([]));
            tree := Some(Create(tree.value, path, Directory([])));
            NewNames(entries, i);
            ChildAtGraft(before, to, entries[..i], name);
            var copied := Visit(children, path, fails);
            if !copied {
              return false;
            }
            GraftInGraft(before, to, entries[..i], name, Directory([]), Directory(children));
          case _ =>
            return false;
        }
        i := i + 1;
      }
      assert entries[..i] == entries;
      ok := true;
    }

    /** The copy goes to a place where nothing is, and is the source's very tree, empty directories
        included; when any part of it fails, nothing is left. */
    method CopyTreeCreateOnly(source: Node, fails: Path -> bool) returns (ok: bool)
      requires NamesDistinctIn(source)
      modifies this
      ensures ok <==> old(tree).None? && source.Directory? && AllCopied(source, [], fails)
      ensures tree == if ok then Some(source) else old(tree)
    {
      CopiesExactly(source, [], fails);
      if tree.Some? || fails([]) {
        return false;
      }
      tree := Some(Directory([]));
      ok := false;
      if source.Directory? {
        ok := Visit(source.entries, [], fails);
      }
      if !ok {
        tree := None;
      }
    }
  }

  /** Names differ within every directory. */
  predicate NamesDistinctIn(n: Node) { n.Directory? ==> NamesDistinct(n.entries) }

  predicate NamesDistinct(entries: seq<Child>) {
    DistinctNames(entries) && forall k | 0 <= k < |entries| :: NamesDistinctIn(entries[k].node)
  }

  lemma {:induction false} GraftNothing(n: Node, path: Path, item: Node)
    requires NodeAt(n, path) == Some(item)
    ensures Graft(n, path, item) == n
    decreases path
  {
    if path != [] {
      var k := FindName(n.entries, path[0]);
      GraftNothing(n.entries[k].node, path[1..], item);
      assert n.entries[k := n.entries[k]] == n.entries;
    }
  }

  lemma NewNames(entries: seq<Child>, i: nat)
    requires i < |entries| && NamesDistinct(entries)
    ensures FindName(entries[..i], entries[i].name) == i && NamesDistinctIn(entries[i].node)
  {
    var k := FindName(entries[..i], entries[i].name);
    assert forall j | 0 <= j < i :: entries[..i][j] == entries[j];
  }

  lemma ChildAtGraft(n: Node, path: Path, entries: seq<Child>, name: Text)
    requires NodeAt(n, path).Some? && FindName(entries, name) == |entries|
    ensures
      NodeAt(Graft(n, path, Directory(entries + [Child(name, Directory([]))])), path + [name]) == Some(Directory([]))
  {
    var item := Directory(entries + [Child(name, Directory([]))]);
    NodeAtGraft(n, path, item, [name]);
    FindAppended(entries, name, Directory([]));
    assert [name][1..] == [];
  }

  /** The node is a file or a directory, and so is everything below it, and no operation on any of it fails. */
  ghost predicate AllCopied(n: Node, to: Path, fails: Path -> bool) {
    forall path | NodeAt(n, path).Some? ::
      (NodeAt(n, path).value.File? || NodeAt(n, path).value.Directory?) && !fails(to + path)
  }

  lemma {:induction false} CanCopyAll(entries: seq<Child>, to: Path, fails: Path -> bool)
    ensures CanCopy(entries, to, fails) <==>
      forall k | 0 <= k < |entries| :: CanCopyNode(entries[k].node, to + [entries[k].name], fails)
  {
    hide CanCopyNode;
    if entries != [] {
      CanCopyAll(entries[1..], to, fails);
      assert forall k | 0 < k < |entries| :: entries[1..][k - 1] == entries[k];
    }
  }

  lemma ChildAt(entries: seq<Child>, k: nat, path: Path)
    requires k < |entries| && DistinctNames(entries)
    ensures NodeAt(Directory(entries), [entries[k].name] + path) == NodeAt(entries[k].node, path)
  {
    var all := [entries[k].name] + path;
    assert all[1..] == path && FindName(entries, all[0]) == k;
  }

  lemma CopiedBelow(entries: seq<Child>, to: Path, fails: Path -> bool)
    requires DistinctNames(entries) && !fails(to)
    ensures AllCopied(Directory(entries), to, fails) <==>
      forall k | 0 <= k < |entries| :: AllCopied(entries[k].node, to + [entries[k].name], fails)
  {
    hide NodeAt;
    var n := Directory(entries);
    if AllCopied(n, to, fails) {
      forall k, path | 0 <= k < |entries| && NodeAt(entries[k].node, path).Some?
        ensures NodeAt(entries[k].node, path).value.File? || NodeAt(entries[k].node, path).value.Directory?
        ensures !fails(to + [entries[k].name] + path)
      {
        ChildAt(entries, k, path);
        assert NodeAt(n, [entries[k].name] + path).Some?;
        assert to + ([entries[k].name] + path) == to + [entries[k].name] + path;
      }
    }
    if forall k | 0 <= k < |entries| :: AllCopied(entries[k].node, to + [entries[k].name], fails) {
      forall path | NodeAt(n, path).Some?
        ensures (NodeAt(n, path).value.File? || NodeAt(n, path).value.Directory?) && !fails(to + path)
      {
        WhereFound(entries, path);
        if path == [] {
          assert to + path == to;
        } else {
          var k := FindName(entries, path[0]);
          assert AllCopied(entries[k].node, to + [entries[k].name], fails);
          assert to + [entries[k].name] + path[1..] == to + path;
        }
      }
    }
  }

  lemma WhereFound(entries: seq<Child>, path: Path)
    requires NodeAt(Directory(entries), path).Some?
    ensures path == [] ==> NodeAt(Directory(entries), path) == Some(Directory(entries))
    ensures path != [] ==>
      && FindName(entries, path[0]) < |entries|
      && NodeAt(Directory(entries), path) == NodeAt(entries[FindName(entries, path[0])].node, path[1..])
  {
  }

  /** A node can be copied exactly when everything in it can. */
  lemma {:induction false} CopiesExactly(n: Node, to: Path, fails: Path -> bool)
    requires NamesDistinctIn(n)
    ensures CanCopyNode(n, to, fails) <==> AllCopied(n, to, fails)
    decreases n
  {
    assert NodeAt(n, []) == Some(n) && to + [] == to;
    if n.Directory? {
      CanCopyAll(n.entries, to, fails);
      forall k | 0 <= k < |n.entries|
        ensures CanCopyNode(n.entries[k].node, to + [n.entries[k].name], fails)
          <==> AllCopied(n.entries[k].node, to + [n.entries[k].name], fails)
      {
        CopiesExactly(n.entries[k].node, to + [n.entries[k].name], fails);
      }
      if !fails(to) {
        CopiedBelow(n.entries, to, fails);
      }
    } else {
      LeafPaths(n);
    }
  }

  lemma LeafPaths(n: Node)
    requires !n.Directory?
    ensures forall path | NodeAt(n, path).Some? :: path == [] && NodeAt(n, path) == Some(n)
  {
  }
}
