/**
 The rules of the gate, stated of the trees: what an accepted proposal may rely on, and what one
 must bring about. A locator names a file by what stands before its fragment mark; a surface is
 pinned by the digest of its bytes, or of the manifest's authority slice.
 */
module LegalProposal {
  import opened Basics
  import opened Texts
  import opened Patterns
  import opened AuthorityPolicy
  import opened AuthorityRotation
  import opened AuthorityShapes
  import opened LegalRotation
  import opened ProposalGate

  // ---------- Paths, files and surfaces ----------

  /** A part of a path that names something. */
  predicate IsName(part: string) {
    part != "" && part != "." && part != ".." && '/' !in part && '\0' !in part
  }

  /** Names joined by slashes. */
  ghost predicate TreePath(path: Path) {
    exists names: seq<string> ::
      names != [] && path == Joined(names, '/') && forall name | name in names :: IsName(name)
  }

  /** A path that is read as itself. */
  ghost predicate PlainPath(path: Path) { TreePath(path) && '\\' !in path && '#' !in path }

  /** The locator means this path. */
  ghost predicate Means(locator: string, path: Path) {
    StandsBefore(locator, '#', path) && TreePath(path) && '\\' !in path
  }

  ghost predicate HoldsFile(tree: Tree, path: Path, bytes: Bytes) {
    path in tree && tree[path].File? && tree[path].bytes == bytes
  }

  /** The file that the locator means. */
  ghost predicate Reads(tree: Tree, locator: string, bytes: Bytes) {
    exists path :: Means(locator, path) && HoldsFile(tree, path, bytes)
  }

  ghost predicate CanRead(tree: Tree, locator: string) { exists bytes :: Reads(tree, locator, bytes) }

  /** The bytes are what the pin pins: themselves, or the authority slice of the manifest. */
  predicate IsPinned(r: Readers, path: Path, bytes: Bytes, pin: Digest) {
    if path == "package.json" then
      var slice := r.scriptSlice(bytes);
      pin == (if slice.Some? then Sha256(slice.value) else NotDigest("sha256:invalid-package-manifest"))
    else pin == Sha256(bytes)
  }

  /** The path is the same in both trees: absent, or the same entry. */
  predicate Same(a: Tree, b: Tree, path: Path) {
    (path in a <==> path in b) && (path in a && path in b ==> a[path] == b[path])
  }

  lemma {:induction false} PartHas(text: string, separator: char, c: char, k: nat)
    requires k < |Split(text, separator)| && c in Split(text, separator)[k]
    ensures c in text
  {
    if text != "" {
      if text[0] == separator {
        if k > 0 {
          PartHas(text[1..], separator, c, k - 1);
        }
      } else if k > 0 || c != text[0] {
        PartHas(text[1..], separator, c, k);
      }
    }
  }

  lemma TreePathExactly(path: Path)
    ensures ValidTreePath(path) <==> TreePath(path)
  {
    var parts := Split(path, '/');
    SplitJoins(path, '/');
    SplitParts(path, '/');
    if ValidTreePath(path) {
      forall part | part in parts ensures IsName(part) {
        if '\0' in part {
          var k :| 0 <= k < |parts| && parts[k] == part;
          PartHas(path, '/', '\0', k);
        }
      }
    }
    if names :| names != [] && path == Joined(names, '/') && forall name | name in names :: IsName(name) {
      forall k | 0 <= k < |names| ensures '/' !in names[k] && '\0' !in names[k] {
        assert names[k] in names;
      }
      JoinSplits(names, '/');
      JoinedLacks(names, '/', '\0');
      assert names[0] in names;
      StartsWithName(names);
    }
  }

  lemma StartsWithName(names: seq<string>)
    requires names != [] && IsName(names[0])
    ensures Joined(names, '/') != "" && Joined(names, '/')[0] == names[0][0]
  {
  }

  lemma MeansExactly(locator: string, path: Path)
    ensures NormalizedLocator(locator) == Some(path) <==> Means(locator, path)
  {
    StandsBeforeExactly(locator, '#', path);
    TreePathExactly(Split(locator, '#')[0]);
    hide ValidTreePath, TreePath, StandsBefore;
  }

  lemma PlainExactly(path: Path)
    ensures NormalizedLocator(path) == Some(path) <==> PlainPath(path)
  {
    MeansExactly(path, path);
    hide NormalizedLocator, TreePath;
  }

  lemma ReadsExactly(tree: Tree, locator: string, bytes: Bytes)
    ensures ReadProposal(tree, locator) == Some(bytes) <==> Reads(tree, locator, bytes)
  {
    hide NormalizedLocator, Means;
    forall path ensures NormalizedLocator(locator) == Some(path) <==> Means(locator, path) {
      MeansExactly(locator, path);
    }
    if NormalizedLocator(locator).Some? {
      assert Means(locator, NormalizedLocator(locator).value);
    }
  }

  lemma CanReadExactly(tree: Tree, locator: string)
    ensures Readable(tree, locator) <==> CanRead(tree, locator)
  {
    hide Reads, ReadProposal;
    forall bytes ensures ReadProposal(tree, locator) == Some(bytes) <==> Reads(tree, locator, bytes) {
      ReadsExactly(tree, locator, bytes);
    }
    if Readable(tree, locator) {
      assert Reads(tree, locator, ReadProposal(tree, locator).value);
    }
  }

  lemma PinnedExactly(r: Readers, path: Path, bytes: Bytes, pin: Digest)
    ensures SurfaceDigest(r, path, bytes) == pin <==> IsPinned(r, path, bytes, pin)
  {
  }

  lemma SameExactly(a: Tree, b: Tree, path: Path)
    ensures Get(a, path) == Get(b, path) <==> Same(a, b, path)
  {
  }

  // ---------- The rules ----------

  /** The bytes the gate is given for the base are its policy and a ledger, at a full revision. */
  ghost predicate BaseRules(r: Readers, p: Proposal) {
    Revision(p.baseRevision) && r.policy(p.basePolicyBytes) == Some(p.policy) && r.ledger(p.baseLedgerBytes).Some?
  }

  /** What is read at the head: every reference, the policy, the ledger, new pins and auxiliary files. */
  predicate IsRead(p: Proposal, n: Policy, locator: string) {
    || locator in p.references
    || locator == "config/production-closure-authority.json"
    || locator == p.policy.identity.manifestPath
    || locator in n.protectedFiles
    || locator in p.policy.identity.auxiliaryFiles
  }

  /** The head holds this policy and this ledger, and everything else that is read. */
  ghost predicate HeadRules(r: Readers, p: Proposal, n: Policy, l: Ledger) {
    && (exists bytes :: Reads(p.head, "config/production-closure-authority.json", bytes) && r.policy(bytes) == Some(n))
    && (exists bytes :: Reads(p.head, p.policy.identity.manifestPath, bytes) && r.ledger(bytes) == Some(l))
    && forall locator | IsRead(p, n, locator) :: CanRead(p.head, locator)
  }

  ghost predicate MeansOrNothing(locator: string, path: Path) {
    Means(locator, path) || (path == "" && forall other :: !Means(locator, other))
  }

  /** The proposal changed what the locator means since it branched. */
  ghost predicate Touches(p: Proposal, locator: string)
    requires p.mergeBase.Some?
  {
    exists path :: MeansOrNothing(locator, path) && !Same(p.mergeBase.value, p.head, path)
  }

  ghost predicate WantsRotation(p: Proposal)
    requires p.mergeBase.Some?
  {
    || Touches(p, "config/production-closure-authority.json")
    || Touches(p, p.policy.identity.manifestPath)
    || (p.bootstrapChanged && p.bootstrapRotates)
  }

  /** Something that is read means this file of the head. */
  ghost predicate WasRead(p: Proposal, n: Policy, path: Path, bytes: Bytes) {
    HoldsFile(p.head, path, bytes) && exists locator :: IsRead(p, n, locator) && Means(locator, path)
  }

  /** The head holds, among what is read, exactly the pinned surface. */
  ghost predicate ArrivesAtPin(r: Readers, p: Proposal, n: Policy, path: Path, pin: Digest) {
    exists at, bytes :: Means(path, at) && WasRead(p, n, at, bytes) && IsPinned(r, path, bytes, pin)
  }

  /** A product proposal leaves every pinned surface alone, or arrives at the pinned content. */
  ghost predicate ProductRules(r: Readers, p: Proposal, n: Policy)
    requires p.mergeBase.Some?
  {
    forall path | path in p.policy.protectedFiles && Touches(p, path) ::
      ArrivesAtPin(r, p, n, path, p.policy.protectedFiles[path])
  }

  predicate NoFile(tree: Tree, path: Path) { path !in tree || tree[path].Directory? }

  /** A difference from the base that a receipt has to list. */
  predicate Changed(p: Proposal, path: Path) {
    && !Same(p.baseTree, p.head, path) && !(NoFile(p.baseTree, path) && NoFile(p.head, path))
    && path != p.policy.identity.manifestPath
  }

  predicate IsRegular(tree: Tree, path: Path) { path in tree ==> tree[path].File? }

  ghost predicate DifferenceRules(p: Proposal) {
    forall path | path in p.allPaths && Changed(p, path) ::
      IsRegular(p.baseTree, path) && IsRegular(p.head, path) && (path in p.head ==> CanRead(p.head, path))
  }

  /** The change says what the base holds at its path, and what is read for it at the head. */
  ghost predicate States(p: Proposal, change: FileChange) {
    && (if change.path in p.baseTree && p.baseTree[change.path].File? then
          && change.fromSha256 == Some(Sha256(p.baseTree[change.path].bytes))
          && change.fromMode == Some(p.baseTree[change.path].mode)
        else change.fromSha256.None? && change.fromMode.None?)
    && (if change.path in p.head && p.head[change.path].File? then
          && (exists bytes :: Reads(p.head, change.path, bytes) && change.toSha256 == Some(Sha256(bytes)))
          && change.toMode == Some(p.head[change.path].mode)
        else change.toSha256.None? && change.toMode.None?)
  }

  ghost predicate ListsChanges(p: Proposal, changes: seq<FileChange>) {
    && DistinctPaths(changes)
    && forall change :: change in changes <==>
         change.path in p.allPaths && Changed(p, change.path) && States(p, change)
  }

  ghost predicate ReadFor(p: Proposal, n: Policy, locator: string) {
    IsRead(p, n, locator) || (locator in p.allPaths && Changed(p, locator) && locator in p.head)
  }

  ghost predicate ReadAt(p: Proposal, n: Policy, path: Path, bytes: Bytes) {
    HoldsFile(p.head, path, bytes) && exists locator :: ReadFor(p, n, locator) && Means(locator, path)
  }

  ghost predicate HoldsRead(p: Proposal, n: Policy, contents: map<Path, Bytes>) {
    forall path, bytes :: Get(contents, path) == Some(bytes) <==> ReadAt(p, n, path, bytes)
  }

  ghost predicate DigestsOf(r: Readers, contents: map<Path, Bytes>, digests: map<Path, Digest>) {
    && digests.Keys == contents.Keys
    && forall path | path in contents :: IsPinned(r, path, contents[path], digests[path])
  }

  /** The rotation that the proposal presents. */
  ghost predicate Presents(r: Readers, p: Proposal, n: Policy, l: Ledger, i: Input) {
    && i.basePolicy == p.policy && i.proposedPolicy == n
    && i.basePolicyBytes == p.basePolicyBytes
    && Reads(p.head, "config/production-closure-authority.json", i.proposedPolicyBytes)
    && i.baseLedgerBytes == p.baseLedgerBytes && r.ledger(p.baseLedgerBytes) == Some(i.baseLedger)
    && i.proposedLedger == l && i.baseRevision == p.baseRevision && i.observedAt == p.observedAt
    && ListsChanges(p, i.changedFiles)
    && HoldsRead(p, n, i.proposedFileContents) && DigestsOf(r, i.proposedFileContents, i.proposedFileDigests)
    && i.proposedPaths == p.head.Keys
  }

  /** A rotation starts from the base's own bytes, differs in files only, is legal, and does not change the policy
      without the ledger, unless it declares itself. */
  ghost predicate RotationRules(r: Readers, p: Proposal, n: Policy, l: Ledger)
    requires p.mergeBase.Some?
  {
    && HoldsFile(p.baseTree, "config/production-closure-authority.json", p.basePolicyBytes)
    && HoldsFile(p.baseTree, p.policy.identity.manifestPath, p.baseLedgerBytes)
    && DifferenceRules(p)
    && (exists i :: Presents(r, p, n, l, i) && Legal(r, i))
    && (Touches(p, "config/production-closure-authority.json") ==>
          Touches(p, p.policy.identity.manifestPath) || p.bootstrapRotates)
  }

  ghost predicate LegalProposal(r: Readers, p: Proposal) {
    && BaseRules(r, p) && p.mergeBase.Some?
    && exists n, l ::
         HeadRules(r, p, n, l) && (if WantsRotation(p) then RotationRules(r, p, n, l) else ProductRules(r, p, n))
  }

  // ---------- What is read ----------

  lemma BaseExactly(r: Readers, p: Proposal)
    ensures BaseAuthorityValid(r, p) <==> BaseRules(r, p)
  {
    ShaExactly(p.baseRevision);
    hide IsSha, Matches;
  }

  lemma ReadSetExactly(p: Proposal, n: Policy, locator: string)
    ensures locator in ReadSet(p, n) <==> IsRead(p, n, locator)
  {
  }

  lemma HeadExactly(r: Readers, p: Proposal)
    ensures ReadsComplete(r, p) ==>
      HeadRules(r, p, PolicyIn(r, p.head).value, LedgerIn(r, p.head, p.policy.identity.manifestPath).value)
    ensures forall n, l | HeadRules(r, p, n, l) ::
      && ReadsComplete(r, p) && PolicyIn(r, p.head) == Some(n)
      && LedgerIn(r, p.head, p.policy.identity.manifestPath) == Some(l)
  {
    hide Reads, ReadProposal, CanRead, IsRead, ReadSet;
    forall locator, bytes ensures ReadProposal(p.head, locator) == Some(bytes) <==> Reads(p.head, locator, bytes) {
      ReadsExactly(p.head, locator, bytes);
    }
    forall locator ensures Readable(p.head, locator) <==> CanRead(p.head, locator) {
      CanReadExactly(p.head, locator);
    }
    forall n, locator ensures locator in ReadSet(p, n) <==> IsRead(p, n, locator) {
      ReadSetExactly(p, n, locator);
    }
    if ReadsComplete(r, p) {
      assert Reads(p.head, POLICY_PATH, ReadProposal(p.head, POLICY_PATH).value);
      assert Reads(p.head, p.policy.identity.manifestPath, ReadProposal(p.head, p.policy.identity.manifestPath).value);
    }
  }

  lemma TouchesExactly(p: Proposal, locator: string)
    requires p.mergeBase.Some?
    ensures Touched(p, LocatorOrEmpty(locator)) <==> Touches(p, locator)
  {
    forall path ensures NormalizedLocator(locator) == Some(path) <==> Means(locator, path) {
      MeansExactly(locator, path);
    }
    SameExactly(p.mergeBase.value, p.head, LocatorOrEmpty(locator));
    hide NormalizedLocator, Means, Same;
    if NormalizedLocator(locator).Some? {
      assert Means(locator, NormalizedLocator(locator).value);
    }
    assert MeansOrNothing(locator, LocatorOrEmpty(locator));
  }

  lemma RequestedExactly(p: Proposal)
    requires p.mergeBase.Some?
    ensures RotationRequested(p) <==> WantsRotation(p)
    ensures PolicyTouched(p) <==> Touches(p, "config/production-closure-authority.json")
    ensures LedgerTouched(p) <==> Touches(p, p.policy.identity.manifestPath)
  {
    TouchesExactly(p, POLICY_PATH);
    TouchesExactly(p, p.policy.identity.manifestPath);
    hide Touched, Touches, LocatorOrEmpty;
  }

  // ---------- Product proposals ----------

  lemma FetchedExactly(head: Tree, locators: set<Path>, path: Path, bytes: Bytes)
    ensures Get(Fetched(head, locators), path) == Some(bytes) <==>
      HoldsFile(head, path, bytes) && exists locator | locator in locators :: Means(locator, path)
  {
    forall locator ensures NormalizedLocator(locator) == Some(path) <==> Means(locator, path) {
      MeansExactly(locator, path);
    }
    hide NormalizedLocator, Means;
  }

  lemma FetchedMeans(p: Proposal, n: Policy, at: Path, bytes: Bytes)
    ensures Get(Fetched(p.head, ReadSet(p, n)), at) == Some(bytes) <==> WasRead(p, n, at, bytes)
  {
    FetchedExactly(p.head, ReadSet(p, n), at, bytes);
    forall l ensures l in ReadSet(p, n) <==> IsRead(p, n, l) {
      ReadSetExactly(p, n, l);
    }
    hide Means, ReadSet, IsRead, Fetched, HoldsFile;
  }

  lemma NothingWasRead(p: Proposal, n: Policy)
    ensures forall bytes :: !WasRead(p, n, "", bytes)
  {
    EmptyIsNoPath();
    hide Means;
  }

  lemma MeansOne(locator: string, a: Path, b: Path)
    requires Means(locator, a) && Means(locator, b)
    ensures a == b
  {
    MeansExactly(locator, a);
    MeansExactly(locator, b);
    hide NormalizedLocator, Means;
  }

  /** A locator that means something: the surface there decides. */
  lemma ArrivesThere(r: Readers, p: Proposal, n: Policy, path: Path, pin: Digest, at: Path)
    requires Means(path, at)
    ensures var fetched := Fetched(p.head, ReadSet(p, n));
      ArrivesAtPin(r, p, n, path, pin) <==> at in fetched && SurfaceDigest(r, path, fetched[at]) == pin
  {
    var fetched := Fetched(p.head, ReadSet(p, n));
    forall bytes
      ensures SurfaceDigest(r, path, bytes) == pin <==> IsPinned(r, path, bytes, pin)
      ensures Get(fetched, at) == Some(bytes) <==> WasRead(p, n, at, bytes)
    {
      PinnedExactly(r, path, bytes, pin);
      FetchedMeans(p, n, at, bytes);
    }
    hide Means, SurfaceDigest, IsPinned, ReadSet, WasRead, Fetched;
    if at in fetched {
      assert Get(fetched, at) == Some(fetched[at]);
    }
    if other, bytes :| Means(path, other) && WasRead(p, n, other, bytes) && IsPinned(r, path, bytes, pin) {
      MeansOne(path, other, at);
    }
  }

  lemma ArrivalExactly(r: Readers, p: Proposal, n: Policy, path: Path, pin: Digest)
    ensures var fetched, at := Fetched(p.head, ReadSet(p, n)), LocatorOrEmpty(path);
      ArrivesAtPin(r, p, n, path, pin) <==> at in fetched && SurfaceDigest(r, path, fetched[at]) == pin
  {
    var fetched, at := Fetched(p.head, ReadSet(p, n)), LocatorOrEmpty(path);
    if NormalizedLocator(path).Some? {
      MeansExactly(path, at);
      hide *;
      ArrivesThere(r, p, n, path, pin, at);
    } else {
      forall other ensures !Means(path, other) {
        MeansExactly(path, other);
      }
      NothingWasRead(p, n);
      hide NormalizedLocator, Means, SurfaceDigest, IsPinned, ReadSet, WasRead, Fetched;
      if at in fetched {
        FetchedMeans(p, n, at, fetched[at]);
      }
    }
  }

  lemma DriftExactly(r: Readers, p: Proposal, n: Policy, path: Path)
    requires p.mergeBase.Some? && path in p.policy.protectedFiles
    ensures !Drifted(r, p, Fetched(p.head, ReadSet(p, n)), path) <==>
      (Touches(p, path) ==> ArrivesAtPin(r, p, n, path, p.policy.protectedFiles[path]))
  {
    TouchesExactly(p, path);
    ArrivalExactly(r, p, n, path, p.policy.protectedFiles[path]);
    hide ArrivesAtPin, SurfaceDigest, ReadSet, Fetched, Touched, Touches, LocatorOrEmpty;
  }

  lemma EmptyIsNoPath()
    ensures forall locator :: !Means(locator, "")
  {
    TreePathExactly("");
    hide TreePath, StandsBefore;
  }

  lemma ProductExactly(r: Readers, p: Proposal)
    requires ReadsComplete(r, p) && p.mergeBase.Some?
    ensures ProductAccepted(r, p) <==> ProductRules(r, p, PolicyIn(r, p.head).value)
  {
    var n := PolicyIn(r, p.head).value;
    forall path | path in p.policy.protectedFiles
      ensures !Drifted(r, p, Fetched(p.head, ReadSet(p, n)), path) <==>
        (Touches(p, path) ==> ArrivesAtPin(r, p, n, path, p.policy.protectedFiles[path]))
    {
      DriftExactly(r, p, n, path);
    }
    hide Drifted, Touches, ArrivesAtPin, Fetched, ReadSet, ReadsComplete;
  }

  // ---------- Rotations ----------

  lemma ChangedExactly(p: Proposal, path: Path)
    ensures Differs(p, path) <==> Changed(p, path)
    ensures DifferenceInvalid(p, path) <==>
      Changed(p, path) &&
      !(IsRegular(p.baseTree, path) && IsRegular(p.head, path) && (path in p.head ==> CanRead(p.head, path)))
  {
    SameExactly(p.baseTree, p.head, path);
    CanReadExactly(p.head, path);
    hide CanRead, Readable;
  }

  lemma CleanExactly(p: Proposal)
    ensures DiffClean(p) <==> DifferenceRules(p)
  {
    forall path ensures DifferenceInvalid(p, path) <==>
      Changed(p, path) &&
      !(IsRegular(p.baseTree, path) && IsRegular(p.head, path) && (path in p.head ==> CanRead(p.head, path)))
    {
      ChangedExactly(p, path);
    }
    hide DifferenceInvalid, Changed, CanRead, IsRegular;
  }

  lemma ChangeStates(p: Proposal, path: Path, change: FileChange)
    requires Differs(p, path) && !DifferenceInvalid(p, path)
    ensures change == ChangeOf(p, path) <==> change.path == path && States(p, change)
  {
    forall bytes ensures ReadProposal(p.head, path) == Some(bytes) <==> Reads(p.head, path, bytes) {
      ReadsExactly(p.head, path, bytes);
    }
    hide ReadProposal, Reads;
    if path in p.head {
      assert Reads(p.head, path, ReadProposal(p.head, path).value);
    }
  }

  lemma {:induction false} ListedExactly(p: Proposal, paths: seq<Path>, change: FileChange)
    ensures change in ChangeList(p, paths) <==>
      exists path | path in paths :: Differs(p, path) && !DifferenceInvalid(p, path) && change == ChangeOf(p, path)
  {
    hide Differs, DifferenceInvalid, ChangeOf;
    if paths != [] {
      var last := paths[|paths| - 1];
      ListedExactly(p, paths[..|paths| - 1], change);
      assert paths == paths[..|paths| - 1] + [last];
    }
  }

  lemma {:induction false} ListedOnce(p: Proposal, paths: seq<Path>)
    requires Distinct(paths)
    ensures DistinctPaths(ChangeList(p, paths))
  {
    hide Differs, DifferenceInvalid;
    if paths != [] {
      var last, front := paths[|paths| - 1], paths[..|paths| - 1];
      ListedOnce(p, front);
      forall change | change in ChangeList(p, front) ensures change.path in front {
        ListedExactly(p, front, change);
      }
      assert last !in front;
    }
  }

  lemma ListExactly(p: Proposal)
    requires Distinct(p.allPaths) && DiffClean(p)
    ensures ListsChanges(p, ChangeList(p, p.allPaths))
  {
    ListedOnce(p, p.allPaths);
    forall change ensures change in ChangeList(p, p.allPaths) <==>
      change.path in p.allPaths && Changed(p, change.path) && States(p, change)
    {
      ListedExactly(p, p.allPaths, change);
      ChangedExactly(p, change.path);
      if Differs(p, change.path) && change.path in p.allPaths {
        ChangeStates(p, change.path, change);
      }
      forall path | path in p.allPaths && Differs(p, path) ensures change == ChangeOf(p, path) ==> change.path == path {
      }
    }
  }

  lemma ReadForExactly(p: Proposal, n: Policy, locator: string)
    ensures locator in ReadSet(p, n) + (ChangedPathSet(p) * p.head.Keys) <==> ReadFor(p, n, locator)
  {
    ReadSetExactly(p, n, locator);
    ChangedExactly(p, locator);
    hide ReadSet, IsRead, Differs, Changed;
  }

  lemma RotationRead(p: Proposal, n: Policy, path: Path, bytes: Bytes)
    ensures Get(RotationFetched(p, n), path) == Some(bytes) <==> ReadAt(p, n, path, bytes)
  {
    var locators := ReadSet(p, n) + (ChangedPathSet(p) * p.head.Keys);
    FetchedExactly(p.head, locators, path, bytes);
    forall locator ensures locator in locators <==> ReadFor(p, n, locator) {
      ReadForExactly(p, n, locator);
    }
    hide Fetched, ReadSet, ReadFor, Means, HoldsFile, ChangedPathSet;
  }

  lemma AllPinned(r: Readers, contents: map<Path, Bytes>)
    ensures DigestsOf(r, contents, SurfaceDigests(r, contents))
  {
    hide IsPinned, SurfaceDigest;
    forall path | path in contents ensures IsPinned(r, path, contents[path], SurfaceDigest(r, path, contents[path])) {
      PinnedExactly(r, path, contents[path], SurfaceDigest(r, path, contents[path]));
    }
  }

  lemma ContentsExactly(r: Readers, p: Proposal, n: Policy)
    ensures HoldsRead(p, n, RotationFetched(p, n))
    ensures DigestsOf(r, RotationFetched(p, n), SurfaceDigests(r, RotationFetched(p, n)))
  {
    var contents := RotationFetched(p, n);
    AllPinned(r, contents);
    hide RotationFetched, ReadAt, SurfaceDigests, DigestsOf;
    forall path, bytes ensures Get(contents, path) == Some(bytes) <==> ReadAt(p, n, path, bytes) {
      RotationRead(p, n, path, bytes);
    }
  }

  /** What the gate makes of a proposal is the rotation it presents. */
  lemma InputPresents(r: Readers, p: Proposal, n: Policy, l: Ledger)
    requires HeadRules(r, p, n, l) && ReadsComplete(r, p) && BaseAuthorityValid(r, p)
    requires PolicyIn(r, p.head) == Some(n) && LedgerIn(r, p.head, p.policy.identity.manifestPath) == Some(l)
    requires Distinct(p.allPaths) && DiffClean(p)
    ensures Presents(r, p, n, l, RotationInput(r, p))
  {
    ListExactly(p);
    ContentsExactly(r, p, n);
    ReadsExactly(p.head, POLICY_PATH, ReadProposal(p.head, POLICY_PATH).value);
    hide ListsChanges, HoldsRead, DigestsOf, Reads, ReadProposal, DiffClean, RotationFetched, SurfaceDigests,
         ChangeList, HeadRules, ReadSet;
  }

  /** All rotations a proposal presents are the same, up to the order of their changes. */
  lemma PresentedAlike(r: Readers, p: Proposal, n: Policy, l: Ledger, i: Input, j: Input)
    requires Presents(r, p, n, l, i) && Presents(r, p, n, l, j)
    ensures j == i.(changedFiles := j.changedFiles)
    ensures DistinctPaths(i.changedFiles) && DistinctPaths(j.changedFiles)
    ensures multiset(i.changedFiles) == multiset(j.changedFiles)
  {
    SameBytes(p.head, "config/production-closure-authority.json", i.proposedPolicyBytes, j.proposedPolicyBytes);
    SameContents(p, n, i.proposedFileContents, j.proposedFileContents);
    SameDigests(r, i.proposedFileContents, i.proposedFileDigests, j.proposedFileDigests);
    hide Reads, HoldsRead, DigestsOf, Changed, States;
    SameMembers(i.changedFiles, j.changedFiles);
  }

  lemma SameBytes(tree: Tree, locator: string, a: Bytes, b: Bytes)
    requires Reads(tree, locator, a) && Reads(tree, locator, b)
    ensures a == b
  {
    ReadsExactly(tree, locator, a);
    ReadsExactly(tree, locator, b);
    hide Reads, ReadProposal;
  }

  lemma SameContents(p: Proposal, n: Policy, a: map<Path, Bytes>, b: map<Path, Bytes>)
    requires HoldsRead(p, n, a) && HoldsRead(p, n, b)
    ensures a == b
  {
    hide ReadAt;
    forall path | path in a ensures path in b && a[path] == b[path] {
      assert Get(a, path) == Some(a[path]);
      assert Get(b, path) == Some(a[path]);
    }
    forall path | path in b ensures path in a {
      assert Get(b, path) == Some(b[path]);
      assert Get(a, path) == Some(b[path]);
    }
  }

  lemma SameDigests(r: Readers, contents: map<Path, Bytes>, a: map<Path, Digest>, b: map<Path, Digest>)
    requires DigestsOf(r, contents, a) && DigestsOf(r, contents, b)
    ensures a == b
  {
  }

  lemma SameMembers(a: seq<FileChange>, b: seq<FileChange>)
    requires DistinctPaths(a) && DistinctPaths(b) && forall change :: change in a <==> change in b
    ensures multiset(a) == multiset(b)
  {
    OnceEach(a);
    OnceEach(b);
  }

  lemma {:induction false} OnceEach(changes: seq<FileChange>)
    requires DistinctPaths(changes)
    ensures forall change :: multiset(changes)[change] == if change in changes then 1 else 0
  {
    if changes != [] {
      var front, last := changes[..|changes| - 1], changes[|changes| - 1];
      OnceEach(front);
      assert changes == front + [last];
      assert last !in front;
    }
  }

  lemma ActivationAlike(i: Input, j: Input, x: Receipt)
    requires j == i.(changedFiles := j.changedFiles)
    requires forall change :: change in i.changedFiles <==> change in j.changedFiles
    ensures LegalActivation(i, x) <==> LegalActivation(j, x)
  {
    hide LegalTuple, RotationId, Deletes, IsActive, SameApps;
  }

  lemma StageAlike(i: Input, j: Input, x: Receipt)
    requires j == i.(changedFiles := j.changedFiles)
    ensures LegalStage(i, x) <==> LegalStage(j, x)
  {
    hide LegalTuple, LegalState, OpensEpisode, StagedBy, SameApps, ApartFrom, SameSuccessor;
  }

  lemma KindAlike(i: Input, j: Input, x: Receipt)
    requires j == i.(changedFiles := j.changedFiles)
    requires forall change :: change in i.changedFiles <==> change in j.changedFiles
    ensures LegalKind(i, x) <==> LegalKind(j, x)
  {
    ActivationAlike(i, j, x);
    StageAlike(i, j, x);
    hide LegalActivation, LegalStage, LegalRuntime;
  }

  lemma RestAlike(r: Readers, i: Input, j: Input, x: Receipt)
    requires j == i.(changedFiles := j.changedFiles)
    requires DistinctPaths(i.changedFiles) && DistinctPaths(j.changedFiles)
    requires multiset(i.changedFiles) == multiset(j.changedFiles)
    requires forall change :: change in i.changedFiles <==> change in j.changedFiles
    ensures LegalChanges(i, x) <==> LegalChanges(j, x)
    ensures LegalPins(i) <==> LegalPins(j)
    ensures LegalImports(r, i) <==> LegalImports(r, j)
    ensures Links(i, x) <==> Links(j, x)
  {
    hide Follows, Revision, WellFormed, MayRotate, DistinctPaths, InNamespace, IsCode, FirstIsPinned;
  }

  lemma LegalAlike(r: Readers, i: Input, j: Input)
    requires j == i.(changedFiles := j.changedFiles)
    requires DistinctPaths(i.changedFiles) && DistinctPaths(j.changedFiles)
    requires multiset(i.changedFiles) == multiset(j.changedFiles)
    ensures Legal(r, i) <==> Legal(r, j)
  {
    assert forall change :: change in i.changedFiles <==> change in multiset(i.changedFiles);
    assert forall change :: change in j.changedFiles <==> change in multiset(j.changedFiles);
    hide Links, LegalKind, LegalChanges, LegalPins, LegalImports, DistinctPaths;
    if i.proposedLedger.rotations != [] {
      var x := i.proposedLedger.rotations[|i.proposedLedger.rotations| - 1];
      KindAlike(i, j, x);
      RestAlike(r, i, j, x);
    }
  }

  lemma RotationExactly(r: Readers, p: Proposal, n: Policy, l: Ledger)
    requires HeadRules(r, p, n, l) && ReadsComplete(r, p) && BaseAuthorityValid(r, p) && p.mergeBase.Some?
    requires PolicyIn(r, p.head) == Some(n) && LedgerIn(r, p.head, p.policy.identity.manifestPath) == Some(l)
    requires Distinct(p.allPaths)
    ensures RotationAccepted(r, p) <==> RotationRules(r, p, n, l)
  {
    RequestedExactly(p);
    CleanExactly(p);
    BaseBytesExactly(p);
    if DiffClean(p) {
      InputPresents(r, p, n, l);
      AcceptedExactly(r, RotationInput(r, p));
    }
    hide HeadRules, ReadsComplete, BaseAuthorityValid, Presents, Legal, Accepted, DiffClean, DifferenceRules, Touches,
         BaseBytesExact, HoldsFile, RotationInput, PolicyTouched, LedgerTouched;
    if i :| Presents(r, p, n, l, i) && Legal(r, i) {
      if DiffClean(p) {
        PresentedAlike(r, p, n, l, i, RotationInput(r, p));
        LegalAlike(r, i, RotationInput(r, p));
      }
    }
  }

  lemma BaseBytesExactly(p: Proposal)
    ensures BaseBytesExact(p) <==>
      && HoldsFile(p.baseTree, "config/production-closure-authority.json", p.basePolicyBytes)
      && HoldsFile(p.baseTree, p.policy.identity.manifestPath, p.baseLedgerBytes)
  {
  }

  /** Once what is read is complete, there is one policy and one ledger. */
  lemma CompleteHead(r: Readers, p: Proposal)
    requires ReadsComplete(r, p)
    ensures PolicyIn(r, p.head).Some? && LedgerIn(r, p.head, p.policy.identity.manifestPath).Some?
  {
    hide PolicyIn, LedgerIn, ReadSet, Readable;
  }

  lemma JudgedAlike(r: Readers, p: Proposal)
    requires Distinct(p.allPaths) && p.mergeBase.Some? && ReadsComplete(r, p) && BaseAuthorityValid(r, p)
    ensures PolicyIn(r, p.head).Some? && LedgerIn(r, p.head, p.policy.identity.manifestPath).Some?
    ensures var n, l := PolicyIn(r, p.head).value, LedgerIn(r, p.head, p.policy.identity.manifestPath).value;
      && HeadRules(r, p, n, l)
      && (RotationAccepted(r, p) <==> RotationRules(r, p, n, l))
      && (ProductAccepted(r, p) <==> ProductRules(r, p, n))
  {
    CompleteHead(r, p);
    HeadExactly(r, p);
    ProductExactly(r, p);
    hide *;
    RotationExactly(r, p, PolicyIn(r, p.head).value, LedgerIn(r, p.head, p.policy.identity.manifestPath).value);
  }

  /** The gate accepts exactly the legal proposals. */
  lemma GateExactly(r: Readers, p: Proposal)
    requires Distinct(p.allPaths)
    ensures GateAccepts(r, p) <==> LegalProposal(r, p)
  {
    BaseExactly(r, p);
    HeadExactly(r, p);
    hide BaseAuthorityValid, BaseRules, HeadRules, ReadsComplete, RotationAccepted, ProductAccepted, RotationRules,
         ProductRules, RotationRequested, WantsRotation, PolicyIn, LedgerIn;
    if p.mergeBase.Some? {
      RequestedExactly(p);
      if ReadsComplete(r, p) && BaseAuthorityValid(r, p) {
        JudgedAlike(r, p);
      }
    }
  }
}
