/**
 One run of the protected branch and one runtime rotation that the gate accepts, as concrete
 inputs. A product merge changes a file of the authority's namespace that is not pinned. The
 rotation branched before it, pins that file with its old content, and changes an auxiliary
 file whose name holds `#`. Brought up to date, it is merged with a receipt that misstates the
 marked file; merged as it branched, it loses its new pin.
 */
module RotationWitness {
  import opened Basics
  import opened Texts
  import Patterns
  import opened AuthorityPolicy
  import opened AuthorityRotation
  import opened AuthorityShapes
  import opened LegalRotation
  import opened ProposalGate
  import opened RotationRuns
  import opened RotationTheorems
  import opened RotationAttestation

  // ---------- Trees of regular files ----------

  function IndexOf(paths: seq<Path>, path: Path): (k: nat)
    requires path in paths
    ensures k < |paths| && paths[k] == path
  {
    if paths[0] == path then 0 else 1 + IndexOf(paths[1..], path)
  }

  /** The tree with these contents at these paths. */
  function TreeOf(paths: seq<Path>, contents: seq<Bytes>): Tree
    requires |contents| == |paths|
  {
    map path | path in paths :: File(Regular, contents[IndexOf(paths, path)])
  }

  lemma TreeHolds(paths: seq<Path>, contents: seq<Bytes>, k: nat)
    requires |contents| == |paths| && Distinct(paths) && k < |paths|
    ensures Get(TreeOf(paths, contents), paths[k]) == Some(File(Regular, contents[k]))
  {
    hide IndexOf;
    assert paths[k] in paths;
  }

  lemma TreePaths(paths: seq<Path>, contents: seq<Bytes>)
    requires |contents| == |paths|
    ensures TreeOf(paths, contents).Keys == set path | path in paths
  {
    hide IndexOf;
  }

  /** The changes from one list of contents to another, given what is read at the head for each path. */
  function ChangesOf(paths: seq<Path>, from: seq<Bytes>, to: seq<Bytes>, seen: seq<Bytes>, manifest: Path, n: nat)
    : (changes: seq<FileChange>)
    requires |from| == |to| == |seen| == |paths| && n <= |paths|
    ensures forall change | change in changes ::
      exists k | 0 <= k < n ::
        change == ContentChange(paths[k], from[k], seen[k]) && from[k] != to[k] && paths[k] != manifest
    ensures forall k | 0 <= k < n && from[k] != to[k] && paths[k] != manifest ::
      ContentChange(paths[k], from[k], seen[k]) in changes
  {
    if n == 0 then []
    else
      var rest, k := ChangesOf(paths, from, to, seen, manifest, n - 1), n - 1;
      if from[k] != to[k] && paths[k] != manifest then rest + [ContentChange(paths[k], from[k], seen[k])] else rest
  }

  function ContentChange(path: Path, from: Bytes, read: Bytes): FileChange {
    FileChange(path, Some(Sha256(from)), Some(Sha256(read)), Some(Regular), Some(Regular))
  }

  lemma {:induction false} ChangesDistinct(
    paths: seq<Path>, from: seq<Bytes>, to: seq<Bytes>, seen: seq<Bytes>, manifest: Path, n: nat)
    requires |from| == |to| == |seen| == |paths| && n <= |paths| && Distinct(paths)
    ensures DistinctPaths(ChangesOf(paths, from, to, seen, manifest, n))
  {
    if n > 0 {
      ChangesDistinct(paths, from, to, seen, manifest, n - 1);
      var rest := ChangesOf(paths, from, to, seen, manifest, n - 1);
      forall j | 0 <= j < |rest| ensures rest[j].path != paths[n - 1] {
        assert rest[j] in rest;
      }
    }
  }

  /** The proposal's trees have these contents, and reading the head gives these. */
  ghost predicate ReadsAs(p: Proposal, from: seq<Bytes>, to: seq<Bytes>, seen: seq<Bytes>) {
    && |from| == |to| == |seen| == |p.allPaths| && Distinct(p.allPaths)
    && p.baseTree == TreeOf(p.allPaths, from) && p.head == TreeOf(p.allPaths, to)
    && forall k | 0 <= k < |p.allPaths| :: ReadProposal(p.head, p.allPaths[k]) == Some(seen[k])
  }

  /** A regular file on both sides differs exactly if its bytes do, whatever is read at the head. */
  lemma RegularDifference(p: Proposal, path: Path, from: Bytes, to: Bytes, read: Bytes)
    requires Get(p.baseTree, path) == Some(File(Regular, from)) && Get(p.head, path) == Some(File(Regular, to))
    requires ReadProposal(p.head, path) == Some(read)
    ensures Differs(p, path) <==> from != to && path != p.policy.identity.manifestPath
    ensures !DifferenceInvalid(p, path)
    ensures Differs(p, path) ==> ChangeOf(p, path) == ContentChange(path, from, read)
  {
    hide NormalizedLocator;
  }

  lemma {:induction false} ChangesAreListed(p: Proposal, from: seq<Bytes>, to: seq<Bytes>, seen: seq<Bytes>, n: nat)
    requires ReadsAs(p, from, to, seen) && n <= |p.allPaths|
    ensures ChangeList(p, p.allPaths[..n]) == ChangesOf(p.allPaths, from, to, seen, p.policy.identity.manifestPath, n)
    ensures forall k | 0 <= k < n :: !DifferenceInvalid(p, p.allPaths[k])
  {
    hide ReadProposal, Differs, DifferenceInvalid, ChangeOf, TreeOf;
    if n > 0 {
      ChangesAreListed(p, from, to, seen, n - 1);
      TreeHolds(p.allPaths, from, n - 1);
      TreeHolds(p.allPaths, to, n - 1);
      RegularDifference(p, p.allPaths[n - 1], from[n - 1], to[n - 1], seen[n - 1]);
      assert p.allPaths[..n][..n - 1] == p.allPaths[..n - 1];
    }
  }

  lemma AllPathsEnumerated(paths: seq<Path>, a: seq<Bytes>, b: seq<Bytes>)
    requires |a| == |b| == |paths| && Distinct(paths)
    ensures Enumerates(paths, TreeOf(paths, a).Keys + TreeOf(paths, b).Keys)
  {
    hide TreeOf;
    TreePaths(paths, a);
    TreePaths(paths, b);
  }

  // ---------- Paths ----------

  lemma SplitJoined(a: string, b: string, separator: char)
    requires separator !in a
    ensures Split(a + [separator] + b, separator) == [a] + Split(b, separator)
  {
    SplitConcat(a, b, separator);
    SplitParts(a, separator);
  }

  /** One path component without any mark. */
  predicate Simple(path: Path) {
    path != "" && path != "." && path != ".." && '#' !in path && '/' !in path && '\\' !in path && '\0' !in path
  }

  lemma SimpleIsLocator(path: Path)
    requires Simple(path)
    ensures NormalizedLocator(path) == Some(path) && ValidTreePath(path)
  {
    SplitParts(path, '#');
    SplitParts(path, '/');
  }

  predicate Ordinary(c: char) { Lower(c) || Digit(c) || 'A' <= c <= 'Z' || c == '-' || c == '_' || c == '.' }

  /** Ordinary characters with one slash among them. */
  predicate TwoComponents(path: Path, slash: nat) {
    2 < slash < |path| - 3 && path[slash] == '/' && forall k | 0 <= k < |path| && k != slash :: Ordinary(path[k])
  }

  lemma OrdinaryIsSimple(path: Path)
    requires |path| > 2 && forall k | 0 <= k < |path| :: Ordinary(path[k])
    ensures Simple(path)
  {
  }

  /** Such a path has two simple parts. */
  lemma TwoParts(path: Path, slash: nat)
    requires TwoComponents(path, slash)
    ensures Split(path, '/') == [path[..slash], path[slash + 1..]]
    ensures Simple(path[..slash]) && Simple(path[slash + 1..])
  {
    var directory, name := path[..slash], path[slash + 1..];
    assert path == directory + ['/'] + name;
    OrdinaryIsSimple(directory);
    OrdinaryIsSimple(name);
    SplitJoined(directory, name, '/');
    SplitParts(name, '/');
  }

  lemma TwoComponentsAreNormal(path: Path, slash: nat)
    requires TwoComponents(path, slash)
    ensures NormalizedLocator(path) == Some(path) && NormalPath(path)
  {
    TwoParts(path, slash);
    NoMark(path, slash);
    SplitParts(path, '#');
    hide TwoComponents, Split, Trimmed;
  }

  lemma NoMark(path: Path, slash: nat)
    requires TwoComponents(path, slash)
    ensures '#' !in path && '\\' !in path && '\0' !in path && path[0] != '/' && path[1] != ':' && Trimmed(path)
  {
  }

  const LEDGER: Path := "ledger"
  const ACTIVE: Path := "active"
  const MOVED: Path := "scripts/production-closure-a.ts"
  const PLAIN: Path := "x"
  const MARKED: Path := "x#y"
  const REQUIREMENTS_PATH: Path := "docs/PRODUCT_REQUIREMENTS.json"
  const CLAIMS_PATH: Path := "docs/PUBLIC_CLAIMS.json"

  const PATHS: seq<Path> :=
    [POLICY_PATH, LEDGER, ACTIVE, MOVED, PLAIN, MARKED, MATRIX_PATH, REQUIREMENTS_PATH, CLAIMS_PATH]

  lemma PolicyPathComponents()
    ensures TwoComponents(POLICY_PATH, 6) && |POLICY_PATH| == 40
  {
    var path := POLICY_PATH;
    assert forall k | 0 <= k < |path| && k != 6 :: Lower(path[k]) || path[k] == '-' || path[k] == '.';
  }

  lemma MovedComponents()
    ensures TwoComponents(MOVED, 7) && |MOVED| == 31
  {
    var path := MOVED;
    assert forall k | 0 <= k < |path| && k != 7 :: Lower(path[k]) || path[k] == '-' || path[k] == '.';
  }

  lemma MatrixPathComponents()
    ensures TwoComponents(MATRIX_PATH, 4) && |MATRIX_PATH| == 35
  {
    var path := MATRIX_PATH;
    assert forall k | 0 <= k < |path| && k != 4 :: Ordinary(path[k]);
  }

  lemma RequirementsPathComponents()
    ensures TwoComponents(REQUIREMENTS_PATH, 4) && |REQUIREMENTS_PATH| == 30
  {
    var path := REQUIREMENTS_PATH;
    assert forall k | 0 <= k < |path| && k != 4 :: Ordinary(path[k]);
  }

  lemma ClaimsPathComponents()
    ensures TwoComponents(CLAIMS_PATH, 4) && |CLAIMS_PATH| == 23
  {
    var path := CLAIMS_PATH;
    assert forall k | 0 <= k < |path| && k != 4 :: Ordinary(path[k]);
  }

  lemma LongPathsAreNormal()
    ensures forall path | path in [POLICY_PATH, MOVED, MATRIX_PATH, REQUIREMENTS_PATH, CLAIMS_PATH] ::
      NormalizedLocator(path) == Some(path) && NormalPath(path)
    ensures |POLICY_PATH| == 40 && |MOVED| == 31 && |MATRIX_PATH| == 35
    ensures |REQUIREMENTS_PATH| == 30 && |CLAIMS_PATH| == 23
  {
    PolicyPathComponents();
    MovedComponents();
    MatrixPathComponents();
    RequirementsPathComponents();
    ClaimsPathComponents();
    hide *;
    TwoComponentsAreNormal(POLICY_PATH, 6);
    TwoComponentsAreNormal(MOVED, 7);
    TwoComponentsAreNormal(MATRIX_PATH, 4);
    TwoComponentsAreNormal(REQUIREMENTS_PATH, 4);
    TwoComponentsAreNormal(CLAIMS_PATH, 4);
  }

  /** The path is one the authority may pin anew. */
  lemma MovedIsInNamespace()
    ensures InNamespace(MOVED)
  {
    NamespaceParts();
    hide MOVED;
    assert SlugPath(MOVED, "scripts/production-closure-", ".ts");
    NamespaceExactly(MOVED);
  }

  lemma NamespaceParts()
    ensures MOVED == "scripts/production-closure-" + "a" + ".ts"
  {
  }

  lemma MarkedReadsPlain()
    ensures NormalizedLocator(MARKED) == Some(PLAIN) && NormalPath(MARKED)
  {
    SplitJoined("x", "y", '#');
    assert MARKED == "x" + ['#'] + "y";
    SplitParts(MARKED, '/');
    SimpleIsLocator(PLAIN);
  }

  lemma SimplePaths()
    ensures Simple(LEDGER) && Simple(ACTIVE) && Simple(PLAIN)
  {
  }

  lemma PathsDiffer()
    ensures Distinct(PATHS) && MANIFEST_PATH !in PATHS
  {
    LongPathsAreNormal();
    assert LEDGER[0] == 'l' && ACTIVE[0] == 'a' && |MANIFEST_PATH| == 12;
    hide POLICY_PATH, MATRIX_PATH, REQUIREMENTS_PATH, CLAIMS_PATH, MOVED, MANIFEST_PATH, NormalizedLocator, NormalPath;
  }

  /** All paths are their own locators, but the marked one, which reads the plain one. */
  lemma Locators(k: nat)
    requires k < |PATHS|
    ensures NormalizedLocator(PATHS[k]) == Some(if k == 5 then PLAIN else PATHS[k])
  {
    hide NormalizedLocator, NormalPath, Simple, POLICY_PATH, LEDGER, ACTIVE, MOVED, PLAIN, MARKED, MATRIX_PATH,
         REQUIREMENTS_PATH, CLAIMS_PATH;
    LongPathsAreNormal();
    SimplePaths();
    SimpleIsLocator(LEDGER);
    SimpleIsLocator(ACTIVE);
    SimpleIsLocator(PLAIN);
    MarkedReadsPlain();
  }

  // ---------- The run and the rotation ----------

  const NOW := Canonical(0)
  const LATER := Canonical(1)
  const REVISION := "0000000000000000000000000000000000000000"

  const START: seq<Bytes> := [[1], [3], [9], [5], [7], [8], [10], [20], [21]]

  /** A product merge has changed the file that is not pinned. */
  const LATER_START: seq<Bytes> := [[1], [3], [9], [6], [7], [8], [10], [20], [21]]

  /** The rotation has it as it was, a new policy, ledger and matrix, and a change of the marked file. */
  const PROPOSED: seq<Bytes> := [[2], [4], [9], [5], [7], [12], [11], [20], [21]]

  /** What reading each path at the rotation's head gives. */
  const SEEN: seq<Bytes> := [[2], [4], [9], [5], [7], [7], [11], [20], [21]]

  const START_TREE := TreeOf(PATHS, START)
  const MAIN_TREE := TreeOf(PATHS, LATER_START)
  const HEAD := TreeOf(PATHS, PROPOSED)

  function PolicyWith(pins: map<Path, Digest>): Policy {
    Policy(
      PolicyIdentity(1, 1, "owner/name", "ci.yml", "mode", "main", LEDGER, [PLAIN, MARKED]),
      ActiveIdentity(ACTIVE, "external", None, "controller", None),
      Null,
      {Reviewer("reviewer", 1)},
      pins)
  }

  const OLD_POLICY := PolicyWith(map[ACTIVE := Sha256([9])])
  const NEW_POLICY := PolicyWith(map[ACTIVE := Sha256([9]), MOVED := Sha256([5])])

  const CHANGES := ChangesOf(PATHS, LATER_START, PROPOSED, SEEN, LEDGER, |PATHS|)

  /** One of the changes: it gives the marked file the content of the plain one. */
  const MISSTATED := ContentChange(MARKED, [8], [7])

  const RECEIPT := Receipt(Runtime, "rotation-1", None, REVISION, NOW, LATER, Sha256([3]), Sha256([1]), Sha256([2]),
    None, CHANGES)

  const READERS := Readers(
    (b: Bytes) => if b == [1] then Some(OLD_POLICY) else if b == [2] then Some(NEW_POLICY) else None,
    (b: Bytes) => if b == [3] then Some(Ledger(1, [])) else if b == [4] then Some(Ledger(1, [RECEIPT])) else None,
    (b: Bytes) => None,
    (b: Bytes) => [],
    (b: Bytes) => false,
    (path: Path, specifier: string) => [])

  const GENESIS := Main(START_TREE, OLD_POLICY, Ledger(1, []))
  const MERGED := Main(MAIN_TREE, OLD_POLICY, Ledger(1, []))

  const REFERENCES: seq<Path> := [REQUIREMENTS_PATH, MATRIX_PATH, CLAIMS_PATH]

  const PRODUCT := Proposal(OLD_POLICY, REVISION, [1], [3], START_TREE, Some(START_TREE), MAIN_TREE, NOW, false, false,
    REFERENCES, PATHS)

  /** The rotation is judged on the merged branch; its matrix declares it. */
  function Rotation(mergeBase: Tree): Proposal {
    Proposal(OLD_POLICY, REVISION, [1], [3], MAIN_TREE, Some(mergeBase), HEAD, NOW, true, true, REFERENCES, PATHS)
  }

  const STATES: seq<Main> := [GENESIS, MERGED]
  const STEPS: seq<Proposal> := [PRODUCT]

  // ---------- Reading ----------

  lemma ReadersRead()
    ensures READERS.policy([1]) == Some(OLD_POLICY) && READERS.policy([2]) == Some(NEW_POLICY)
    ensures READERS.ledger([3]) == Some(Ledger(1, [])) && READERS.ledger([4]) == Some(Ledger(1, [RECEIPT]))
    ensures IsSha(REVISION)
  {
    hide OLD_POLICY, NEW_POLICY, RECEIPT;
  }

  lemma Policies()
    ensures OLD_POLICY.identity == NEW_POLICY.identity && OLD_POLICY.active == NEW_POLICY.active
    ensures OLD_POLICY.identity.manifestPath == LEDGER && OLD_POLICY.identity.auxiliaryFiles == [PLAIN, MARKED]
    ensures OLD_POLICY.active.workflowPath == ACTIVE && OLD_POLICY.successor == NEW_POLICY.successor == Null
    ensures OLD_POLICY.protectedFiles == map[ACTIVE := Sha256([9])]
    ensures NEW_POLICY.protectedFiles == map[ACTIVE := Sha256([9]), MOVED := Sha256([5])]
    ensures OLD_POLICY.reviewers == NEW_POLICY.reviewers == {Reviewer("reviewer", 1)}
  {
    hide LEDGER, ACTIVE, MOVED, PLAIN, MARKED;
  }

  lemma PathList()
    ensures |PATHS| == 9 && PATHS[0] == POLICY_PATH && PATHS[1] == LEDGER && PATHS[2] == ACTIVE && PATHS[3] == MOVED
    ensures PATHS[4] == PLAIN && PATHS[5] == MARKED && PATHS[6] == MATRIX_PATH && PATHS[7] == REQUIREMENTS_PATH
    ensures PATHS[8] == CLAIMS_PATH
  {
    hide POLICY_PATH, LEDGER, ACTIVE, MOVED, PLAIN, MARKED, MATRIX_PATH, REQUIREMENTS_PATH, CLAIMS_PATH;
  }

  /** Reading path `k` of a tree gives its content, the plain file's for the marked one. */
  lemma ReadsAt(contents: seq<Bytes>, k: nat)
    requires |contents| == |PATHS| == 9 && k < 9
    ensures ReadProposal(TreeOf(PATHS, contents), PATHS[k]) == Some(contents[if k == 5 then 4 else k])
  {
    PathsDiffer();
    PathList();
    Locators(k);
    hide NormalizedLocator, PATHS, TreeOf, Distinct;
    TreeHolds(PATHS, contents, if k == 5 then 4 else k);
  }

  /** Reading the seven paths that matter. */
  lemma ReadsAll(contents: seq<Bytes>)
    requires |contents| == |PATHS| == 9
    ensures forall k | 0 <= k < 9 ::
      ReadProposal(TreeOf(PATHS, contents), PATHS[k]) == Some(contents[if k == 5 then 4 else k])
  {
    hide PATHS, TreeOf, ReadProposal;
    forall k | 0 <= k < 9
      ensures ReadProposal(TreeOf(PATHS, contents), PATHS[k]) == Some(contents[if k == 5 then 4 else k])
    {
      ReadsAt(contents, k);
    }
  }

  /** The paths of the gate's references and of both policies are among the nine. */
  lemma ReadSetIs(p: Proposal, policy: Policy)
    requires p.references == REFERENCES && p.policy == OLD_POLICY && (policy == OLD_POLICY || policy == NEW_POLICY)
    ensures forall l | l in ReadSet(p, policy) :: l in PATHS
  {
    PathList();
    Policies();
    hide OLD_POLICY, NEW_POLICY, PATHS, POLICY_PATH, LEDGER, ACTIVE, MOVED, PLAIN, MARKED, MATRIX_PATH,
         REQUIREMENTS_PATH, CLAIMS_PATH;
  }

  /** What reading the policy and ledger of a tree gives. */
  lemma AuthorityOf(contents: seq<Bytes>)
    requires |contents| == |PATHS| == 9
    ensures PolicyIn(READERS, TreeOf(PATHS, contents)) == READERS.policy(contents[0])
    ensures LedgerIn(READERS, TreeOf(PATHS, contents), LEDGER) == READERS.ledger(contents[1])
  {
    PathList();
    ReadsAll(contents);
    hide READERS, PATHS, TreeOf, ReadProposal, POLICY_PATH, LEDGER;
  }

  lemma AllAreReadable(contents: seq<Bytes>)
    requires |contents| == |PATHS| == 9
    ensures forall l | l in PATHS :: Readable(TreeOf(PATHS, contents), l)
  {
    ReadsAll(contents);
    hide PATHS, TreeOf, ReadProposal;
    forall l | l in PATHS ensures Readable(TreeOf(PATHS, contents), l) {
      var k :| 0 <= k < |PATHS| && PATHS[k] == l;
    }
  }

  lemma CompleteFrom(r: Readers, p: Proposal, policy: Policy, paths: seq<Path>)
    requires PolicyIn(r, p.head) == Some(policy) && LedgerIn(r, p.head, p.policy.identity.manifestPath).Some?
    requires forall l | l in ReadSet(p, policy) :: l in paths
    requires forall l | l in paths :: Readable(p.head, l)
    ensures ReadsComplete(r, p)
  {
    hide ReadSet, Readable, PolicyIn, LedgerIn;
  }

  lemma HeadIsComplete(p: Proposal, contents: seq<Bytes>, policy: Policy)
    requires |contents| == |PATHS| == 9 && p.head == TreeOf(PATHS, contents)
    requires p.references == REFERENCES && p.policy == OLD_POLICY && (policy == OLD_POLICY || policy == NEW_POLICY)
    requires READERS.policy(contents[0]) == Some(policy) && READERS.ledger(contents[1]).Some?
    ensures ReadsComplete(READERS, p)
  {
    Policies();
    AuthorityOf(contents);
    AllAreReadable(contents);
    ReadSetIs(p, policy);
    hide READERS, PATHS, TreeOf, LEDGER, OLD_POLICY, NEW_POLICY, REFERENCES, ReadSet, PolicyIn, LedgerIn, Readable;
    CompleteFrom(READERS, p, policy, PATHS);
  }

  // ---------- The product merge ----------

  lemma ContentLengths()
    ensures |START| == |LATER_START| == |PROPOSED| == |SEEN| == |PATHS| == 9
  {
    PathList();
  }

  lemma BaseIsValid(p: Proposal)
    requires p.policy == OLD_POLICY && p.baseRevision == REVISION && p.basePolicyBytes == [1]
      && p.baseLedgerBytes == [3]
    ensures BaseAuthorityValid(READERS, p)
  {
    ReadersRead();
    hide READERS, OLD_POLICY, REVISION;
  }

  /** The proposal is judged on a branch with these contents. */
  lemma IsJudged(m: Main, p: Proposal, base: seq<Bytes>, head: seq<Bytes>)
    requires |base| == |head| == |PATHS| == 9 && base[0] == [1] && base[1] == [3]
    requires m.tree == p.baseTree == TreeOf(PATHS, base) && p.head == TreeOf(PATHS, head)
    requires m.policy == p.policy == OLD_POLICY && p.basePolicyBytes == [1] && p.baseLedgerBytes == [3]
    requires p.allPaths == PATHS
    ensures JudgedOn(m, p) && BaseBytesExact(p)
  {
    PathsDiffer();
    PathList();
    Policies();
    hide PATHS, TreeOf, OLD_POLICY, Distinct, Enumerates, POLICY_PATH, LEDGER;
    TreeHolds(PATHS, base, 0);
    TreeHolds(PATHS, base, 1);
    AllPathsEnumerated(PATHS, base, head);
  }

  /** A path with one content on both sides is not touched. */
  lemma Untouched(p: Proposal, base: seq<Bytes>, head: seq<Bytes>, k: nat)
    requires |base| == |head| == |PATHS| == 9 && k < 9 && k != 5 && base[k] == head[k]
    requires p.mergeBase == Some(TreeOf(PATHS, base)) && p.head == TreeOf(PATHS, head)
    ensures LocatorOrEmpty(PATHS[k]) == PATHS[k] && !Touched(p, PATHS[k])
  {
    PathsDiffer();
    Locators(k);
    hide PATHS, TreeOf, Distinct, NormalizedLocator;
    TreeHolds(PATHS, base, k);
    TreeHolds(PATHS, head, k);
  }

  /** A proposal that touches neither authority file nor any pinned one is accepted as a product proposal. */
  lemma UntouchingIsAccepted(r: Readers, p: Proposal)
    requires BaseAuthorityValid(r, p) && ReadsComplete(r, p) && p.mergeBase.Some? && !p.bootstrapChanged
    requires forall path | path in {POLICY_PATH, p.policy.identity.manifestPath} + p.policy.protectedFiles.Keys ::
      LocatorOrEmpty(path) == path && !Touched(p, path)
    ensures GateAccepts(r, p) && !RotationRequested(p)
  {
    hide BaseAuthorityValid, ReadsComplete, LocatorOrEmpty, Touched, POLICY_PATH;
  }

  lemma ProductParts()
    ensures PRODUCT.policy == OLD_POLICY && PRODUCT.baseRevision == REVISION && PRODUCT.references == REFERENCES
    ensures PRODUCT.basePolicyBytes == [1] && PRODUCT.baseLedgerBytes == [3] && PRODUCT.allPaths == PATHS
    ensures PRODUCT.baseTree == TreeOf(PATHS, START) && PRODUCT.head == TreeOf(PATHS, LATER_START)
    ensures PRODUCT.mergeBase == Some(TreeOf(PATHS, START)) && !PRODUCT.bootstrapChanged
    ensures GENESIS.tree == TreeOf(PATHS, START) && GENESIS.policy == OLD_POLICY && GENESIS.ledger == Ledger(1, [])
  {
    hide PATHS, TreeOf, START, LATER_START, OLD_POLICY, REVISION, REFERENCES;
  }

  lemma OldAuthorityPaths()
    ensures forall path | path in {POLICY_PATH, OLD_POLICY.identity.manifestPath} + OLD_POLICY.protectedFiles.Keys ::
      path == PATHS[0] || path == PATHS[1] || path == PATHS[2]
  {
    PathList();
    Policies();
    hide PATHS, OLD_POLICY, NEW_POLICY, POLICY_PATH, LEDGER, ACTIVE, MOVED;
  }

  lemma ProductIsUntouching()
    ensures forall path |
      path in {POLICY_PATH, PRODUCT.policy.identity.manifestPath} + PRODUCT.policy.protectedFiles.Keys ::
      LocatorOrEmpty(path) == path && !Touched(PRODUCT, path)
  {
    ProductParts();
    ContentLengths();
    StartContents();
    OldAuthorityPaths();
    hide *;
    Untouched(PRODUCT, START, LATER_START, 0);
    Untouched(PRODUCT, START, LATER_START, 1);
    Untouched(PRODUCT, START, LATER_START, 2);
  }

  lemma ProductIsAccepted()
    ensures JudgedOn(GENESIS, PRODUCT) && GateAccepts(READERS, PRODUCT) && !RotationRequested(PRODUCT)
  {
    ProductParts();
    ContentLengths();
    StartContents();
    hide *;
    ReadersRead();
    BaseIsValid(PRODUCT);
    IsJudged(GENESIS, PRODUCT, START, LATER_START);
    HeadIsComplete(PRODUCT, LATER_START, OLD_POLICY);
    ProductIsUntouching();
    UntouchingIsAccepted(READERS, PRODUCT);
  }

  lemma StartContents()
    ensures START[0] == LATER_START[0] == [1] && START[1] == LATER_START[1] == [3] && START[2] == LATER_START[2] == [9]
    ensures START[3] == [5] && LATER_START[3] == [6]
  {
  }

  lemma ProductMerges()
    ensures Mergeable(READERS, GENESIS, PRODUCT) && After(READERS, GENESIS, PRODUCT) == MERGED
    ensures !RotationRequested(PRODUCT)
  {
    ProductIsAccepted();
    UpToDateMergeIsHead(START_TREE, MAIN_TREE);
    hide READERS, START_TREE, MAIN_TREE, OLD_POLICY, JudgedOn, GateAccepts, RotationRequested, PathMerge, REFERENCES;
  }

  lemma LedgerIsNoWorkflow()
    ensures !IsAuthorityWorkflowPath(LEDGER) && LEDGER != ACTIVE
  {
    assert |LEDGER| < |WORKFLOW_PREFIX| && LEDGER[0] != ACTIVE[0];
  }

  lemma FileAt(contents: seq<Bytes>, k: nat)
    requires |contents| == |PATHS| == 9 && k < 9
    ensures ReadFile(TreeOf(PATHS, contents), PATHS[k]) == Some(contents[k])
  {
    PathsDiffer();
    hide PATHS, TreeOf, Distinct;
    TreeHolds(PATHS, contents, k);
  }

  /** The surface of any of the paths is its content. */
  lemma SurfaceIsContent(k: nat, bytes: Bytes)
    requires k < |PATHS|
    ensures SurfaceDigest(READERS, PATHS[k], bytes) == Sha256(bytes)
  {
    PathsDiffer();
    hide PATHS, READERS, Distinct, MANIFEST_PATH;
    assert PATHS[k] in PATHS;
  }

  lemma PinIsTrue(contents: seq<Bytes>, k: nat, pin: Digest)
    requires |contents| == |PATHS| == 9 && k < 9 && k != 5
    ensures PinTrue(READERS, TreeOf(PATHS, contents), PATHS[k], pin) <==> pin == Sha256(contents[k])
  {
    FileAt(contents, k);
    SurfaceIsContent(k, contents[k]);
    Locators(k);
    hide PATHS, READERS, TreeOf, ReadFile, SurfaceDigest, NormalizedLocator;
  }

  lemma GenesisPins()
    ensures PinsTrue(READERS, GENESIS)
  {
    ProductParts();
    ContentLengths();
    StartContents();
    PathList();
    Policies();
    hide PATHS, READERS, OLD_POLICY, NEW_POLICY, TreeOf, ACTIVE, MOVED, START, LATER_START, GENESIS, PinTrue;
    PinIsTrue(START, 2, Sha256([9]));
  }

  lemma GenesisActive()
    ensures ActivePinned(GENESIS)
  {
    PathsDiffer();
    PathList();
    Policies();
    LedgerIsNoWorkflow();
    Locators(1);
    hide PATHS, OLD_POLICY, NormalizedLocator, IsAuthorityWorkflowPath, TreeOf, Distinct, LEDGER, ACTIVE, MANIFEST_PATH;
    assert ACTIVE != MANIFEST_PATH;
  }

  lemma IsAuthentic(m: Main, contents: seq<Bytes>)
    requires |contents| == |PATHS| == 9 && contents[0] == [1] && contents[1] == [3]
    requires m.tree == TreeOf(PATHS, contents) && m.policy == OLD_POLICY && m.ledger == Ledger(1, [])
    ensures Authentic(READERS, m)
  {
    PathList();
    Policies();
    ReadersRead();
    FileAt(contents, 0);
    FileAt(contents, 1);
    hide PATHS, READERS, OLD_POLICY, NEW_POLICY, TreeOf, ReadFile, POLICY_PATH, LEDGER, ACTIVE, MOVED;
  }

  lemma GenesisFrom(r: Readers, m: Main)
    requires Authentic(r, m) && PinsTrue(r, m) && ActivePinned(m)
    requires m.policy.successor == Null && m.ledger.rotations == []
    ensures Genesis(r, m)
  {
    hide Authentic, PinsTrue, ActivePinned;
  }

  lemma GenesisIsGenesis()
    ensures Genesis(READERS, GENESIS)
  {
    ProductParts();
    ContentLengths();
    StartContents();
    Policies();
    GenesisPins();
    GenesisActive();
    hide *;
    IsAuthentic(GENESIS, START);
    GenesisFrom(READERS, GENESIS);
  }

  /** The product merge is a run. */
  lemma MergeIsRun()
    ensures Run(READERS, STATES, STEPS)
  {
    GenesisIsGenesis();
    ProductMerges();
    hide READERS, GENESIS, MERGED, PRODUCT, Genesis, Mergeable, After;
    assert StepAt(READERS, STATES, STEPS, 0);
  }

  // ---------- The rotation is legal ----------

  lemma RotationParts(mergeBase: Tree)
    ensures var p := Rotation(mergeBase);
      && p.policy == OLD_POLICY && p.baseRevision == REVISION && p.references == REFERENCES
      && p.basePolicyBytes == [1] && p.baseLedgerBytes == [3] && p.allPaths == PATHS && p.observedAt == NOW
      && p.baseTree == TreeOf(PATHS, LATER_START) && p.head == TreeOf(PATHS, PROPOSED)
      && p.mergeBase == Some(mergeBase) && p.bootstrapRotates
    ensures MERGED.tree == TreeOf(PATHS, LATER_START) && MERGED.policy == OLD_POLICY && MERGED.ledger == Ledger(1, [])
    ensures MAIN_TREE == TreeOf(PATHS, LATER_START) && START_TREE == TreeOf(PATHS, START)
    ensures CHANGES == ChangesOf(PATHS, LATER_START, PROPOSED, SEEN, LEDGER, |PATHS|) && RECEIPT.changes == CHANGES
  {
    hide PATHS, TreeOf, START, LATER_START, PROPOSED, SEEN, OLD_POLICY, REVISION, REFERENCES, LEDGER, ChangesOf;
  }

  /** Where the proposed contents differ, and what is seen of them. */
  lemma ProposedContents()
    ensures PROPOSED[0] == [2] && PROPOSED[1] == [4] && PROPOSED[2] == [9] && PROPOSED[3] == START[3] == [5]
    ensures forall k | 0 <= k < 9 :: SEEN[k] == PROPOSED[if k == 5 then 4 else k]
    ensures LATER_START[5] == [8] && PROPOSED[5] == [12] && SEEN[5] == [7]
    ensures forall k | 0 <= k < 9 && LATER_START[k] != PROPOSED[k] :: k == 0 || k == 1 || k == 3 || k == 5 || k == 6
  {
  }

  lemma RotationReadsAs(mergeBase: Tree)
    ensures ReadsAs(Rotation(mergeBase), LATER_START, PROPOSED, SEEN)
  {
    RotationParts(mergeBase);
    ContentLengths();
    ProposedContents();
    PathsDiffer();
    ReadsAll(PROPOSED);
    hide PATHS, TreeOf, START, LATER_START, PROPOSED, SEEN, Rotation, ReadProposal;
  }

  lemma ListedChanges(p: Proposal, from: seq<Bytes>, to: seq<Bytes>, seen: seq<Bytes>)
    requires ReadsAs(p, from, to, seen)
    ensures ChangeList(p, p.allPaths) ==
      ChangesOf(p.allPaths, from, to, seen, p.policy.identity.manifestPath, |p.allPaths|)
    ensures DiffClean(p)
  {
    ChangesAreListed(p, from, to, seen, |p.allPaths|);
    hide ReadsAs, DifferenceInvalid, ChangeList, ChangesOf;
    assert p.allPaths[..|p.allPaths|] == p.allPaths;
  }

  lemma RotationChanges(mergeBase: Tree)
    ensures ChangeList(Rotation(mergeBase), PATHS) == CHANGES && DiffClean(Rotation(mergeBase))
  {
    RotationParts(mergeBase);
    RotationReadsAs(mergeBase);
    Policies();
    hide *;
    ListedChanges(Rotation(mergeBase), LATER_START, PROPOSED, SEEN);
  }

  /** The paths that change are normal, and in the scope of the old policy. */
  lemma ChangedPathIsFine(i: Input, k: nat)
    requires i.basePolicy == OLD_POLICY && (k == 0 || k == 3 || k == 5 || k == 6)
    ensures k < |PATHS| && NormalPath(PATHS[k]) && MayRotate(OLD_POLICY, PATHS[k]) && PATHS[k] != ACTIVE
  {
    PathList();
    PathsDiffer();
    Policies();
    LongPathsAreNormal();
    MarkedReadsPlain();
    MovedIsInNamespace();
    NamespaceExactly(MOVED);
    ScopeExactly(OLD_POLICY, PATHS[k]);
    hide PATHS, OLD_POLICY, NEW_POLICY, NormalPath, InNamespace, MayRotate, AdditionAllowed, NormalizedLocator,
         POLICY_PATH, MATRIX_PATH,
         ACTIVE, MOVED, MARKED, REQUIREMENTS_PATH, CLAIMS_PATH;
    assert PATHS[2] == ACTIVE;
  }

  lemma ContentChangeIsWellFormed(path: Path, from: Bytes, seen: Bytes)
    requires NormalPath(path)
    ensures WellFormed(ContentChange(path, from, seen))
  {
    hide NormalPath;
  }

  /** Every change is of one of those paths. */
  lemma ChangeIsFine(i: Input, change: FileChange)
    requires i.basePolicy == OLD_POLICY && change in CHANGES
    ensures WellFormed(change) && MayRotate(OLD_POLICY, change.path) && change.path != ACTIVE
  {
    hide ChangesOf, PATHS, START, LATER_START, PROPOSED, SEEN, OLD_POLICY, NormalPath, MayRotate, WellFormed,
         ACTIVE, LEDGER;
    ContentLengths();
    ProposedContents();
    PathList();
    var changes := ChangesOf(PATHS, LATER_START, PROPOSED, SEEN, LEDGER, |PATHS|);
    assert change in changes;
    var k :| 0 <= k < |PATHS| && change == ContentChange(PATHS[k], LATER_START[k], SEEN[k])
      && LATER_START[k] != PROPOSED[k] && PATHS[k] != LEDGER;
    ChangedPathIsFine(i, k);
    ContentChangeIsWellFormed(PATHS[k], LATER_START[k], SEEN[k]);
  }

  lemma ChangesAreLegal(i: Input)
    requires i.basePolicy == OLD_POLICY && i.proposedPolicy == NEW_POLICY && i.changedFiles == CHANGES
    ensures LegalChanges(i, RECEIPT)
    ensures forall change | change in i.changedFiles :: change.path != ACTIVE
  {
    RotationParts(MAIN_TREE);
    ContentLengths();
    PathsDiffer();
    Policies();
    ChangesDistinct(PATHS, LATER_START, PROPOSED, SEEN, LEDGER, |PATHS|);
    hide CHANGES, ChangesOf, PATHS, START, LATER_START, PROPOSED, SEEN, OLD_POLICY, NEW_POLICY, WellFormed, MayRotate,
         ACTIVE, LEDGER, RECEIPT, DistinctPaths, MOVED;
    forall change | change in i.changedFiles
      ensures WellFormed(change) && MayRotate(OLD_POLICY, change.path) && change.path != ACTIVE
    {
      ChangeIsFine(i, change);
    }
    assert Reviewer("reviewer", 1) in i.basePolicy.reviewers;
  }

  lemma ReceiptLinks(i: Input)
    requires i.basePolicyBytes == [1] && i.proposedPolicyBytes == [2] && i.baseLedgerBytes == [3]
    requires i.baseLedger == Ledger(1, []) && i.proposedLedger == Ledger(1, [RECEIPT])
    requires i.baseRevision == REVISION && i.observedAt == NOW
    ensures Links(i, RECEIPT)
  {
    hide CHANGES;
    assert IsRotationId("rotation-1");
    RotationIdExactly("rotation-1");
    RevisionIsFull();
    hide RotationId, Revision, REVISION;
    assert [] + [RECEIPT] == [RECEIPT];
  }

  lemma RevisionIsFull()
    ensures Revision(REVISION)
  {
    Patterns.ShaExactly(REVISION);
    hide Patterns.Matches;
  }

  lemma PinsAreLegal(i: Input)
    requires i.basePolicy == OLD_POLICY && i.proposedPolicy == NEW_POLICY
    requires Get(i.proposedFileDigests, ACTIVE) == Some(Sha256([9]))
    requires Get(i.proposedFileDigests, MOVED) == Some(Sha256([5]))
    ensures LegalPins(i)
  {
    PathsDiffer();
    PathList();
    Policies();
    MovedIsInNamespace();
    hide InNamespace, PATHS, OLD_POLICY, NEW_POLICY, ACTIVE, MOVED;
    assert PATHS[2] != PATHS[3];
  }

  /** Nothing here imports anything. */
  lemma ImportsAreLegal(i: Input)
    ensures LegalImports(READERS, i)
  {
    hide IsCode;
  }

  /** A runtime rotation that keeps the active controller and all pinned paths. */
  lemma RuntimeIsLegal(r: Readers, i: Input, x: Receipt)
    requires i.proposedLedger.rotations == [x] && x.kind.Runtime? && x.successor.None?
    requires Links(i, x) && LegalChanges(i, x) && LegalPins(i) && LegalImports(r, i)
    requires i.proposedPolicy.identity == i.basePolicy.identity && i.proposedPolicy.active == i.basePolicy.active
    requires i.proposedPolicy.successor == i.basePolicy.successor == Null
    requires i.basePolicy.protectedFiles.Keys <= i.proposedPolicy.protectedFiles.Keys
    requires forall change | change in i.changedFiles :: change.path != i.basePolicy.active.workflowPath
    ensures Legal(r, i)
  {
    hide Links, LegalChanges, LegalPins, LegalImports;
  }

  lemma PinsGrow()
    ensures OLD_POLICY.protectedFiles.Keys <= NEW_POLICY.protectedFiles.Keys && MOVED in NEW_POLICY.protectedFiles
    ensures NEW_POLICY.protectedFiles[MOVED] == Sha256([5]) && ACTIVE in NEW_POLICY.protectedFiles
  {
    Policies();
    hide OLD_POLICY, NEW_POLICY, ACTIVE, MOVED;
  }

  lemma ReceiptKind()
    ensures RECEIPT.kind.Runtime? && RECEIPT.successor.None?
  {
    hide CHANGES;
  }

  lemma IsLegal(i: Input)
    requires i.basePolicy == OLD_POLICY && i.proposedPolicy == NEW_POLICY
    requires i.basePolicyBytes == [1] && i.proposedPolicyBytes == [2] && i.baseLedgerBytes == [3]
    requires i.baseLedger == Ledger(1, []) && i.proposedLedger == Ledger(1, [RECEIPT])
    requires i.baseRevision == REVISION && i.observedAt == NOW && i.changedFiles == CHANGES
    requires Get(i.proposedFileDigests, ACTIVE) == Some(Sha256([9]))
    requires Get(i.proposedFileDigests, MOVED) == Some(Sha256([5]))
    ensures Legal(READERS, i)
  {
    Policies();
    hide *;
    ChangesAreLegal(i);
    ReceiptLinks(i);
    PinsAreLegal(i);
    ImportsAreLegal(i);
    PinsGrow();
    ReceiptKind();
    RuntimeIsLegal(READERS, i, RECEIPT);
  }

  // ---------- The gate accepts it ----------

  lemma HeadAuthority(mergeBase: Tree)
    ensures ReadsComplete(READERS, Rotation(mergeBase)) && BaseAuthorityValid(READERS, Rotation(mergeBase))
    ensures PolicyIn(READERS, Rotation(mergeBase).head) == Some(NEW_POLICY)
    ensures LedgerIn(READERS, Rotation(mergeBase).head, LEDGER) == Some(Ledger(1, [RECEIPT]))
    ensures ReadProposal(Rotation(mergeBase).head, POLICY_PATH) == Some([2])
  {
    RotationParts(mergeBase);
    ContentLengths();
    ProposedContents();
    PathList();
    ReadersRead();
    ReadsAt(PROPOSED, 0);
    hide *;
    AuthorityOf(PROPOSED);
    BaseIsValid(Rotation(mergeBase));
    HeadIsComplete(Rotation(mergeBase), PROPOSED, NEW_POLICY);
  }

  /** One of the digests the verifier is given. */
  lemma DigestAt(p: Proposal, k: nat)
    requires p.policy == OLD_POLICY && p.head == TreeOf(PATHS, PROPOSED) && |PATHS| == |PROPOSED| == 9 && k < 9
      && k != 5
    requires PATHS[k] in NEW_POLICY.protectedFiles
    ensures Get(SurfaceDigests(READERS, RotationFetched(p, NEW_POLICY)), PATHS[k]) == Some(Sha256(PROPOSED[k]))
  {
    PathsDiffer();
    Locators(k);
    SurfaceIsContent(k, PROPOSED[k]);
    hide PATHS, TreeOf, PROPOSED, OLD_POLICY, NEW_POLICY, READERS, NormalizedLocator, SurfaceDigest, Distinct,
         ChangedPathSet;
    TreeHolds(PATHS, PROPOSED, k);
    var locators := ReadSet(p, NEW_POLICY) + (ChangedPathSet(p) * p.head.Keys);
    assert PATHS[k] in locators;
  }

  lemma InputIs(mergeBase: Tree)
    requires BaseAuthorityValid(READERS, Rotation(mergeBase)) && ReadsComplete(READERS, Rotation(mergeBase))
    ensures var i := RotationInput(READERS, Rotation(mergeBase));
      && i.basePolicy == OLD_POLICY && i.proposedPolicy == NEW_POLICY
      && i.basePolicyBytes == [1] && i.proposedPolicyBytes == [2] && i.baseLedgerBytes == [3]
      && i.baseLedger == Ledger(1, []) && i.proposedLedger == Ledger(1, [RECEIPT])
      && i.baseRevision == REVISION && i.observedAt == NOW && i.changedFiles == CHANGES
      && i.proposedFileDigests == SurfaceDigests(READERS, RotationFetched(Rotation(mergeBase), NEW_POLICY))
  {
    RotationParts(mergeBase);
    HeadAuthority(mergeBase);
    ReadersRead();
    RotationChanges(mergeBase);
    Policies();
    hide PATHS, TreeOf, START, LATER_START, PROPOSED, SEEN, OLD_POLICY, NEW_POLICY, READERS, Rotation,
         CHANGES, RECEIPT, ChangeList, ReadProposal, PolicyIn, LedgerIn, RotationFetched, SurfaceDigests,
         REVISION, ReadsComplete, BaseAuthorityValid, LEDGER, ACTIVE, MOVED, PLAIN, MARKED, POLICY_PATH;
  }

  lemma RotationIsVerified(mergeBase: Tree)
    requires BaseAuthorityValid(READERS, Rotation(mergeBase)) && ReadsComplete(READERS, Rotation(mergeBase))
    ensures RotationVerified(READERS, Rotation(mergeBase))
  {
    var p, i := Rotation(mergeBase), RotationInput(READERS, Rotation(mergeBase));
    RotationParts(mergeBase);
    ContentLengths();
    ProposedContents();
    PathList();
    InputIs(mergeBase);
    PinsGrow();
    DigestAt(p, 2);
    DigestAt(p, 3);
    IsLegal(i);
    hide *;
    AcceptedExactly(READERS, i);
    VerifiedFrom(READERS, p);
  }

  lemma VerifiedFrom(r: Readers, p: Proposal)
    requires BaseAuthorityValid(r, p) && ReadsComplete(r, p) && Accepted(r, RotationInput(r, p))
    ensures RotationVerified(r, p)
  {
    hide Accepted, RotationInput;
  }

  lemma RotationAcceptedFrom(r: Readers, p: Proposal)
    requires BaseAuthorityValid(r, p) && ReadsComplete(r, p) && p.mergeBase.Some?
    requires BaseBytesExact(p) && DiffClean(p) && RotationVerified(r, p) && p.bootstrapRotates && LedgerTouched(p)
    ensures GateAccepts(r, p) && RotationRequested(p)
  {
    hide BaseAuthorityValid, ReadsComplete, BaseBytesExact, DiffClean, RotationVerified, LedgerTouched, PolicyTouched;
  }

  lemma LedgerIsTouched(mergeBase: Tree, base: seq<Bytes>)
    requires |base| == |PATHS| == 9 && mergeBase == TreeOf(PATHS, base) && base[1] == [3]
    ensures LedgerTouched(Rotation(mergeBase))
  {
    RotationParts(mergeBase);
    ContentLengths();
    ProposedContents();
    PathsDiffer();
    PathList();
    Policies();
    Locators(1);
    hide PATHS, TreeOf, START, LATER_START, PROPOSED, SEEN, OLD_POLICY, NEW_POLICY, Rotation,
         NormalizedLocator, LEDGER, Distinct;
    TreeHolds(PATHS, base, 1);
    TreeHolds(PATHS, PROPOSED, 1);
  }

  /** The gate accepts the rotation on the merged branch, whichever of the two states it branched from. */
  lemma GateAcceptsRotation(mergeBase: Tree, base: seq<Bytes>)
    requires |base| == |PATHS| == 9 && mergeBase == TreeOf(PATHS, base) && base[1] == [3]
    ensures GateAccepts(READERS, Rotation(mergeBase)) && RotationRequested(Rotation(mergeBase))
    ensures JudgedOn(MERGED, Rotation(mergeBase))
  {
    RotationParts(mergeBase);
    ContentLengths();
    StartContents();
    hide *;
    HeadAuthority(mergeBase);
    RotationChanges(mergeBase);
    LedgerIsTouched(mergeBase, base);
    IsJudged(MERGED, Rotation(mergeBase), LATER_START, PROPOSED);
    RotationIsVerified(mergeBase);
    RotationAcceptedFrom(READERS, Rotation(mergeBase));
  }

  // ---------- What the accepted rotation shows ----------

  predicate Misstates(m: Main, n: Main, change: FileChange) {
    && |n.ledger.rotations| == |m.ledger.rotations| + 1
    && change in NewReceipt(m, n).changes
    && !Attests(change, m.tree, n.tree)
  }

  /** After a run, the gate accepts the rotation as up to date, and its receipt misstates the change. */
  ghost predicate AcceptedButMisstates(
    r: Readers, states: seq<Main>, ps: seq<Proposal>, p: Proposal, change: FileChange)
  {
    && Run(r, states, ps) && |states| > 0
    && var m := states[|states| - 1];
       Mergeable(r, m, p) && RotationRequested(p) && Misstates(m, After(r, m, p), change)
  }

  lemma UpToDateIsMergeable(r: Readers, m: Main, p: Proposal)
    requires JudgedOn(m, p) && GateAccepts(r, p) && p.mergeBase == Some(m.tree)
    ensures Mergeable(r, m, p)
  {
    hide JudgedOn, GateAccepts;
  }

  lemma MisstatedReceipt(m: Main, n: Main, x: Receipt, change: FileChange)
    requires m.ledger.rotations == [] && n.ledger.rotations == [x] && change in x.changes
    requires !Attests(change, m.tree, n.tree)
    ensures Misstates(m, n, change)
  {
    hide Attests;
  }

  lemma MergedAndMisstated(
    r: Readers, states: seq<Main>, ps: seq<Proposal>, p: Proposal, m: Main, n: Main, change: FileChange)
    requires Run(r, states, ps) && |states| > 0 && states[|states| - 1] == m
    requires Mergeable(r, m, p) && RotationRequested(p) && n == After(r, m, p) && Misstates(m, n, change)
    ensures AcceptedButMisstates(r, states, ps, p, change)
  {
    hide Run, Mergeable, RotationRequested, Misstates, After;
  }

  lemma AfterRotation(r: Readers, m: Main, p: Proposal, x: Receipt)
    requires Mergeable(r, m, p) && RotationRequested(p) && p.mergeBase == Some(m.tree)
    requires LedgerIn(r, p.head, p.policy.identity.manifestPath) == Some(Ledger(1, [x]))
    ensures After(r, m, p).tree == p.head && After(r, m, p).ledger.rotations == [x]
  {
    UpToDateMergeIsHead(m.tree, p.head);
    hide GateAccepts, RotationRequested, PathMerge, LedgerIn, PolicyIn;
  }

  lemma MisstatedIsListed()
    ensures MISSTATED in CHANGES
  {
    ContentLengths();
    ProposedContents();
    PathList();
    PathsDiffer();
    assert PATHS[1] != PATHS[5];
    var changes := ChangesOf(PATHS, LATER_START, PROPOSED, SEEN, LEDGER, |PATHS|);
    hide ChangesOf, PATHS, START, LATER_START, PROPOSED, SEEN, LEDGER, MARKED;
    assert ContentChange(PATHS[5], LATER_START[5], SEEN[5]) in changes;
  }

  lemma MarkedIsMisstated()
    ensures !Attests(MISSTATED, TreeOf(PATHS, LATER_START), TreeOf(PATHS, PROPOSED))
  {
    ContentLengths();
    ProposedContents();
    PathList();
    PathsDiffer();
    hide PATHS, TreeOf, START, LATER_START, PROPOSED, SEEN, MARKED, Distinct;
    TreeHolds(PATHS, PROPOSED, 5);
  }

  lemma StatesAre()
    ensures |STATES| == 2 && |STEPS| == 1 && STATES[0] == GENESIS && STATES[1] == MERGED
    ensures MERGED.ledger.rotations == [] && OLD_POLICY.identity.manifestPath == LEDGER
  {
    Policies();
    RotationParts(MAIN_TREE);
    hide GENESIS, MERGED, OLD_POLICY, NEW_POLICY;
  }

  lemma AcceptedRotationMisstatesChange()
    ensures AcceptedButMisstates(READERS, STATES, STEPS, Rotation(MAIN_TREE), MISSTATED)
  {
    RotationParts(MAIN_TREE);
    ContentLengths();
    StartContents();
    StatesAre();
    MisstatedIsListed();
    MarkedIsMisstated();
    hide *;
    var p := Rotation(MAIN_TREE);
    MergeIsRun();
    GateAcceptsRotation(MAIN_TREE, LATER_START);
    HeadAuthority(MAIN_TREE);
    UpToDateIsMergeable(READERS, MERGED, p);
    AfterRotation(READERS, MERGED, p, RECEIPT);
    var after := After(READERS, MERGED, p);
    MisstatedReceipt(MERGED, after, RECEIPT, MISSTATED);
    MergedAndMisstated(READERS, STATES, STEPS, p, MERGED, after, MISSTATED);
  }

  /** Branched from the genesis, the rotation is accepted too, after the product merge, and merging it
      loses the pin it adds. */
  lemma AcceptedRotationLosesPin()
    ensures var p := Rotation(START_TREE);
      && Run(READERS, STATES, STEPS) && |STATES| == 2 && STATES[0].tree == START_TREE && p.mergeBase == Some(START_TREE)
      && JudgedOn(STATES[1], p) && GateAccepts(READERS, p) && RotationRequested(p)
      && PolicyIn(READERS, p.head) == Some(NEW_POLICY) && MOVED in NEW_POLICY.protectedFiles
      && !PinTrue(READERS, PathMerge(STATES[1].tree, START_TREE, p.head), MOVED, NEW_POLICY.protectedFiles[MOVED])
  {
    RotationParts(START_TREE);
    ProductParts();
    ContentLengths();
    StartContents();
    StatesAre();
    PinsGrow();
    hide *;
    MergeIsRun();
    GateAcceptsRotation(START_TREE, START);
    HeadAuthority(START_TREE);
    MovedIsLost();
  }

  lemma MovedIsLost()
    ensures !PinTrue(READERS, PathMerge(MERGED.tree, START_TREE, Rotation(START_TREE).head), MOVED, Sha256([5]))
  {
    RotationParts(START_TREE);
    ContentLengths();
    StartContents();
    ProposedContents();
    PathsDiffer();
    PathList();
    hide PATHS, TreeOf, START, LATER_START, PROPOSED, SEEN, MOVED, Rotation, MERGED, MAIN_TREE, START_TREE,
         PathMerge, Distinct, READERS, SurfaceDigest, NormalizedLocator;
    TreeHolds(PATHS, START, 3);
    TreeHolds(PATHS, LATER_START, 3);
    TreeHolds(PATHS, PROPOSED, 3);
    PathMergeAt(MERGED.tree, START_TREE, Rotation(START_TREE).head, MOVED);
    SurfaceIsContent(3, [6]);
  }
}
