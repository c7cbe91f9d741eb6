/** A product merge that the gate accepts and that leaves pinned code importing a file that is not pinned. */
module ImportWitness {
  import opened Basics
  import opened Texts
  import opened AuthorityPolicy
  import opened AuthorityRotation
  import opened AuthorityShapes
  import opened LegalRotation
  import opened ProposalGate
  import opened RotationRuns
  import opened RotationWitness
  import opened ImportClosure

  const IMPORTER: Path := "a.ts"
  const PINNED: Path := "b.ts"
  const ADDED: Path := "b.js"
  const SPECIFIER := "./b.js"

  const NAMES: seq<Path> :=
    [POLICY_PATH, LEDGER, ACTIVE, IMPORTER, PINNED, MATRIX_PATH, REQUIREMENTS_PATH, CLAIMS_PATH]
  const CONTENTS: seq<Bytes> := [[1], [3], [9], [7], [8], [10], [20], [21]]
  const ALL_NAMES: seq<Path> := NAMES + [ADDED]

  const POLICY := Policy(
    PolicyIdentity(1, 1, "owner/name", "ci.yml", "mode", "main", LEDGER, []),
    ActiveIdentity(ACTIVE, "external", None, "controller", None),
    Null,
    {Reviewer("reviewer", 1)},
    map[ACTIVE := Sha256([9]), IMPORTER := Sha256([7]), PINNED := Sha256([8])])

  const FILES: Tree := TreeOf(NAMES, CONTENTS)

  /** What `./b.js` may mean, in the order of the search: that file, or the source it is compiled from. */
  const CANDIDATES: seq<Path> :=
    [ADDED, PINNED, ADDED, "b.js.ts", "b.js.js", "b.js/index.ts", "b.js/index.js"]

  const MODULES := Readers(
    (b: Bytes) => if b == [1] then Some(POLICY) else None,
    (b: Bytes) => if b == [3] then Some(Ledger(1, [])) else None,
    (b: Bytes) => None,
    (b: Bytes) => if b == [7] then [SPECIFIER] else [],
    (b: Bytes) => false,
    (path: Path, specifier: string) => CANDIDATES)

  const START_STATE := Main(FILES, POLICY, Ledger(1, []))

  /** The merge adds one file. */
  const MERGE := Proposal(POLICY, REVISION, [1], [3], FILES, Some(FILES), FILES[ADDED := File(Regular, [0])], NOW,
    false, false, REFERENCES, ALL_NAMES)

  // ---------- Names and files ----------

  lemma NameList()
    ensures |NAMES| == |CONTENTS| == 8 && NAMES[0] == POLICY_PATH && NAMES[1] == LEDGER && NAMES[2] == ACTIVE
    ensures NAMES[3] == IMPORTER && NAMES[4] == PINNED && NAMES[5] == MATRIX_PATH && NAMES[6] == REQUIREMENTS_PATH
    ensures NAMES[7] == CLAIMS_PATH
    ensures CONTENTS[0] == [1] && CONTENTS[1] == [3] && CONTENTS[2] == [9] && CONTENTS[3] == [7] && CONTENTS[4] == [8]
  {
    hide POLICY_PATH, LEDGER, ACTIVE, IMPORTER, PINNED, MATRIX_PATH, REQUIREMENTS_PATH, CLAIMS_PATH;
  }

  lemma NamesDiffer()
    ensures Distinct(NAMES) && Distinct(ALL_NAMES) && ADDED !in NAMES && MANIFEST_PATH !in NAMES
  {
    LongPathsAreNormal();
    assert LEDGER[0] == 'l' && ACTIVE[2] == 't' && |MANIFEST_PATH| == 12;
    assert IMPORTER[0] == 'a' && PINNED[2] == 't' && ADDED[2] == 'j';
    hide POLICY_PATH, MATRIX_PATH, REQUIREMENTS_PATH, CLAIMS_PATH, MOVED, MANIFEST_PATH, NormalizedLocator, NormalPath;
  }

  lemma ShortNames()
    ensures Simple(LEDGER) && Simple(ACTIVE) && Simple(IMPORTER) && Simple(PINNED)
  {
  }

  lemma NameIsLocator(k: nat)
    requires k < |NAMES|
    ensures NormalizedLocator(NAMES[k]) == Some(NAMES[k])
  {
    NameList();
    LongPathsAreNormal();
    ShortNames();
    hide NormalizedLocator, NormalPath, Simple, NAMES, POLICY_PATH, LEDGER, ACTIVE, IMPORTER, PINNED, MOVED,
         MATRIX_PATH, REQUIREMENTS_PATH, CLAIMS_PATH;
    SimpleIsLocator(LEDGER);
    SimpleIsLocator(ACTIVE);
    SimpleIsLocator(IMPORTER);
    SimpleIsLocator(PINNED);
  }

  /** What each name holds, on the branch and at the head. */
  lemma Holds(k: nat)
    requires k < |NAMES|
    ensures |CONTENTS| == |NAMES| && Get(FILES, NAMES[k]) == Some(File(Regular, CONTENTS[k]))
    ensures Get(MERGE.head, NAMES[k]) == Get(FILES, NAMES[k])
    ensures LocatorOrEmpty(NAMES[k]) == NAMES[k]
  {
    NameList();
    NamesDiffer();
    NameIsLocator(k);
    MergeParts();
    TreeHolds(NAMES, CONTENTS, k);
    hide NAMES, CONTENTS, TreeOf, MERGE, ADDED, NormalizedLocator, Distinct, MANIFEST_PATH;
    assert NAMES[k] != ADDED;
  }

  lemma MergeParts()
    ensures MERGE.policy == POLICY && MERGE.baseTree == FILES && MERGE.mergeBase == Some(FILES)
    ensures MERGE.head == FILES[ADDED := File(Regular, [0])] && MERGE.allPaths == ALL_NAMES
    ensures MERGE.basePolicyBytes == [1] && MERGE.baseLedgerBytes == [3] && MERGE.baseRevision == REVISION
    ensures !MERGE.bootstrapChanged && MERGE.references == REFERENCES
    ensures START_STATE.tree == FILES && START_STATE.policy == POLICY && START_STATE.ledger == Ledger(1, [])
    ensures FILES == TreeOf(NAMES, CONTENTS)
  {
    hide TreeOf, NAMES, CONTENTS, ALL_NAMES, ADDED, POLICY, REVISION, REFERENCES;
  }

  lemma PolicyParts()
    ensures POLICY.protectedFiles == map[ACTIVE := Sha256([9]), IMPORTER := Sha256([7]), PINNED := Sha256([8])]
    ensures POLICY.active.workflowPath == ACTIVE && POLICY.identity.manifestPath == LEDGER && POLICY.successor == Null
    ensures POLICY.identity.auxiliaryFiles == []
  {
    hide ACTIVE, IMPORTER, PINNED, LEDGER;
  }

  lemma ModulesRead()
    ensures MODULES.policy([1]) == Some(POLICY) && MODULES.ledger([3]) == Some(Ledger(1, [])) && IsSha(REVISION)
    ensures MODULES.imports([7]) == [SPECIFIER] && MODULES.imports([8]) == [] && MODULES.imports([9]) == []
    ensures forall path, specifier :: MODULES.importCandidates(path, specifier) == CANDIDATES
  {
    hide POLICY, CANDIDATES, SPECIFIER;
  }

  /** The pinned names with their pins. */
  lemma PinOf(path: Path)
    requires path in POLICY.protectedFiles
    ensures |NAMES| == |CONTENTS| == 8
    ensures exists k | 2 <= k < 5 :: path == NAMES[k] && POLICY.protectedFiles[path] == Sha256(CONTENTS[k])
  {
    NameList();
    NamesDiffer();
    PolicyParts();
    hide NAMES, CONTENTS, POLICY, ACTIVE, IMPORTER, PINNED, ADDED;
    assert NAMES[2] != NAMES[3] && NAMES[2] != NAMES[4] && NAMES[3] != NAMES[4];
  }

  lemma ReadsAtHead(k: nat)
    requires k < |NAMES|
    ensures |CONTENTS| == |NAMES| && ReadProposal(MERGE.head, NAMES[k]) == Some(CONTENTS[k])
    ensures ReadFile(FILES, NAMES[k]) == Some(CONTENTS[k])
  {
    Holds(k);
    NameIsLocator(k);
    hide NAMES, CONTENTS, FILES, MERGE, NormalizedLocator, LocatorOrEmpty;
  }

  // ---------- The state before ----------

  lemma StartPins()
    ensures PinsTrue(MODULES, START_STATE)
  {
    NameList();
    NamesDiffer();
    MergeParts();
    hide NAMES, CONTENTS, FILES, POLICY, MODULES, START_STATE, NormalizedLocator, ReadFile, TreeOf, MANIFEST_PATH;
    forall path | path in POLICY.protectedFiles
      ensures PinTrue(MODULES, FILES, path, POLICY.protectedFiles[path])
    {
      PinOf(path);
      var k :| 2 <= k < 5 && path == NAMES[k] && POLICY.protectedFiles[path] == Sha256(CONTENTS[k]);
      ReadsAtHead(k);
      NameIsLocator(k);
      assert NAMES[k] in NAMES;
    }
  }

  lemma StartIsAuthentic()
    ensures Authentic(MODULES, START_STATE)
  {
    NameList();
    MergeParts();
    PolicyParts();
    ModulesRead();
    ReadsAtHead(0);
    ReadsAtHead(1);
    hide NAMES, CONTENTS, FILES, POLICY, MODULES, START_STATE, ReadFile, POLICY_PATH, LEDGER, ACTIVE, IMPORTER, PINNED;
  }

  lemma StartActive()
    ensures ActivePinned(START_STATE)
  {
    NameList();
    NamesDiffer();
    MergeParts();
    PolicyParts();
    LedgerIsNoWorkflow();
    NameIsLocator(1);
    hide NAMES, CONTENTS, FILES, POLICY, START_STATE, NormalizedLocator, LEDGER, ACTIVE, IMPORTER, PINNED,
         MANIFEST_PATH, IsAuthorityWorkflowPath, TreeOf, Distinct;
    assert NAMES[2] in NAMES;
  }

  lemma StartIsGenesis()
    ensures Genesis(MODULES, START_STATE)
  {
    MergeParts();
    PolicyParts();
    StartPins();
    StartIsAuthentic();
    StartActive();
    hide *;
    GenesisFrom(MODULES, START_STATE);
  }

  lemma FileNames()
    ensures ADDED !in FILES && PINNED in FILES && PINNED in POLICY.protectedFiles && ADDED !in POLICY.protectedFiles
    ensures IMPORTER in POLICY.protectedFiles
  {
    NameList();
    NamesDiffer();
    PolicyParts();
    MergeParts();
    TreePaths(NAMES, CONTENTS);
    hide NAMES, CONTENTS, FILES, POLICY, TreeOf, ADDED, ACTIVE, IMPORTER, PINNED, Distinct, MERGE;
    assert NAMES[4] in NAMES && NAMES[2] in NAMES && NAMES[3] in NAMES;
  }

  lemma CandidateList()
    ensures |CANDIDATES| == 7 && CANDIDATES[0] == ADDED && CANDIDATES[1] == PINNED
  {
    hide ADDED, PINNED;
  }

  lemma StartIsClosed()
    ensures ImportClosed(MODULES, START_STATE)
  {
    FileNames();
    MergeParts();
    ModulesRead();
    CandidateList();
    hide FILES, MODULES, POLICY, CANDIDATES, ADDED, PINNED, START_STATE, IsCode, TreeOf, NAMES, CONTENTS;
    assert FirstIsPinned(CANDIDATES, FILES.Keys, POLICY.protectedFiles.Keys);
  }

  // ---------- The merge ----------

  lemma MergePaths()
    ensures Enumerates(ALL_NAMES, MERGE.baseTree.Keys + MERGE.head.Keys)
  {
    NamesDiffer();
    MergeParts();
    TreePaths(NAMES, CONTENTS);
    hide NAMES, CONTENTS, FILES, MERGE, TreeOf, ADDED, MANIFEST_PATH, Distinct;
    assert forall path :: path in ALL_NAMES <==> path in NAMES || path == ADDED;
  }

  lemma JudgedFrom(m: Main, p: Proposal)
    requires p.policy == m.policy && p.baseTree == m.tree && Enumerates(p.allPaths, p.baseTree.Keys + p.head.Keys)
    requires ReadFile(m.tree, POLICY_PATH) == Some(p.basePolicyBytes)
    requires ReadFile(m.tree, m.policy.identity.manifestPath) == Some(p.baseLedgerBytes)
    ensures JudgedOn(m, p)
  {
    hide ReadFile, Enumerates, POLICY_PATH;
  }

  lemma MergeIsJudged()
    ensures JudgedOn(START_STATE, MERGE)
  {
    NameList();
    MergeParts();
    PolicyParts();
    hide *;
    ReadsAtHead(0);
    ReadsAtHead(1);
    MergePaths();
    JudgedFrom(START_STATE, MERGE);
  }

  lemma MergeReads()
    ensures PolicyIn(MODULES, MERGE.head) == Some(POLICY)
    ensures LedgerIn(MODULES, MERGE.head, LEDGER) == Some(Ledger(1, []))
    ensures BaseAuthorityValid(MODULES, MERGE)
  {
    NameList();
    MergeParts();
    ModulesRead();
    ReadsAtHead(0);
    ReadsAtHead(1);
    hide NAMES, CONTENTS, FILES, POLICY, MODULES, MERGE, ReadFile, ReadProposal, POLICY_PATH, LEDGER, REVISION;
  }

  lemma MergeReadSet()
    ensures forall l | l in ReadSet(MERGE, POLICY) :: l in NAMES
  {
    NameList();
    MergeParts();
    PolicyParts();
    hide NAMES, CONTENTS, FILES, POLICY, MERGE, POLICY_PATH, LEDGER, ACTIVE, IMPORTER, PINNED, MATRIX_PATH,
         REQUIREMENTS_PATH, CLAIMS_PATH, TreeOf;
  }

  lemma NamesAreReadable()
    ensures forall l | l in NAMES :: Readable(MERGE.head, l)
  {
    hide NAMES, CONTENTS, MERGE, ReadProposal;
    forall l | l in NAMES ensures Readable(MERGE.head, l) {
      var k :| 0 <= k < |NAMES| && NAMES[k] == l;
      ReadsAtHead(k);
    }
  }

  lemma AuthorityIsUntouched()
    ensures forall path |
      path in {POLICY_PATH, MERGE.policy.identity.manifestPath} + MERGE.policy.protectedFiles.Keys ::
      MERGE.mergeBase.Some? && LocatorOrEmpty(path) == path && !Touched(MERGE, path)
  {
    NameList();
    MergeParts();
    PolicyParts();
    hide NAMES, CONTENTS, FILES, POLICY, MERGE, LocatorOrEmpty, POLICY_PATH, LEDGER, ACTIVE, IMPORTER, PINNED, TreeOf;
    forall k | 0 <= k < 5 ensures LocatorOrEmpty(NAMES[k]) == NAMES[k] && !Touched(MERGE, NAMES[k]) {
      Holds(k);
    }
  }

  lemma MergeIsAccepted()
    ensures Mergeable(MODULES, START_STATE, MERGE) && !RotationRequested(MERGE)
  {
    MergeParts();
    PolicyParts();
    hide *;
    MergeIsJudged();
    MergeReads();
    MergeReadSet();
    NamesAreReadable();
    CompleteFrom(MODULES, MERGE, POLICY, NAMES);
    AuthorityIsUntouched();
    UntouchingIsAccepted(MODULES, MERGE);
    UpToDateIsMergeable(MODULES, START_STATE, MERGE);
  }

  /** The merge is accepted, and the closure that held before is gone. */
  lemma AcceptedMergeLosesClosure()
    ensures Genesis(MODULES, START_STATE) && ImportClosed(MODULES, START_STATE)
    ensures Mergeable(MODULES, START_STATE, MERGE) && !RotationRequested(MERGE)
    ensures !ImportClosed(MODULES, After(MODULES, START_STATE, MERGE))
  {
    StartIsGenesis();
    StartIsClosed();
    MergeIsAccepted();
    hide MODULES, MERGE, START_STATE, Genesis, Mergeable, RotationRequested, ImportClosed, After;
    AddedComesFirst();
  }

  lemma AfterProduct(r: Readers, m: Main, p: Proposal)
    requires Mergeable(r, m, p) && !RotationRequested(p) && p.mergeBase == Some(m.tree)
    ensures After(r, m, p).tree == p.head && After(r, m, p).policy == m.policy
  {
    UpToDateMergeIsHead(m.tree, p.head);
    hide GateAccepts, RotationRequested, PathMerge;
  }

  lemma ImporterIsCode()
    ensures IsCode(IMPORTER)
  {
    CodeExactly(IMPORTER);
    hide IsCode;
  }

  lemma NotClosed(r: Readers, m: Main, path: Path, specifier: string)
    requires Imports(r, m, path, specifier)
    requires !FirstIsPinned(r.importCandidates(path, specifier), m.tree.Keys, m.policy.protectedFiles.Keys)
    ensures !ImportClosed(r, m)
  {
    hide Imports, FirstIsPinned;
  }

  lemma ImporterImports(m: Main)
    requires m.policy == POLICY && ReadFile(m.tree, IMPORTER) == Some([7])
    ensures Imports(MODULES, m, IMPORTER, SPECIFIER)
  {
    FileNames();
    ModulesRead();
    ImporterIsCode();
    hide POLICY, MODULES, IMPORTER, SPECIFIER, IsCode, ReadFile, CANDIDATES, PINNED, ADDED, FILES;
  }

  lemma AddedIsFirst(available: set<Path>, pins: set<Path>)
    requires ADDED in available && ADDED !in pins
    ensures !FirstIsPinned(CANDIDATES, available, pins)
  {
    CandidateList();
    hide CANDIDATES, ADDED, PINNED;
  }

  lemma HeadOfMerge()
    ensures ReadFile(MERGE.head, IMPORTER) == Some([7]) && ADDED in MERGE.head.Keys
  {
    NameList();
    MergeParts();
    Holds(3);
    hide NAMES, CONTENTS, FILES, MERGE, IMPORTER, ADDED, TreeOf;
  }

  lemma AddedComesFirst()
    requires Mergeable(MODULES, START_STATE, MERGE) && !RotationRequested(MERGE)
    ensures !ImportClosed(MODULES, After(MODULES, START_STATE, MERGE))
  {
    MergeParts();
    hide *;
    AfterProduct(MODULES, START_STATE, MERGE);
    FileNames();
    HeadOfMerge();
    ModulesRead();
    var after := After(MODULES, START_STATE, MERGE);
    ImporterImports(after);
    AddedIsFirst(after.tree.Keys, after.policy.protectedFiles.Keys);
    NotClosed(MODULES, after, IMPORTER, SPECIFIER);
  }
}
