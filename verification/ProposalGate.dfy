/**
 The proposal gate: which pull requests may merge, judged from the base tree,
 the head tree and their merge base. A proposal that touches neither policy nor
 ledger must leave every pinned surface alone or put exactly the pinned content
 there; any other proposal must pass the rotation verifier.
 */
module ProposalGate {
  import opened Basics
  import opened Texts
  import opened AuthorityPolicy
  import opened AuthorityRotation

  datatype Proposal = Proposal(
    policy: Policy,
    baseRevision: string,
    basePolicyBytes: Bytes,
    baseLedgerBytes: Bytes,
    baseTree: Tree,
    mergeBase: Option<Tree>,
    head: Tree,
    observedAt: Time,
    bootstrapChanged: bool,
    bootstrapRotates: bool,
    references: seq<Path>,
    allPaths: seq<Path>)

  datatype GateIssue =
    | PathOrBlobInvalid(path: Path)
    | JsonInvalid(path: Path)
    | BaseAuthorityInvalid
    | MergeBaseUnresolved
    | BaseAuthorityMismatch
    | SurfaceDrift(path: Path)
    | PolicyDrift
    | TreeEntryInvalid(path: Path)
    | RotationIssue(issue: Issue)

  // ---------- Reading ----------

  predicate ValidTreePath(path: Path) {
    && path != ""
    && path[0] != '/'
    && '\0' !in path
    && forall part | part in Split(path, '/') :: part != "" && part != "." && part != ".."
  }

  /** A locator is a path with an optional `#` fragment. */
  function NormalizedLocator(locator: string): Option<Path> {
    var path := Split(locator, '#')[0];
    if ValidTreePath(path) && '\\' !in path then Some(path) else None
  }

  function ReadFile(tree: Tree, path: Path): Option<Bytes> {
    if path in tree && tree[path].File? then Some(tree[path].bytes) else None
  }

  function ReadProposal(head: Tree, locator: string): Option<Bytes> {
    match NormalizedLocator(locator)
    case Some(path) => ReadFile(head, path)
    case None => None
  }

  predicate Readable(head: Tree, locator: string) { ReadProposal(head, locator).Some? }

  /** What has been read once these locators were read. */
  function Fetched(head: Tree, locators: set<Path>): map<Path, Bytes> {
    map path | path in head && head[path].File? && (exists l :: l in locators && NormalizedLocator(l) == Some(path))
      :: head[path].bytes
  }

  function PolicyIn(r: Readers, head: Tree): Option<Policy> {
    match ReadProposal(head, POLICY_PATH)
    case Some(bytes) => r.policy(bytes)
    case None => None
  }

  function LedgerIn(r: Readers, head: Tree, locator: Path): Option<Ledger> {
    match ReadProposal(head, locator)
    case Some(bytes) => r.ledger(bytes)
    case None => None
  }

  // ---------- What the proposal touched ----------

  predicate Touched(p: Proposal, path: Path)
    requires p.mergeBase.Some?
  {
    Get(p.mergeBase.value, path) != Get(p.head, path)
  }

  function LocatorOrEmpty(path: Path): Path {
    match NormalizedLocator(path)
    case Some(locator) => locator
    case None => ""
  }

  predicate PolicyTouched(p: Proposal)
    requires p.mergeBase.Some?
  {
    Touched(p, LocatorOrEmpty(POLICY_PATH))
  }

  predicate LedgerTouched(p: Proposal)
    requires p.mergeBase.Some?
  {
    Touched(p, LocatorOrEmpty(p.policy.identity.manifestPath))
  }

  predicate RotationRequested(p: Proposal)
    requires p.mergeBase.Some?
  {
    PolicyTouched(p) || LedgerTouched(p) || (p.bootstrapChanged && p.bootstrapRotates)
  }

  /** A pinned surface the proposal touched without arriving at the pinned content. */
  predicate Drifted(r: Readers, p: Proposal, fetched: map<Path, Bytes>, path: Path)
    requires p.mergeBase.Some?
  {
    && path in p.policy.protectedFiles
    && var locator := LocatorOrEmpty(path);
    && Touched(p, locator)
    && (locator !in fetched || SurfaceDigest(r, path, fetched[locator]) != p.policy.protectedFiles[path])
  }

  // ---------- The tree difference a rotation must attest ----------

  predicate Differs(p: Proposal, path: Path) {
    var from, to := Get(p.baseTree, path), Get(p.head, path);
    && from != to
    && !((from.None? || from.value.Directory?) && (to.None? || to.value.Directory?))
    && path != p.policy.identity.manifestPath
  }

  predicate RegularEntry(entry: Option<Entry>) { entry.Some? ==> entry.value.File? }

  /** A difference the rotation cannot attest: not a regular file, or not readable at the head. */
  predicate DifferenceInvalid(p: Proposal, path: Path) {
    && Differs(p, path)
    && (!RegularEntry(Get(p.baseTree, path)) || !RegularEntry(Get(p.head, path)) ||
        (path in p.head && !Readable(p.head, path)))
  }

  function ChangeOf(p: Proposal, path: Path): FileChange
    requires Differs(p, path) && !DifferenceInvalid(p, path)
  {
    var from, to := Get(p.baseTree, path), Get(p.head, path);
    FileChange(
      path,
      if from.None? then None else Some(DigestOf(from.value.bytes)),
      if to.None? then None else Some(DigestOf(ReadProposal(p.head, path).value)),
      if from.None? then None else Some(from.value.mode),
      if to.None? then None else Some(to.value.mode))
  }

  function ChangeList(p: Proposal, paths: seq<Path>): (changes: seq<FileChange>)
    ensures forall path | path in paths && Differs(p, path) && !DifferenceInvalid(p, path) ::
      ChangeOf(p, path) in changes
  {
    if paths == [] then []
    else
      var path, rest := paths[|paths| - 1], ChangeList(p, paths[..|paths| - 1]);
      if Differs(p, path) && !DifferenceInvalid(p, path) then rest + [ChangeOf(p, path)] else rest
  }

  // ---------- Acceptance ----------

  function ReadSet(p: Proposal, proposedPolicy: Policy): set<Path> {
    (set l | l in p.references) + {POLICY_PATH, p.policy.identity.manifestPath} +
    proposedPolicy.protectedFiles.Keys + (set l | l in p.policy.identity.auxiliaryFiles)
  }

  predicate BaseAuthorityValid(r: Readers, p: Proposal) {
    IsSha(p.baseRevision) && r.policy(p.basePolicyBytes) == Some(p.policy) && r.ledger(p.baseLedgerBytes).Some?
  }

  predicate ReadsComplete(r: Readers, p: Proposal) {
    && PolicyIn(r, p.head).Some?
    && LedgerIn(r, p.head, p.policy.identity.manifestPath).Some?
    && forall l | l in ReadSet(p, PolicyIn(r, p.head).value) :: Readable(p.head, l)
  }

  predicate ProductAccepted(r: Readers, p: Proposal)
    requires ReadsComplete(r, p) && p.mergeBase.Some?
  {
    var fetched := Fetched(p.head, ReadSet(p, PolicyIn(r, p.head).value));
    forall path | path in p.policy.protectedFiles :: !Drifted(r, p, fetched, path)
  }

  predicate BaseBytesExact(p: Proposal) {
    && ReadFile(p.baseTree, POLICY_PATH) == Some(p.basePolicyBytes)
    && ReadFile(p.baseTree, p.policy.identity.manifestPath) == Some(p.baseLedgerBytes)
  }

  function ChangedPathSet(p: Proposal): set<Path> {
    set path | path in p.allPaths && Differs(p, path)
  }

  /** Everything read by the time the rotation is verified. */
  function RotationFetched(p: Proposal, proposedPolicy: Policy): map<Path, Bytes> {
    Fetched(p.head, ReadSet(p, proposedPolicy) + (ChangedPathSet(p) * p.head.Keys))
  }

  function SurfaceDigests(r: Readers, contents: map<Path, Bytes>): map<Path, Digest> {
    map path | path in contents :: SurfaceDigest(r, path, contents[path])
  }

  function RotationInput(r: Readers, p: Proposal): Input
    requires ReadsComplete(r, p) && BaseAuthorityValid(r, p)
  {
    var proposedPolicy := PolicyIn(r, p.head).value;
    var contents := RotationFetched(p, proposedPolicy);
    Input(p.policy, proposedPolicy, p.basePolicyBytes, ReadProposal(p.head, POLICY_PATH).value, p.baseLedgerBytes,
          r.ledger(p.baseLedgerBytes).value, LedgerIn(r, p.head, p.policy.identity.manifestPath).value,
          p.baseRevision, p.observedAt, ChangeList(p, p.allPaths), SurfaceDigests(r, contents), contents, p.head.Keys)
  }

  predicate DiffClean(p: Proposal) { forall path | path in p.allPaths :: !DifferenceInvalid(p, path) }

  predicate RotationVerified(r: Readers, p: Proposal)
    requires ReadsComplete(r, p) && BaseAuthorityValid(r, p)
  {
    Accepted(r, RotationInput(r, p))
  }

  predicate RotationAccepted(r: Readers, p: Proposal)
    requires ReadsComplete(r, p) && BaseAuthorityValid(r, p) && p.mergeBase.Some?
  {
    && BaseBytesExact(p)
    && DiffClean(p)
    && RotationVerified(r, p)
    && !(PolicyTouched(p) && !LedgerTouched(p) && !p.bootstrapRotates)
  }

  predicate GateAccepts(r: Readers, p: Proposal) {
    && BaseAuthorityValid(r, p)
    && ReadsComplete(r, p)
    && p.mergeBase.Some?
    && if RotationRequested(p) then RotationAccepted(r, p) else ProductAccepted(r, p)
  }

  // ---------- What is reported ----------

  /** The issue is reported; of a rotation's issues the code counts. */
  predicate Reports(issues: seq<GateIssue>, issue: GateIssue) {
    match issue
    case RotationIssue(own) =>
      exists k | 0 <= k < |issues| :: issues[k].RotationIssue? && issues[k].issue.code == own.code
    case _ => issue in issues
  }

  predicate DriftReported(r: Readers, p: Proposal, fetched: map<Path, Bytes>, issue: GateIssue)
    requires p.mergeBase.Some?
  {
    issue.SurfaceDrift? && Drifted(r, p, fetched, issue.path)
  }

  predicate RotationReports(r: Readers, p: Proposal, issue: GateIssue)
    requires ReadsComplete(r, p) && BaseAuthorityValid(r, p) && p.mergeBase.Some?
  {
    if !BaseBytesExact(p) then issue.BaseAuthorityMismatch?
    else match issue
      case TreeEntryInvalid(path) => path in p.allPaths && DifferenceInvalid(p, path)
      case RotationIssue(own) => own.code in BrokenCodes(r, RotationInput(r, p))
      case PolicyDrift => PolicyTouched(p) && !LedgerTouched(p) && !p.bootstrapRotates
      case _ => false
  }

  /** What the gate reports of a proposal: the first of its stages that fails, or every failure of the last. */
  predicate GateReports(r: Readers, p: Proposal, issue: GateIssue) {
    var policyBytes, ledgerBytes := ReadProposal(p.head, POLICY_PATH),
                                    ReadProposal(p.head, p.policy.identity.manifestPath);
    if policyBytes.None? || ledgerBytes.None? then
      issue.PathOrBlobInvalid? && issue.path == POLICY_PATH
    else if r.policy(policyBytes.value).None? || r.ledger(ledgerBytes.value).None? then
      issue.JsonInvalid? && issue.path == POLICY_PATH
    else if !BaseAuthorityValid(r, p) then issue.BaseAuthorityInvalid?
    else
      var locators := ReadSet(p, r.policy(policyBytes.value).value);
      if p.mergeBase.None? || exists l | l in locators :: !Readable(p.head, l) then
        || (issue.MergeBaseUnresolved? && p.mergeBase.None?)
        || (issue.PathOrBlobInvalid? && issue.path in locators && !Readable(p.head, issue.path))
      else if RotationRequested(p) then RotationReports(r, p, issue)
      else DriftReported(r, p, Fetched(p.head, locators), issue)
  }

  lemma {:induction false} CodeIsListed(issues: seq<Issue>, code: Code)
    ensures code in Codes(issues) <==> exists k | 0 <= k < |issues| :: issues[k].code == code
  {
    if issues != [] {
      CodeIsListed(issues[..|issues| - 1], code);
    }
  }

  lemma {:induction false} WrapExactly(issues: seq<Issue>)
    ensures |Wrap(issues)| == |issues| && forall k | 0 <= k < |issues| :: Wrap(issues)[k] == RotationIssue(issues[k])
  {
    if issues != [] {
      WrapExactly(issues[1..]);
    }
  }

  // ---------- The gate ----------

  method ReadAll(head: Tree, locators: set<Path>) returns (fetched: map<Path, Bytes>, issues: seq<GateIssue>)
    ensures issues == [] <==> forall l | l in locators :: Readable(head, l)
    ensures forall issue :: issue in issues <==>
      issue.PathOrBlobInvalid? && issue.path in locators && !Readable(head, issue.path)
    ensures fetched == Fetched(head, locators)
  {
    fetched, issues := map[], [];
    var todo := locators;
    while todo != {}
      invariant todo <= locators
      invariant issues == [] <==> forall l | l in locators - todo :: Readable(head, l)
      invariant forall issue :: issue in issues <==>
        issue.PathOrBlobInvalid? && issue.path in locators - todo && !Readable(head, issue.path)
      invariant fetched == Fetched(head, locators - todo)
    {
      var l :| l in todo;
      assert locators - (todo - {l}) == locators - todo + {l};
      todo := todo - {l};
      match ReadProposal(head, l) {
        case Some(bytes) => fetched := fetched[NormalizedLocator(l).value := bytes];
        case None => issues := issues + [PathOrBlobInvalid(l)];
      }
    }
    assert locators - todo == locators;
  }

  method CheckSurfaces(r: Readers, p: Proposal, fetched: map<Path, Bytes>) returns (issues: seq<GateIssue>)
    requires p.mergeBase.Some?
    ensures issues == [] <==> forall path | path in p.policy.protectedFiles :: !Drifted(r, p, fetched, path)
    ensures forall issue :: issue in issues <==> DriftReported(r, p, fetched, issue)
  {
    issues := [];
    var todo := p.policy.protectedFiles.Keys;
    while todo != {}
      invariant todo <= p.policy.protectedFiles.Keys
      invariant issues == [] <==>
        forall path | path in p.policy.protectedFiles && path !in todo :: !Drifted(r, p, fetched, path)
      invariant forall issue :: issue in issues <==>
        DriftReported(r, p, fetched, issue) && issue.path in p.policy.protectedFiles && issue.path !in todo
    {
      var path :| path in todo;
      todo := todo - {path};
      if Drifted(r, p, fetched, path) {
        issues := issues + [SurfaceDrift(path)];
      }
    }
  }

  method DiffTrees(p: Proposal) returns (changes: seq<FileChange>, changed: set<Path>, issues: seq<GateIssue>)
    ensures issues == [] <==> DiffClean(p)
    ensures forall issue :: issue in issues <==>
      issue.TreeEntryInvalid? && issue.path in p.allPaths && DifferenceInvalid(p, issue.path)
    ensures changes == ChangeList(p, p.allPaths)
    ensures changed == ChangedPathSet(p)
  {
    hide DifferenceInvalid, Differs, ChangeOf;
    changes, changed, issues := [], {}, [];
    for k := 0 to |p.allPaths|
      invariant changes == ChangeList(p, p.allPaths[..k])
      invariant changed == set path | path in p.allPaths[..k] && Differs(p, path)
      invariant issues == [] <==> forall j | 0 <= j < k :: !DifferenceInvalid(p, p.allPaths[j])
      invariant forall issue :: issue in issues <==>
        issue.TreeEntryInvalid? && issue.path in p.allPaths[..k] && DifferenceInvalid(p, issue.path)
    {
      var path := p.allPaths[k];
      assert p.allPaths[..k + 1] == p.allPaths[..k] + [path];
      if DifferenceInvalid(p, path) {
        issues := issues + [TreeEntryInvalid(path)];
      } else if Differs(p, path) {
        changes := changes + [ChangeOf(p, path)];
      }
      if Differs(p, path) {
        changed := changed + {path};
      }
    }
    assert p.allPaths[..|p.allPaths|] == p.allPaths;
  }

  method ComposeInput(r: Readers, p: Proposal) returns (input: Input, issues: seq<GateIssue>)
    requires ReadsComplete(r, p) && BaseAuthorityValid(r, p)
    ensures input == RotationInput(r, p)
    ensures issues == [] <==> DiffClean(p)
    ensures forall issue :: issue in issues <==>
      issue.TreeEntryInvalid? && issue.path in p.allPaths && DifferenceInvalid(p, issue.path)
  {
    hide DifferenceInvalid;
    var changes, changed, invalid := DiffTrees(p);
    issues := invalid;
    var proposedPolicy := PolicyIn(r, p.head).value;
    var contents, _ := ReadAll(p.head, ReadSet(p, proposedPolicy) + (changed * p.head.Keys));
    input := Input(p.policy, proposedPolicy, p.basePolicyBytes, ReadProposal(p.head, POLICY_PATH).value,
      p.baseLedgerBytes,
                   r.ledger(p.baseLedgerBytes).value, LedgerIn(r, p.head, p.policy.identity.manifestPath).value,
                   p.baseRevision, p.observedAt, changes, SurfaceDigests(r, contents), contents, p.head.Keys);
  }

  function Wrap(issues: seq<Issue>): (r: seq<GateIssue>)
    ensures |r| == |issues|
  {
    if issues == [] then [] else [RotationIssue(issues[0])] + Wrap(issues[1..])
  }

  method JudgeRotation(r: Readers, p: Proposal) returns (rotation: seq<Issue>, invalid: seq<GateIssue>)
    requires ReadsComplete(r, p) && BaseAuthorityValid(r, p)
    ensures rotation == [] <==> RotationVerified(r, p)
    ensures Codes(rotation) == BrokenCodes(r, RotationInput(r, p))
    ensures invalid == [] <==> DiffClean(p)
    ensures forall issue :: issue in invalid <==>
      issue.TreeEntryInvalid? && issue.path in p.allPaths && DifferenceInvalid(p, issue.path)
  {
    hide DifferenceInvalid;
    var input, differences := ComposeInput(r, p);
    rotation := VerifyAuthorityRotation(r, input);
    invalid := differences;
  }

  method VerifyRotation(r: Readers, p: Proposal) returns (issues: seq<GateIssue>)
    requires ReadsComplete(r, p) && BaseAuthorityValid(r, p) && p.mergeBase.Some?
    ensures issues == [] <==> RotationAccepted(r, p)
    ensures forall issue :: Reports(issues, issue) <==> RotationReports(r, p, issue)
  {
    hide RotationVerified, DiffClean, BaseBytesExact, DifferenceInvalid, RotationInput, BrokenCodes, PolicyTouched,
         LedgerTouched, Codes, Wrap, Reports, RotationReports, ReadsComplete, BaseAuthorityValid;
    if !BaseBytesExact(p) {
      MismatchReported(r, p);
      return [BaseAuthorityMismatch];
    }
    var rotation, invalid := JudgeRotation(r, p);
    issues := invalid + Wrap(rotation);
    if PolicyTouched(p) && !LedgerTouched(p) && !p.bootstrapRotates {
      issues := issues + [PolicyDrift];
    }
    RotationReported(r, p, rotation, invalid, issues);
  }

  lemma MismatchReported(r: Readers, p: Proposal)
    requires ReadsComplete(r, p) && BaseAuthorityValid(r, p) && p.mergeBase.Some? && !BaseBytesExact(p)
    ensures forall issue :: Reports([BaseAuthorityMismatch], issue) <==> RotationReports(r, p, issue)
  {
    hide ReadsComplete, BaseAuthorityValid, BaseBytesExact;
    AllListed([BaseAuthorityMismatch]);
  }

  lemma RotationReported(r: Readers, p: Proposal, rotation: seq<Issue>, invalid: seq<GateIssue>, issues: seq<GateIssue>)
    requires ReadsComplete(r, p) && BaseAuthorityValid(r, p) && p.mergeBase.Some? && BaseBytesExact(p)
    requires Codes(rotation) == BrokenCodes(r, RotationInput(r, p))
    requires forall issue :: issue in invalid <==>
      issue.TreeEntryInvalid? && issue.path in p.allPaths && DifferenceInvalid(p, issue.path)
    requires issues == invalid + Wrap(rotation) +
      if PolicyTouched(p) && !LedgerTouched(p) && !p.bootstrapRotates then [PolicyDrift] else []
    ensures forall issue :: Reports(issues, issue) <==> RotationReports(r, p, issue)
  {
    hide Reports, BaseBytesExact, DifferenceInvalid, RotationInput, BrokenCodes, PolicyTouched, LedgerTouched, Wrap,
         Codes, ReadsComplete, BaseAuthorityValid;
    var drift := if PolicyTouched(p) && !LedgerTouched(p) && !p.bootstrapRotates then [PolicyDrift] else [];
    forall issue ensures Reports(issues, issue) <==> RotationReports(r, p, issue) {
      VerdictReported(rotation, invalid, drift, issue);
    }
  }

  lemma VerdictReported(rotation: seq<Issue>, invalid: seq<GateIssue>, drift: seq<GateIssue>, issue: GateIssue)
    requires (forall x | x in invalid :: x.TreeEntryInvalid?) && (forall x | x in drift :: x.PolicyDrift?)
    ensures Reports(invalid + Wrap(rotation) + drift, issue) <==>
      match issue
      case TreeEntryInvalid(_) => issue in invalid
      case RotationIssue(own) => own.code in Codes(rotation)
      case PolicyDrift => drift != []
      case _ => false
  {
    hide Reports, Wrap, Codes;
    ReportsConcat(invalid + Wrap(rotation), drift, issue);
    ReportsConcat(invalid, Wrap(rotation), issue);
    ReportsListed(invalid, issue);
    ReportsListed(drift, issue);
    ReportsCodes(rotation, issue);
    assert drift != [] ==> drift[0] in drift && drift[0] == PolicyDrift;
  }

  lemma ReportsConcat(a: seq<GateIssue>, b: seq<GateIssue>, issue: GateIssue)
    ensures Reports(a + b, issue) <==> Reports(a, issue) || Reports(b, issue)
  {
    var all := a + b;
    assert forall k | 0 <= k < |all| :: all[k] == if k < |a| then a[k] else b[k - |a|];
    if issue.RotationIssue? {
      if k :| 0 <= k < |a| && a[k].RotationIssue? && a[k].issue.code == issue.issue.code {
        assert all[k] == a[k];
      }
      if k :| 0 <= k < |b| && b[k].RotationIssue? && b[k].issue.code == issue.issue.code {
        assert all[|a| + k] == b[k];
      }
    }
  }

  /** Without issues of a rotation, what is reported is what is listed. */
  lemma ReportsListed(issues: seq<GateIssue>, issue: GateIssue)
    requires forall x | x in issues :: !x.RotationIssue?
    ensures Reports(issues, issue) <==> issue in issues
  {
    assert forall k | 0 <= k < |issues| :: issues[k] in issues;
  }

  lemma ReportsCodes(rotation: seq<Issue>, issue: GateIssue)
    ensures Reports(Wrap(rotation), issue) <==> issue.RotationIssue? && issue.issue.code in Codes(rotation)
  {
    hide Codes, Wrap;
    WrapExactly(rotation);
    if issue.RotationIssue? {
      CodeIsListed(rotation, issue.issue.code);
    }
    assert forall x | x in Wrap(rotation) :: x.RotationIssue?;
  }

  method VerifyProposal(r: Readers, p: Proposal) returns (issues: seq<GateIssue>)
    ensures issues == [] <==> GateAccepts(r, p)
    ensures forall issue :: Reports(issues, issue) <==> GateReports(r, p, issue)
  {
    hide RotationAccepted, NormalizedLocator, Drifted, RotationReports;
    var policyBytes, ledgerBytes := ReadProposal(p.head, POLICY_PATH),
      ReadProposal(p.head, p.policy.identity.manifestPath);
    if policyBytes.None? || ledgerBytes.None? {
      return [PathOrBlobInvalid(POLICY_PATH)];
    }
    var proposedPolicy, proposedLedger := r.policy(policyBytes.value), r.ledger(ledgerBytes.value);
    if proposedPolicy.None? || proposedLedger.None? {
      return [JsonInvalid(POLICY_PATH)];
    }
    if !BaseAuthorityValid(r, p) {
      return [BaseAuthorityInvalid];
    }
    var fetched, unread := ReadAll(p.head, ReadSet(p, proposedPolicy.value));
    issues := unread;
    if p.mergeBase.None? {
      issues := issues + [MergeBaseUnresolved];
      AllListed(issues);
      return;
    }
    if unread != [] {
      AllListed(issues);
      return;
    }
    if RotationRequested(p) {
      issues := VerifyRotation(r, p);
    } else {
      issues := CheckSurfaces(r, p, fetched);
      AllListed(issues);
    }
  }

  lemma AllListed(issues: seq<GateIssue>)
    requires forall x | x in issues :: !x.RotationIssue?
    ensures forall issue :: Reports(issues, issue) <==> issue in issues
  {
    hide Reports;
    forall issue ensures Reports(issues, issue) <==> issue in issues {
      ReportsListed(issues, issue);
    }
  }
}
