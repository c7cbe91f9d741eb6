/**
 The data of the closure authority: repository trees, the policy that pins
 authority files, and the append-only ledger of rotation receipts.

 SHA-256 is symbolic: the digest of some bytes is a value that carries them, so
 equal digests mean equal bytes. Parsed content (JSON, import scans) is supplied
 by a `Readers` record, about which nothing is assumed.
 */
module AuthorityPolicy {
  import opened Basics
  import opened Texts

  type Path = string

  // ---------- Digests and times ----------

  /** A digest field: the digest of some bytes, or text that is not a digest at all. */
  datatype Digest = Sha256(preimage: Bytes) | NotDigest(text: string)

  function DigestOf(bytes: Bytes): Digest { Sha256(bytes) }

  /** A time field, split the way the scripts look at it: the one canonical
      rendering of an instant, another text that still parses, or neither. */
  datatype Time = Canonical(ms: int) | Loose(ms: int, text: string) | Unparseable(text: string)

  function Millis(t: Time): Option<int> {
    if t.Unparseable? then None else Some(t.ms)
  }

  // Comparisons with a not-a-number operand are false.
  predicate Less(a: Option<int>, b: Option<int>) { a.Some? && b.Some? && a.value < b.value }

  predicate AtMost(a: Option<int>, b: Option<int>) { a.Some? && b.Some? && a.value <= b.value }

  predicate GapAbove(late: Option<int>, early: Option<int>, bound: int) {
    late.Some? && early.Some? && late.value - early.value > bound
  }

  // ---------- Trees ----------

  datatype Mode = Regular | Executable

  /** One entry of a recursive Git tree; Git identifies content by object name. */
  datatype Entry =
    | File(mode: Mode, bytes: Bytes)
    | Symlink(target: Bytes)
    | Directory(id: string)
    | Submodule(id: string)

  type Tree = map<Path, Entry>

  // ---------- Policy ----------

  datatype Reviewer = Reviewer(login: string, userId: int)

  datatype PolicyIdentity = PolicyIdentity(
    schemaVersion: int,
    repositoryId: int,
    repository: string,
    requiredCiWorkflowPath: Path,
    protectionMode: string,
    protectionBranch: string,
    manifestPath: Path,
    auxiliaryFiles: seq<Path>)

  /** The active controller: its workflow, its two checks and their App ids. */
  datatype ActiveIdentity = ActiveIdentity(
    workflowPath: Path,
    externalCheckName: string,
    externalCheckAppId: Option<int>,
    controllerCheckName: string,
    controllerCheckAppId: Option<int>)

  datatype SuccessorTuple = SuccessorTuple(
    templatePath: Path,
    workflowPath: Path,
    workflowSha256: Digest,
    externalCheckName: string,
    externalCheckAppId: int,
    controllerCheckName: string,
    controllerCheckAppId: int,
    controllerStatusCreatorLogin: string,
    controllerStatusCreatorUserId: int,
    activationDeadline: Time)

  datatype SuccessorState = SuccessorState(
    tuple: SuccessorTuple,
    phase: string,
    stagedByRotationId: string,
    activatedByRotationId: Option<string>)

  /** The policy's `successor` field: absent, null, or a state. */
  datatype Successor = Absent | Null | Held(state: SuccessorState)

  datatype Policy = Policy(
    identity: PolicyIdentity,
    active: ActiveIdentity,
    successor: Successor,
    reviewers: set<Reviewer>,
    protectedFiles: map<Path, Digest>)

  // ---------- Ledger ----------

  datatype Kind = Runtime | StageSuccessor | ActivateSuccessor | UnknownKind(text: string)

  datatype FileChange = FileChange(
    path: Path,
    fromSha256: Option<Digest>,
    toSha256: Option<Digest>,
    fromMode: Option<Mode>,
    toMode: Option<Mode>)

  datatype Receipt = Receipt(
    kind: Kind,
    rotationId: string,
    previousRotationId: Option<string>,
    baseRevision: string,
    issuedAt: Time,
    expiresAt: Time,
    baseLedgerSha256: Digest,
    basePolicySha256: Digest,
    proposedPolicySha256: Digest,
    successor: Option<SuccessorTuple>,
    changes: seq<FileChange>)

  datatype Ledger = Ledger(schemaVersion: int, rotations: seq<Receipt>)

  // ---------- Parsed content ----------

  datatype Readers = Readers(
    policy: Bytes -> Option<Policy>,
    ledger: Bytes -> Option<Ledger>,
    scriptSlice: Bytes -> Option<Bytes>,
    imports: Bytes -> seq<string>,
    dynamicImport: Bytes -> bool,
    importCandidates: (Path, string) -> seq<Path>)

  const MANIFEST_PATH: Path := "package.json"
  const POLICY_PATH: Path := "config/production-closure-authority.json"
  const MATRIX_PATH: Path := "docs/PRODUCTION_CLOSURE_MATRIX.json"

  /** `package.json` is pinned to its authority script slice, every other file to its bytes. */
  function SurfaceDigest(r: Readers, path: Path, bytes: Bytes): Digest {
    if path != MANIFEST_PATH then DigestOf(bytes)
    else match r.scriptSlice(bytes)
      case Some(slice) => DigestOf(slice)
      case None => NotDigest("sha256:invalid-package-manifest")
  }

  // ---------- Field shapes ----------

  predicate IsRotationId(s: string) {
    && 8 <= |s| <= 128
    && (Lower(s[0]) || Digit(s[0]))
    && forall k | 0 <= k < |s| :: Slug(s[k]) || s[k] == '.' || s[k] == '_'
  }

  const TEMPLATE_PREFIX := "config/production-closure-successors/closure-authority-"
  const WORKFLOW_PREFIX := ".github/workflows/closure-authority-"

  predicate IsTemplatePath(path: Path) { SlugPath(path, TEMPLATE_PREFIX, ".yml") }

  predicate IsAuthorityWorkflowPath(path: Path) { SlugPath(path, WORKFLOW_PREFIX, ".yml") }

  function BaseName(path: Path): string {
    var parts := Split(path, '/');
    parts[|parts| - 1]
  }

  predicate ValidTuple(t: SuccessorTuple) {
    && IsTemplatePath(t.templatePath)
    && IsAuthorityWorkflowPath(t.workflowPath)
    && t.workflowSha256.Sha256?
    && NonBlank(t.externalCheckName)
    && NonBlank(t.controllerCheckName)
    && t.externalCheckName != t.controllerCheckName
    && BaseName(t.templatePath) == BaseName(t.workflowPath)
    && t.externalCheckAppId > 0
    && t.controllerCheckAppId > 0
    && t.controllerStatusCreatorLogin != ""
    && Trimmed(t.controllerStatusCreatorLogin)
    && t.controllerStatusCreatorUserId > 0
    && t.activationDeadline.Canonical?
  }

  predicate ValidState(s: SuccessorState) {
    && s.phase == "staged"
    && IsRotationId(s.stagedByRotationId)
    && s.activatedByRotationId == None
    && ValidTuple(s.tuple)
  }

  function StagedState(t: SuccessorTuple, rotationId: string): SuccessorState {
    SuccessorState(t, "staged", rotationId, None)
  }

  /** Same state, and a well-formed one. */
  predicate ExactState(left: Successor, right: Successor) {
    left.Held? && right.Held? && ValidState(left.state) && left.state == right.state
  }

  predicate ExactOptionalState(left: Successor, right: Successor) {
    if left.Held? && right.Held? then ExactState(left, right) else left == right
  }

  /** The tuple without the two fields that a re-stage may change. */
  function RestageIdentity(t: SuccessorTuple): (Path, Path, string, int, string, int, string, int) {
    (t.templatePath, t.workflowPath, t.externalCheckName, t.externalCheckAppId, t.controllerCheckName,
     t.controllerCheckAppId, t.controllerStatusCreatorLogin, t.controllerStatusCreatorUserId)
  }

  function TupleIdentity(t: SuccessorTuple): ActiveIdentity {
    ActiveIdentity(t.workflowPath, t.externalCheckName, Some(t.externalCheckAppId),
                   t.controllerCheckName, Some(t.controllerCheckAppId))
  }
}
