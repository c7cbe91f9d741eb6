/**
 The verifier of one authority rotation. `Broken` says what each issue code
 means; the methods are the checker's own passes, proved to report exactly the
 codes that are broken. A rotation is accepted when nothing is reported.
 */
module AuthorityRotation {
  import opened Basics
  import opened Texts
  import opened AuthorityPolicy
  import opened Patterns

  const MAX_VALIDITY_MS := 7 * 24 * 60 * 60 * 1000

  datatype Input = Input(
    basePolicy: Policy,
    proposedPolicy: Policy,
    basePolicyBytes: Bytes,
    proposedPolicyBytes: Bytes,
    baseLedgerBytes: Bytes,
    baseLedger: Ledger,
    proposedLedger: Ledger,
    baseRevision: string,
    observedAt: Time,
    changedFiles: seq<FileChange>,
    proposedFileDigests: map<Path, Digest>,
    proposedFileContents: map<Path, Bytes>,
    proposedPaths: set<Path>)

  datatype Code =
    | ReceiptInvalid | PolicyDigestMismatch | TransitionInvalid | IdentityDrift
    | StageActiveDrift | TupleInvalid | StageStateInvalid | RestageAuthorityInvalid
    | RestageTupleDrift | ContextCollision | DeadlineInvalid | WorkflowNotPinned
    | AppIdentityDrift | PredecessorNotRetained | ActivationStateInvalid
    | ActivationIdentityInvalid | ActivationExpired | StagedBytesDrift
    | PredecessorNotRemoved | WorkflowSuccessorRequired | ReviewerContinuityRequired
    | ChangeInvalid | ScopeInvalid | ChangesetMismatch | ProtectedFileRemoved
    | ProtectedPathInvalid | ProtectedDigestInvalid | DynamicImportForbidden
    | ImportUnresolved | ImportClosureIncomplete

  datatype Issue = Issue(code: Code, subject: string)

  function Codes(issues: seq<Issue>): set<Code> {
    if issues == [] then {} else Codes(issues[..|issues| - 1]) + {issues[|issues| - 1].code}
  }

  // ---------- Reading the ledger ----------

  /** The first rotation with this id. */
  function FindRotation(rotations: seq<Receipt>, id: string): (r: Option<Receipt>)
    ensures r.Some? <==> exists k :: 0 <= k < |rotations| && rotations[k].rotationId == id
    ensures r.Some? ==> r.value in rotations && r.value.rotationId == id
  {
    if rotations == [] then None
    else if rotations[0].rotationId == id then Some(rotations[0])
    else
      assert forall k | 0 < k < |rotations| :: rotations[k] == rotations[1..][k - 1];
      FindRotation(rotations[1..], id)
  }

  /** Position of the last activation, or -1. */
  function LastActivation(rotations: seq<Receipt>): (k: int)
    ensures -1 <= k < |rotations|
    ensures k >= 0 ==> rotations[k].kind.ActivateSuccessor?
    ensures forall j | k < j < |rotations| :: !rotations[j].kind.ActivateSuccessor?
  {
    if rotations == [] then -1
    else if rotations[|rotations| - 1].kind.ActivateSuccessor? then |rotations| - 1
    else LastActivation(rotations[..|rotations| - 1])
  }

  function FirstStage(rotations: seq<Receipt>): (r: Option<Receipt>)
    ensures r.Some? <==> exists k :: 0 <= k < |rotations| && rotations[k].kind.StageSuccessor?
    ensures r.Some? ==> r.value in rotations && r.value.kind.StageSuccessor?
  {
    if rotations == [] then None
    else if rotations[0].kind.StageSuccessor? then Some(rotations[0])
    else
      assert forall k | 0 < k < |rotations| :: rotations[k] == rotations[1..][k - 1];
      FirstStage(rotations[1..])
  }

  /** The rotations since the last activation: the current staging episode. */
  function Episode(rotations: seq<Receipt>): seq<Receipt> {
    rotations[LastActivation(rotations) + 1..]
  }

  /** The stage that opened the current episode, if any. */
  function EpisodeOrigin(rotations: seq<Receipt>): Option<Receipt> {
    FirstStage(Episode(rotations))
  }

  // ---------- What each issue code means ----------

  predicate LedgerAppended(i: Input) {
    var base, proposed := i.baseLedger.rotations, i.proposedLedger.rotations;
    && i.baseLedger.schemaVersion == 1
    && i.proposedLedger.schemaVersion == 1
    && |proposed| == |base| + 1
    && proposed[..|base|] == base
  }

  function ReceiptOf(i: Input): Receipt
    requires LedgerAppended(i)
  {
    i.proposedLedger.rotations[|i.baseLedger.rotations|]
  }

  predicate ReceiptBroken(i: Input)
    requires LedgerAppended(i)
  {
    var receipt, base := ReceiptOf(i), i.baseLedger.rotations;
    var issued, expires, observed := Millis(receipt.issuedAt), Millis(receipt.expiresAt), Millis(i.observedAt);
    || !IsRotationId(receipt.rotationId)
    || receipt.previousRotationId != (match Last(base) case Some(b) => Some(b.rotationId) case None => None)
    || (exists k | 0 <= k < |base| :: base[k].rotationId == receipt.rotationId)
    || !IsSha(receipt.baseRevision)
    || receipt.baseRevision != i.baseRevision
    || issued.None? || expires.None? || observed.None?
    || Less(observed, issued)
    || Less(expires, observed)
    || AtMost(expires, issued)
    || GapAbove(expires, issued, MAX_VALIDITY_MS)
  }

  predicate DigestsBroken(i: Input)
    requires LedgerAppended(i)
  {
    var receipt := ReceiptOf(i);
    || receipt.baseLedgerSha256 != DigestOf(i.baseLedgerBytes)
    || receipt.basePolicySha256 != DigestOf(i.basePolicyBytes)
    || receipt.proposedPolicySha256 != DigestOf(i.proposedPolicyBytes)
  }

  predicate ActiveChanged(i: Input) { i.basePolicy.active != i.proposedPolicy.active }

  /** The receipt is a stage (or re-stage) that reached the stage checks. */
  predicate Staging(i: Input)
    requires LedgerAppended(i)
  {
    var receipt := ReceiptOf(i);
    receipt.kind.StageSuccessor? && receipt.successor.Some? && ValidTuple(receipt.successor.value)
  }

  predicate Activating(i: Input)
    requires LedgerAppended(i)
  {
    var receipt := ReceiptOf(i);
    receipt.kind.ActivateSuccessor? && receipt.successor.Some? && ValidTuple(receipt.successor.value)
  }

  function TupleOf(i: Input): SuccessorTuple
    requires LedgerAppended(i) && (Staging(i) || Activating(i))
  {
    ReceiptOf(i).successor.value
  }

  /** Where the seven days of the current episode start. */
  function WindowStart(i: Input): Option<int>
    requires LedgerAppended(i)
  {
    if !i.basePolicy.successor.Held? then Millis(ReceiptOf(i).issuedAt)
    else match EpisodeOrigin(i.baseLedger.rotations)
      case Some(origin) => Millis(origin.issuedAt)
      case None => None
  }

  predicate SuccessorTouched(i: Input)
    requires LedgerAppended(i)
  {
    ReceiptOf(i).successor.Some? || !ExactOptionalState(i.basePolicy.successor, i.proposedPolicy.successor)
  }

  predicate StageStateBroken(i: Input)
    requires LedgerAppended(i) && Staging(i)
  {
    !ExactState(i.proposedPolicy.successor, Held(StagedState(TupleOf(i), ReceiptOf(i).rotationId)))
  }

  predicate RestageDrifted(i: Input)
    requires LedgerAppended(i) && Staging(i)
  {
    i.basePolicy.successor.Held? && RestageIdentity(i.basePolicy.successor.state.tuple) != RestageIdentity(TupleOf(i))
  }

  predicate PredecessorRepinned(i: Input) {
    var active := i.basePolicy.active.workflowPath;
    Get(i.proposedPolicy.protectedFiles, active) != Get(i.basePolicy.protectedFiles, active)
  }

  predicate RestageAuthorityBroken(i: Input)
    requires LedgerAppended(i) && Staging(i)
  {
    match i.basePolicy.successor
    case Absent => true
    case Null => false
    case Held(staged) =>
      var stage := FindRotation(i.baseLedger.rotations, staged.stagedByRotationId);
      || !ValidState(staged)
      || stage.None?
      || !stage.value.kind.StageSuccessor?
      || stage.value.successor != Some(staged.tuple)
  }

  predicate CollisionBroken(i: Input)
    requires LedgerAppended(i) && Staging(i)
  {
    var t, active := TupleOf(i), i.basePolicy.active;
    t.workflowPath == active.workflowPath
    || !Distinct([active.externalCheckName, active.controllerCheckName, t.externalCheckName, t.controllerCheckName])
  }

  predicate DeadlineBroken(i: Input)
    requires LedgerAppended(i) && Staging(i)
  {
    var deadline := Millis(TupleOf(i).activationDeadline);
    || Less(deadline, Millis(i.observedAt))
    || AtMost(deadline, Millis(ReceiptOf(i).issuedAt))
    || WindowStart(i).None?
    || GapAbove(deadline, WindowStart(i), MAX_VALIDITY_MS)
  }

  predicate PinningBroken(i: Input)
    requires LedgerAppended(i) && Staging(i)
  {
    var t, base, proposed := TupleOf(i), i.basePolicy.protectedFiles, i.proposedPolicy.protectedFiles;
    var sha := Some(t.workflowSha256);
    var template, workflow := Get(i.proposedFileContents, t.templatePath), Get(i.proposedFileContents, t.workflowPath);
    || Get(base, t.templatePath) != sha
    || (i.basePolicy.successor.Held? &&
        Get(base, t.workflowPath) != Some(i.basePolicy.successor.state.tuple.workflowSha256))
    || Get(proposed, t.templatePath) != sha
    || Get(proposed, t.workflowPath) != sha
    || Get(i.proposedFileDigests, t.templatePath) != sha
    || Get(i.proposedFileDigests, t.workflowPath) != sha
    || template.None?
    || template.value != (if workflow.Some? then workflow.value else [])
  }

  predicate AppIdentityBroken(i: Input)
    requires LedgerAppended(i) && (Staging(i) || Activating(i))
  {
    var t, active := TupleOf(i), i.basePolicy.active;
    || Some(t.externalCheckAppId) != active.externalCheckAppId
    || Some(t.controllerCheckAppId) != active.controllerCheckAppId
  }

  predicate ActivationStateBroken(i: Input)
    requires LedgerAppended(i) && Activating(i)
  {
    var staged, last := i.basePolicy.successor, Last(i.baseLedger.rotations);
    || !staged.Held?
    || !ValidState(staged.state)
    || last.None?
    || !last.value.kind.StageSuccessor?
    || last.value.rotationId != staged.state.stagedByRotationId
    || last.value.successor != Some(TupleOf(i))
    || staged.state.tuple != TupleOf(i)
    || i.proposedPolicy.successor != Null
  }

  predicate Changes(changes: seq<FileChange>, path: Path) {
    exists k | 0 <= k < |changes| :: changes[k].path == path
  }

  predicate StagedBytesBroken(i: Input)
    requires LedgerAppended(i) && Activating(i)
  {
    var t, base, proposed := TupleOf(i), i.basePolicy.protectedFiles, i.proposedPolicy.protectedFiles;
    || Get(base, t.workflowPath) != Some(t.workflowSha256)
    || Get(proposed, t.workflowPath) != Some(t.workflowSha256)
    || Get(i.proposedFileDigests, t.workflowPath) != Some(t.workflowSha256)
    || Changes(i.changedFiles, t.workflowPath)
  }

  predicate ActivationLate(i: Input)
    requires LedgerAppended(i) && Activating(i)
  {
    Less(Millis(TupleOf(i).activationDeadline), Millis(i.observedAt))
  }

  /** A base pin other than the predecessor's that is not carried over unchanged. */
  predicate PinMoved(i: Input, path: Path) {
    && path in i.basePolicy.protectedFiles
    && path != i.basePolicy.active.workflowPath
    && Get(i.proposedPolicy.protectedFiles, path) != Some(i.basePolicy.protectedFiles[path])
  }

  predicate PinsMoved(i: Input) { exists path | path in i.basePolicy.protectedFiles :: PinMoved(i, path) }

  function FindChange(changes: seq<FileChange>, path: Path): (r: Option<FileChange>)
    ensures r.Some? <==> Changes(changes, path)
    ensures r.Some? ==> r.value in changes && r.value.path == path
  {
    if changes == [] then None
    else if changes[0].path == path then Some(changes[0])
    else
      assert forall k | 0 < k < |changes| :: changes[k] == changes[1..][k - 1];
      FindChange(changes[1..], path)
  }

  predicate PredecessorKept(i: Input)
    requires LedgerAppended(i) && Activating(i)
  {
    var active, deletion := i.basePolicy.active.workflowPath,
      FindChange(i.changedFiles, i.basePolicy.active.workflowPath);
    || active == TupleOf(i).workflowPath
    || active !in i.basePolicy.protectedFiles
    || active in i.proposedPolicy.protectedFiles
    || active in i.proposedPaths
    || deletion.None?
    || deletion.value.fromSha256 != Some(i.basePolicy.protectedFiles[active])
    || deletion.value.toSha256.Some?
    || deletion.value.fromMode.None?
    || deletion.value.toMode.Some?
  }

  predicate AdditionAllowed(path: Path) {
    || SlugPath(path, "scripts/production-closure-", ".ts")
    || SlugPath(path, "scripts/production-closure-", ".test.ts")
    || SlugPath(path, "scripts/fixtures/production-closure-", ".json")
    || IsTemplatePath(path)
    || IsAuthorityWorkflowPath(path)
  }

  predicate InScope(base: Policy, path: Path) {
    || path in base.protectedFiles
    || path in base.identity.auxiliaryFiles
    || path == POLICY_PATH
    || path == MATRIX_PATH
    || AdditionAllowed(path)
  }

  function Slashes(value: string): (text: string)
    ensures |text| == |value| && forall k | 0 <= k < |value| :: text[k] == if value[k] == '\\' then '/' else value[k]
  {
    seq(|value|, k requires 0 <= k < |value| => if value[k] == '\\' then '/' else value[k])
  }

  predicate HasDrive(text: string) {
    |text| >= 2 && text[1] == ':' && ('a' <= text[0] <= 'z' || 'A' <= text[0] <= 'Z')
  }

  function KeptParts(parts: seq<string>): seq<string> {
    if parts == [] then []
    else (if parts[0] == "" || parts[0] == "." then [] else [parts[0]]) + KeptParts(parts[1..])
  }

  /** A relative path without `..`, without what it does not need; a slash at the end stays. */
  function PosixNormal(text: string): string {
    var kept := KeptParts(Split(text, '/'));
    (if kept == [] then "." else Joined(kept, '/')) + (if EndsWith(text, "/") then "/" else "")
  }

  function NormalizedPath(value: string): Option<Path> {
    var text := Trim(Slashes(value));
    if text == "" || text[0] == '/' || HasDrive(text) || ".." in Split(text, '/') || '\0' in text then None
    else Some(PosixNormal(text))
  }

  predicate ChangeBroken(change: FileChange) {
    || NormalizedPath(change.path) != Some(change.path)
    || (change.fromSha256.Some? && change.fromSha256.value.NotDigest?)
    || (change.toSha256.Some? && change.toSha256.value.NotDigest?)
    || (change.fromSha256.None? && change.toSha256.None?)
    || (change.fromSha256.None? != change.fromMode.None?)
    || (change.toSha256.None? != change.toMode.None?)
  }

  /** The paths of the well-formed changes among the first `n`. */
  function ChangedPaths(changes: seq<FileChange>, n: nat): set<Path>
    requires n <= |changes|
  {
    if n == 0 then {}
    else ChangedPaths(changes, n - 1) + if ChangeBroken(changes[n - 1]) then {} else {changes[n - 1].path}
  }

  /** The change at `k` is malformed, or repeats the path of an earlier well-formed one. */
  predicate ChangeBrokenAt(changes: seq<FileChange>, k: nat)
    requires k < |changes|
  {
    ChangeBroken(changes[k]) || changes[k].path in ChangedPaths(changes, k)
  }

  predicate ChangeOutOfScope(i: Input, k: nat)
    requires k < |i.changedFiles|
  {
    !ChangeBrokenAt(i.changedFiles, k) && !InScope(i.basePolicy, i.changedFiles[k].path)
  }

  predicate CodeFile(path: Path) {
    || EndsWith(path, ".js") || EndsWith(path, ".ts") || EndsWith(path, ".cjs")
    || EndsWith(path, ".cts") || EndsWith(path, ".mjs") || EndsWith(path, ".mts")
  }

  function FirstAvailable(candidates: seq<Path>, available: set<Path>): (p: Option<Path>)
    ensures p.Some? ==> p.value in candidates && p.value in available
    ensures p.None? ==> forall c | c in candidates :: c !in available
  {
    if candidates == [] then None
    else if candidates[0] in available then Some(candidates[0])
    else FirstAvailable(candidates[1..], available)
  }

  function Resolve(r: Readers, i: Input, importer: Path, specifier: string): Option<Path> {
    FirstAvailable(r.importCandidates(importer, specifier), i.proposedPaths)
  }

  /** Pinned code whose proposed bytes are at hand. */
  predicate ScannedFile(i: Input, path: Path) {
    path in i.proposedPolicy.protectedFiles && CodeFile(path) && path in i.proposedFileContents
  }

  predicate HasUnresolvedImport(r: Readers, i: Input, path: Path, imports: seq<string>) {
    exists k | 0 <= k < |imports| :: Resolve(r, i, path, imports[k]).None?
  }

  predicate HasUnpinnedImport(r: Readers, i: Input, path: Path, imports: seq<string>) {
    exists k | 0 <= k < |imports| ::
      var target := Resolve(r, i, path, imports[k]);
      target.Some? && target.value !in i.proposedPolicy.protectedFiles
  }

  predicate ImportsDynamically(r: Readers, i: Input, path: Path) {
    ScannedFile(i, path) && r.dynamicImport(i.proposedFileContents[path])
  }

  predicate ImportsUnresolved(r: Readers, i: Input, path: Path) {
    ScannedFile(i, path) && HasUnresolvedImport(r, i, path, r.imports(i.proposedFileContents[path]))
  }

  predicate ImportsUnpinned(r: Readers, i: Input, path: Path) {
    ScannedFile(i, path) && HasUnpinnedImport(r, i, path, r.imports(i.proposedFileContents[path]))
  }

  predicate PinOutsideNamespace(i: Input, path: Path) {
    path in i.proposedPolicy.protectedFiles && path !in i.basePolicy.protectedFiles && !AdditionAllowed(path)
  }

  predicate PinMismatch(i: Input, path: Path) {
    && path in i.proposedPolicy.protectedFiles
    && var expected := i.proposedPolicy.protectedFiles[path];
       expected.NotDigest? || Get(i.proposedFileDigests, path) != Some(expected)
  }

  predicate PinDropped(i: Input, path: Path)
    requires LedgerAppended(i)
  {
    && path in i.basePolicy.protectedFiles
    && path !in i.proposedPolicy.protectedFiles
    && !(ReceiptOf(i).kind.ActivateSuccessor? && path == i.basePolicy.active.workflowPath)
  }

  // ---------- The codes a rotation is reported for, pass by pass ----------

  function When(broken: bool, code: Code): set<Code> { if broken then {code} else {} }

  function ReceiptCodes(i: Input): set<Code>
    requires LedgerAppended(i)
  {
    var kind := ReceiptOf(i).kind;
    {} +
    When(ReceiptBroken(i), ReceiptInvalid) +
    When(DigestsBroken(i), PolicyDigestMismatch) +
    When(i.basePolicy.identity != i.proposedPolicy.identity, IdentityDrift) +
    When(!kind.ActivateSuccessor? && ActiveChanged(i), if kind.StageSuccessor? then StageActiveDrift else IdentityDrift)
  }

  function StageCodes(i: Input): set<Code>
    requires LedgerAppended(i) && Staging(i)
  {
    {} +
    When(StageStateBroken(i), StageStateInvalid) +
    When(RestageAuthorityBroken(i), RestageAuthorityInvalid) +
    When(RestageDrifted(i), RestageTupleDrift) +
    When(CollisionBroken(i), ContextCollision) +
    When(DeadlineBroken(i), DeadlineInvalid) +
    When(PinningBroken(i), WorkflowNotPinned) +
    When(AppIdentityBroken(i), AppIdentityDrift) +
    When(PredecessorRepinned(i), PredecessorNotRetained)
  }

  function ActivationCodes(i: Input): set<Code>
    requires LedgerAppended(i) && Activating(i)
  {
    {} +
    When(ActivationStateBroken(i), ActivationStateInvalid) +
    When(i.proposedPolicy.active != TupleIdentity(TupleOf(i)), ActivationIdentityInvalid) +
    When(AppIdentityBroken(i), AppIdentityDrift) +
    When(ActivationLate(i), ActivationExpired) +
    When(StagedBytesBroken(i), StagedBytesDrift) +
    When(PredecessorKept(i), PredecessorNotRemoved) +
    When(PinsMoved(i), StagedBytesDrift)
  }

  function TransitionCodes(i: Input): set<Code>
    requires LedgerAppended(i)
  {
    var receipt := ReceiptOf(i);
    if receipt.kind.Runtime? then {} + When(SuccessorTouched(i), TransitionInvalid)
    else if Staging(i) then StageCodes(i)
    else if Activating(i) then ActivationCodes(i)
    else
      {} +
      When(receipt.kind.UnknownKind?, TransitionInvalid) +
      When(receipt.successor.None? || !ValidTuple(receipt.successor.value), TupleInvalid)
  }

  function ChangeCodes(i: Input): set<Code>
    requires LedgerAppended(i)
  {
    {} +
    When(!ReceiptOf(i).kind.ActivateSuccessor? && Changes(i.changedFiles, i.basePolicy.active.workflowPath),
         WorkflowSuccessorRequired) +
    When(i.basePolicy.reviewers * i.proposedPolicy.reviewers == {}, ReviewerContinuityRequired) +
    When(multiset(ReceiptOf(i).changes) != multiset(i.changedFiles), ChangesetMismatch) +
    ChangeListCodes(i, |i.changedFiles|)
  }

  function ChangeCodesAt(i: Input, k: nat): set<Code>
    requires k < |i.changedFiles|
  {
    {} + When(ChangeBrokenAt(i.changedFiles, k), ChangeInvalid) + When(ChangeOutOfScope(i, k), ScopeInvalid)
  }

  /** What the first `n` changed files are reported for. */
  function ChangeListCodes(i: Input, n: nat): set<Code>
    requires n <= |i.changedFiles|
  {
    if n == 0 then {} else ChangeListCodes(i, n - 1) + ChangeCodesAt(i, n - 1)
  }

  function DroppedCodes(i: Input, paths: set<Path>): set<Code>
    requires LedgerAppended(i)
  {
    set path | path in paths && PinDropped(i, path) :: ProtectedFileRemoved
  }

  function PinCodesAt(i: Input, path: Path): set<Code> {
    {} + When(PinOutsideNamespace(i, path), ProtectedPathInvalid) + When(PinMismatch(i, path), ProtectedDigestInvalid)
  }

  function PinCodes(i: Input, paths: set<Path>): set<Code> {
    set path, c | path in paths && c in PinCodesAt(i, path) :: c
  }

  function ImportCodesAt(r: Readers, i: Input, path: Path): set<Code> {
    {} +
    When(ImportsDynamically(r, i, path), DynamicImportForbidden) +
    When(ImportsUnresolved(r, i, path), ImportUnresolved) +
    When(ImportsUnpinned(r, i, path), ImportClosureIncomplete)
  }

  function ImportCodes(r: Readers, i: Input, paths: set<Path>): set<Code> {
    set path, c | path in paths && c in ImportCodesAt(r, i, path) :: c
  }

  /** Every code the rotation is reported for; a ledger that is not the base
      ledger plus one receipt is reported alone. */
  function BrokenCodes(r: Readers, i: Input): set<Code> {
    if !LedgerAppended(i) then {ReceiptInvalid}
    else
      ReceiptCodes(i) + TransitionCodes(i) + ChangeCodes(i) +
      DroppedCodes(i, i.basePolicy.protectedFiles.Keys) +
      PinCodes(i, i.proposedPolicy.protectedFiles.Keys) +
      ImportCodes(r, i, i.proposedPolicy.protectedFiles.Keys)
  }

  predicate Accepted(r: Readers, i: Input) { BrokenCodes(r, i) == {} }

  // ---------- The checker ----------

  /** Pushes one issue when the rule is broken. */
  method Report(issues: seq<Issue>, broken: bool, code: Code, subject: string) returns (r: seq<Issue>)
    ensures Codes(r) == Codes(issues) + When(broken, code)
  {
    r := issues;
    if broken {
      r := issues + [Issue(code, subject)];
      assert r[..|r| - 1] == issues;
    }
  }

  lemma {:induction false} CodesOfAll(a: seq<Issue>, b: seq<Issue>)
    ensures Codes(a + b) == Codes(a) + Codes(b)
  {
    if b == [] {
      assert a + b == a;
    } else {
      CodesOfAll(a, b[..|b| - 1]);
      assert (a + b)[..|a + b| - 1] == a + b[..|b| - 1];
    }
  }

  /** The receipt, its chain, its digests, and the fields no rotation may change. */
  method CheckReceipt(i: Input) returns (issues: seq<Issue>)
    requires LedgerAppended(i)
    ensures Codes(issues) == ReceiptCodes(i)
  {
    issues := [];
    var receipt := ReceiptOf(i);
    issues := Report(issues, ReceiptBroken(i), ReceiptInvalid, receipt.rotationId);
    issues := Report(issues, DigestsBroken(i), PolicyDigestMismatch, receipt.rotationId);
    issues := Report(issues, i.basePolicy.identity != i.proposedPolicy.identity, IdentityDrift, "identity");
    issues := Report(issues, !receipt.kind.ActivateSuccessor? && ActiveChanged(i),
                     if receipt.kind.StageSuccessor? then StageActiveDrift else IdentityDrift,
                     i.basePolicy.active.workflowPath);
  }

  method CheckStage(i: Input) returns (issues: seq<Issue>)
    requires LedgerAppended(i) && Staging(i)
    ensures Codes(issues) == StageCodes(i)
  {
    issues := [];
    var workflow, id := TupleOf(i).workflowPath, ReceiptOf(i).rotationId;
    issues := Report(issues, StageStateBroken(i), StageStateInvalid, id);
    issues := Report(issues, RestageAuthorityBroken(i), RestageAuthorityInvalid, id);
    issues := Report(issues, RestageDrifted(i), RestageTupleDrift, id);
    issues := Report(issues, CollisionBroken(i), ContextCollision, workflow);
    issues := Report(issues, DeadlineBroken(i), DeadlineInvalid, id);
    issues := Report(issues, PinningBroken(i), WorkflowNotPinned, workflow);
    issues := Report(issues, AppIdentityBroken(i), AppIdentityDrift, workflow);
    issues := Report(issues, PredecessorRepinned(i), PredecessorNotRetained, i.basePolicy.active.workflowPath);
  }

  method CheckActivation(i: Input) returns (issues: seq<Issue>)
    requires LedgerAppended(i) && Activating(i)
    ensures Codes(issues) == ActivationCodes(i)
  {
    issues := [];
    var workflow, id := TupleOf(i).workflowPath, ReceiptOf(i).rotationId;
    issues := Report(issues, ActivationStateBroken(i), ActivationStateInvalid, id);
    issues := Report(issues, i.proposedPolicy.active != TupleIdentity(TupleOf(i)), ActivationIdentityInvalid, id);
    issues := Report(issues, AppIdentityBroken(i), AppIdentityDrift, workflow);
    issues := Report(issues, ActivationLate(i), ActivationExpired, id);
    issues := Report(issues, StagedBytesBroken(i), StagedBytesDrift, workflow);
    issues := Report(issues, PredecessorKept(i), PredecessorNotRemoved, i.basePolicy.active.workflowPath);
    var moved := CheckMovedPins(i);
    CodesOfAll(issues, moved);
    issues := issues + moved;
  }

  /** Activation carries every other base pin over unchanged. */
  method CheckMovedPins(i: Input) returns (issues: seq<Issue>)
    ensures Codes(issues) == When(PinsMoved(i), StagedBytesDrift)
  {
    issues := [];
    var base := i.basePolicy.protectedFiles;
    var todo := base.Keys;
    while todo != {}
      invariant todo <= base.Keys
      invariant Codes(issues) == When(exists p | p in base && p !in todo :: PinMoved(i, p), StagedBytesDrift)
    {
      var path :| path in todo;
      todo := todo - {path};
      issues := Report(issues, PinMoved(i, path), StagedBytesDrift, path);
    }
  }

  /** One of the three transition kinds, each with its own obligations. */
  method CheckTransition(i: Input) returns (issues: seq<Issue>)
    requires LedgerAppended(i)
    ensures Codes(issues) == TransitionCodes(i)
  {
    issues := [];
    var receipt := ReceiptOf(i);
    issues := Report(issues, receipt.kind.UnknownKind?, TransitionInvalid, receipt.rotationId);
    if receipt.kind.Runtime? {
      issues := Report(issues, SuccessorTouched(i), TransitionInvalid, receipt.rotationId);
    } else if receipt.successor.None? || !ValidTuple(receipt.successor.value) {
      issues := Report(issues, true, TupleInvalid, receipt.rotationId);
    } else if receipt.kind.StageSuccessor? {
      issues := CheckStage(i);
    } else if receipt.kind.ActivateSuccessor? {
      issues := CheckActivation(i);
    }
  }

  /** Reviewer continuity, and the shape, scope and attestation of the changed files. */
  method CheckChanges(i: Input) returns (issues: seq<Issue>)
    requires LedgerAppended(i)
    ensures Codes(issues) == ChangeCodes(i)
  {
    issues := [];
    var receipt, active := ReceiptOf(i), i.basePolicy.active.workflowPath;
    issues := Report(issues, !receipt.kind.ActivateSuccessor? && Changes(i.changedFiles, active),
                     WorkflowSuccessorRequired, active);
    issues := Report(issues, i.basePolicy.reviewers * i.proposedPolicy.reviewers == {}, ReviewerContinuityRequired,
                     receipt.rotationId);
    issues := Report(issues, multiset(receipt.changes) != multiset(i.changedFiles), ChangesetMismatch,
                     receipt.rotationId);
    var found := CheckChangeList(i);
    CodesOfAll(issues, found);
    issues := issues + found;
  }

  method CheckChange(i: Input, k: nat, changedPaths: set<Path>) returns (issues: seq<Issue>, paths: set<Path>)
    requires k < |i.changedFiles| && changedPaths == ChangedPaths(i.changedFiles, k)
    ensures Codes(issues) == ChangeCodesAt(i, k)
    ensures paths == ChangedPaths(i.changedFiles, k + 1)
  {
    var path := i.changedFiles[k].path;
    var bad := ChangeBroken(i.changedFiles[k]) || path in changedPaths;
    issues := Report([], bad, ChangeInvalid, path);
    issues := Report(issues, !bad && !InScope(i.basePolicy, path), ScopeInvalid, path);
    paths := if bad then changedPaths else changedPaths + {path};
  }

  method CheckChangeList(i: Input) returns (issues: seq<Issue>)
    ensures Codes(issues) == ChangeListCodes(i, |i.changedFiles|)
  {
    hide ChangedPaths, ChangeCodesAt, Codes;
    Starts(i);
    issues := [];
    var changedPaths: set<Path> := {};
    for k := 0 to |i.changedFiles|
      invariant changedPaths == ChangedPaths(i.changedFiles, k)
      invariant Codes(issues) == ChangeListCodes(i, k)
    {
      var found, paths := CheckChange(i, k, changedPaths);
      changedPaths := paths;
      CodesOfAll(issues, found);
      issues := issues + found;
    }
  }

  lemma Starts(i: Input)
    ensures ChangedPaths(i.changedFiles, 0) == {} && Codes([]) == {}
  {
  }

  /** No base pin is dropped. */
  method CheckDroppedPins(i: Input) returns (issues: seq<Issue>)
    requires LedgerAppended(i)
    ensures Codes(issues) == DroppedCodes(i, i.basePolicy.protectedFiles.Keys)
  {
    issues := [];
    var todo := i.basePolicy.protectedFiles.Keys;
    while todo != {}
      invariant todo <= i.basePolicy.protectedFiles.Keys
      invariant Codes(issues) == DroppedCodes(i, i.basePolicy.protectedFiles.Keys - todo)
    {
      var path :| path in todo;
      todo := todo - {path};
      issues := Report(issues, PinDropped(i, path), ProtectedFileRemoved, path);
    }
  }

  /** Every proposed pin matches the proposed bytes. */
  method CheckPins(i: Input) returns (issues: seq<Issue>)
    ensures Codes(issues) == PinCodes(i, i.proposedPolicy.protectedFiles.Keys)
  {
    issues := [];
    var pins := i.proposedPolicy.protectedFiles.Keys;
    var todo := pins;
    while todo != {}
      invariant todo <= pins
      invariant Codes(issues) == PinCodes(i, pins - todo)
    {
      var path :| path in todo;
      var found := Report([], PinOutsideNamespace(i, path), ProtectedPathInvalid, path);
      found := Report(found, PinMismatch(i, path), ProtectedDigestInvalid, path);
      CodesOfAll(issues, found);
      issues := issues + found;
      OneMorePin(i, pins - todo, path);
      assert pins - (todo - {path}) == pins - todo + {path};
      todo := todo - {path};
    }
  }

  lemma OneMorePin(i: Input, paths: set<Path>, path: Path)
    ensures PinCodes(i, paths + {path}) == PinCodes(i, paths) + PinCodesAt(i, path)
  {
  }

  lemma OneMoreImporter(r: Readers, i: Input, paths: set<Path>, path: Path)
    ensures ImportCodes(r, i, paths + {path}) == ImportCodes(r, i, paths) + ImportCodesAt(r, i, path)
  {
  }

  /** The relative imports of one pinned code file. */
  method CheckFileImports(r: Readers, i: Input, path: Path) returns (issues: seq<Issue>)
    requires ScannedFile(i, path)
    ensures Codes(issues) == ImportCodesAt(r, i, path)
  {
    issues := [];
    var bytes := i.proposedFileContents[path];
    issues := Report(issues, r.dynamicImport(bytes), DynamicImportForbidden, path);
    var imports := r.imports(bytes);
    for k := 0 to |imports|
      invariant Codes(issues) <= {DynamicImportForbidden, ImportUnresolved, ImportClosureIncomplete}
      invariant DynamicImportForbidden in Codes(issues) <==> r.dynamicImport(bytes)
      invariant ImportUnresolved in Codes(issues) <==> HasUnresolvedImport(r, i, path, imports[..k])
      invariant ImportClosureIncomplete in Codes(issues) <==> HasUnpinnedImport(r, i, path, imports[..k])
    {
      assert imports[..k + 1][k] == imports[k];
      assert forall j | 0 <= j < k :: imports[..k + 1][j] == imports[..k][j];
      var dependency := Resolve(r, i, path, imports[k]);
      issues := Report(issues, dependency.None?, ImportUnresolved, path);
      if dependency.Some? {
        issues := Report(issues, dependency.value !in i.proposedPolicy.protectedFiles, ImportClosureIncomplete,
                         dependency.value);
      }
    }
    assert imports[..|imports|] == imports;
  }

  method CheckImports(r: Readers, i: Input) returns (issues: seq<Issue>)
    ensures Codes(issues) == ImportCodes(r, i, i.proposedPolicy.protectedFiles.Keys)
  {
    issues := [];
    var pins := i.proposedPolicy.protectedFiles.Keys;
    var todo := pins;
    while todo != {}
      invariant todo <= pins
      invariant Codes(issues) == ImportCodes(r, i, pins - todo)
    {
      var path :| path in todo;
      OneMoreImporter(r, i, pins - todo, path);
      assert pins - (todo - {path}) == pins - todo + {path};
      todo := todo - {path};
      if CodeFile(path) && path in i.proposedFileContents {
        var found := CheckFileImports(r, i, path);
        CodesOfAll(issues, found);
        issues := issues + found;
      }
    }
  }

  /** Exactly the broken codes are reported. */
  method VerifyAuthorityRotation(r: Readers, i: Input) returns (issues: seq<Issue>)
    ensures Codes(issues) == BrokenCodes(r, i)
    ensures issues == [] <==> Accepted(r, i)
  {
    if !LedgerAppended(i) {
      issues := Report([], true, ReceiptInvalid, "rotation");
      return;
    }
    var receipt := CheckReceipt(i);
    var transition := CheckTransition(i);
    var changes := CheckChanges(i);
    var dropped := CheckDroppedPins(i);
    var pins := CheckPins(i);
    var imports := CheckImports(r, i);
    CodesOfAll(receipt, transition);
    CodesOfAll(receipt + transition, changes);
    CodesOfAll(receipt + transition + changes, dropped);
    CodesOfAll(receipt + transition + changes + dropped, pins);
    CodesOfAll(receipt + transition + changes + dropped + pins, imports);
    issues := receipt + transition + changes + dropped + pins + imports;
    assert issues != [] ==> issues[|issues| - 1].code in Codes(issues);
  }
}
