/**
 One rule for each of the thirty issue codes, stated of the rotation itself. A rotation whose ledger
 continues the base ledger is reported for a code exactly when it breaks the rule of that code.
 */
module RotationRules {
  import opened Basics
  import opened Texts
  import opened Patterns
  import opened AuthorityPolicy
  import opened AuthorityRotation
  import opened AuthorityShapes
  import opened LegalRotation

  /** The receipt stages this tuple, or activates it. */
  ghost predicate Stages(x: Receipt) {
    x.kind.StageSuccessor? && x.successor.Some? && LegalTuple(x.successor.value)
  }

  ghost predicate Activates(x: Receipt) {
    x.kind.ActivateSuccessor? && x.successor.Some? && LegalTuple(x.successor.value)
  }

  /** The time from which the seven days count: of this receipt, or of the stage that opened the episode. */
  ghost predicate OpensWindow(i: Input, x: Receipt, start: Time) {
    if !i.basePolicy.successor.Held? then start == x.issuedAt
    else exists k | 0 <= k < |i.baseLedger.rotations| ::
      OpensEpisode(i.baseLedger.rotations, k) && start == i.baseLedger.rotations[k].issuedAt
  }

  /** The deadline is not over, after the receipt's issue, and within seven days; a time that cannot be read
      is no objection, except for the one from which the days count. */
  ghost predicate InWindow(i: Input, x: Receipt, deadline: Time) {
    && Known(deadline)
    && (Known(i.observedAt) ==> i.observedAt.ms <= deadline.ms)
    && (Known(x.issuedAt) ==> x.issuedAt.ms < deadline.ms)
    && exists start :: OpensWindow(i, x, start) && Known(start) && deadline.ms <= start.ms + SEVEN_DAYS
  }

  /** The base holds this very tuple as its successor, staged by its last receipt; the proposal holds none. */
  ghost predicate TakesStaged(i: Input, t: SuccessorTuple) {
    var b, rotations := i.basePolicy, i.baseLedger.rotations;
    && b.successor.Held? && rotations != []
    && var stage := rotations[|rotations| - 1];
       && b.successor.state == SuccessorState(t, "staged", stage.rotationId, None) && RotationId(stage.rotationId)
       && stage.kind.StageSuccessor? && stage.successor == Some(t) && i.proposedPolicy.successor == Null
  }

  predicate HoldsPins(i: Input, t: SuccessorTuple) {
    && Get(i.basePolicy.protectedFiles, t.workflowPath) == Some(t.workflowSha256)
    && Get(i.proposedPolicy.protectedFiles, t.workflowPath) == Some(t.workflowSha256)
    && Get(i.proposedFileDigests, t.workflowPath) == Some(t.workflowSha256)
    && (forall change | change in i.changedFiles :: change.path != t.workflowPath)
    && forall path | path in i.basePolicy.protectedFiles && path != i.basePolicy.active.workflowPath ::
         Get(i.proposedPolicy.protectedFiles, path) == Some(i.basePolicy.protectedFiles[path])
  }

  /** The first change of the path deletes the file that was pinned. */
  predicate FirstDeletes(changes: seq<FileChange>, path: Path, pin: Digest) {
    exists k | 0 <= k < |changes| ::
      && changes[k].path == path && (forall j | 0 <= j < k :: changes[j].path != path)
      && changes[k].fromSha256 == Some(pin) && changes[k].toSha256.None?
      && changes[k].fromMode.Some? && changes[k].toMode.None?
  }

  predicate RemovesPredecessor(i: Input, t: SuccessorTuple) {
    var active := i.basePolicy.active.workflowPath;
    && active != t.workflowPath && active in i.basePolicy.protectedFiles
    && active !in i.proposedPolicy.protectedFiles && active !in i.proposedPaths
    && FirstDeletes(i.changedFiles, active, i.basePolicy.protectedFiles[active])
  }

  ghost predicate Scanned(i: Input, path: Path) {
    path in i.proposedPolicy.protectedFiles && IsCode(path) && path in i.proposedFileContents
  }

  /** Of the candidates, one is there. */
  predicate Found(candidates: seq<Path>, available: set<Path>) {
    exists k | 0 <= k < |candidates| :: candidates[k] in available
  }

  /** Of the candidates that are there, the first is pinned, if any. */
  predicate FoundPinned(candidates: seq<Path>, available: set<Path>, pins: set<Path>) {
    forall k | 0 <= k < |candidates| && candidates[k] in available
      && (forall j | 0 <= j < k :: candidates[j] !in available) :: candidates[k] in pins
  }

  ghost predicate ImportsFound(r: Readers, i: Input) {
    forall path, specifier | Scanned(i, path) && specifier in r.imports(i.proposedFileContents[path]) ::
      Found(r.importCandidates(path, specifier), i.proposedPaths)
  }

  ghost predicate ImportsPinned(r: Readers, i: Input) {
    forall path, specifier | Scanned(i, path) && specifier in r.imports(i.proposedFileContents[path]) ::
      FoundPinned(r.importCandidates(path, specifier), i.proposedPaths, i.proposedPolicy.protectedFiles.Keys)
  }

  // ---------- The rules of the receipt and the transition ----------

  ghost predicate ChainKept(i: Input, x: Receipt) {
    && Follows(i.baseLedger.rotations, x) && Revision(i.baseRevision) && x.baseRevision == i.baseRevision
    && Timely(i.observedAt, x)
  }

  predicate IdentityKept(i: Input, x: Receipt) {
    && i.proposedPolicy.identity == i.basePolicy.identity
    && (x.kind.StageSuccessor? || x.kind.ActivateSuccessor? || i.proposedPolicy.active == i.basePolicy.active)
  }

  ghost predicate TransitionKept(i: Input, x: Receipt) {
    !x.kind.UnknownKind? && (x.kind.Runtime? ==> LegalRuntime(i.basePolicy, i.proposedPolicy, x))
  }

  ghost predicate TupleKept(x: Receipt) {
    x.kind.Runtime? || (x.successor.Some? && LegalTuple(x.successor.value))
  }

  // ---------- The rules of a stage ----------

  ghost predicate StateKept(i: Input, x: Receipt, t: SuccessorTuple) {
    && i.proposedPolicy.successor == Held(SuccessorState(t, "staged", x.rotationId, None))
    && RotationId(x.rotationId)
  }

  ghost predicate AuthorityKept(i: Input) {
    var staged := i.basePolicy.successor;
    && staged != Absent
    && (staged.Held? ==>
          && LegalState(staged.state)
          && StagedBy(i.baseLedger.rotations, staged.state.stagedByRotationId, staged.state.tuple))
  }

  predicate RestageKept(i: Input, t: SuccessorTuple) {
    i.basePolicy.successor.Held? ==> SameSuccessor(i.basePolicy.successor.state.tuple, t)
  }

  predicate PinningKept(i: Input, t: SuccessorTuple) {
    && CopiesTemplate(i, t)
    && (i.basePolicy.successor.Held? ==>
          Get(i.basePolicy.protectedFiles, t.workflowPath) == Some(i.basePolicy.successor.state.tuple.workflowSha256))
    && Get(i.proposedFileDigests, t.templatePath) == Some(t.workflowSha256)
    && Get(i.proposedFileDigests, t.workflowPath) == Some(t.workflowSha256)
  }

  predicate PredecessorPinKept(i: Input) {
    var active := i.basePolicy.active.workflowPath;
    Get(i.proposedPolicy.protectedFiles, active) == Get(i.basePolicy.protectedFiles, active)
  }

  // ---------- The rules of an activation, beside those above ----------

  predicate InTime(i: Input, t: SuccessorTuple) {
    Known(i.observedAt) && Known(t.activationDeadline) ==> i.observedAt.ms <= t.activationDeadline.ms
  }

  // ---------- The rules of changed files, pins and imports ----------

  predicate ControllerKept(i: Input, x: Receipt) {
    x.kind.ActivateSuccessor? ||
    forall change | change in i.changedFiles :: change.path != i.basePolicy.active.workflowPath
  }

  predicate ReviewerKept(i: Input) {
    exists reviewer | reviewer in i.basePolicy.reviewers :: reviewer in i.proposedPolicy.reviewers
  }

  predicate ChangesKept(i: Input) {
    (forall change | change in i.changedFiles :: WellFormed(change)) && DistinctPaths(i.changedFiles)
  }

  ghost predicate ScopeKept(i: Input) {
    forall change | change in i.changedFiles && WellFormed(change) :: MayRotate(i.basePolicy, change.path)
  }

  predicate PinsKept(i: Input, x: Receipt) {
    forall path | path in i.basePolicy.protectedFiles && path !in i.proposedPolicy.protectedFiles ::
      x.kind.ActivateSuccessor? && path == i.basePolicy.active.workflowPath
  }

  ghost predicate NamespaceKept(i: Input) {
    forall path | path in i.proposedPolicy.protectedFiles :: path in i.basePolicy.protectedFiles || InNamespace(path)
  }

  predicate DigestsKept(i: Input) {
    forall path | path in i.proposedPolicy.protectedFiles ::
      && i.proposedPolicy.protectedFiles[path].Sha256?
      && Get(i.proposedFileDigests, path) == Some(i.proposedPolicy.protectedFiles[path])
  }

  ghost predicate ImportsByName(r: Readers, i: Input) {
    forall path | path in i.proposedFileContents && Scanned(i, path) :: !r.dynamicImport(i.proposedFileContents[path])
  }

  // ---------- The pass that reports a code ----------

  datatype Pass = OfReceipt | OfTransition | OfChanges | OfPins | OfImports

  predicate OfStage(c: Code) {
    match c
    case StageStateInvalid => true
    case RestageAuthorityInvalid => true
    case RestageTupleDrift => true
    case ContextCollision => true
    case DeadlineInvalid => true
    case WorkflowNotPinned => true
    case AppIdentityDrift => true
    case PredecessorNotRetained => true
    case _ => false
  }

  predicate OfActivation(c: Code) {
    match c
    case ActivationStateInvalid => true
    case ActivationIdentityInvalid => true
    case AppIdentityDrift => true
    case ActivationExpired => true
    case StagedBytesDrift => true
    case PredecessorNotRemoved => true
    case _ => false
  }

  function PassOf(c: Code): Pass {
    match c
    case ReceiptInvalid => OfReceipt
    case PolicyDigestMismatch => OfReceipt
    case IdentityDrift => OfReceipt
    case StageActiveDrift => OfReceipt
    case WorkflowSuccessorRequired => OfChanges
    case ReviewerContinuityRequired => OfChanges
    case ChangesetMismatch => OfChanges
    case ChangeInvalid => OfChanges
    case ScopeInvalid => OfChanges
    case ProtectedFileRemoved => OfPins
    case ProtectedPathInvalid => OfPins
    case ProtectedDigestInvalid => OfPins
    case DynamicImportForbidden => OfImports
    case ImportUnresolved => OfImports
    case ImportClosureIncomplete => OfImports
    case _ => OfTransition
  }

  lemma PassOfReceipt()
    ensures PassOf(ReceiptInvalid) == PassOf(PolicyDigestMismatch) == PassOf(IdentityDrift) == PassOf(StageActiveDrift)
      == OfReceipt
    ensures PassOf(TransitionInvalid) == PassOf(TupleInvalid) == OfTransition
  {
  }

  lemma PassOfStage(c: Code)
    requires OfStage(c)
    ensures PassOf(c) == OfTransition
  {
  }

  lemma PassOfActivation(c: Code)
    requires OfActivation(c)
    ensures PassOf(c) == OfTransition
  {
  }

  lemma PassOfChanges()
    ensures PassOf(WorkflowSuccessorRequired) == PassOf(ReviewerContinuityRequired) == PassOf(ChangesetMismatch)
      == PassOf(ChangeInvalid) == PassOf(ScopeInvalid) == OfChanges
  {
  }

  lemma PassOfPins()
    ensures PassOf(ProtectedFileRemoved) == PassOf(ProtectedPathInvalid) == PassOf(ProtectedDigestInvalid) == OfPins
    ensures PassOf(DynamicImportForbidden) == PassOf(ImportUnresolved) == PassOf(ImportClosureIncomplete) == OfImports
  {
  }

  // ---------- Receipt and transition ----------

  lemma StagesExactly(i: Input)
    requires LedgerAppended(i)
    ensures Staging(i) <==> Stages(ReceiptOf(i))
    ensures Activating(i) <==> Activates(ReceiptOf(i))
  {
    if ReceiptOf(i).successor.Some? {
      TupleExactly(ReceiptOf(i).successor.value);
    }
    hide ValidTuple, LegalTuple;
  }

  lemma ReceiptRules(i: Input, x: Receipt)
    requires LedgerAppended(i) && x == ReceiptOf(i)
    ensures ReceiptBroken(i) <==> !ChainKept(i, x)
    ensures DigestsBroken(i) <==> !Binds(i, x)
  {
    RotationIdExactly(x.rotationId);
    ShaExactly(i.baseRevision);
    hide IsRotationId, IsSha, RotationId, Patterns.Matches;
  }

  /** The codes of the receipt, each reported exactly when its rule is broken. */
  lemma ReceiptCodesExactly(i: Input, x: Receipt)
    requires LedgerAppended(i) && x == ReceiptOf(i)
    ensures ReceiptInvalid in ReceiptCodes(i) <==> !ChainKept(i, x)
    ensures PolicyDigestMismatch in ReceiptCodes(i) <==> !Binds(i, x)
    ensures IdentityDrift in ReceiptCodes(i) <==> !IdentityKept(i, x)
    ensures StageActiveDrift in ReceiptCodes(i) <==>
      x.kind.StageSuccessor? && i.proposedPolicy.active != i.basePolicy.active
    ensures ReceiptCodes(i) <= {ReceiptInvalid, PolicyDigestMismatch, IdentityDrift, StageActiveDrift}
  {
    ReceiptRules(i, x);
    hide ReceiptBroken, DigestsBroken, LedgerAppended, ChainKept, Binds;
  }

  // ---------- Transition ----------

  lemma StageRules(i: Input, x: Receipt, t: SuccessorTuple)
    requires LedgerAppended(i) && x == ReceiptOf(i) && Staging(i) && t == TupleOf(i)
    ensures StageStateBroken(i) <==> !StateKept(i, x, t)
    ensures RestageAuthorityBroken(i) <==> !AuthorityKept(i)
    ensures RestageDrifted(i) <==> !RestageKept(i, t)
    ensures CollisionBroken(i) <==> !ApartFrom(i.basePolicy.active, t)
  {
    CollisionExactly(i);
    RotationIdExactly(x.rotationId);
    if i.basePolicy.successor.Held? {
      var staged := i.basePolicy.successor.state;
      StateExactly(staged);
      RestagedExactly(staged.tuple, t);
      FindRotationExactly(i.baseLedger.rotations, staged.stagedByRotationId, staged.tuple);
    }
    hide FindRotation, StagedBy, LedgerAppended, RestageIdentity, SameSuccessor, LegalTuple, IsRotationId, RotationId,
         CollisionBroken, ApartFrom, IsTemplatePath, IsAuthorityWorkflowPath, BaseName, NonBlank, Trimmed;
  }

  lemma PinningRules(i: Input, t: SuccessorTuple)
    requires LedgerAppended(i) && Staging(i) && t == TupleOf(i)
    ensures PinningBroken(i) <==> !PinningKept(i, t)
    ensures AppIdentityBroken(i) <==> !SameApps(t, i.basePolicy.active)
    ensures PredecessorRepinned(i) <==> !PredecessorPinKept(i)
  {
    hide ValidTuple, LedgerAppended;
  }

  lemma WindowRule(i: Input, x: Receipt, t: SuccessorTuple)
    requires LedgerAppended(i) && x == ReceiptOf(i) && Staging(i) && t == TupleOf(i)
    ensures DeadlineBroken(i) <==> !InWindow(i, x, t.activationDeadline)
  {
    var rotations := i.baseLedger.rotations;
    CanonicalDeadline(t);
    OriginExactly(rotations);
    hide ValidTuple, LedgerAppended, EpisodeOrigin, OpensEpisode;
    if i.basePolicy.successor.Held? {
      if EpisodeOrigin(rotations).Some? {
        var k := OriginOpens(rotations);
        assert OpensWindow(i, x, EpisodeOrigin(rotations).value.issuedAt);
      }
    } else {
      assert OpensWindow(i, x, x.issuedAt);
    }
  }

  lemma CanonicalDeadline(t: SuccessorTuple)
    requires ValidTuple(t)
    ensures t.activationDeadline.Canonical?
  {
    hide IsTemplatePath, IsAuthorityWorkflowPath, BaseName;
  }

  lemma OriginExactly(rotations: seq<Receipt>)
    ensures forall k | 0 <= k < |rotations| && OpensEpisode(rotations, k) ::
      EpisodeOrigin(rotations) == Some(rotations[k])
  {
    hide OpensEpisode, EpisodeOrigin;
    forall k | 0 <= k < |rotations| && OpensEpisode(rotations, k)
      ensures EpisodeOrigin(rotations) == Some(rotations[k])
    {
      OpenerIsOrigin(rotations, k);
    }
  }

  lemma FirstStageUnion(a: bool, b: bool, c: bool, d: bool)
    ensures var codes := {} + When(a, StageStateInvalid) + When(b, RestageAuthorityInvalid) + When(c, RestageTupleDrift)
        + When(d, ContextCollision);
      && (StageStateInvalid in codes <==> a) && (RestageAuthorityInvalid in codes <==> b)
      && (RestageTupleDrift in codes <==> c) && (ContextCollision in codes <==> d)
      && codes <= {StageStateInvalid, RestageAuthorityInvalid, RestageTupleDrift, ContextCollision}
  {
  }

  lemma LastStageUnion(codes: set<Code>, e: bool, f: bool, g: bool, h: bool)
    requires codes <= {StageStateInvalid, RestageAuthorityInvalid, RestageTupleDrift, ContextCollision}
    ensures var all := codes + When(e, DeadlineInvalid) + When(f, WorkflowNotPinned) + When(g, AppIdentityDrift)
        + When(h, PredecessorNotRetained);
      && (DeadlineInvalid in all <==> e) && (WorkflowNotPinned in all <==> f) && (AppIdentityDrift in all <==> g)
      && (PredecessorNotRetained in all <==> h)
      && (forall c | c in codes :: c in all)
      && (forall c | c in all && c !in codes ::
           c in {DeadlineInvalid, WorkflowNotPinned, AppIdentityDrift, PredecessorNotRetained})
  {
  }

  lemma StageUnion(a: bool, b: bool, c: bool, d: bool, e: bool, f: bool, g: bool, h: bool)
    ensures var codes :=
        {} + When(a, StageStateInvalid) + When(b, RestageAuthorityInvalid) + When(c, RestageTupleDrift)
        + When(d, ContextCollision) + When(e, DeadlineInvalid) + When(f, WorkflowNotPinned) + When(g, AppIdentityDrift)
        + When(h, PredecessorNotRetained);
      && (StageStateInvalid in codes <==> a) && (RestageAuthorityInvalid in codes <==> b)
      && (RestageTupleDrift in codes <==> c) && (ContextCollision in codes <==> d) && (DeadlineInvalid in codes <==> e)
      && (WorkflowNotPinned in codes <==> f) && (AppIdentityDrift in codes <==> g)
      && (PredecessorNotRetained in codes <==> h)
      && forall c | c in codes :: OfStage(c)
  {
    FirstStageUnion(a, b, c, d);
    var first := {} + When(a, StageStateInvalid) + When(b, RestageAuthorityInvalid) + When(c, RestageTupleDrift)
      + When(d, ContextCollision);
    LastStageUnion(first, e, f, g, h);
    hide When;
  }

  lemma StageCodesAre(i: Input)
    requires LedgerAppended(i) && Staging(i)
    ensures StageCodes(i) ==
        {} + When(StageStateBroken(i), StageStateInvalid) + When(RestageAuthorityBroken(i), RestageAuthorityInvalid)
        + When(RestageDrifted(i), RestageTupleDrift) + When(CollisionBroken(i), ContextCollision)
        + When(DeadlineBroken(i), DeadlineInvalid) + When(PinningBroken(i), WorkflowNotPinned)
        + When(AppIdentityBroken(i), AppIdentityDrift) + When(PredecessorRepinned(i), PredecessorNotRetained)
  {
    hide StageStateBroken, RestageAuthorityBroken, RestageDrifted, CollisionBroken, DeadlineBroken, PinningBroken,
         AppIdentityBroken, PredecessorRepinned, When, LedgerAppended, ValidTuple;
  }

  /** The codes of a stage. */
  lemma StageCodesExactly(i: Input, x: Receipt, t: SuccessorTuple)
    requires LedgerAppended(i) && x == ReceiptOf(i) && Staging(i) && t == TupleOf(i)
    ensures StageStateInvalid in StageCodes(i) <==> !StateKept(i, x, t)
    ensures RestageAuthorityInvalid in StageCodes(i) <==> !AuthorityKept(i)
    ensures RestageTupleDrift in StageCodes(i) <==> !RestageKept(i, t)
    ensures ContextCollision in StageCodes(i) <==> !ApartFrom(i.basePolicy.active, t)
    ensures DeadlineInvalid in StageCodes(i) <==> !InWindow(i, x, t.activationDeadline)
    ensures WorkflowNotPinned in StageCodes(i) <==> !PinningKept(i, t)
    ensures AppIdentityDrift in StageCodes(i) <==> !SameApps(t, i.basePolicy.active)
    ensures PredecessorNotRetained in StageCodes(i) <==> !PredecessorPinKept(i)
    ensures forall c | c in StageCodes(i) :: OfStage(c)
  {
    StageRules(i, x, t);
    WindowRule(i, x, t);
    PinningRules(i, t);
    StageCodesAre(i);
    StageUnion(StageStateBroken(i), RestageAuthorityBroken(i), RestageDrifted(i), CollisionBroken(i), DeadlineBroken(i),
      PinningBroken(i), AppIdentityBroken(i), PredecessorRepinned(i));
    hide *;
  }

  lemma DeletionRule(changes: seq<FileChange>, path: Path, pin: Digest)
    ensures FirstDeletes(changes, path, pin) <==>
      var d := FindChange(changes, path);
      && d.Some? && d.value.fromSha256 == Some(pin) && d.value.toSha256.None?
      && d.value.fromMode.Some? && d.value.toMode.None?
  {
    hide FindChange;
    if k :| 0 <= k < |changes| && changes[k].path == path && forall j | 0 <= j < k :: changes[j].path != path {
      FirstIsFound(changes, path, k);
      assert forall l |
        0 <= l < |changes| && changes[l].path == path && (forall j | 0 <= j < l :: changes[j].path != path)
        :: l == k;
    } else {
      NoneIsFound(changes, path);
    }
  }

  lemma {:induction false} FirstIsFound(changes: seq<FileChange>, path: Path, k: nat)
    requires k < |changes| && changes[k].path == path && forall j | 0 <= j < k :: changes[j].path != path
    ensures FindChange(changes, path) == Some(changes[k])
  {
    if k > 0 {
      assert forall j | 0 <= j < k :: changes[1..][j] == changes[j + 1];
      FirstIsFound(changes[1..], path, k - 1);
    }
  }

  lemma {:induction false} NoneIsFound(changes: seq<FileChange>, path: Path)
    requires forall k | 0 <= k < |changes| ::
      changes[k].path == path ==> exists j | 0 <= j < k :: changes[j].path == path
    ensures FindChange(changes, path).None?
  {
    NoneAtAll(changes, path, |changes|);
  }

  lemma {:induction false} NoneAtAll(changes: seq<FileChange>, path: Path, n: nat)
    requires n <= |changes|
    requires forall k | 0 <= k < |changes| ::
      changes[k].path == path ==> exists j | 0 <= j < k :: changes[j].path == path
    ensures forall k | 0 <= k < n :: changes[k].path != path
  {
    if n > 0 {
      NoneAtAll(changes, path, n - 1);
    }
  }

  lemma ActivationRules(i: Input, x: Receipt, t: SuccessorTuple)
    requires LedgerAppended(i) && x == ReceiptOf(i) && Activating(i) && t == TupleOf(i)
    ensures ActivationStateBroken(i) <==> !TakesStaged(i, t)
    ensures i.proposedPolicy.active == TupleIdentity(t) <==> IsActive(t, i.proposedPolicy.active)
    ensures AppIdentityBroken(i) <==> !SameApps(t, i.basePolicy.active)
    ensures ActivationLate(i) <==> !InTime(i, t)
  {
    ActivationStateExactly(i);
    CanonicalDeadline(t);
    hide ValidTuple, LedgerAppended, ActivationStateBroken, RotationId;
  }

  lemma BytesRules(i: Input, t: SuccessorTuple)
    requires LedgerAppended(i) && Activating(i) && t == TupleOf(i)
    ensures StagedBytesBroken(i) || PinsMoved(i) <==> !HoldsPins(i, t)
    ensures PredecessorKept(i) <==> !RemovesPredecessor(i, t)
  {
    var active := i.basePolicy.active.workflowPath;
    UnchangedExactly(i.changedFiles, t.workflowPath);
    if active in i.basePolicy.protectedFiles {
      DeletionRule(i.changedFiles, active, i.basePolicy.protectedFiles[active]);
    }
    hide ValidTuple, LedgerAppended, FindChange, FirstDeletes, Changes;
  }

  lemma FirstActivationUnion(a: bool, b: bool, c: bool)
    ensures var codes :=
        {} + When(a, ActivationStateInvalid) + When(b, ActivationIdentityInvalid) + When(c, AppIdentityDrift);
      && (ActivationStateInvalid in codes <==> a) && (ActivationIdentityInvalid in codes <==> b)
      && (AppIdentityDrift in codes <==> c)
      && codes <= {ActivationStateInvalid, ActivationIdentityInvalid, AppIdentityDrift}
  {
  }

  lemma LastActivationUnion(codes: set<Code>, d: bool, e: bool, f: bool, g: bool)
    requires codes <= {ActivationStateInvalid, ActivationIdentityInvalid, AppIdentityDrift}
    ensures var all := codes + When(d, ActivationExpired) + When(e, StagedBytesDrift) + When(f, PredecessorNotRemoved)
        + When(g, StagedBytesDrift);
      && (ActivationExpired in all <==> d) && (StagedBytesDrift in all <==> e || g)
      && (PredecessorNotRemoved in all <==> f)
      && (forall c | c in codes :: c in all)
      && (forall c | c in all && c !in codes :: c in {ActivationExpired, StagedBytesDrift, PredecessorNotRemoved})
  {
  }

  lemma ActivationUnion(a: bool, b: bool, c: bool, d: bool, e: bool, f: bool, g: bool)
    ensures var codes :=
        {} + When(a, ActivationStateInvalid) + When(b, ActivationIdentityInvalid) + When(c, AppIdentityDrift)
        + When(d, ActivationExpired) + When(e, StagedBytesDrift) + When(f, PredecessorNotRemoved)
        + When(g, StagedBytesDrift);
      && (ActivationStateInvalid in codes <==> a) && (ActivationIdentityInvalid in codes <==> b)
      && (AppIdentityDrift in codes <==> c) && (ActivationExpired in codes <==> d)
      && (StagedBytesDrift in codes <==> e || g) && (PredecessorNotRemoved in codes <==> f)
      && forall c | c in codes :: OfActivation(c)
  {
    FirstActivationUnion(a, b, c);
    var first := {} + When(a, ActivationStateInvalid) + When(b, ActivationIdentityInvalid) + When(c, AppIdentityDrift);
    LastActivationUnion(first, d, e, f, g);
    hide When;
  }

  lemma ActivationCodesAre(i: Input)
    requires LedgerAppended(i) && Activating(i)
    ensures ActivationCodes(i) ==
        {} + When(ActivationStateBroken(i), ActivationStateInvalid)
        + When(i.proposedPolicy.active != TupleIdentity(TupleOf(i)), ActivationIdentityInvalid)
        + When(AppIdentityBroken(i), AppIdentityDrift) + When(ActivationLate(i), ActivationExpired)
        + When(StagedBytesBroken(i), StagedBytesDrift) + When(PredecessorKept(i), PredecessorNotRemoved)
        + When(PinsMoved(i), StagedBytesDrift)
  {
    hide ActivationStateBroken, AppIdentityBroken, ActivationLate, StagedBytesBroken, PredecessorKept, PinsMoved, When,
         LedgerAppended, ValidTuple, TupleIdentity;
  }

  /** The codes of an activation. */
  lemma ActivationCodesExactly(i: Input, x: Receipt, t: SuccessorTuple)
    requires LedgerAppended(i) && x == ReceiptOf(i) && Activating(i) && t == TupleOf(i)
    ensures ActivationStateInvalid in ActivationCodes(i) <==> !TakesStaged(i, t)
    ensures ActivationIdentityInvalid in ActivationCodes(i) <==> !IsActive(t, i.proposedPolicy.active)
    ensures AppIdentityDrift in ActivationCodes(i) <==> !SameApps(t, i.basePolicy.active)
    ensures ActivationExpired in ActivationCodes(i) <==> !InTime(i, t)
    ensures StagedBytesDrift in ActivationCodes(i) <==> !HoldsPins(i, t)
    ensures PredecessorNotRemoved in ActivationCodes(i) <==> !RemovesPredecessor(i, t)
    ensures forall c | c in ActivationCodes(i) :: OfActivation(c)
  {
    ActivationRules(i, x, t);
    BytesRules(i, t);
    ActivationCodesAre(i);
    ActivationUnion(ActivationStateBroken(i), i.proposedPolicy.active != TupleIdentity(TupleOf(i)),
      AppIdentityBroken(i), ActivationLate(i), StagedBytesBroken(i), PredecessorKept(i), PinsMoved(i));
    hide *;
  }

  // ---------- Changed files, pins and imports ----------

  lemma ListCodes(i: Input, n: nat)
    requires n <= |i.changedFiles|
    ensures ChangeInvalid in ChangeListCodes(i, n) <==> exists k | 0 <= k < n :: ChangeBrokenAt(i.changedFiles, k)
    ensures ScopeInvalid in ChangeListCodes(i, n) <==> exists k | 0 <= k < n :: ChangeOutOfScope(i, k)
    ensures ChangeListCodes(i, n) <= {ChangeInvalid, ScopeInvalid}
  {
    hide ChangeBrokenAt, ChangeOutOfScope;
    if n > 0 {
      ListCodes(i, n - 1);
    }
  }

  lemma {:induction false} PathsOfWellFormed(changes: seq<FileChange>, n: nat)
    requires n <= |changes|
    ensures forall path :: path in ChangedPaths(changes, n) <==>
      exists k | 0 <= k < n :: WellFormed(changes[k]) && changes[k].path == path
  {
    hide ChangeBroken, WellFormed;
    if n > 0 {
      PathsOfWellFormed(changes, n - 1);
      WellFormedExactly(changes[n - 1]);
    }
  }

  lemma ListRules(i: Input)
    ensures (exists k | 0 <= k < |i.changedFiles| :: ChangeBrokenAt(i.changedFiles, k)) <==> !ChangesKept(i)
  {
    var changes := i.changedFiles;
    forall k | 0 <= k < |changes|
      ensures ChangeBrokenAt(changes, k) <==>
        !WellFormed(changes[k]) || exists j | 0 <= j < k :: WellFormed(changes[j]) && changes[j].path == changes[k].path
    {
      WellFormedExactly(changes[k]);
      PathsOfWellFormed(changes, k);
    }
    hide ChangeBrokenAt, WellFormed;
    if ChangesKept(i) {
      assert forall k | 0 <= k < |changes| :: WellFormed(changes[k]);
    }
  }

  lemma FirstWellFormed(changes: seq<FileChange>, n: nat) returns (k: nat)
    requires n < |changes| && WellFormed(changes[n])
    ensures k <= n && WellFormed(changes[k]) && changes[k].path == changes[n].path
    ensures forall j | 0 <= j < k :: !(WellFormed(changes[j]) && changes[j].path == changes[n].path)
  {
    hide WellFormed;
    if j :| 0 <= j < n && WellFormed(changes[j]) && changes[j].path == changes[n].path {
      k := FirstWellFormed(changes, j);
    } else {
      k := n;
    }
  }

  lemma ScopeRules(i: Input)
    ensures (exists k | 0 <= k < |i.changedFiles| :: ChangeOutOfScope(i, k)) <==> !ScopeKept(i)
  {
    var changes := i.changedFiles;
    forall k | 0 <= k < |changes|
      ensures ChangeOutOfScope(i, k) <==>
        && WellFormed(changes[k]) && !MayRotate(i.basePolicy, changes[k].path)
        && !exists j | 0 <= j < k :: WellFormed(changes[j]) && changes[j].path == changes[k].path
    {
      WellFormedExactly(changes[k]);
      PathsOfWellFormed(changes, k);
      ScopeExactly(i.basePolicy, changes[k].path);
    }
    hide ChangeOutOfScope, WellFormed, MayRotate;
    if !ScopeKept(i) {
      var n :| 0 <= n < |changes| && WellFormed(changes[n]) && !MayRotate(i.basePolicy, changes[n].path);
      var k := FirstWellFormed(changes, n);
      assert ChangeOutOfScope(i, k);
    }
  }

  lemma ChangeUnion(a: bool, b: bool, c: bool, more: set<Code>)
    requires more <= {ChangeInvalid, ScopeInvalid}
    ensures var codes :=
        {} + When(a, WorkflowSuccessorRequired) + When(b, ReviewerContinuityRequired) + When(c, ChangesetMismatch)
        + more;
      && (WorkflowSuccessorRequired in codes <==> a) && (ReviewerContinuityRequired in codes <==> b)
      && (ChangesetMismatch in codes <==> c) && (ChangeInvalid in codes <==> ChangeInvalid in more)
      && (ScopeInvalid in codes <==> ScopeInvalid in more)
      && codes <=
        {WorkflowSuccessorRequired, ReviewerContinuityRequired, ChangesetMismatch, ChangeInvalid, ScopeInvalid}
  {
  }

  lemma ChangeCodesAre(i: Input, x: Receipt)
    requires LedgerAppended(i) && x == ReceiptOf(i)
    ensures ChangeCodes(i) ==
      {} + When(!ControllerKept(i, x), WorkflowSuccessorRequired) + When(!ReviewerKept(i), ReviewerContinuityRequired)
      + When(multiset(x.changes) != multiset(i.changedFiles), ChangesetMismatch) + ChangeListCodes(i, |i.changedFiles|)
  {
    UnchangedExactly(i.changedFiles, i.basePolicy.active.workflowPath);
    CommonReviewer(i.basePolicy.reviewers, i.proposedPolicy.reviewers);
    hide LedgerAppended, ChangeListCodes, Changes, When;
  }

  /** The codes of the changed files. */
  lemma ChangeCodesExactly(i: Input, x: Receipt)
    requires LedgerAppended(i) && x == ReceiptOf(i)
    ensures WorkflowSuccessorRequired in ChangeCodes(i) <==> !ControllerKept(i, x)
    ensures ReviewerContinuityRequired in ChangeCodes(i) <==> !ReviewerKept(i)
    ensures ChangesetMismatch in ChangeCodes(i) <==> multiset(x.changes) != multiset(i.changedFiles)
    ensures ChangeInvalid in ChangeCodes(i) <==> !ChangesKept(i)
    ensures ScopeInvalid in ChangeCodes(i) <==> !ScopeKept(i)
    ensures ChangeCodes(i) <=
      {WorkflowSuccessorRequired, ReviewerContinuityRequired, ChangesetMismatch, ChangeInvalid, ScopeInvalid}
  {
    ListCodes(i, |i.changedFiles|);
    ListRules(i);
    ScopeRules(i);
    ChangeCodesAre(i, x);
    ChangeUnion(!ControllerKept(i, x), !ReviewerKept(i), multiset(x.changes) != multiset(i.changedFiles),
      ChangeListCodes(i, |i.changedFiles|));
    hide *;
  }

  lemma PinCodeAt(i: Input, path: Path)
    requires path in i.proposedPolicy.protectedFiles
    ensures ProtectedPathInvalid in PinCodesAt(i, path) <==> !(path in i.basePolicy.protectedFiles || InNamespace(path))
    ensures ProtectedDigestInvalid in PinCodesAt(i, path) <==>
      !(i.proposedPolicy.protectedFiles[path].Sha256?
        && Get(i.proposedFileDigests, path) == Some(i.proposedPolicy.protectedFiles[path]))
    ensures PinCodesAt(i, path) <= {ProtectedPathInvalid, ProtectedDigestInvalid}
  {
    NamespaceExactly(path);
    hide AdditionAllowed, InNamespace;
  }

  /** The codes of the pins. */
  lemma PinCodesExactly(i: Input, x: Receipt)
    requires LedgerAppended(i) && x == ReceiptOf(i)
    ensures var dropped, pins :=
        DroppedCodes(i, i.basePolicy.protectedFiles.Keys), PinCodes(i, i.proposedPolicy.protectedFiles.Keys);
      && (ProtectedFileRemoved in dropped <==> !PinsKept(i, x)) && dropped <= {ProtectedFileRemoved}
      && (ProtectedPathInvalid in pins <==> !NamespaceKept(i))
      && (ProtectedDigestInvalid in pins <==> !DigestsKept(i))
      && pins <= {ProtectedPathInvalid, ProtectedDigestInvalid}
  {
    hide LedgerAppended, InNamespace, PinCodesAt;
    forall path | path in i.proposedPolicy.protectedFiles
      ensures ProtectedPathInvalid in PinCodesAt(i, path) <==>
        !(path in i.basePolicy.protectedFiles || InNamespace(path))
      ensures ProtectedDigestInvalid in PinCodesAt(i, path) <==>
        !(i.proposedPolicy.protectedFiles[path].Sha256?
          && Get(i.proposedFileDigests, path) == Some(i.proposedPolicy.protectedFiles[path]))
      ensures PinCodesAt(i, path) <= {ProtectedPathInvalid, ProtectedDigestInvalid}
    {
      PinCodeAt(i, path);
    }
  }

  lemma {:induction false} FirstThere(candidates: seq<Path>, available: set<Path>, pins: set<Path>)
    ensures FirstAvailable(candidates, available).Some? <==> Found(candidates, available)
    ensures (FirstAvailable(candidates, available).Some? ==> FirstAvailable(candidates, available).value in pins)
      <==> FoundPinned(candidates, available, pins)
  {
    if candidates != [] {
      var rest := candidates[1..];
      FirstThere(rest, available, pins);
      assert forall k | 0 < k < |candidates| :: rest[k - 1] == candidates[k];
      if candidates[0] !in available {
        FoundLater(candidates, available, pins);
      }
    }
  }

  lemma FoundLater(candidates: seq<Path>, available: set<Path>, pins: set<Path>)
    requires candidates != [] && candidates[0] !in available
    ensures FoundPinned(candidates, available, pins) <==> FoundPinned(candidates[1..], available, pins)
  {
    var rest := candidates[1..];
    if FoundPinned(rest, available, pins) {
      forall k | 0 <= k < |candidates| && candidates[k] in available
        && (forall j | 0 <= j < k :: candidates[j] !in available)
        ensures candidates[k] in pins
      {
        assert rest[k - 1] == candidates[k];
        assert forall j | 0 <= j < k - 1 :: rest[j] == candidates[j + 1];
      }
    }
    if FoundPinned(candidates, available, pins) {
      forall k | 0 <= k < |rest| && rest[k] in available && (forall j | 0 <= j < k :: rest[j] !in available)
        ensures rest[k] in pins
      {
        assert candidates[k + 1] == rest[k];
        assert forall j | 0 < j < k + 1 :: candidates[j] == rest[j - 1];
      }
    }
  }

  ghost predicate FoundAt(r: Readers, i: Input, path: Path) {
    Scanned(i, path) ==> forall specifier | specifier in r.imports(i.proposedFileContents[path]) ::
      Found(r.importCandidates(path, specifier), i.proposedPaths)
  }

  ghost predicate PinnedAt(r: Readers, i: Input, path: Path) {
    Scanned(i, path) ==> forall specifier | specifier in r.imports(i.proposedFileContents[path]) ::
      FoundPinned(r.importCandidates(path, specifier), i.proposedPaths, i.proposedPolicy.protectedFiles.Keys)
  }

  ghost predicate ByNameAt(r: Readers, i: Input, path: Path) {
    Scanned(i, path) ==> !r.dynamicImport(i.proposedFileContents[path])
  }

  lemma ImportRules(r: Readers, i: Input, path: Path)
    requires path in i.proposedPolicy.protectedFiles
    ensures ImportsDynamically(r, i, path) <==> !ByNameAt(r, i, path)
    ensures ImportsUnresolved(r, i, path) <==> !FoundAt(r, i, path)
    ensures ImportsUnpinned(r, i, path) <==> !PinnedAt(r, i, path)
  {
    CodeExactly(path);
    hide CodeFile, IsCode;
    forall specifier
      ensures Resolve(r, i, path, specifier).Some? <==> Found(r.importCandidates(path, specifier), i.proposedPaths)
      ensures (Resolve(r, i, path, specifier).Some? ==>
          Resolve(r, i, path, specifier).value in i.proposedPolicy.protectedFiles)
        <==> FoundPinned(r.importCandidates(path, specifier), i.proposedPaths, i.proposedPolicy.protectedFiles.Keys)
    {
      FirstThere(r.importCandidates(path, specifier), i.proposedPaths, i.proposedPolicy.protectedFiles.Keys);
    }
    hide Resolve, Found, FoundPinned;
    if Scanned(i, path) {
      var imports := r.imports(i.proposedFileContents[path]);
      assert forall specifier | specifier in imports :: exists k | 0 <= k < |imports| :: imports[k] == specifier;
    }
  }

  lemma ImportCodesAtAre(r: Readers, i: Input, path: Path)
    requires path in i.proposedPolicy.protectedFiles
    ensures var codes := ImportCodesAt(r, i, path);
      && (DynamicImportForbidden in codes <==> !ByNameAt(r, i, path))
      && (ImportUnresolved in codes <==> !FoundAt(r, i, path))
      && (ImportClosureIncomplete in codes <==> !PinnedAt(r, i, path))
      && codes <= {DynamicImportForbidden, ImportUnresolved, ImportClosureIncomplete}
  {
    ImportRules(r, i, path);
    hide ImportsDynamically, ImportsUnresolved, ImportsUnpinned, ByNameAt, FoundAt, PinnedAt;
  }

  lemma ImportsFileByFile(r: Readers, i: Input)
    ensures ImportsByName(r, i) <==> forall path | path in i.proposedPolicy.protectedFiles :: ByNameAt(r, i, path)
    ensures ImportsFound(r, i) <==> forall path | path in i.proposedPolicy.protectedFiles :: FoundAt(r, i, path)
    ensures ImportsPinned(r, i) <==> forall path | path in i.proposedPolicy.protectedFiles :: PinnedAt(r, i, path)
  {
    hide Found, FoundPinned, IsCode;
  }

  /** The codes of the imports of pinned code. */
  lemma ImportCodesExactly(r: Readers, i: Input)
    ensures var codes := ImportCodes(r, i, i.proposedPolicy.protectedFiles.Keys);
      && (DynamicImportForbidden in codes <==> !ImportsByName(r, i))
      && (ImportUnresolved in codes <==> !ImportsFound(r, i))
      && (ImportClosureIncomplete in codes <==> !ImportsPinned(r, i))
      && codes <= {DynamicImportForbidden, ImportUnresolved, ImportClosureIncomplete}
  {
    ImportsFileByFile(r, i);
    hide ImportsByName, ImportsFound, ImportsPinned, ByNameAt, FoundAt, PinnedAt, ImportCodesAt;
    forall path | path in i.proposedPolicy.protectedFiles
      ensures DynamicImportForbidden in ImportCodesAt(r, i, path) <==> !ByNameAt(r, i, path)
      ensures ImportUnresolved in ImportCodesAt(r, i, path) <==> !FoundAt(r, i, path)
      ensures ImportClosureIncomplete in ImportCodesAt(r, i, path) <==> !PinnedAt(r, i, path)
      ensures ImportCodesAt(r, i, path) <= {DynamicImportForbidden, ImportUnresolved, ImportClosureIncomplete}
    {
      ImportCodesAtAre(r, i, path);
    }
  }

  // ---------- All codes ----------

  lemma TransitionCodesExactly(i: Input, x: Receipt)
    requires LedgerAppended(i) && x == ReceiptOf(i)
    ensures TransitionInvalid in TransitionCodes(i) <==> !TransitionKept(i, x)
    ensures TupleInvalid in TransitionCodes(i) <==> !TupleKept(x)
    ensures forall c | c in TransitionCodes(i) :: PassOf(c) == OfTransition
    ensures forall c: Code | c != TransitionInvalid && c != TupleInvalid :: c in TransitionCodes(i) <==>
      (Staging(i) && c in StageCodes(i)) || (Activating(i) && c in ActivationCodes(i))
  {
    StagesExactly(i);
    if x.kind.Runtime? {
      TouchedExactly(i);
    }
    if Staging(i) {
      StageCodesExactly(i, x, TupleOf(i));
    }
    if Activating(i) {
      ActivationCodesExactly(i, x, TupleOf(i));
    }
    TupleValid(x);
    hide LedgerAppended, StageCodes, ActivationCodes, ValidTuple, LegalTuple, SuccessorTouched, LegalRuntime;
  }

  lemma TupleValid(x: Receipt)
    ensures x.successor.Some? ==> (ValidTuple(x.successor.value) <==> LegalTuple(x.successor.value))
  {
    if x.successor.Some? {
      TupleExactly(x.successor.value);
    }
  }

  lemma TouchedExactly(i: Input)
    requires LedgerAppended(i)
    ensures SuccessorTouched(i) <==>
      ReceiptOf(i).successor.Some? || !LegalRuntime(i.basePolicy, i.proposedPolicy, ReceiptOf(i).(successor := None))
  {
    if i.basePolicy.successor.Held? {
      StateExactly(i.basePolicy.successor.state);
    }
    hide ValidState, LegalState, LedgerAppended;
  }

  lemma ReceiptRange(i: Input)
    requires LedgerAppended(i)
    ensures forall c | c in ReceiptCodes(i) :: PassOf(c) == OfReceipt
  {
    ReceiptCodesExactly(i, ReceiptOf(i));
    PassOfReceipt();
    hide *;
  }

  lemma ChangeRange(i: Input)
    requires LedgerAppended(i)
    ensures forall c | c in ChangeCodes(i) :: PassOf(c) == OfChanges
  {
    hide *;
    ChangesWithin(i);
    PassOfChanges();
  }

  lemma ChangesWithin(i: Input)
    requires LedgerAppended(i)
    ensures ChangeCodes(i) <=
      {WorkflowSuccessorRequired, ReviewerContinuityRequired, ChangesetMismatch, ChangeInvalid, ScopeInvalid}
  {
    ChangeCodesExactly(i, ReceiptOf(i));
    hide *;
  }

  lemma PinRange(r: Readers, i: Input)
    requires LedgerAppended(i)
    ensures forall c | c in DroppedCodes(i, i.basePolicy.protectedFiles.Keys) :: PassOf(c) == OfPins
    ensures forall c | c in PinCodes(i, i.proposedPolicy.protectedFiles.Keys) :: PassOf(c) == OfPins
    ensures forall c | c in ImportCodes(r, i, i.proposedPolicy.protectedFiles.Keys) :: PassOf(c) == OfImports
  {
    PinCodesExactly(i, ReceiptOf(i));
    ImportCodesExactly(r, i);
    PassOfPins();
    hide *;
  }

  lemma CodesAreAll(r: Readers, i: Input, c: Code)
    requires LedgerAppended(i)
    ensures c in BrokenCodes(r, i) <==>
      || c in ReceiptCodes(i) || c in TransitionCodes(i) || c in ChangeCodes(i)
      || c in DroppedCodes(i, i.basePolicy.protectedFiles.Keys)
      || c in PinCodes(i, i.proposedPolicy.protectedFiles.Keys)
      || c in ImportCodes(r, i, i.proposedPolicy.protectedFiles.Keys)
  {
    hide ReceiptCodes, TransitionCodes, ChangeCodes, DroppedCodes, PinCodes, ImportCodes, LedgerAppended;
  }

  /** Each code comes from one pass. */
  lemma CodesByPass(r: Readers, i: Input, c: Code)
    requires LedgerAppended(i)
    ensures PassOf(c) == OfReceipt ==> (c in BrokenCodes(r, i) <==> c in ReceiptCodes(i))
    ensures PassOf(c) == OfTransition ==> (c in BrokenCodes(r, i) <==> c in TransitionCodes(i))
    ensures PassOf(c) == OfChanges ==> (c in BrokenCodes(r, i) <==> c in ChangeCodes(i))
    ensures PassOf(c) == OfPins ==> (c in BrokenCodes(r, i) <==>
      c in DroppedCodes(i, i.basePolicy.protectedFiles.Keys) || c in PinCodes(i, i.proposedPolicy.protectedFiles.Keys))
    ensures PassOf(c) == OfImports ==>
      (c in BrokenCodes(r, i) <==> c in ImportCodes(r, i, i.proposedPolicy.protectedFiles.Keys))
  {
    CodesAreAll(r, i, c);
    ReceiptRange(i);
    ChangeRange(i);
    PinRange(r, i);
    TransitionCodesExactly(i, ReceiptOf(i));
    hide *;
  }

  lemma StageOnly()
    ensures OfStage(StageStateInvalid) && !OfActivation(StageStateInvalid)
    ensures OfStage(RestageAuthorityInvalid) && !OfActivation(RestageAuthorityInvalid)
    ensures OfStage(RestageTupleDrift) && !OfActivation(RestageTupleDrift)
    ensures OfStage(ContextCollision) && !OfActivation(ContextCollision)
    ensures OfStage(DeadlineInvalid) && !OfActivation(DeadlineInvalid)
    ensures OfStage(WorkflowNotPinned) && !OfActivation(WorkflowNotPinned)
    ensures OfStage(PredecessorNotRetained) && !OfActivation(PredecessorNotRetained)
    ensures OfStage(AppIdentityDrift) && OfActivation(AppIdentityDrift)
  {
  }

  lemma PassOfStages()
    ensures forall c | OfStage(c) :: PassOf(c) == OfTransition
  {
    forall c | OfStage(c) ensures PassOf(c) == OfTransition {
      PassOfStage(c);
    }
  }

  lemma PassOfActivations()
    ensures forall c | OfActivation(c) :: PassOf(c) == OfTransition
  {
    forall c | OfActivation(c) ensures PassOf(c) == OfTransition {
      PassOfActivation(c);
    }
  }

  lemma ActivationOnly()
    ensures OfActivation(ActivationStateInvalid) && !OfStage(ActivationStateInvalid)
    ensures OfActivation(ActivationIdentityInvalid) && !OfStage(ActivationIdentityInvalid)
    ensures OfActivation(ActivationExpired) && !OfStage(ActivationExpired)
    ensures OfActivation(StagedBytesDrift) && !OfStage(StagedBytesDrift)
    ensures OfActivation(PredecessorNotRemoved) && !OfStage(PredecessorNotRemoved)
  {
  }

  /** Reported exactly when broken: the receipt's rules. */
  lemma ReceiptRulesExactly(r: Readers, i: Input, x: Receipt)
    requires LedgerAppended(i) && x == ReceiptOf(i)
    ensures ReceiptInvalid in BrokenCodes(r, i) <==> !ChainKept(i, x)
    ensures PolicyDigestMismatch in BrokenCodes(r, i) <==> !Binds(i, x)
    ensures IdentityDrift in BrokenCodes(r, i) <==> !IdentityKept(i, x)
    ensures StageActiveDrift in BrokenCodes(r, i) <==>
      x.kind.StageSuccessor? && i.proposedPolicy.active != i.basePolicy.active
    ensures TransitionInvalid in BrokenCodes(r, i) <==> !TransitionKept(i, x)
    ensures TupleInvalid in BrokenCodes(r, i) <==> !TupleKept(x)
  {
    hide *;
    ReceiptCodesExactly(i, x);
    TransitionCodesExactly(i, x);
    PassOfReceipt();
    CodesByPass(r, i, ReceiptInvalid);
    CodesByPass(r, i, PolicyDigestMismatch);
    CodesByPass(r, i, IdentityDrift);
    CodesByPass(r, i, StageActiveDrift);
    CodesByPass(r, i, TransitionInvalid);
    CodesByPass(r, i, TupleInvalid);
  }

  /** The rules of a stage, which bind a rotation only if it stages: what it stages and when. */
  lemma StageRulesExactly(r: Readers, i: Input, x: Receipt)
    requires LedgerAppended(i) && x == ReceiptOf(i)
    ensures StageStateInvalid in BrokenCodes(r, i) <==> Stages(x) && !StateKept(i, x, x.successor.value)
    ensures RestageAuthorityInvalid in BrokenCodes(r, i) <==> Stages(x) && !AuthorityKept(i)
    ensures RestageTupleDrift in BrokenCodes(r, i) <==> Stages(x) && !RestageKept(i, x.successor.value)
    ensures DeadlineInvalid in BrokenCodes(r, i) <==>
      Stages(x) && !InWindow(i, x, x.successor.value.activationDeadline)
  {
    hide *;
    TransitionCodesExactly(i, x);
    StagesExactly(i);
    StageOrNot(i, x);
    ActivationOrNot(i, x);
    StageOnly();
    PassOfStages();
    CodesByPass(r, i, StageStateInvalid);
    CodesByPass(r, i, RestageAuthorityInvalid);
    CodesByPass(r, i, RestageTupleDrift);
    CodesByPass(r, i, DeadlineInvalid);
  }

  /** And beside what active controller; the rule on the Apps binds an activation too. */
  lemma StageContextExactly(r: Readers, i: Input, x: Receipt)
    requires LedgerAppended(i) && x == ReceiptOf(i)
    ensures ContextCollision in BrokenCodes(r, i) <==> Stages(x) && !ApartFrom(i.basePolicy.active, x.successor.value)
    ensures WorkflowNotPinned in BrokenCodes(r, i) <==> Stages(x) && !PinningKept(i, x.successor.value)
    ensures PredecessorNotRetained in BrokenCodes(r, i) <==> Stages(x) && !PredecessorPinKept(i)
    ensures AppIdentityDrift in BrokenCodes(r, i) <==>
      (Stages(x) || Activates(x)) && !SameApps(x.successor.value, i.basePolicy.active)
  {
    hide *;
    TransitionCodesExactly(i, x);
    StagesExactly(i);
    StageOrNot(i, x);
    ActivationOrNot(i, x);
    StageOnly();
    PassOfStages();
    CodesByPass(r, i, ContextCollision);
    CodesByPass(r, i, WorkflowNotPinned);
    CodesByPass(r, i, PredecessorNotRetained);
    CodesByPass(r, i, AppIdentityDrift);
  }

  lemma StageOrNot(i: Input, x: Receipt)
    requires LedgerAppended(i) && x == ReceiptOf(i)
    ensures Staging(i) ==>
      var codes, t := StageCodes(i), x.successor.value;
      && (StageStateInvalid in codes <==> !StateKept(i, x, t))
      && (RestageAuthorityInvalid in codes <==> !AuthorityKept(i))
      && (RestageTupleDrift in codes <==> !RestageKept(i, t))
      && (ContextCollision in codes <==> !ApartFrom(i.basePolicy.active, t))
      && (DeadlineInvalid in codes <==> !InWindow(i, x, t.activationDeadline))
      && (WorkflowNotPinned in codes <==> !PinningKept(i, t))
      && (AppIdentityDrift in codes <==> !SameApps(t, i.basePolicy.active))
      && (PredecessorNotRetained in codes <==> !PredecessorPinKept(i))
      && forall c | c in codes :: OfStage(c)
  {
    if Staging(i) {
      StageCodesExactly(i, x, TupleOf(i));
      assert TupleOf(i) == x.successor.value;
      hide *;
    }
  }

  lemma ActivationOrNot(i: Input, x: Receipt)
    requires LedgerAppended(i) && x == ReceiptOf(i)
    ensures Activating(i) ==>
      var codes, t := ActivationCodes(i), x.successor.value;
      && (ActivationStateInvalid in codes <==> !TakesStaged(i, t))
      && (ActivationIdentityInvalid in codes <==> !IsActive(t, i.proposedPolicy.active))
      && (AppIdentityDrift in codes <==> !SameApps(t, i.basePolicy.active))
      && (ActivationExpired in codes <==> !InTime(i, t)) && (StagedBytesDrift in codes <==> !HoldsPins(i, t))
      && (PredecessorNotRemoved in codes <==> !RemovesPredecessor(i, t))
      && forall c | c in codes :: OfActivation(c)
  {
    if Activating(i) {
      ActivationCodesExactly(i, x, TupleOf(i));
      assert TupleOf(i) == x.successor.value;
      hide *;
    }
  }

  /** The rules of an activation, beside that on its Apps. */
  lemma ActivationRulesExactly(r: Readers, i: Input, x: Receipt)
    requires LedgerAppended(i) && x == ReceiptOf(i)
    ensures ActivationStateInvalid in BrokenCodes(r, i) <==> Activates(x) && !TakesStaged(i, x.successor.value)
    ensures ActivationIdentityInvalid in BrokenCodes(r, i) <==>
      Activates(x) && !IsActive(x.successor.value, i.proposedPolicy.active)
    ensures ActivationExpired in BrokenCodes(r, i) <==> Activates(x) && !InTime(i, x.successor.value)
    ensures StagedBytesDrift in BrokenCodes(r, i) <==> Activates(x) && !HoldsPins(i, x.successor.value)
    ensures PredecessorNotRemoved in BrokenCodes(r, i) <==> Activates(x) && !RemovesPredecessor(i, x.successor.value)
  {
    hide *;
    TransitionCodesExactly(i, x);
    StagesExactly(i);
    StageOrNot(i, x);
    ActivationOrNot(i, x);
    ActivationOnly();
    PassOfActivations();
    CodesByPass(r, i, ActivationStateInvalid);
    CodesByPass(r, i, ActivationIdentityInvalid);
    CodesByPass(r, i, ActivationExpired);
    CodesByPass(r, i, StagedBytesDrift);
    CodesByPass(r, i, PredecessorNotRemoved);
  }

  /** The rules of the changed files. */
  lemma ChangeRulesExactly(r: Readers, i: Input, x: Receipt)
    requires LedgerAppended(i) && x == ReceiptOf(i)
    ensures WorkflowSuccessorRequired in BrokenCodes(r, i) <==> !ControllerKept(i, x)
    ensures ReviewerContinuityRequired in BrokenCodes(r, i) <==> !ReviewerKept(i)
    ensures ChangesetMismatch in BrokenCodes(r, i) <==> multiset(x.changes) != multiset(i.changedFiles)
    ensures ChangeInvalid in BrokenCodes(r, i) <==> !ChangesKept(i)
    ensures ScopeInvalid in BrokenCodes(r, i) <==> !ScopeKept(i)
  {
    hide *;
    ChangeCodesExactly(i, x);
    PassOfChanges();
    CodesByPass(r, i, WorkflowSuccessorRequired);
    CodesByPass(r, i, ReviewerContinuityRequired);
    CodesByPass(r, i, ChangesetMismatch);
    CodesByPass(r, i, ChangeInvalid);
    CodesByPass(r, i, ScopeInvalid);
  }

  /** The rules of the pins and of what pinned code imports. */
  lemma PinRulesExactly(r: Readers, i: Input, x: Receipt)
    requires LedgerAppended(i) && x == ReceiptOf(i)
    ensures ProtectedFileRemoved in BrokenCodes(r, i) <==> !PinsKept(i, x)
    ensures ProtectedPathInvalid in BrokenCodes(r, i) <==> !NamespaceKept(i)
    ensures ProtectedDigestInvalid in BrokenCodes(r, i) <==> !DigestsKept(i)
    ensures DynamicImportForbidden in BrokenCodes(r, i) <==> !ImportsByName(r, i)
    ensures ImportUnresolved in BrokenCodes(r, i) <==> !ImportsFound(r, i)
    ensures ImportClosureIncomplete in BrokenCodes(r, i) <==> !ImportsPinned(r, i)
  {
    hide *;
    PinCodesExactly(i, x);
    ImportCodesExactly(r, i);
    PassOfPins();
    CodesByPass(r, i, ProtectedFileRemoved);
    CodesByPass(r, i, ProtectedPathInvalid);
    CodesByPass(r, i, ProtectedDigestInvalid);
    CodesByPass(r, i, DynamicImportForbidden);
    CodesByPass(r, i, ImportUnresolved);
    CodesByPass(r, i, ImportClosureIncomplete);
  }

  /** A ledger that does not continue the base ledger is reported for that alone. */
  lemma LedgerRuleExactly(r: Readers, i: Input)
    ensures LedgerAppended(i) <==>
      && i.baseLedger.schemaVersion == 1
      && exists x :: i.proposedLedger == Ledger(1, i.baseLedger.rotations + [x])
    ensures !LedgerAppended(i) ==> BrokenCodes(r, i) == {ReceiptInvalid}
  {
    if LedgerAppended(i) {
      assert i.proposedLedger.rotations == i.baseLedger.rotations + [ReceiptOf(i)];
    }
  }
}
