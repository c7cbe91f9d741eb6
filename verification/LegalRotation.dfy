/**
 The rules of a legal rotation, stated on their own: what a reader may rely on when a
 rotation is accepted, and what its author must bring about for it to be. The checker
 arrives at the same judgement through its thirty issue codes.
 */
module LegalRotation {
  import opened Basics
  import opened Texts
  import opened AuthorityPolicy
  import opened Patterns
  import opened AuthorityRotation
  import opened AuthorityShapes
  import opened RotationFacts

  // ---------- The rules ----------

  /** Seven days, in milliseconds. */
  const SEVEN_DAYS := 604_800_000

  /** The time can be read. */
  predicate Known(t: Time) { t.Canonical? || t.Loose? }

  predicate Timely(observed: Time, x: Receipt) {
    && Known(x.issuedAt) && Known(x.expiresAt) && Known(observed)
    && x.issuedAt.ms <= observed.ms <= x.expiresAt.ms
    && x.issuedAt.ms < x.expiresAt.ms <= x.issuedAt.ms + SEVEN_DAYS
  }

  /** The receipt has a fresh id and follows the last one. */
  ghost predicate Follows(rotations: seq<Receipt>, x: Receipt) {
    && RotationId(x.rotationId)
    && x.previousRotationId == (if rotations == [] then None else Some(rotations[|rotations| - 1].rotationId))
    && forall earlier | earlier in rotations :: earlier.rotationId != x.rotationId
  }

  /** The receipt binds what the rotation starts and ends with. */
  predicate Binds(i: Input, x: Receipt) {
    && x.baseLedgerSha256 == Sha256(i.baseLedgerBytes)
    && x.basePolicySha256 == Sha256(i.basePolicyBytes)
    && x.proposedPolicySha256 == Sha256(i.proposedPolicyBytes)
  }

  /** The receipt is the next link of the chain, in time, and binds what the rotation starts and ends with. */
  ghost predicate Links(i: Input, x: Receipt) {
    && i.baseLedger.schemaVersion == 1
    && i.proposedLedger == Ledger(1, i.baseLedger.rotations + [x])
    && Follows(i.baseLedger.rotations, x)
    && Revision(i.baseRevision) && x.baseRevision == i.baseRevision
    && Binds(i, x)
    && Timely(i.observedAt, x)
  }

  ghost predicate LegalRuntime(b: Policy, n: Policy, x: Receipt) {
    && x.successor.None?
    && n.successor == b.successor
    && (b.successor.Held? ==> LegalState(b.successor.state))
  }

  /** The stage at `k` opened the episode that is still open at the end of the ledger. */
  predicate OpensEpisode(rotations: seq<Receipt>, k: nat)
    requires k < |rotations|
  {
    && rotations[k].kind.StageSuccessor?
    && (forall l | k < l < |rotations| :: !rotations[l].kind.ActivateSuccessor?)
    && (forall j | 0 <= j < k && rotations[j].kind.StageSuccessor? ::
          exists l | j < l < k :: rotations[l].kind.ActivateSuccessor?)
  }

  /** The ledger's first receipt with this id staged this tuple. */
  predicate StagedBy(rotations: seq<Receipt>, id: string, t: SuccessorTuple) {
    exists k | 0 <= k < |rotations| ::
      && rotations[k].rotationId == id && (forall j | 0 <= j < k :: rotations[j].rotationId != id)
      && rotations[k].kind.StageSuccessor? && rotations[k].successor == Some(t)
  }

  predicate SameApps(t: SuccessorTuple, active: ActiveIdentity) {
    active.externalCheckAppId == Some(t.externalCheckAppId)
      && active.controllerCheckAppId == Some(t.controllerCheckAppId)
  }

  /** The deadline is ahead, and at most seven days after `start`. */
  predicate DeadlineWithin(i: Input, x: Receipt, t: SuccessorTuple, start: Time) {
    && Known(t.activationDeadline) && Known(x.issuedAt) && Known(i.observedAt) && Known(start)
    && i.observedAt.ms <= t.activationDeadline.ms
    && x.issuedAt.ms < t.activationDeadline.ms <= start.ms + SEVEN_DAYS
  }

  /** A first stage: its own issue time opens the window. */
  predicate LegalFirstStage(i: Input, x: Receipt, t: SuccessorTuple) {
    i.basePolicy.successor == Null && DeadlineWithin(i, x, t, x.issuedAt)
  }

  /** The staged tuple with another digest and another deadline. */
  predicate SameSuccessor(staged: SuccessorTuple, t: SuccessorTuple) {
    t == staged.(workflowSha256 := t.workflowSha256, activationDeadline := t.activationDeadline)
  }

  /** A re-stage: only digest and deadline differ from what is staged, and the window is that of the first stage. */
  ghost predicate LegalRestage(i: Input, x: Receipt, t: SuccessorTuple) {
    var b, rotations := i.basePolicy, i.baseLedger.rotations;
    && b.successor.Held? && LegalState(b.successor.state)
    && StagedBy(rotations, b.successor.state.stagedByRotationId, b.successor.state.tuple)
    && SameSuccessor(b.successor.state.tuple, t)
    && Get(b.protectedFiles, t.workflowPath) == Some(b.successor.state.tuple.workflowSha256)
    && exists k | 0 <= k < |rotations| :: OpensEpisode(rotations, k) && DeadlineWithin(i, x, t, rotations[k].issuedAt)
  }

  /** The active controller's checks and the successor's are four. */
  predicate ApartFrom(active: ActiveIdentity, t: SuccessorTuple) {
    && t.workflowPath != active.workflowPath
    && active.externalCheckName != active.controllerCheckName
    && t.externalCheckName != active.externalCheckName && t.externalCheckName != active.controllerCheckName
    && t.controllerCheckName != active.externalCheckName && t.controllerCheckName != active.controllerCheckName
    && t.externalCheckName != t.controllerCheckName
  }

  /** The template's bytes are pinned before and after, and stand at the workflow's path too. */
  predicate CopiesTemplate(i: Input, t: SuccessorTuple) {
    && Get(i.basePolicy.protectedFiles, t.templatePath) == Some(t.workflowSha256)
    && Get(i.proposedPolicy.protectedFiles, t.templatePath) == Some(t.workflowSha256)
    && Get(i.proposedPolicy.protectedFiles, t.workflowPath) == Some(t.workflowSha256)
    && t.templatePath in i.proposedFileContents
    && i.proposedFileContents[t.templatePath] ==
       (if t.workflowPath in i.proposedFileContents then i.proposedFileContents[t.workflowPath] else [])
  }

  /** The bytes already pinned as a template are now pinned as the workflow too, beside the active controller. */
  ghost predicate LegalStage(i: Input, x: Receipt) {
    var b, n := i.basePolicy, i.proposedPolicy;
    && x.successor.Some?
    && var t := x.successor.value;
       && LegalTuple(t)
       && n.successor == Held(SuccessorState(t, "staged", x.rotationId, None))
       && (LegalFirstStage(i, x, t) || LegalRestage(i, x, t))
       && SameApps(t, b.active) && ApartFrom(b.active, t) && CopiesTemplate(i, t)
       && Get(n.protectedFiles, b.active.workflowPath) == Get(b.protectedFiles, b.active.workflowPath)
  }

  /** The change deletes the file that was pinned to this digest. */
  predicate Deletes(change: FileChange, path: Path, pin: Digest) {
    change.path == path && change.fromSha256 == Some(pin) && change.toSha256.None?
  }

  /** The staged controller, exactly as its stage left it and in time, takes over from its predecessor,
      whose file and pin go; every other pin is carried over. */
  ghost predicate LegalActivation(i: Input, x: Receipt) {
    var b, n, rotations := i.basePolicy, i.proposedPolicy, i.baseLedger.rotations;
    && x.successor.Some? && b.successor.Held? && rotations != []
    && var t, stage, active := x.successor.value, rotations[|rotations| - 1], b.active.workflowPath;
       && LegalTuple(t)
       && b.successor.state == SuccessorState(t, "staged", stage.rotationId, None) && RotationId(stage.rotationId)
       && stage.kind.StageSuccessor? && stage.successor == Some(t)
       && n.successor == Null
       && IsActive(t, n.active) && SameApps(t, b.active)
       && Known(i.observedAt) && Known(t.activationDeadline) && i.observedAt.ms <= t.activationDeadline.ms
       && Get(b.protectedFiles, t.workflowPath) == Some(t.workflowSha256)
       && active != t.workflowPath && active in b.protectedFiles
       && active !in i.proposedPaths && active !in n.protectedFiles
       && (exists change | change in i.changedFiles :: Deletes(change, active, b.protectedFiles[active]))
       && (forall change | change in i.changedFiles :: change.path != t.workflowPath)
       && (forall path | path in b.protectedFiles && path != active ::
         Get(n.protectedFiles, path) == Some(b.protectedFiles[path]))
  }

  /** The active controller is the successor: its workflow, its checks, and their Apps. */
  predicate IsActive(t: SuccessorTuple, active: ActiveIdentity) {
    && active.workflowPath == t.workflowPath
    && active.externalCheckName == t.externalCheckName
    && active.externalCheckAppId == Some(t.externalCheckAppId)
    && active.controllerCheckName == t.controllerCheckName
    && active.controllerCheckAppId == Some(t.controllerCheckAppId)
  }

  /** What each kind asks for; only an activation touches the active controller, and only it drops a pin. */
  ghost predicate LegalKind(i: Input, x: Receipt) {
    var b, n := i.basePolicy, i.proposedPolicy;
    if x.kind.ActivateSuccessor? then LegalActivation(i, x)
    else
      && n.active == b.active
      && b.protectedFiles.Keys <= n.protectedFiles.Keys
      && (forall change | change in i.changedFiles :: change.path != b.active.workflowPath)
      && (x.kind.Runtime? || x.kind.StageSuccessor?)
      && (if x.kind.Runtime? then LegalRuntime(b, n, x) else LegalStage(i, x))
  }

  predicate WellFormed(change: FileChange) {
    && NormalPath(change.path)
    && (change.fromSha256.Some? || change.toSha256.Some?)
    && (change.fromSha256.Some? <==> change.fromMode.Some?) && (change.toSha256.Some? <==> change.toMode.Some?)
    && (change.fromSha256.Some? ==> change.fromSha256.value.Sha256?)
    && (change.toSha256.Some? ==> change.toSha256.value.Sha256?)
  }

  predicate DistinctPaths(changes: seq<FileChange>) {
    forall j, k | 0 <= j < k < |changes| :: changes[j].path != changes[k].path
  }

  /** The receipt lists the changed files, each once, well formed and in scope; a reviewer stays. */
  ghost predicate LegalChanges(i: Input, x: Receipt) {
    && multiset(x.changes) == multiset(i.changedFiles)
    && DistinctPaths(i.changedFiles)
    && (forall change | change in i.changedFiles :: WellFormed(change) && MayRotate(i.basePolicy, change.path))
    && exists reviewer | reviewer in i.basePolicy.reviewers :: reviewer in i.proposedPolicy.reviewers
  }

  /** Every pin is the digest of the proposed file, and a new one lies in the authority's own namespace. */
  ghost predicate LegalPins(i: Input) {
    forall path | path in i.proposedPolicy.protectedFiles ::
      && i.proposedPolicy.protectedFiles[path].Sha256?
      && Get(i.proposedFileDigests, path) == Some(i.proposedPolicy.protectedFiles[path])
      && (path in i.basePolicy.protectedFiles || InNamespace(path))
  }

  /** Of the files an import may mean, the first that is there is pinned. */
  predicate FirstIsPinned(candidates: seq<Path>, available: set<Path>, pins: set<Path>) {
    exists k | 0 <= k < |candidates| ::
      && candidates[k] in available && candidates[k] in pins
      && forall j | 0 <= j < k :: candidates[j] !in available
  }

  predicate ImportPinned(r: Readers, i: Input, path: Path, specifier: string) {
    FirstIsPinned(r.importCandidates(path, specifier), i.proposedPaths, i.proposedPolicy.protectedFiles.Keys)
  }

  /** Pinned code imports pinned code only, and by name. */
  ghost predicate LegalImports(r: Readers, i: Input) {
    forall path | path in i.proposedPolicy.protectedFiles && IsCode(path) && path in i.proposedFileContents ::
      && !r.dynamicImport(i.proposedFileContents[path])
      && forall specifier | specifier in r.imports(i.proposedFileContents[path]) :: ImportPinned(r, i, path, specifier)
  }

  ghost predicate Legal(r: Readers, i: Input) {
    && i.proposedLedger.rotations != []
    && var x := i.proposedLedger.rotations[|i.proposedLedger.rotations| - 1];
       && Links(i, x)
       && i.proposedPolicy.identity == i.basePolicy.identity
       && LegalKind(i, x) && LegalChanges(i, x) && LegalPins(i) && LegalImports(r, i)
  }

  // ---------- The receipt ----------

  lemma LinksExactly(i: Input)
    requires LedgerAppended(i)
    ensures !ReceiptBroken(i) && !DigestsBroken(i) <==> Links(i, ReceiptOf(i))
  {
    RotationIdExactly(ReceiptOf(i).rotationId);
    ShaExactly(i.baseRevision);
    hide IsRotationId, IsSha, RotationId, Matches;
    assert i.proposedLedger.rotations == i.baseLedger.rotations + [ReceiptOf(i)];
  }

  lemma AppendedIsLinked(i: Input, x: Receipt)
    requires Links(i, x)
    ensures LedgerAppended(i) && ReceiptOf(i) == x
  {
    hide RotationId, Revision;
  }

  lemma ReceiptExactly(i: Input)
    requires LedgerAppended(i)
    ensures ReceiptCodes(i) == {} <==>
      && Links(i, ReceiptOf(i)) && i.proposedPolicy.identity == i.basePolicy.identity
      && (!ReceiptOf(i).kind.ActivateSuccessor? ==> i.proposedPolicy.active == i.basePolicy.active)
  {
    hide Links, ReceiptBroken, DigestsBroken;
    LinksExactly(i);
    var all := ReceiptCodes(i);
    assert ReceiptBroken(i) ==> ReceiptInvalid in all;
    assert DigestsBroken(i) ==> PolicyDigestMismatch in all;
    assert i.basePolicy.identity != i.proposedPolicy.identity ==> IdentityDrift in all;
    assert !ReceiptOf(i).kind.ActivateSuccessor? && ActiveChanged(i) ==>
      IdentityDrift in all || StageActiveDrift in all;
  }

  // ---------- Reading the ledger ----------

  lemma {:induction false} FirstStageAt(rotations: seq<Receipt>, k: nat)
    requires k < |rotations| && rotations[k].kind.StageSuccessor?
    requires forall j | 0 <= j < k :: !rotations[j].kind.StageSuccessor?
    ensures FirstStage(rotations) == Some(rotations[k])
  {
    if k > 0 {
      assert forall j | 0 <= j < k :: rotations[1..][j] == rotations[j + 1];
      FirstStageAt(rotations[1..], k - 1);
    }
  }

  /** The rotation that opened the episode is the first stage after the last activation. */
  lemma OpenerIsOrigin(rotations: seq<Receipt>, k: nat)
    requires k < |rotations| && OpensEpisode(rotations, k)
    ensures EpisodeOrigin(rotations) == Some(rotations[k])
  {
    hide LastActivation, FirstStage;
    var last := LastActivation(rotations);
    assert last < k;
    var rest := rotations[last + 1..];
    forall j | 0 <= j < k - last - 1 ensures !rest[j].kind.StageSuccessor? {
      assert rest[j] == rotations[last + 1 + j];
    }
    assert rest[k - last - 1] == rotations[k];
    FirstStageAt(rest, k - last - 1);
  }

  lemma {:induction false} FirstStageIndex(rotations: seq<Receipt>) returns (k: nat)
    requires FirstStage(rotations).Some?
    ensures k < |rotations| && rotations[k].kind.StageSuccessor? && FirstStage(rotations) == Some(rotations[k])
    ensures forall j | 0 <= j < k :: !rotations[j].kind.StageSuccessor?
  {
    if rotations[0].kind.StageSuccessor? {
      k := 0;
    } else {
      var rest := FirstStageIndex(rotations[1..]);
      k := rest + 1;
      assert forall j | 0 < j < k :: rotations[1..][j - 1] == rotations[j];
    }
  }

  lemma OriginOpens(rotations: seq<Receipt>) returns (k: nat)
    requires EpisodeOrigin(rotations).Some?
    ensures k < |rotations| && OpensEpisode(rotations, k) && EpisodeOrigin(rotations) == Some(rotations[k])
  {
    hide *;
    OriginIsFirstStage(rotations);
    var last := LastActivation(rotations);
    var at := FirstStageIndex(rotations[last + 1..]);
    k := last + 1 + at;
    NoStageBetween(rotations, rotations[last + 1..], last, at);
    FirstAfterActivationOpens(rotations, last, k);
  }

  lemma OriginIsFirstStage(rotations: seq<Receipt>)
    ensures EpisodeOrigin(rotations) == FirstStage(rotations[LastActivation(rotations) + 1..])
  {
  }

  lemma NoStageBetween(rotations: seq<Receipt>, rest: seq<Receipt>, last: int, at: nat)
    requires -1 <= last < |rotations| && rest == rotations[last + 1..] && at < |rest|
    requires forall j | 0 <= j < at :: !rest[j].kind.StageSuccessor?
    ensures forall j | last < j < last + 1 + at :: !rotations[j].kind.StageSuccessor?
    ensures rest[at] == rotations[last + 1 + at]
  {
    forall j | last < j < last + 1 + at ensures !rotations[j].kind.StageSuccessor? {
      assert rest[j - last - 1] == rotations[j];
    }
  }

  lemma FirstAfterActivationOpens(rotations: seq<Receipt>, last: int, k: nat)
    requires -1 <= last < k < |rotations| && rotations[k].kind.StageSuccessor?
    requires last >= 0 ==> rotations[last].kind.ActivateSuccessor?
    requires forall j | last < j < |rotations| :: !rotations[j].kind.ActivateSuccessor?
    requires forall j | last < j < k :: !rotations[j].kind.StageSuccessor?
    ensures OpensEpisode(rotations, k)
  {
    assert forall j | 0 <= j < k && rotations[j].kind.StageSuccessor? :: j < last;
  }

  lemma {:induction false} FindRotationIndex(rotations: seq<Receipt>, id: string) returns (k: nat)
    requires FindRotation(rotations, id).Some?
    ensures k < |rotations| && rotations[k].rotationId == id && FindRotation(rotations, id) == Some(rotations[k])
    ensures forall j | 0 <= j < k :: rotations[j].rotationId != id
  {
    if rotations[0].rotationId == id {
      k := 0;
    } else {
      var rest := FindRotationIndex(rotations[1..], id);
      k := rest + 1;
      assert forall j | 0 < j < k :: rotations[1..][j - 1] == rotations[j];
    }
  }

  predicate FindsStage(rotations: seq<Receipt>, id: string, t: SuccessorTuple) {
    var found := FindRotation(rotations, id);
    found.Some? && found.value.kind.StageSuccessor? && found.value.successor == Some(t)
  }

  lemma FindRotationExactly(rotations: seq<Receipt>, id: string, t: SuccessorTuple)
    ensures FindsStage(rotations, id, t) <==> StagedBy(rotations, id, t)
  {
    hide FindRotation;
    if FindRotation(rotations, id).Some? {
      var k := FindRotationIndex(rotations, id);
    }
    forall k | 0 <= k < |rotations| && rotations[k].rotationId == id
        && (forall j | 0 <= j < k :: rotations[j].rotationId != id)
      ensures FindRotation(rotations, id) == Some(rotations[k])
    {
      FindRotationAt(rotations, k);
    }
  }

  /** The window of a re-stage starts where the open episode does. */
  lemma WindowExactly(i: Input, x: Receipt, t: SuccessorTuple)
    ensures (EpisodeOrigin(i.baseLedger.rotations).Some?
      && DeadlineWithin(i, x, t, EpisodeOrigin(i.baseLedger.rotations).value.issuedAt))
      <==> exists k | 0 <= k < |i.baseLedger.rotations| ::
             OpensEpisode(i.baseLedger.rotations, k) && DeadlineWithin(i, x, t, i.baseLedger.rotations[k].issuedAt)
  {
    hide EpisodeOrigin, OpensEpisode, DeadlineWithin;
    var rotations := i.baseLedger.rotations;
    if EpisodeOrigin(rotations).Some? {
      var k := OriginOpens(rotations);
    }
    forall k | 0 <= k < |rotations| && OpensEpisode(rotations, k)
      ensures EpisodeOrigin(rotations) == Some(rotations[k])
    {
      OpenerIsOrigin(rotations, k);
    }
  }

  // ---------- The kinds ----------

  lemma RuntimeExactly(i: Input)
    requires LedgerAppended(i) && ReceiptOf(i).kind.Runtime?
    ensures TransitionCodes(i) == {} <==> LegalRuntime(i.basePolicy, i.proposedPolicy, ReceiptOf(i))
  {
    if i.basePolicy.successor.Held? {
      StateExactly(i.basePolicy.successor.state);
    }
    hide ValidState, LegalState;
    assert SuccessorTouched(i) ==> TransitionInvalid in TransitionCodes(i);
  }

  lemma StageCodesExactly(i: Input)
    requires LedgerAppended(i) && Staging(i)
    ensures StageCodes(i) == {} <==>
      && !StageStateBroken(i) && !RestageAuthorityBroken(i) && !RestageDrifted(i) && !CollisionBroken(i)
      && !DeadlineBroken(i) && !PinningBroken(i) && !AppIdentityBroken(i) && !PredecessorRepinned(i)
  {
    hide StageStateBroken, RestageAuthorityBroken, RestageDrifted, DeadlineBroken, PinningBroken, AppIdentityBroken,
         CollisionBroken, PredecessorRepinned, Staging;
    var all := StageCodes(i);
    assert StageStateBroken(i) ==> StageStateInvalid in all;
    assert RestageAuthorityBroken(i) ==> RestageAuthorityInvalid in all;
    assert RestageDrifted(i) ==> RestageTupleDrift in all;
    assert CollisionBroken(i) ==> ContextCollision in all;
    assert DeadlineBroken(i) ==> DeadlineInvalid in all;
    assert PinningBroken(i) ==> WorkflowNotPinned in all;
    assert AppIdentityBroken(i) ==> AppIdentityDrift in all;
    assert PredecessorRepinned(i) ==> PredecessorNotRetained in all;
  }

  lemma ActivationCodesExactly(i: Input)
    requires LedgerAppended(i) && Activating(i)
    ensures ActivationCodes(i) == {} <==>
      && !ActivationStateBroken(i) && i.proposedPolicy.active == TupleIdentity(TupleOf(i)) && !AppIdentityBroken(i)
      && !ActivationLate(i) && !StagedBytesBroken(i) && !PredecessorKept(i) && !PinsMoved(i)
  {
    hide ActivationStateBroken, AppIdentityBroken, ActivationLate, StagedBytesBroken, PredecessorKept,
         PinsMoved, Activating;
    var all := ActivationCodes(i);
    assert ActivationStateBroken(i) ==> ActivationStateInvalid in all;
    assert i.proposedPolicy.active != TupleIdentity(TupleOf(i)) ==> ActivationIdentityInvalid in all;
    assert AppIdentityBroken(i) ==> AppIdentityDrift in all;
    assert ActivationLate(i) ==> ActivationExpired in all;
    assert StagedBytesBroken(i) || PinsMoved(i) ==> StagedBytesDrift in all;
    assert PredecessorKept(i) ==> PredecessorNotRemoved in all;
  }

  /** The window, the deadline and the authority of a stage or re-stage. */
  lemma WindowRuleExactly(i: Input)
    requires LedgerAppended(i) && Staging(i) && Links(i, ReceiptOf(i))
    ensures var x, t := ReceiptOf(i), TupleOf(i);
      !DeadlineBroken(i) <==>
        if !i.basePolicy.successor.Held? then DeadlineWithin(i, x, t, x.issuedAt)
        else exists k | 0 <= k < |i.baseLedger.rotations| ::
          OpensEpisode(i.baseLedger.rotations, k) && DeadlineWithin(i, x, t, i.baseLedger.rotations[k].issuedAt)
  {
    hide EpisodeOrigin, OpensEpisode, Follows, Revision, IsTemplatePath, IsAuthorityWorkflowPath, BaseName,
         LedgerAppended;
    WindowExactly(i, ReceiptOf(i), TupleOf(i));
  }

  lemma StagingExactly(i: Input)
    requires LedgerAppended(i) && Staging(i) && Links(i, ReceiptOf(i)) && LegalPins(i)
    requires i.proposedPolicy.active == i.basePolicy.active
    ensures StageCodes(i) == {} <==> LegalStage(i, ReceiptOf(i))
  {
    hide StageStateBroken, RestageAuthorityBroken, RestageDrifted, DeadlineBroken, PinningBroken,
         CollisionBroken, StageCodes, Links, LegalPins, LedgerAppended, ValidTuple, LegalTuple, LegalState,
         FindRotation, OpensEpisode, DeadlineWithin, StagedBy, SameSuccessor, ApartFrom;
    TupleExactly(TupleOf(i));
    StageCodesExactly(i);
    StateRuleExactly(i);
    WindowRuleExactly(i);
    PinningExactly(i);
    CollisionExactly(i);
    RestageExactly(i);
  }

  lemma StateRuleExactly(i: Input)
    requires LedgerAppended(i) && Staging(i) && Links(i, ReceiptOf(i))
    ensures !StageStateBroken(i) <==>
      i.proposedPolicy.successor == Held(SuccessorState(TupleOf(i), "staged", ReceiptOf(i).rotationId, None))
  {
    RotationIdExactly(ReceiptOf(i).rotationId);
    hide ValidTuple, IsRotationId, RotationId, Revision;
  }

  lemma CollisionExactly(i: Input)
    requires LedgerAppended(i) && Staging(i)
    ensures !CollisionBroken(i) <==> ApartFrom(i.basePolicy.active, TupleOf(i))
  {
    hide ValidTuple;
    var t, active := TupleOf(i), i.basePolicy.active;
    var names := [active.externalCheckName, active.controllerCheckName, t.externalCheckName, t.controllerCheckName];
    assert names[0] == active.externalCheckName && names[1] == active.controllerCheckName;
    assert names[2] == t.externalCheckName && names[3] == t.controllerCheckName;
  }

  /** With every pin the digest of its file, the digests of template and workflow need no rule of their own. */
  lemma PinningExactly(i: Input)
    requires LedgerAppended(i) && Staging(i) && LegalPins(i)
    ensures var b, t := i.basePolicy, TupleOf(i);
      !PinningBroken(i) <==>
        && (b.successor.Held? ==> Get(b.protectedFiles, t.workflowPath) == Some(b.successor.state.tuple.workflowSha256))
        && CopiesTemplate(i, t)
  {
    hide ValidTuple, InNamespace, LedgerAppended;
  }

  lemma RestageExactly(i: Input)
    requires LedgerAppended(i) && Staging(i)
    ensures var b, t := i.basePolicy, TupleOf(i);
      !RestageAuthorityBroken(i) && !RestageDrifted(i) <==>
        || b.successor == Null
        || (&& b.successor.Held? && LegalState(b.successor.state)
            && StagedBy(i.baseLedger.rotations, b.successor.state.stagedByRotationId, b.successor.state.tuple)
            && SameSuccessor(b.successor.state.tuple, t))
  {
    if i.basePolicy.successor.Held? {
      var staged := i.basePolicy.successor.state;
      StateExactly(staged);
      RestagedExactly(staged.tuple, TupleOf(i));
      hide ValidTuple, ValidState, LegalState, FindRotation, StagedBy, LedgerAppended, RestageIdentity, SameSuccessor;
      FindRotationExactly(i.baseLedger.rotations, staged.stagedByRotationId, staged.tuple);
    }
  }

  lemma RestagedExactly(a: SuccessorTuple, b: SuccessorTuple)
    ensures RestageIdentity(a) == RestageIdentity(b) <==> SameSuccessor(a, b)
  {
  }

  // ---------- Activation ----------

  lemma {:induction false} FindsOnlyChange(changes: seq<FileChange>, change: FileChange)
    requires DistinctPaths(changes) && change in changes
    ensures FindChange(changes, change.path) == Some(change)
  {
    if changes[0] != change {
      assert changes[1..] == changes[1..];
      assert forall k | 0 < k < |changes| :: changes[k] == changes[1..][k - 1];
      FindsOnlyChange(changes[1..], change);
    }
  }

  lemma DeletionExactly(changes: seq<FileChange>, path: Path, pin: Digest)
    requires DistinctPaths(changes) && forall change | change in changes :: WellFormed(change)
    ensures var d := FindChange(changes, path);
      (d.Some? && d.value.fromSha256 == Some(pin) && d.value.toSha256.None? && d.value.fromMode.Some?
        && d.value.toMode.None?)
        <==> exists change | change in changes :: Deletes(change, path, pin)
  {
    hide FindChange, NormalPath, DistinctPaths;
    forall change | change in changes && Deletes(change, path, pin) ensures FindChange(changes, path) == Some(change) {
      FindsOnlyChange(changes, change);
    }
  }

  lemma UnchangedExactly(changes: seq<FileChange>, path: Path)
    ensures !Changes(changes, path) <==> forall change | change in changes :: change.path != path
  {
  }

  lemma PredecessorExactly(i: Input)
    requires LedgerAppended(i) && Activating(i)
    requires DistinctPaths(i.changedFiles) && forall change | change in i.changedFiles :: WellFormed(change)
    ensures var active, pins := i.basePolicy.active.workflowPath, i.basePolicy.protectedFiles;
      !PredecessorKept(i) <==>
        && active != TupleOf(i).workflowPath && active in pins
        && active !in i.proposedPaths && active !in i.proposedPolicy.protectedFiles
        && exists change | change in i.changedFiles :: Deletes(change, active, pins[active])
  {
    hide FindChange, DistinctPaths, WellFormed, ValidTuple, LedgerAppended, Deletes;
    var active, pins := i.basePolicy.active.workflowPath, i.basePolicy.protectedFiles;
    if active in pins {
      DeletionExactly(i.changedFiles, active, pins[active]);
    }
  }

  lemma ActivationStateExactly(i: Input)
    requires LedgerAppended(i) && Activating(i)
    ensures var b, rotations, t := i.basePolicy, i.baseLedger.rotations, TupleOf(i);
      !ActivationStateBroken(i) <==>
        && b.successor.Held? && rotations != []
        && var stage := rotations[|rotations| - 1];
           && b.successor.state == SuccessorState(t, "staged", stage.rotationId, None) && RotationId(stage.rotationId)
           && stage.kind.StageSuccessor? && stage.successor == Some(t) && i.proposedPolicy.successor == Null
  {
    if i.baseLedger.rotations != [] {
      RotationIdExactly(i.baseLedger.rotations[|i.baseLedger.rotations| - 1].rotationId);
    }
    hide IsRotationId, RotationId, ValidTuple, LedgerAppended;
  }

  /** With the other pins carried over and every pin the digest of its file, the staged bytes stay. */
  lemma StagedBytesExactly(i: Input)
    requires LedgerAppended(i) && Activating(i) && LegalPins(i) && !PinsMoved(i)
    requires i.basePolicy.active.workflowPath != TupleOf(i).workflowPath
    ensures !StagedBytesBroken(i) <==>
      && Get(i.basePolicy.protectedFiles, TupleOf(i).workflowPath) == Some(TupleOf(i).workflowSha256)
      && forall change | change in i.changedFiles :: change.path != TupleOf(i).workflowPath
  {
    hide ValidTuple, InNamespace, LedgerAppended, Changes;
    UnchangedExactly(i.changedFiles, TupleOf(i).workflowPath);
    var path := TupleOf(i).workflowPath;
    assert !PinMoved(i, path);
  }

  lemma ActivatingExactly(i: Input)
    requires LedgerAppended(i) && Activating(i) && Links(i, ReceiptOf(i)) && LegalPins(i)
    requires DistinctPaths(i.changedFiles) && forall change | change in i.changedFiles :: WellFormed(change)
    ensures ActivationCodes(i) == {} <==> LegalActivation(i, ReceiptOf(i))
  {
    hide ActivationStateBroken, StagedBytesBroken, PredecessorKept, ActivationCodes, Links, LegalPins,
         LedgerAppended, ValidTuple, LegalTuple, RotationId, Deletes, DistinctPaths, WellFormed, ActivationLate;
    TupleExactly(TupleOf(i));
    ActivationCodesExactly(i);
    ActivationStateExactly(i);
    PredecessorExactly(i);
    ActivationTimes(i);
    if !PinsMoved(i) && i.basePolicy.active.workflowPath != TupleOf(i).workflowPath {
      StagedBytesExactly(i);
    }
  }

  lemma ActivationTimes(i: Input)
    requires LedgerAppended(i) && Activating(i) && Links(i, ReceiptOf(i))
    ensures var observed, deadline := i.observedAt, TupleOf(i).activationDeadline;
      !ActivationLate(i) <==> Known(observed) && Known(deadline) && observed.ms <= deadline.ms
  {
    hide IsTemplatePath, IsAuthorityWorkflowPath, Follows, Revision, BaseName;
  }

  // ---------- The changed files ----------

  lemma {:induction false} ChangedPathsExactly(changes: seq<FileChange>, n: nat)
    requires n <= |changes| && forall k | 0 <= k < n :: !ChangeBroken(changes[k])
    ensures forall path :: path in ChangedPaths(changes, n) <==> exists k | 0 <= k < n :: changes[k].path == path
  {
    hide ChangeBroken;
    if n > 0 {
      ChangedPathsExactly(changes, n - 1);
    }
  }

  /** No change among the first `n` is malformed, repeated or out of scope. */
  ghost predicate CleanTo(i: Input, n: nat)
    requires n <= |i.changedFiles|
  {
    && (forall k | 0 <= k < n :: WellFormed(i.changedFiles[k]) && MayRotate(i.basePolicy, i.changedFiles[k].path))
    && (forall j, k | 0 <= j < k < n :: i.changedFiles[j].path != i.changedFiles[k].path)
  }

  lemma WellFormedExactly(change: FileChange)
    ensures WellFormed(change) <==> !ChangeBroken(change)
  {
    NormalExactly(change.path);
    hide NormalPath, NormalizedPath;
  }

  lemma {:induction false} ChangeListExactly(i: Input, n: nat)
    requires n <= |i.changedFiles|
    ensures ChangeListCodes(i, n) == {} <==> CleanTo(i, n)
  {
    hide ChangeBroken, InScope, MayRotate, WellFormed;
    if n > 0 {
      ChangeListExactly(i, n - 1);
      assert ChangeListCodes(i, n) == {} <==> ChangeListCodes(i, n - 1) == {} && ChangeCodesAt(i, n - 1) == {};
      assert CleanTo(i, n) ==> CleanTo(i, n - 1);
      if CleanTo(i, n - 1) {
        OneMoreChange(i, n - 1);
      }
    }
  }

  lemma OneMoreChange(i: Input, n: nat)
    requires n < |i.changedFiles| && CleanTo(i, n)
    ensures ChangeCodesAt(i, n) == {} <==> CleanTo(i, n + 1)
  {
    hide ChangeBroken, InScope, MayRotate, WellFormed;
    forall k | 0 <= k <= n ensures WellFormed(i.changedFiles[k]) <==> !ChangeBroken(i.changedFiles[k]) {
      WellFormedExactly(i.changedFiles[k]);
    }
    ChangedPathsExactly(i.changedFiles, n);
    ScopeExactly(i.basePolicy, i.changedFiles[n].path);
    var codes := ChangeCodesAt(i, n);
    assert ChangeBrokenAt(i.changedFiles, n) ==> ChangeInvalid in codes;
    assert ChangeOutOfScope(i, n) ==> ScopeInvalid in codes;
  }

  lemma ChangesExactly(i: Input)
    requires LedgerAppended(i)
    ensures ChangeCodes(i) == {} <==>
      && LegalChanges(i, ReceiptOf(i))
      && (!ReceiptOf(i).kind.ActivateSuccessor? ==>
            forall change | change in i.changedFiles :: change.path != i.basePolicy.active.workflowPath)
  {
    hide ChangeListCodes, Changes, WellFormed, MayRotate, LedgerAppended;
    ChangeListExactly(i, |i.changedFiles|);
    UnchangedExactly(i.changedFiles, i.basePolicy.active.workflowPath);
    var all := ChangeCodes(i);
    assert !ReceiptOf(i).kind.ActivateSuccessor? && Changes(i.changedFiles, i.basePolicy.active.workflowPath) ==>
        WorkflowSuccessorRequired in all;
    assert i.basePolicy.reviewers * i.proposedPolicy.reviewers == {} ==> ReviewerContinuityRequired in all;
    assert multiset(ReceiptOf(i).changes) != multiset(i.changedFiles) ==> ChangesetMismatch in all;
    assert ChangeListCodes(i, |i.changedFiles|) <= all;
    CommonReviewer(i.basePolicy.reviewers, i.proposedPolicy.reviewers);
  }

  lemma CommonReviewer(a: set<Reviewer>, b: set<Reviewer>)
    ensures a * b != {} <==> exists reviewer | reviewer in a :: reviewer in b
  {
    assert forall reviewer :: reviewer in a * b <==> reviewer in a && reviewer in b;
  }

  // ---------- The pins and their imports ----------

  lemma DroppedExactly(i: Input)
    requires LedgerAppended(i)
    ensures DroppedCodes(i, i.basePolicy.protectedFiles.Keys) == {} <==>
      forall path | path in i.basePolicy.protectedFiles && path !in i.proposedPolicy.protectedFiles ::
        ReceiptOf(i).kind.ActivateSuccessor? && path == i.basePolicy.active.workflowPath
  {
    hide LedgerAppended;
    var all := DroppedCodes(i, i.basePolicy.protectedFiles.Keys);
    assert forall path | path in i.basePolicy.protectedFiles && PinDropped(i, path) :: ProtectedFileRemoved in all;
    assert all != {} ==> exists c :: c in all;
  }

  lemma PinExactly(i: Input, path: Path)
    requires path in i.proposedPolicy.protectedFiles
    ensures PinCodesAt(i, path) == {} <==>
      && i.proposedPolicy.protectedFiles[path].Sha256?
      && Get(i.proposedFileDigests, path) == Some(i.proposedPolicy.protectedFiles[path])
      && (path in i.basePolicy.protectedFiles || InNamespace(path))
  {
    NamespaceExactly(path);
    hide AdditionAllowed, InNamespace;
    assert PinOutsideNamespace(i, path) ==> ProtectedPathInvalid in PinCodesAt(i, path);
    assert PinMismatch(i, path) ==> ProtectedDigestInvalid in PinCodesAt(i, path);
  }

  lemma PinsExactly(i: Input)
    ensures PinCodes(i, i.proposedPolicy.protectedFiles.Keys) == {} <==> LegalPins(i)
  {
    var pins := i.proposedPolicy.protectedFiles;
    var all := PinCodes(i, pins.Keys);
    forall path | path in pins
      ensures PinCodesAt(i, path) == {} <==>
        && pins[path].Sha256? && Get(i.proposedFileDigests, path) == Some(pins[path])
        && (path in i.basePolicy.protectedFiles || InNamespace(path))
    {
      PinExactly(i, path);
    }
    hide PinCodesAt, InNamespace;
    assert forall path, c | path in pins && c in PinCodesAt(i, path) :: c in all;
    assert all != {} ==> exists c :: c in all;
  }

  lemma {:induction false} FirstAvailableExactly(candidates: seq<Path>, available: set<Path>, wanted: set<Path>)
    ensures (FirstAvailable(candidates, available).Some? && FirstAvailable(candidates, available).value in wanted) <==>
      FirstIsPinned(candidates, available, wanted)
  {
    if candidates != [] && candidates[0] !in available {
      var rest := candidates[1..];
      FirstAvailableExactly(rest, available, wanted);
      forall k | 0 <= k < |rest| ensures rest[k] == candidates[k + 1] {
      }
      forall k | 0 < k < |candidates| && candidates[k] in available && candidates[k] in wanted
          && forall j | 0 <= j < k :: candidates[j] !in available
        ensures FirstAvailable(candidates, available).Some? && FirstAvailable(candidates, available).value in wanted
      {
        assert rest[k - 1] in available && forall j | 0 <= j < k - 1 :: rest[j] !in available;
      }
    }
  }

  lemma ImportExactly(r: Readers, i: Input, path: Path, specifier: string)
    ensures (Resolve(r, i, path, specifier).Some?
      && Resolve(r, i, path, specifier).value in i.proposedPolicy.protectedFiles)
      <==> ImportPinned(r, i, path, specifier)
  {
    FirstAvailableExactly(r.importCandidates(path, specifier), i.proposedPaths, i.proposedPolicy.protectedFiles.Keys);
  }

  lemma ImportsAtExactly(r: Readers, i: Input, path: Path)
    requires ScannedFile(i, path)
    ensures ImportCodesAt(r, i, path) == {} <==>
      && !r.dynamicImport(i.proposedFileContents[path])
      && forall specifier | specifier in r.imports(i.proposedFileContents[path]) :: ImportPinned(r, i, path, specifier)
  {
    hide ImportPinned, CodeFile, Resolve;
    var imports := r.imports(i.proposedFileContents[path]);
    forall specifier | specifier in imports
      ensures (Resolve(r, i, path, specifier).Some?
        && Resolve(r, i, path, specifier).value in i.proposedPolicy.protectedFiles)
        <==> ImportPinned(r, i, path, specifier)
    {
      ImportExactly(r, i, path, specifier);
    }
    var codes := ImportCodesAt(r, i, path);
    assert ImportsDynamically(r, i, path) ==> DynamicImportForbidden in codes;
    assert ImportsUnresolved(r, i, path) ==> ImportUnresolved in codes;
    assert ImportsUnpinned(r, i, path) ==> ImportClosureIncomplete in codes;
  }

  lemma ImportsExactly(r: Readers, i: Input)
    ensures ImportCodes(r, i, i.proposedPolicy.protectedFiles.Keys) == {} <==> LegalImports(r, i)
  {
    var pins := i.proposedPolicy.protectedFiles;
    forall path | path in pins ensures CodeFile(path) <==> IsCode(path) {
      CodeExactly(path);
    }
    hide ImportCodesAt, ImportPinned, CodeFile, IsCode;
    var all := ImportCodes(r, i, pins.Keys);
    assert forall path, c | path in pins && c in ImportCodesAt(r, i, path) :: c in all;
    assert all != {} ==> exists c :: c in all;
    forall path | path in pins && !ScannedFile(i, path) ensures ImportCodesAt(r, i, path) == {} {
      UnscannedIsClean(r, i, path);
    }
    forall path | path in pins && ScannedFile(i, path)
      ensures ImportCodesAt(r, i, path) == {} <==>
        && !r.dynamicImport(i.proposedFileContents[path])
        && forall specifier | specifier in r.imports(i.proposedFileContents[path]) ::
          ImportPinned(r, i, path, specifier)
    {
      ImportsAtExactly(r, i, path);
    }
  }

  lemma UnscannedIsClean(r: Readers, i: Input, path: Path)
    requires !ScannedFile(i, path)
    ensures ImportCodesAt(r, i, path) == {}
  {
  }

  // ---------- The judgement ----------

  lemma PassesExactly(r: Readers, i: Input)
    requires LedgerAppended(i)
    ensures Accepted(r, i) <==>
      && ReceiptCodes(i) == {} && TransitionCodes(i) == {} && ChangeCodes(i) == {}
      && DroppedCodes(i, i.basePolicy.protectedFiles.Keys) == {}
      && PinCodes(i, i.proposedPolicy.protectedFiles.Keys) == {}
      && ImportCodes(r, i, i.proposedPolicy.protectedFiles.Keys) == {}
  {
    hide ReceiptCodes, TransitionCodes, ChangeCodes, PinCodes, ImportCodes, DroppedCodes;
    var a, b, c := ReceiptCodes(i), TransitionCodes(i), ChangeCodes(i);
    var d, e, f := DroppedCodes(i, i.basePolicy.protectedFiles.Keys), PinCodes(i, i.proposedPolicy.protectedFiles.Keys),
                   ImportCodes(r, i, i.proposedPolicy.protectedFiles.Keys);
    var all := a + b + c + d + e + f;
    assert a <= all && b <= all && c <= all && d <= all && e <= all && f <= all;
  }

  lemma TransitionExactly(i: Input)
    requires LedgerAppended(i) && Links(i, ReceiptOf(i)) && LegalPins(i) && LegalChanges(i, ReceiptOf(i))
    requires !ReceiptOf(i).kind.ActivateSuccessor? ==> i.proposedPolicy.active == i.basePolicy.active
    ensures TransitionCodes(i) == {} <==>
      match ReceiptOf(i).kind
      case Runtime => LegalRuntime(i.basePolicy, i.proposedPolicy, ReceiptOf(i))
      case StageSuccessor => LegalStage(i, ReceiptOf(i))
      case ActivateSuccessor => LegalActivation(i, ReceiptOf(i))
      case UnknownKind(_) => false
  {
    hide LedgerAppended, Links, LegalPins, LegalRuntime, StageCodes, ActivationCodes, ValidTuple, LegalTuple, MayRotate,
         WellFormed;
    var x := ReceiptOf(i);
    if x.successor.Some? {
      TupleExactly(x.successor.value);
    }
    if x.kind.Runtime? {
      RuntimeExactly(i);
    } else if Staging(i) {
      StagingExactly(i);
    } else if Activating(i) {
      ActivatingExactly(i);
    } else {
      assert x.kind.UnknownKind? ==> TransitionInvalid in TransitionCodes(i);
      assert !x.kind.UnknownKind? ==> TupleInvalid in TransitionCodes(i);
    }
  }

  lemma DropsOfActivation(i: Input, x: Receipt)
    requires LegalActivation(i, x)
    ensures forall path | path in i.basePolicy.protectedFiles && path !in i.proposedPolicy.protectedFiles ::
      path == i.basePolicy.active.workflowPath
  {
    hide LegalTuple, RotationId;
  }

  /** The checker accepts exactly the legal rotations. */
  lemma AcceptedExactly(r: Readers, i: Input)
    ensures Accepted(r, i) <==> Legal(r, i)
  {
    hide Accepted, LedgerAppended, Links, LegalPins, LegalRuntime, LegalStage, LegalActivation, LegalChanges,
         LegalImports;
    hide ReceiptCodes, TransitionCodes, ChangeCodes, PinCodes, ImportCodes, DroppedCodes;
    if LedgerAppended(i) {
      JudgedExactly(r, i);
      LastIsReceipt(i);
    } else {
      NotAppendedIsRejected(r, i);
      if Legal(r, i) {
        AppendedIsLinked(i, i.proposedLedger.rotations[|i.proposedLedger.rotations| - 1]);
      }
    }
  }

  lemma LastIsReceipt(i: Input)
    requires LedgerAppended(i)
    ensures i.proposedLedger.rotations != []
    ensures i.proposedLedger.rotations[|i.proposedLedger.rotations| - 1] == ReceiptOf(i)
  {
  }

  lemma NotAppendedIsRejected(r: Readers, i: Input)
    requires !LedgerAppended(i)
    ensures !Accepted(r, i)
  {
    assert ReceiptInvalid in BrokenCodes(r, i);
  }

  lemma JudgedExactly(r: Readers, i: Input)
    requires LedgerAppended(i)
    ensures Accepted(r, i) <==>
      && Links(i, ReceiptOf(i)) && i.proposedPolicy.identity == i.basePolicy.identity
      && LegalKind(i, ReceiptOf(i)) && LegalChanges(i, ReceiptOf(i)) && LegalPins(i) && LegalImports(r, i)
  {
    hide Accepted, LedgerAppended, Links, LegalPins, LegalRuntime, LegalStage, LegalActivation, LegalChanges,
         LegalImports;
    hide ReceiptCodes, TransitionCodes, ChangeCodes, PinCodes, ImportCodes, DroppedCodes;
    PassesExactly(r, i);
    ReceiptExactly(i);
    ChangesExactly(i);
    DroppedExactly(i);
    PinsExactly(i);
    ImportsExactly(r, i);
    if ReceiptCodes(i) == {} && LegalPins(i) && LegalChanges(i, ReceiptOf(i)) {
      TransitionExactly(i);
      if LegalActivation(i, ReceiptOf(i)) {
        DropsOfActivation(i, ReceiptOf(i));
      }
    }
  }

  lemma AcceptedIsLegal(r: Readers, i: Input)
    requires Accepted(r, i)
    ensures LedgerAppended(i) && Links(i, ReceiptOf(i)) && i.proposedPolicy.identity == i.basePolicy.identity
    ensures LegalKind(i, ReceiptOf(i)) && LegalChanges(i, ReceiptOf(i)) && LegalPins(i) && LegalImports(r, i)
  {
    hide Accepted, LedgerAppended, Links, LegalKind, LegalChanges, LegalPins, LegalImports;
    if !LedgerAppended(i) {
      NotAppendedIsRejected(r, i);
    }
    JudgedExactly(r, i);
  }
}
