/** The promises of the authority protocol, over every run and every position in it. */
module RotationTheorems {
  import opened Basics
  import opened Texts
  import opened AuthorityPolicy
  import opened AuthorityRotation
  import opened AuthorityShapes
  import opened LegalRotation
  import opened ProposalGate
  import opened LegalProposal
  import opened RotationFacts
  import opened RotationRuns

  ghost predicate StepAt(r: Readers, states: seq<Main>, ps: seq<Proposal>, k: nat)
    requires k < |ps| && |states| == |ps| + 1
  {
    Mergeable(r, states[k], ps[k]) && states[k + 1] == After(r, states[k], ps[k])
  }

  /** `states[0]` is a genesis and each accepted proposal leads to the next state. */
  ghost predicate Run(r: Readers, states: seq<Main>, ps: seq<Proposal>) {
    && |states| == |ps| + 1
    && Genesis(r, states[0])
    && forall k | 0 <= k < |ps| :: StepAt(r, states, ps, k)
  }

  lemma {:induction false} EveryStateIsGood(r: Readers, states: seq<Main>, ps: seq<Proposal>, k: nat)
    requires Run(r, states, ps) && k <= |ps|
    ensures Good(r, states[0], states[k])
  {
    hide Good, Genesis, Mergeable, After;
    if k == 0 {
      GenesisIsGood(r, states[0]);
    } else {
      EveryStateIsGood(r, states, ps, k - 1);
      assert StepAt(r, states, ps, k - 1);
      StepIsGood(r, states[0], states[k - 1], ps[k - 1]);
    }
  }

  lemma GenesisIsGood(r: Readers, g: Main)
    requires Genesis(r, g)
    ensures Good(r, g, g)
  {
    hide PinsTrue, Authentic, ActivePinned;
  }

  lemma StepIsGood(r: Readers, g: Main, m: Main, p: Proposal)
    requires Good(r, g, m) && Mergeable(r, m, p)
    ensures Good(r, g, After(r, m, p))
  {
    hide Good, After, RotationRequested, JudgedOn;
    if RotationRequested(p) {
      RotationStep(r, g, m, p);
    } else {
      ProductStep(r, g, m, p);
    }
  }

  /** In every reachable state every pinned path holds exactly the pinned surface,
      and the tree's own policy and ledger files parse to the state's policy and ledger. */
  lemma PinsStayTrue(r: Readers, states: seq<Main>, ps: seq<Proposal>, k: nat, path: Path)
    requires Run(r, states, ps) && k <= |ps|
    requires path in states[k].policy.protectedFiles
    ensures Authentic(r, states[k])
    ensures PlainPath(path) && path in states[k].tree && states[k].tree[path].File?
    ensures ReadFile(states[k].tree, path) == Some(states[k].tree[path].bytes)
    ensures IsPinned(r, path, states[k].tree[path].bytes, states[k].policy.protectedFiles[path])
  {
    hide LedgerTellsPolicy, EpisodeBounded, AppIdsFixed, ActivePinned, Authentic, NormalizedLocator, PlainPath;
    EveryStateIsGood(r, states, ps, k);
    assert PinTrue(r, states[k].tree, path, states[k].policy.protectedFiles[path]);
    PlainExactly(path);
    PinnedExactly(r, path, states[k].tree[path].bytes, states[k].policy.protectedFiles[path]);
  }

  // ---------- What a rotation appends ----------

  function NewReceipt(m: Main, n: Main): Receipt
    requires |n.ledger.rotations| == |m.ledger.rotations| + 1
  {
    n.ledger.rotations[|m.ledger.rotations|]
  }

  /** Step `k` is a rotation; its receipt is the one it appends. */
  ghost predicate Rotates(states: seq<Main>, ps: seq<Proposal>, k: nat) {
    && k < |ps| && |states| == |ps| + 1
    && ps[k].mergeBase.Some? && RotationRequested(ps[k])
    && |states[k + 1].ledger.rotations| == |states[k].ledger.rotations| + 1
  }

  ghost predicate RotatesAs(states: seq<Main>, ps: seq<Proposal>, k: nat, kind: Kind) {
    Rotates(states, ps, k) && NewReceipt(states[k], states[k + 1]).kind == kind
  }

  /** Each step either is a rotation that appends one receipt by a legal transition,
      or leaves policy and ledger alone. */
  lemma StepKinds(r: Readers, states: seq<Main>, ps: seq<Proposal>, k: nat)
    requires Run(r, states, ps) && k < |ps|
    ensures !Rotates(states, ps, k) ==>
      states[k + 1].policy == states[k].policy && states[k + 1].ledger == states[k].ledger
    ensures Rotates(states, ps, k) ==>
      && states[k + 1].ledger.rotations == states[k].ledger.rotations + [NewReceipt(states[k], states[k + 1])]
      && Transition(states[k].policy, states[k].ledger.rotations, NewReceipt(states[k], states[k + 1]),
                    states[k + 1].policy, ps[k].observedAt)
  {
    hide Authentic, Transition, RotationAccepted, ProductAccepted, ReadsComplete, JudgedOn, PinsTrue,
         ActivePinned, LedgerTellsPolicy, EpisodeBounded, AppIdsFixed, RotationRequested, Genesis;
    assert StepAt(r, states, ps, k);
    EveryStateIsGood(r, states, ps, k);
    if RotationRequested(ps[k]) {
      RotationAppends(r, states[k], ps[k]);
    }
  }

  lemma RotationAppends(r: Readers, m: Main, p: Proposal)
    requires Authentic(r, m) && Mergeable(r, m, p) && RotationRequested(p)
    ensures var n := After(r, m, p);
      && |n.ledger.rotations| == |m.ledger.rotations| + 1
      && n.ledger.rotations == m.ledger.rotations + [NewReceipt(m, n)]
      && Transition(m.policy, m.ledger.rotations, NewReceipt(m, n), n.policy, p.observedAt)
  {
    hide Accepted, Transition, Authentic, LedgerAppended, RotationInput, After;
    RotationBinds(r, m, p);
    InputAppends(r, m, After(r, m, p), RotationInput(r, p));
  }

  lemma InputAppends(r: Readers, m: Main, n: Main, i: Input)
    requires Accepted(r, i)
    requires i.basePolicy == m.policy && i.baseLedger == m.ledger
    requires i.proposedPolicy == n.policy && i.proposedLedger == n.ledger
    ensures |n.ledger.rotations| == |m.ledger.rotations| + 1
    ensures n.ledger.rotations == m.ledger.rotations + [NewReceipt(m, n)]
    ensures Transition(m.policy, m.ledger.rotations, NewReceipt(m, n), n.policy, i.observedAt)
  {
    hide Accepted, Transition;
    AcceptedTransition(r, i);
  }

  // ---------- The ledger is append-only and tells the policy ----------

  lemma {:induction false} LedgerOnlyGrows(r: Readers, states: seq<Main>, ps: seq<Proposal>, j: nat, k: nat)
    requires Run(r, states, ps) && j <= k <= |ps|
    ensures states[j].ledger.rotations <= states[k].ledger.rotations
    decreases k
  {
    hide Run, Transition, Rotates;
    if j < k {
      LedgerOnlyGrows(r, states, ps, j, k - 1);
      StepKinds(r, states, ps, k - 1);
    }
  }

  /** Folding the receipts from genesis rebuilds the active identity and the successor;
      ids are distinct and chained, and each activation directly follows its stage. */
  lemma LedgerReplaysToPolicy(r: Readers, states: seq<Main>, ps: seq<Proposal>, k: nat)
    requires Run(r, states, ps) && k <= |ps|
    ensures Replay(states[0].policy.active, states[k].ledger.rotations) == (states[k].policy.active,
      states[k].policy.successor)
    ensures Chained(states[k].ledger.rotations) && DistinctIds(states[k].ledger.rotations)
    ensures ActivationsFollowStages(states[k].ledger.rotations)
    ensures AppIdsFixed(states[0], states[k])
  {
    hide PinsTrue, ActivePinned, EpisodeBounded, Authentic, Replay, Chained, DistinctIds, ActivationsFollowStages;
    EveryStateIsGood(r, states, ps, k);
  }

  /** The latest stage since the last activation. */
  function LatestStage(rotations: seq<Receipt>): (x: Option<Receipt>)
    ensures x.Some? ==> x.value in rotations && x.value.kind.StageSuccessor?
  {
    if rotations == [] then None
    else
      var last := rotations[|rotations| - 1];
      if last.kind.StageSuccessor? then Some(last)
      else if last.kind.ActivateSuccessor? then None
      else LatestStage(rotations[..|rotations| - 1])
  }

  /** When and by which rotation the successor's current bytes were staged. */
  function StagingProvenance(policy: Policy, ledger: Ledger): Option<(string, Time)> {
    if !policy.successor.Held? then None
    else match FindRotation(ledger.rotations, policy.successor.state.stagedByRotationId)
      case Some(stage) => Some((policy.successor.state.stagedByRotationId, stage.issuedAt))
      case None => None
  }

  lemma {:induction false} ReplayEndsAtLatestStage(start: ActiveIdentity, rotations: seq<Receipt>)
    requires ActivationsFollowStages(rotations)
    ensures Replay(start, rotations).1 ==
      match LatestStage(rotations)
      case Some(x) =>
        if x.successor.Some? then Held(SuccessorState(x.successor.value, "staged", x.rotationId, None)) else Absent
      case None => Null
  {
    if rotations != [] {
      var before := rotations[..|rotations| - 1];
      assert forall j | 0 <= j < |before| :: before[j] == rotations[j];
      ReplayEndsAtLatestStage(start, before);
    }
  }

  /** The staging provenance is the id and issue time of the latest stage of the
      current episode, and is missing exactly when there is none. */
  lemma ProvenanceIsLatestStage(r: Readers, states: seq<Main>, ps: seq<Proposal>, k: nat)
    requires Run(r, states, ps) && k <= |ps|
    ensures StagingProvenance(states[k].policy, states[k].ledger) ==
      match LatestStage(states[k].ledger.rotations)
      case Some(x) => Some((x.rotationId, x.issuedAt))
      case None => None
  {
    hide AppIdsFixed, Replay, Chained, StepAt, Genesis, LatestStage;
    LedgerReplaysToPolicy(r, states, ps, k);
    var rotations := states[k].ledger.rotations;
    ReplayEndsAtLatestStage(states[0].policy.active, rotations);
    var latest := LatestStage(rotations);
    if latest.Some? {
      var q :| 0 <= q < |rotations| && rotations[q] == latest.value;
      FindRotationAt(rotations, q);
    }
  }

  // ---------- The activation window ----------

  /** An activation is observed no later than seven days after the issue time of the
      first stage since the previous activation, however many re-stages and runtime
      rotations lie between; and there is such a stage. */
  lemma ActivationWindowIsAbsolute(r: Readers, states: seq<Main>, ps: seq<Proposal>, k: nat)
    requires Run(r, states, ps) && RotatesAs(states, ps, k, ActivateSuccessor)
    ensures EpisodeOrigin(states[k].ledger.rotations).Some?
    ensures var origin := EpisodeOrigin(states[k].ledger.rotations).value;
      Known(ps[k].observedAt) && Known(origin.issuedAt) && ps[k].observedAt.ms <= origin.issuedAt.ms + 604_800_000
  {
    hide Run, LegalTuple, EpisodeOrigin, Continues, PinsTrue, Authentic, ActivePinned, LedgerTellsPolicy, AppIdsFixed;
    StepKinds(r, states, ps, k);
    EveryStateIsGood(r, states, ps, k);
  }

  /** A successor is staged exactly while the current episode has a stage; its tuple
      differs from the episode's first only in the digest and the deadline. */
  lemma StagedExactlyInEpisode(r: Readers, states: seq<Main>, ps: seq<Proposal>, k: nat)
    requires Run(r, states, ps) && k <= |ps|
    ensures states[k].policy.successor.Held? <==> EpisodeOrigin(states[k].ledger.rotations).Some?
    ensures !states[k].policy.successor.Held? ==> states[k].policy.successor == Null
    ensures states[k].policy.successor.Held? ==>
      var origin := EpisodeOrigin(states[k].ledger.rotations).value;
      var staged := states[k].policy.successor.state.tuple;
      && origin.successor.Some?
      && var first := origin.successor.value;
         staged == first.(workflowSha256 := staged.workflowSha256, activationDeadline := staged.activationDeadline)
  {
    hide Run, LegalTuple, EpisodeOrigin, PinsTrue, Authentic, ActivePinned,
         LedgerTellsPolicy, AppIdsFixed;
    EveryStateIsGood(r, states, ps, k);
  }

  // ---------- Two-step provenance ----------

  lemma RunShape(r: Readers, states: seq<Main>, ps: seq<Proposal>)
    requires Run(r, states, ps)
    ensures |states| == |ps| + 1 && states[0].ledger.rotations == []
  {
    hide StepAt, PinsTrue, ActivePinned, Authentic;
  }

  /** The step that appended the receipt at position `q` of a later ledger. */
  lemma {:induction false} ReceiptWasAppended(
    r: Readers, states: seq<Main>, ps: seq<Proposal>, k: nat, q: nat) returns (j: nat)
    requires Run(r, states, ps) && k <= |ps| && q < |states[k].ledger.rotations|
    ensures j < k && Rotates(states, ps, j) && |states[j].ledger.rotations| == q
    ensures NewReceipt(states[j], states[j + 1]) == states[k].ledger.rotations[q]
  {
    hide Run, Transition, RotationRequested;
    RunShape(r, states, ps);
    StepKinds(r, states, ps, k - 1);
    if q < |states[k - 1].ledger.rotations| {
      j := ReceiptWasAppended(r, states, ps, k - 1, q);
    } else {
      j := k - 1;
    }
  }

  lemma StagePinsTemplate(b: Policy, rotations: seq<Receipt>, x: Receipt, n: Policy, observedAt: Time)
    requires Transition(b, rotations, x, n, observedAt) && x.kind.StageSuccessor?
    ensures x.successor.Some?
    ensures var t := x.successor.value;
      && "config/production-closure-successors/" <= t.templatePath
      && t.templatePath != MANIFEST_PATH
      && t.workflowSha256.Sha256?
      && Get(b.protectedFiles, t.templatePath) == Some(t.workflowSha256)
  {
    hide Continues, EpisodeOrigin, IsAuthorityWorkflowPath, BaseName, EndsWith;
    assert x.successor.value.templatePath[0] == TEMPLATE_PREFIX[0];
  }

  lemma ActivationFollowsStage(b: Policy, rotations: seq<Receipt>, x: Receipt, n: Policy, observedAt: Time)
    requires Transition(b, rotations, x, n, observedAt) && x.kind.ActivateSuccessor?
    ensures x.successor.Some? && n.active == ActiveOf(x.successor.value)
    ensures |rotations| > 0
    ensures rotations[|rotations| - 1].kind == StageSuccessor && rotations[|rotations| - 1].successor == x.successor
  {
    hide Continues, EpisodeOrigin, LegalTuple;
  }

  /** Every activated workflow had its digest pinned as an inert template, with the
      tree holding those bytes at the template path, strictly before the stage that
      made it executable; nothing was rotated between that stage and the activation. */
  lemma ActivatedBytesWereTemplateFirst(r: Readers, states: seq<Main>, ps: seq<Proposal>, k: nat) returns (j: nat)
    requires Run(r, states, ps) && RotatesAs(states, ps, k, ActivateSuccessor)
    ensures j < k && RotatesAs(states, ps, j, StageSuccessor)
    ensures states[j + 1].ledger.rotations == states[k].ledger.rotations
    ensures NewReceipt(states[k], states[k + 1]).successor.Some?
    ensures NewReceipt(states[j], states[j + 1]).successor == NewReceipt(states[k], states[k + 1]).successor
    ensures var t := NewReceipt(states[k], states[k + 1]).successor.value;
      && "config/production-closure-successors/" <= t.templatePath
      && Get(states[j].policy.protectedFiles, t.templatePath) == Some(t.workflowSha256)
      && t.workflowSha256.Sha256?
      && ReadFile(states[j].tree, t.templatePath) == Some(t.workflowSha256.preimage)
      && states[k + 1].policy.active == ActiveOf(t)
  {
    hide Run, Transition, RotationRequested, IsTemplatePath, ReadFile, Authentic;
    RunShape(r, states, ps);
    StepKinds(r, states, ps, k);
    var rotations, x := states[k].ledger.rotations, NewReceipt(states[k], states[k + 1]);
    ActivationFollowsStage(states[k].policy, rotations, x, states[k + 1].policy, ps[k].observedAt);
    j := ReceiptWasAppended(r, states, ps, k, |rotations| - 1);
    StepKinds(r, states, ps, j);
    var stage := NewReceipt(states[j], states[j + 1]);
    StagePinsTemplate(states[j].policy, states[j].ledger.rotations, stage, states[j + 1].policy, ps[j].observedAt);
    LedgerOnlyGrows(r, states, ps, j + 1, k);
    PinsStayTrue(r, states, ps, j, stage.successor.value.templatePath);
  }

  // ---------- The active workflow's bytes ----------

  /** Outside an activation neither the active workflow's path nor its bytes change. */
  lemma ActiveBytesStable(r: Readers, states: seq<Main>, ps: seq<Proposal>, k: nat)
    requires Run(r, states, ps) && k < |ps| && !RotatesAs(states, ps, k, ActivateSuccessor)
    ensures states[k + 1].policy.active == states[k].policy.active
    ensures var active := states[k].policy.active.workflowPath;
      ReadFile(states[k].tree, active).Some? && ReadFile(states[k + 1].tree, active) == ReadFile(states[k].tree, active)
  {
    hide Authentic, PinsTrue, Genesis, LedgerTellsPolicy, EpisodeBounded, AppIdsFixed, Continues, After, Mergeable,
         NormalizedLocator, LegalTuple, EpisodeOrigin;
    StepKinds(r, states, ps, k);
    EveryStateIsGood(r, states, ps, k);
    var active := states[k].policy.active.workflowPath;
    PinsStayTrue(r, states, ps, k, active);
    if Rotates(states, ps, k) {
      assert StepAt(r, states, ps, k);
      RotationKeepsActiveFile(r, states[k], ps[k]);
    } else {
      PinsStayTrue(r, states, ps, k + 1, active);
    }
  }

  /** A rotation that does not activate leaves the active workflow's tree entry alone. */
  lemma RotationKeepsActiveFile(r: Readers, m: Main, p: Proposal)
    requires Authentic(r, m) && ActivePinned(m) && Mergeable(r, m, p) && RotationRequested(p)
    requires ReadFile(m.tree, m.policy.active.workflowPath).Some?
    requires |After(r, m, p).ledger.rotations| == |m.ledger.rotations| + 1
    requires !NewReceipt(m, After(r, m, p)).kind.ActivateSuccessor?
    ensures Get(After(r, m, p).tree, m.policy.active.workflowPath) == Get(m.tree, m.policy.active.workflowPath)
  {
    hide Accepted, Authentic, RotationInput, After, NormalizedLocator;
    RotationBinds(r, m, p);
    NoActiveChange(r, m, After(r, m, p), RotationInput(r, p));
    var active := m.policy.active.workflowPath;
    if Differs(p, active) {
      DifferenceIsListed(p, active);
    }
  }

  lemma NoActiveChange(r: Readers, m: Main, n: Main, i: Input)
    requires Accepted(r, i) && i.basePolicy == m.policy && i.baseLedger == m.ledger && i.proposedLedger == n.ledger
    requires |n.ledger.rotations| == |m.ledger.rotations| + 1
    requires !NewReceipt(m, n).kind.ActivateSuccessor?
    ensures !Changes(i.changedFiles, m.policy.active.workflowPath)
  {
    hide Accepted, Links, LegalRuntime, LegalStage, LegalActivation, LegalChanges, LegalPins, LegalImports;
    AcceptedIsLegal(r, i);
  }

  lemma DifferenceIsListed(p: Proposal, path: Path)
    requires DiffClean(p) && Differs(p, path) && path in p.allPaths
    ensures Changes(ChangeList(p, p.allPaths), path)
  {
    var change := ChangeOf(p, path);
    assert change in ChangeList(p, p.allPaths);
  }

  /** An activation installs exactly the staged digest: those bytes already stood at the
      successor's path, they are untouched, and the predecessor's file is gone. */
  lemma ActivationInstallsStagedBytes(r: Readers, states: seq<Main>, ps: seq<Proposal>, k: nat)
    requires Run(r, states, ps) && RotatesAs(states, ps, k, ActivateSuccessor)
    ensures states[k].policy.successor.Held?
    ensures var t := states[k].policy.successor.state.tuple;
      && states[k + 1].policy.active == ActiveOf(t)
      && t.workflowSha256.Sha256?
      && ReadFile(states[k].tree, t.workflowPath) == Some(t.workflowSha256.preimage)
      && ReadFile(states[k + 1].tree, t.workflowPath) == Some(t.workflowSha256.preimage)
      && t.workflowPath != states[k].policy.active.workflowPath
      && states[k].policy.active.workflowPath !in states[k + 1].tree
  {
    hide Authentic, PinsTrue, LedgerTellsPolicy, EpisodeBounded, AppIdsFixed, Continues, After, Mergeable, Genesis,
         NormalizedLocator, EpisodeOrigin, EndsWith, BaseName, IsTemplatePath;
    StepKinds(r, states, ps, k);
    EveryStateIsGood(r, states, ps, k);
    var t := states[k].policy.successor.state.tuple;
    PinsStayTrue(r, states, ps, k, t.workflowPath);
    PinsStayTrue(r, states, ps, k + 1, t.workflowPath);
    assert t.workflowPath[0] == WORKFLOW_PREFIX[0];
    assert StepAt(r, states, ps, k);
    ActivationRemovesPredecessor(r, states[k], ps[k]);
  }

  lemma ActivationRemovesPredecessor(r: Readers, m: Main, p: Proposal)
    requires Authentic(r, m) && Mergeable(r, m, p) && RotationRequested(p)
    requires |After(r, m, p).ledger.rotations| == |m.ledger.rotations| + 1
    requires NewReceipt(m, After(r, m, p)).kind.ActivateSuccessor?
    ensures m.policy.active.workflowPath !in After(r, m, p).tree
  {
    hide Accepted, Authentic, RotationInput, After;
    RotationBinds(r, m, p);
    PredecessorGone(r, m, After(r, m, p), RotationInput(r, p));
  }

  lemma PredecessorGone(r: Readers, m: Main, n: Main, i: Input)
    requires Accepted(r, i) && i.basePolicy == m.policy && i.baseLedger == m.ledger && i.proposedLedger == n.ledger
    requires |n.ledger.rotations| == |m.ledger.rotations| + 1
    requires NewReceipt(m, n).kind.ActivateSuccessor?
    ensures m.policy.active.workflowPath !in i.proposedPaths
  {
    hide Accepted, Links, LegalActivation, LegalChanges, LegalPins, LegalImports;
    AcceptedIsLegal(r, i);
    ActivationSteps(i, ReceiptOf(i));
  }

  // ---------- Rotations that are not up to date ----------

  /** Both trees hold the same surface at the path. */
  predicate SameSurface(r: Readers, a: Tree, b: Tree, path: Path) {
    && ReadFile(a, path).Some? && ReadFile(b, path).Some?
    && SurfaceDigest(r, path, ReadFile(a, path).value) == SurfaceDigest(r, path, ReadFile(b, path).value)
  }

  /** An accepted rotation that branched from an earlier state of the run keeps a pin of its policy, when
      merged, exactly if it touched the pinned path or the branch still holds what it held at that state. */
  lemma EarlierBaseKeepsPinExactly(
    r: Readers, states: seq<Main>, ps: seq<Proposal>, j: nat, k: nat, p: Proposal, path: Path)
    requires Run(r, states, ps) && j <= k <= |ps|
    requires JudgedOn(states[k], p) && GateAccepts(r, p) && RotationRequested(p)
    requires p.mergeBase == Some(states[j].tree) && path in PolicyIn(r, p.head).value.protectedFiles
    ensures var pin := PolicyIn(r, p.head).value.protectedFiles[path];
      PinTrue(r, PathMerge(states[k].tree, states[j].tree, p.head), path, pin) <==>
        Touched(p, path) || SameSurface(r, states[j].tree, states[k].tree, path)
  {
    hide ReadsComplete, BaseAuthorityValid, RotationAccepted, ProductAccepted, RotationRequested, NormalizedLocator,
         PathMerge, SurfaceDigest, Run;
    RunShape(r, states, ps);
    HeadHoldsPin(r, states[k], p, path);
    UnrebasedRotationKeepsPinExactly(r, states[k], p, path);
  }

  lemma {:induction false} PolicyStaysWithoutRotation(r: Readers, states: seq<Main>, ps: seq<Proposal>, j: nat, k: nat)
    requires Run(r, states, ps) && j <= k <= |ps|
    requires forall l | j <= l < k :: !Rotates(states, ps, l)
    ensures states[k].policy == states[j].policy
    decreases k
  {
    hide Run, Rotates, Transition;
    RunShape(r, states, ps);
    if j < k {
      PolicyStaysWithoutRotation(r, states, ps, j, k - 1);
      StepKinds(r, states, ps, k - 1);
    }
  }

  /** So what the branch pins already is only lost by a rotation that branched before another rotation. */
  lemma PinnedPathIsKept(r: Readers, states: seq<Main>, ps: seq<Proposal>, j: nat, k: nat, p: Proposal, path: Path)
    requires Run(r, states, ps) && j <= k <= |ps|
    requires JudgedOn(states[k], p) && GateAccepts(r, p) && RotationRequested(p)
    requires p.mergeBase == Some(states[j].tree) && path in PolicyIn(r, p.head).value.protectedFiles
    requires path in states[k].policy.protectedFiles && forall l | j <= l < k :: !Rotates(states, ps, l)
    ensures PinTrue(r, PathMerge(states[k].tree, states[j].tree, p.head), path,
                    PolicyIn(r, p.head).value.protectedFiles[path])
  {
    hide GateAccepts, JudgedOn, RotationRequested, Run, Rotates, PinTrue, PathMerge, Touched, SurfaceDigest, PolicyIn;
    RunShape(r, states, ps);
    EarlierBaseKeepsPinExactly(r, states, ps, j, k, p, path);
    PolicyStaysWithoutRotation(r, states, ps, j, k);
    PinsStayTrue(r, states, ps, j, path);
    PinsStayTrue(r, states, ps, k, path);
    PinnedExactly(r, path, states[j].tree[path].bytes, states[j].policy.protectedFiles[path]);
    PinnedExactly(r, path, states[k].tree[path].bytes, states[k].policy.protectedFiles[path]);
  }
}
