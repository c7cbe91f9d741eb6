/**
 Whole runs of the protected branch: from a genesis with an empty ledger, any
 interleaving of product merges (against any merge base) and up-to-date
 rotations that the gate accepts.
 */
module RotationRuns {
  import opened Basics
  import opened Texts
  import opened AuthorityPolicy
  import opened AuthorityRotation
  import opened AuthorityShapes
  import opened LegalRotation
  import opened ProposalGate
  import opened RotationFacts

  /** The protected branch, with the policy and ledger that its tree holds. */
  datatype Main = Main(tree: Tree, policy: Policy, ledger: Ledger)

  ghost predicate Authentic(r: Readers, m: Main) {
    var policyBytes, ledgerBytes := ReadFile(m.tree, POLICY_PATH), ReadFile(m.tree, m.policy.identity.manifestPath);
    && policyBytes.Some? && r.policy(policyBytes.value) == Some(m.policy)
    && ledgerBytes.Some? && r.ledger(ledgerBytes.value) == Some(m.ledger)
  }

  /** A path-level merge: the head's version where the head touched the path, else the base's. */
  function PathMerge(base: Tree, mergeBase: Tree, head: Tree): Tree {
    map path | path in base.Keys + head.Keys &&
               (if Get(mergeBase, path) != Get(head, path) then path in head else path in base)
      :: if Get(mergeBase, path) != Get(head, path) then head[path] else base[path]
  }

  lemma PathMergeAt(base: Tree, mergeBase: Tree, head: Tree, path: Path)
    ensures Get(PathMerge(base, mergeBase, head), path) ==
      if Get(mergeBase, path) != Get(head, path) then Get(head, path) else Get(base, path)
  {
  }

  lemma UpToDateMergeIsHead(base: Tree, head: Tree)
    ensures PathMerge(base, base, head) == head
  {
    forall path ensures Get(PathMerge(base, base, head), path) == Get(head, path) {
      PathMergeAt(base, base, head, path);
    }
    assert forall path :: path in PathMerge(base, base, head) <==> path in head;
  }

  /** The gate judges the proposal against this state of the branch. */
  ghost predicate JudgedOn(m: Main, p: Proposal) {
    && p.policy == m.policy
    && p.baseTree == m.tree
    && ReadFile(m.tree, POLICY_PATH) == Some(p.basePolicyBytes)
    && ReadFile(m.tree, m.policy.identity.manifestPath) == Some(p.baseLedgerBytes)
    && Enumerates(p.allPaths, p.baseTree.Keys + p.head.Keys)
  }

  /** Accepted, and a rotation is up to date with the branch. */
  ghost predicate Mergeable(r: Readers, m: Main, p: Proposal) {
    && JudgedOn(m, p)
    && GateAccepts(r, p)
    && (RotationRequested(p) ==> p.mergeBase == Some(m.tree))
  }

  function After(r: Readers, m: Main, p: Proposal): Main
    requires Mergeable(r, m, p)
  {
    var tree := PathMerge(m.tree, p.mergeBase.value, p.head);
    if RotationRequested(p) then
      Main(tree, PolicyIn(r, p.head).value, LedgerIn(r, p.head, p.policy.identity.manifestPath).value)
    else Main(tree, m.policy, m.ledger)
  }

  // ---------- State properties ----------

  ghost predicate PinTrue(r: Readers, tree: Tree, path: Path, pin: Digest) {
    && NormalizedLocator(path) == Some(path)
    && ReadFile(tree, path).Some?
    && SurfaceDigest(r, path, ReadFile(tree, path).value) == pin
  }

  /** Each pinned path holds exactly the pinned surface. */
  ghost predicate PinsTrue(r: Readers, m: Main) {
    forall path | path in m.policy.protectedFiles :: PinTrue(r, m.tree, path, m.policy.protectedFiles[path])
  }

  ghost predicate ActivePinned(m: Main) {
    var active, manifest := m.policy.active.workflowPath, m.policy.identity.manifestPath;
    && active in m.policy.protectedFiles
    && active != MANIFEST_PATH
    && active != manifest
    && !IsAuthorityWorkflowPath(manifest)
    && NormalizedLocator(manifest) == Some(manifest)
  }

  ghost predicate Genesis(r: Readers, m: Main) {
    && Authentic(r, m)
    && PinsTrue(r, m)
    && ActivePinned(m)
    && m.policy.successor == Null
    && m.ledger.rotations == []
  }

  // ---------- The ledger as the history of the policy ----------

  ghost predicate Chained(rotations: seq<Receipt>) {
    && (|rotations| > 0 ==> rotations[0].previousRotationId == None)
    && forall j, k | 0 <= j < k < |rotations| && k == j + 1 ::
         rotations[k].previousRotationId == Some(rotations[j].rotationId)
  }

  ghost predicate DistinctIds(rotations: seq<Receipt>) {
    forall j, k | 0 <= j < k < |rotations| :: rotations[j].rotationId != rotations[k].rotationId
  }

  /** Stages and activations carry a tuple; an activation directly follows the stage of the same tuple. */
  ghost predicate ActivationsFollowStages(rotations: seq<Receipt>) {
    && (forall k | 0 <= k < |rotations| && !rotations[k].kind.Runtime? :: rotations[k].successor.Some?)
    && (|rotations| > 0 ==> !rotations[0].kind.ActivateSuccessor?)
    && forall j, k | 0 <= j < k < |rotations| && k == j + 1 && rotations[k].kind.ActivateSuccessor? ::
         rotations[j].kind.StageSuccessor? && rotations[j].successor == rotations[k].successor
  }

  /** What the receipts alone say the active identity and the successor are. */
  ghost function Replay(start: ActiveIdentity, rotations: seq<Receipt>): (ActiveIdentity, Successor) {
    if rotations == [] then (start, Null)
    else
      var last, before := rotations[|rotations| - 1], Replay(start, rotations[..|rotations| - 1]);
      if last.kind.StageSuccessor? && last.successor.Some? then
        (before.0, Held(SuccessorState(last.successor.value, "staged", last.rotationId, None)))
      else if last.kind.ActivateSuccessor? && last.successor.Some? then (ActiveOf(last.successor.value), Null)
      else before
  }

  /** The active identity that a successor's activation makes. */
  ghost function ActiveOf(t: SuccessorTuple): (active: ActiveIdentity)
    ensures IsActive(t, active)
  {
    ActiveIdentity(t.workflowPath, t.externalCheckName, Some(t.externalCheckAppId), t.controllerCheckName,
      Some(t.controllerCheckAppId))
  }

  ghost predicate LedgerTellsPolicy(g: Main, m: Main) {
    var rotations := m.ledger.rotations;
    && Chained(rotations)
    && DistinctIds(rotations)
    && ActivationsFollowStages(rotations)
    && Replay(g.policy.active, rotations) == (m.policy.active, m.policy.successor)
  }

  /** The window and the fixed identity of the staged successor, measured from the episode's first stage. */
  ghost predicate EpisodeBounded(m: Main) {
    var origin := EpisodeOrigin(m.ledger.rotations);
    && (m.policy.successor == Null <==> origin.None?)
    && (origin.Some? ==>
          && m.policy.successor.Held?
          && var t := m.policy.successor.state.tuple;
             && LegalTuple(t)
             && origin.value.successor.Some?
             && SameSuccessor(origin.value.successor.value, t)
             && Known(origin.value.issuedAt)
             && t.activationDeadline.ms <= origin.value.issuedAt.ms + SEVEN_DAYS)
  }

  ghost predicate AppIdsFixed(g: Main, m: Main) {
    && m.policy.active.externalCheckAppId == g.policy.active.externalCheckAppId
    && m.policy.active.controllerCheckAppId == g.policy.active.controllerCheckAppId
  }

  ghost predicate Good(r: Readers, g: Main, m: Main) {
    && Authentic(r, m)
    && PinsTrue(r, m)
    && ActivePinned(m)
    && LedgerTellsPolicy(g, m)
    && EpisodeBounded(m)
    && AppIdsFixed(g, m)
  }

  // ---------- Locators ----------

  /** A normalized locator is its own locator. */
  lemma NormalizedIsFixed(locator: string, path: Path)
    requires NormalizedLocator(locator) == Some(path)
    ensures NormalizedLocator(path) == Some(path)
    ensures '#' !in locator ==> path == locator
  {
    SplitParts(locator, '#');
    assert path in Split(locator, '#');
    SplitParts(path, '#');
  }

  lemma PolicyPathHasNoFragment()
    ensures '#' !in POLICY_PATH
  {
    var rest := "config/production-closure-authority.json";
    assert POLICY_PATH == rest && forall k | 0 <= k < |rest| :: rest[k] != '#';
  }

  lemma PolicyLocator(head: Tree)
    requires Readable(head, POLICY_PATH)
    ensures NormalizedLocator(POLICY_PATH) == Some(POLICY_PATH)
  {
    hide ValidTreePath;
    PolicyPathHasNoFragment();
    NormalizedIsFixed(POLICY_PATH, NormalizedLocator(POLICY_PATH).value);
  }

  // ---------- Product merges ----------

  lemma ProductStep(r: Readers, g: Main, m: Main, p: Proposal)
    requires Good(r, g, m) && Mergeable(r, m, p) && !RotationRequested(p)
    ensures Good(r, g, After(r, m, p))
  {
    hide PinTrue, ReadsComplete, BaseAuthorityValid, ProductAccepted, Replay, Chained, DistinctIds,
         ActivationsFollowStages, EpisodeOrigin, LegalTuple, NormalizedLocator;
    ProductKeepsAuthority(r, m, p);
    forall path | path in m.policy.protectedFiles
      ensures PinTrue(r, After(r, m, p).tree, path, m.policy.protectedFiles[path])
    {
      ProductKeepsPin(r, m, p, path);
    }
  }

  /** An untouched policy and ledger are the base's, byte for byte. */
  lemma ProductKeepsAuthority(r: Readers, m: Main, p: Proposal)
    requires Authentic(r, m) && ActivePinned(m) && Mergeable(r, m, p) && !RotationRequested(p)
    ensures Authentic(r, After(r, m, p))
  {
    hide ProductAccepted, ValidTreePath;
    var mb, manifest := p.mergeBase.value, m.policy.identity.manifestPath;
    assert Readable(p.head, POLICY_PATH);
    PolicyLocator(p.head);
    PathMergeAt(m.tree, mb, p.head, POLICY_PATH);
    PathMergeAt(m.tree, mb, p.head, manifest);
  }

  lemma ProductKeepsPin(r: Readers, m: Main, p: Proposal, path: Path)
    requires PinsTrue(r, m) && Mergeable(r, m, p) && !RotationRequested(p)
    requires path in m.policy.protectedFiles
    ensures PinTrue(r, After(r, m, p).tree, path, m.policy.protectedFiles[path])
  {
    assert PinTrue(r, m.tree, path, m.policy.protectedFiles[path]);
    PathMergeAt(m.tree, p.mergeBase.value, p.head, path);
    var fetched := Fetched(p.head, ReadSet(p, PolicyIn(r, p.head).value));
    assert !Drifted(r, p, fetched, path);
  }

  // ---------- Rotations ----------

  /** The verifier input of an accepted rotation, tied to the branch before and after it. */
  lemma RotationBinds(r: Readers, m: Main, p: Proposal)
    requires Authentic(r, m) && Mergeable(r, m, p) && RotationRequested(p)
    ensures Accepted(r, RotationInput(r, p))
    ensures RotationInput(r, p).basePolicy == m.policy && RotationInput(r, p).baseLedger == m.ledger
    ensures RotationInput(r, p).proposedPolicy == After(r, m, p).policy
    ensures RotationInput(r, p).proposedLedger == After(r, m, p).ledger
    ensures RotationInput(r, p).observedAt == p.observedAt
    ensures RotationInput(r, p).changedFiles == ChangeList(p, p.allPaths)
    ensures RotationInput(r, p).proposedPaths == p.head.Keys
    ensures After(r, m, p).tree == p.head
  {
    hide Accepted, NormalizedLocator;
    UpToDateMergeIsHead(m.tree, p.head);
  }

  lemma RotationAuthentic(r: Readers, m: Main, p: Proposal)
    requires Authentic(r, m) && ActivePinned(m) && Mergeable(r, m, p) && RotationRequested(p)
    ensures Authentic(r, After(r, m, p))
    ensures After(r, m, p).policy.identity == m.policy.identity
  {
    hide Accepted, ValidTreePath, LedgerAppended, Links, LegalKind, LegalChanges, LegalPins, LegalImports;
    RotationBinds(r, m, p);
    AcceptedIsLegal(r, RotationInput(r, p));
    assert Readable(p.head, POLICY_PATH);
    PolicyLocator(p.head);
  }

  /** The head of an accepted rotation holds every surface its own policy pins, up to date or not. */
  lemma HeadHoldsPin(r: Readers, m: Main, p: Proposal, path: Path)
    requires JudgedOn(m, p) && GateAccepts(r, p) && RotationRequested(p)
    requires path in PolicyIn(r, p.head).value.protectedFiles
    ensures PinTrue(r, p.head, path, PolicyIn(r, p.head).value.protectedFiles[path])
  {
    hide Accepted, ValidTreePath, LedgerAppended, Links, LegalKind, LegalChanges, LegalImports, InNamespace;
    var i := RotationInput(r, p);
    AcceptedIsLegal(r, i);
    FetchedAt(p.head, ReadSet(p, i.proposedPolicy) + (ChangedPathSet(p) * p.head.Keys), path);
  }

  lemma RotationPins(r: Readers, m: Main, p: Proposal)
    requires Authentic(r, m) && Mergeable(r, m, p) && RotationRequested(p)
    ensures PinsTrue(r, After(r, m, p))
  {
    hide PinTrue, GateAccepts, JudgedOn, RotationRequested;
    UpToDateMergeIsHead(m.tree, p.head);
    var n := After(r, m, p);
    forall path | path in n.policy.protectedFiles ensures PinTrue(r, n.tree, path, n.policy.protectedFiles[path]) {
      HeadHoldsPin(r, m, p, path);
    }
  }

  /** Merging an accepted rotation that is not up to date keeps a pin of its policy exactly when the
      head touched the pinned path since the merge base, or the branch already holds the pinned surface. */
  lemma UnrebasedRotationKeepsPinExactly(r: Readers, m: Main, p: Proposal, path: Path)
    requires JudgedOn(m, p) && GateAccepts(r, p) && RotationRequested(p)
    requires path in PolicyIn(r, p.head).value.protectedFiles
    ensures var pin := PolicyIn(r, p.head).value.protectedFiles[path];
      PinTrue(r, PathMerge(m.tree, p.mergeBase.value, p.head), path, pin) <==>
        Touched(p, path) || PinTrue(r, m.tree, path, pin)
  {
    hide ReadsComplete, BaseAuthorityValid, RotationAccepted, ProductAccepted, RotationRequested,
         NormalizedLocator, PathMerge, SurfaceDigest;
    HeadHoldsPin(r, m, p, path);
    PathMergeAt(m.tree, p.mergeBase.value, p.head, path);
  }

  lemma FetchedAt(head: Tree, locators: set<Path>, path: Path)
    requires path in Fetched(head, locators)
    ensures NormalizedLocator(path) == Some(path)
    ensures ReadFile(head, path) == Some(Fetched(head, locators)[path])
  {
    var l :| l in locators && NormalizedLocator(l) == Some(path);
    NormalizedIsFixed(l, path);
  }

  // ---------- One rotation as a step of policy and ledger ----------

  /** The receipt continues the ledger: chained, with a fresh id and a readable issue time. */
  ghost predicate Continues(rotations: seq<Receipt>, x: Receipt, observedAt: Time) {
    && x.previousRotationId == (if |rotations| == 0 then None else Some(rotations[|rotations| - 1].rotationId))
    && (forall k | 0 <= k < |rotations| :: rotations[k].rotationId != x.rotationId)
    && Known(x.issuedAt) && Known(observedAt) && x.issuedAt.ms <= observedAt.ms
  }

  ghost predicate StageStep(b: Policy, rotations: seq<Receipt>, x: Receipt, n: Policy) {
    && x.successor.Some?
    && var t := x.successor.value;
       && LegalTuple(t)
       && n.active == b.active
       && n.successor == Held(SuccessorState(t, "staged", x.rotationId, None))
       && b.successor != Absent
       && Get(b.protectedFiles, t.templatePath) == Some(t.workflowSha256)
       && (b.successor.Held? ==>
             && SameSuccessor(b.successor.state.tuple, t)
             && EpisodeOrigin(rotations).Some?
             && Known(EpisodeOrigin(rotations).value.issuedAt)
             && t.activationDeadline.ms <= EpisodeOrigin(rotations).value.issuedAt.ms + SEVEN_DAYS)
       && (b.successor == Null ==> Known(x.issuedAt) && t.activationDeadline.ms <= x.issuedAt.ms + SEVEN_DAYS)
  }

  ghost predicate ActivationStep(b: Policy, rotations: seq<Receipt>, x: Receipt, n: Policy, observedAt: Time) {
    && x.successor.Some?
    && var t := x.successor.value;
       && LegalTuple(t)
       && |rotations| > 0
       && var stage := rotations[|rotations| - 1];
       && stage.kind.StageSuccessor?
       && stage.successor == Some(t)
       && b.successor.Held?
       && b.successor.state.tuple == t
       && b.successor.state.stagedByRotationId == stage.rotationId
       && n.successor == Null
       && n.active == ActiveOf(t)
       && n.active.externalCheckAppId == b.active.externalCheckAppId
       && n.active.controllerCheckAppId == b.active.controllerCheckAppId
       && Get(b.protectedFiles, t.workflowPath) == Some(t.workflowSha256)
       && Get(n.protectedFiles, t.workflowPath) == Some(t.workflowSha256)
       && b.active.workflowPath != t.workflowPath
       && Known(observedAt) && Known(t.activationDeadline) && observedAt.ms <= t.activationDeadline.ms
  }

  ghost predicate Transition(b: Policy, rotations: seq<Receipt>, x: Receipt, n: Policy, observedAt: Time) {
    && n.identity == b.identity
    && Continues(rotations, x, observedAt)
    && match x.kind
       case Runtime => n.active == b.active && n.successor == b.successor
       case StageSuccessor => StageStep(b, rotations, x, n)
       case ActivateSuccessor => ActivationStep(b, rotations, x, n, observedAt)
       case UnknownKind(_) => false
  }

  lemma ReceiptContinues(i: Input, x: Receipt)
    requires Links(i, x)
    ensures Continues(i.baseLedger.rotations, x, i.observedAt)
  {
    hide RotationId, Revision;
  }

  lemma StageSteps(i: Input, x: Receipt)
    requires LegalStage(i, x) && i.proposedPolicy.active == i.basePolicy.active
    ensures StageStep(i.basePolicy, i.baseLedger.rotations, x, i.proposedPolicy)
  {
    hide LegalTuple, LegalState, OpensEpisode, EpisodeOrigin, StagedBy, SameSuccessor;
    var t, rotations := x.successor.value, i.baseLedger.rotations;
    TupleDeadline(t);
    if LegalRestage(i, x, t) {
      var k :| 0 <= k < |rotations| && OpensEpisode(rotations, k) && DeadlineWithin(i, x, t, rotations[k].issuedAt);
      OpenerIsOrigin(rotations, k);
    }
  }

  lemma TupleDeadline(t: SuccessorTuple)
    requires LegalTuple(t)
    ensures t.activationDeadline.Canonical?
  {
  }

  lemma ActivationSteps(i: Input, x: Receipt)
    requires LegalActivation(i, x)
    ensures ActivationStep(i.basePolicy, i.baseLedger.rotations, x, i.proposedPolicy, i.observedAt)
    ensures i.basePolicy.active.workflowPath !in i.proposedPaths
  {
    hide LegalTuple, RotationId, Deletes;
  }

  lemma AcceptedTransition(r: Readers, i: Input)
    requires Accepted(r, i)
    ensures LedgerAppended(i)
    ensures Transition(i.basePolicy, i.baseLedger.rotations, ReceiptOf(i), i.proposedPolicy, i.observedAt)
  {
    hide Accepted, LedgerAppended, Links, LegalStage, LegalActivation, LegalChanges, LegalPins, LegalImports,
         StageStep, ActivationStep, Continues;
    AcceptedIsLegal(r, i);
    var x := ReceiptOf(i);
    ReceiptContinues(i, x);
    if x.kind.StageSuccessor? {
      StageSteps(i, x);
    } else if x.kind.ActivateSuccessor? {
      ActivationSteps(i, x);
    }
  }

  lemma ActiveStaysPinned(r: Readers, i: Input)
    requires Accepted(r, i)
    requires i.basePolicy.active.workflowPath in i.basePolicy.protectedFiles
    ensures i.proposedPolicy.active.workflowPath in i.proposedPolicy.protectedFiles
  {
    hide Accepted, ReceiptCodes, TransitionCodes, ChangeCodes, PinCodes, ImportCodes, LegalTuple, Continues,
         BrokenCodes;
    AcceptedTransition(r, i);
    if !ReceiptOf(i).kind.ActivateSuccessor? {
      PinKept(r, i, i.basePolicy.active.workflowPath);
    }
  }

  lemma PinKept(r: Readers, i: Input, path: Path)
    requires Accepted(r, i) && LedgerAppended(i) && !ReceiptOf(i).kind.ActivateSuccessor?
    requires path in i.basePolicy.protectedFiles
    ensures path in i.proposedPolicy.protectedFiles
  {
    hide Accepted, LedgerAppended, Links, LegalRuntime, LegalStage, LegalChanges, LegalPins, LegalImports;
    AcceptedIsLegal(r, i);
  }

  // ---------- Policy and ledger across a step ----------

  lemma ChainGrows(rotations: seq<Receipt>, x: Receipt, observedAt: Time)
    requires Chained(rotations) && DistinctIds(rotations) && Continues(rotations, x, observedAt)
    ensures Chained(rotations + [x]) && DistinctIds(rotations + [x])
  {
  }

  lemma FollowsGrow(rotations: seq<Receipt>, x: Receipt)
    requires ActivationsFollowStages(rotations)
    requires !x.kind.Runtime? ==> x.successor.Some?
    requires x.kind.ActivateSuccessor? ==>
      && |rotations| > 0
      && rotations[|rotations| - 1].kind.StageSuccessor? && rotations[|rotations| - 1].successor == x.successor
    ensures ActivationsFollowStages(rotations + [x])
  {
  }

  lemma LedgerGrows(g: Main, m: Main, x: Receipt, n: Main, observedAt: Time)
    requires LedgerTellsPolicy(g, m)
    requires Transition(m.policy, m.ledger.rotations, x, n.policy, observedAt)
    requires n.ledger.rotations == m.ledger.rotations + [x]
    ensures LedgerTellsPolicy(g, n)
  {
    hide LegalTuple, EpisodeOrigin, Chained, DistinctIds, ActivationsFollowStages;
    var before := m.ledger.rotations;
    ChainGrows(before, x, observedAt);
    FollowsGrow(before, x);
    assert (before + [x])[..|before|] == before;
    assert Replay(g.policy.active, before + [x]) == (n.policy.active, n.policy.successor);
  }

  lemma EpisodeStaysBounded(m: Main, x: Receipt, n: Main, observedAt: Time)
    requires EpisodeBounded(m)
    requires Transition(m.policy, m.ledger.rotations, x, n.policy, observedAt)
    requires n.ledger.rotations == m.ledger.rotations + [x]
    ensures EpisodeBounded(n)
  {
    hide LegalTuple, EpisodeOrigin, Continues;
    EpisodeOriginAppend(m.ledger.rotations, x);
  }

  lemma ActiveStep(r: Readers, g: Main, m: Main, p: Proposal)
    requires Authentic(r, m) && ActivePinned(m) && AppIdsFixed(g, m) && Mergeable(r, m, p) && RotationRequested(p)
    ensures ActivePinned(After(r, m, p)) && AppIdsFixed(g, After(r, m, p))
  {
    hide Accepted, ActivePinned, AppIdsFixed, Authentic, LedgerAppended, RotationInput, After;
    RotationBinds(r, m, p);
    ActiveInputStep(r, g, m, After(r, m, p), RotationInput(r, p));
  }

  lemma ActiveInputStep(r: Readers, g: Main, m: Main, n: Main, i: Input)
    requires Accepted(r, i) && ActivePinned(m) && AppIdsFixed(g, m)
    requires i.basePolicy == m.policy && i.proposedPolicy == n.policy
    ensures ActivePinned(n) && AppIdsFixed(g, n)
  {
    hide Accepted, Continues, NormalizedLocator, EpisodeOrigin, IsTemplatePath, IsAuthorityWorkflowPath, LegalTuple,
         MANIFEST_PATH;
    AcceptedTransition(r, i);
    ActiveStaysPinned(r, i);
    if ReceiptOf(i).kind.ActivateSuccessor? {
      LegalPaths(ReceiptOf(i).successor.value);
    }
  }

  lemma RotationHistory(r: Readers, g: Main, m: Main, p: Proposal)
    requires Authentic(r, m) && LedgerTellsPolicy(g, m) && EpisodeBounded(m)
    requires Mergeable(r, m, p) && RotationRequested(p)
    ensures LedgerTellsPolicy(g, After(r, m, p)) && EpisodeBounded(After(r, m, p))
  {
    hide Accepted, LedgerTellsPolicy, EpisodeBounded, Authentic, LedgerAppended, RotationInput, After;
    RotationBinds(r, m, p);
    HistoryStep(r, g, m, After(r, m, p), RotationInput(r, p));
  }

  lemma RotationStep(r: Readers, g: Main, m: Main, p: Proposal)
    requires Good(r, g, m) && Mergeable(r, m, p) && RotationRequested(p)
    ensures Good(r, g, After(r, m, p))
  {
    hide PinsTrue, ActivePinned, LedgerTellsPolicy, EpisodeBounded, AppIdsFixed, Authentic, After,
         GateAccepts, JudgedOn;
    RotationAuthentic(r, m, p);
    RotationPins(r, m, p);
    ActiveStep(r, g, m, p);
    RotationHistory(r, g, m, p);
  }

  lemma HistoryStep(r: Readers, g: Main, m: Main, n: Main, i: Input)
    requires Accepted(r, i) && LedgerTellsPolicy(g, m) && EpisodeBounded(m)
    requires i.basePolicy == m.policy && i.baseLedger == m.ledger
    requires i.proposedPolicy == n.policy && i.proposedLedger == n.ledger
    ensures LedgerTellsPolicy(g, n) && EpisodeBounded(n)
    ensures LedgerAppended(i) && n.ledger.rotations == m.ledger.rotations + [ReceiptOf(i)]
  {
    hide Accepted, LedgerTellsPolicy, EpisodeBounded, Transition;
    AcceptedTransition(r, i);
    assert n.ledger.rotations == m.ledger.rotations + [ReceiptOf(i)];
    LedgerGrows(g, m, ReceiptOf(i), n, i.observedAt);
    EpisodeStaysBounded(m, ReceiptOf(i), n, i.observedAt);
  }
}
