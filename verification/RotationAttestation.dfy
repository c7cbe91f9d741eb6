/** What a rotation may change: its receipt lists the exact tree difference, all of it in scope. */
module RotationAttestation {
  import opened Basics
  import opened Texts
  import opened AuthorityPolicy
  import opened AuthorityRotation
  import opened AuthorityShapes
  import opened LegalRotation
  import opened ProposalGate
  import opened RotationFacts
  import opened RotationRuns
  import opened RotationTheorems

  /** The file at a path, if it is one: its digest and mode. */
  function FileOf(tree: Tree, path: Path): Option<(Digest, Mode)> {
    if path in tree && tree[path].File? then Some((DigestOf(tree[path].bytes), tree[path].mode)) else None
  }

  /** The change takes the file at its path from what it is in one tree to what it is in the other. */
  predicate Attests(change: FileChange, from: Tree, to: Tree) {
    && (match FileOf(from, change.path)
        case Some(f) => change.fromSha256 == Some(f.0) && change.fromMode == Some(f.1)
        case None => change.fromSha256.None? && change.fromMode.None?)
    && (match FileOf(to, change.path)
        case Some(f) => change.toSha256 == Some(f.0) && change.toMode == Some(f.1)
        case None => change.toSha256.None? && change.toMode.None?)
  }

  lemma {:induction false} ListedChangeIsReal(p: Proposal, paths: seq<Path>, change: FileChange)
    requires change in ChangeList(p, paths)
    ensures change.path in paths && Differs(p, change.path) && !DifferenceInvalid(p, change.path)
    ensures change == ChangeOf(p, change.path)
  {
    hide DifferenceInvalid, Differs;
    var last := |paths| - 1;
    if change in ChangeList(p, paths[..last]) {
      ListedChangeIsReal(p, paths[..last], change);
    }
  }

  /** What the gate reads for a path at the head is that very file, or one with the same bytes. */
  predicate ReadsAsItself(head: Tree, path: Path) {
    || path !in head
    || NormalizedLocator(path) == Some(path)
    || ReadProposal(head, path) == ReadFile(head, path)
  }

  lemma ChangeOfAttests(p: Proposal, path: Path)
    requires Differs(p, path) && !DifferenceInvalid(p, path)
    ensures Attests(ChangeOf(p, path), p.baseTree, p.head) <==> ReadsAsItself(p.head, path)
    ensures ChangeOf(p, path).path == path
  {
    hide NormalizedLocator;
  }

  /** A readable path with no fragment is its own locator. */
  lemma ReadableIsLocator(p: Proposal, path: Path)
    requires Differs(p, path) && !DifferenceInvalid(p, path) && path in p.head && '#' !in path
    ensures NormalizedLocator(path) == Some(path)
  {
    NormalizedIsFixed(path, NormalizedLocator(path).value);
  }

  lemma InputChangeFacts(r: Readers, m: Main, n: Main, i: Input)
    requires Accepted(r, i) && i.basePolicy == m.policy && i.proposedPolicy == n.policy
    requires i.baseLedger == m.ledger && i.proposedLedger == n.ledger
    ensures |n.ledger.rotations| == |m.ledger.rotations| + 1
    ensures multiset(NewReceipt(m, n).changes) == multiset(i.changedFiles)
    ensures m.policy.reviewers * n.policy.reviewers != {}
    ensures forall k | 0 <= k < |i.changedFiles| :: MayRotate(m.policy, i.changedFiles[k].path)
  {
    hide Accepted, MayRotate, Links, LegalKind, WellFormed, LegalPins, LegalImports;
    AcceptedIsLegal(r, i);
    CommonReviewer(m.policy.reviewers, n.policy.reviewers);
  }

  /** The receipt of a rotation lists exactly the paths it changes besides the ledger, each in the scope
      of the policy before it, and a reviewer stays. A listed change states what the rotation makes of the
      file exactly when the gate reads that file for its path. */
  lemma RotationIsAttested(r: Readers, m: Main, p: Proposal)
    requires Authentic(r, m) && Mergeable(r, m, p) && RotationRequested(p)
    ensures var n := After(r, m, p);
      && |n.ledger.rotations| == |m.ledger.rotations| + 1
      && m.policy.reviewers * n.policy.reviewers != {}
      && (forall change | change in NewReceipt(m, n).changes ::
            && MayRotate(m.policy, change.path)
            && (Attests(change, m.tree, n.tree) <==> ReadsAsItself(n.tree, change.path)))
      && (forall path | path != m.policy.identity.manifestPath && FileOf(m.tree, path) != FileOf(n.tree, path) ::
            exists change | change in NewReceipt(m, n).changes :: change.path == path)
  {
    hide Accepted, Authentic, RotationInput, After, Attests, MayRotate, NormalizedLocator, FileOf, Differs, ChangeOf,
         DifferenceInvalid, ReadsAsItself;
    RotationBinds(r, m, p);
    var n, i := After(r, m, p), RotationInput(r, p);
    InputChangeFacts(r, m, n, i);
    var changes := NewReceipt(m, n).changes;
    forall change | change in changes
      ensures MayRotate(m.policy, change.path)
      ensures Attests(change, m.tree, n.tree) <==> ReadsAsItself(n.tree, change.path)
    {
      assert change in multiset(i.changedFiles);
      ListedChangeIsReal(p, p.allPaths, change);
      ChangeOfAttests(p, change.path);
    }
    forall path | path != m.policy.identity.manifestPath && FileOf(m.tree, path) != FileOf(n.tree, path)
      ensures exists change | change in changes :: change.path == path
    {
      FileDiffers(p, path);
      var change := ChangeOf(p, path);
      ChangePath(p, path);
      assert change in multiset(changes);
    }
  }

  lemma ChangePath(p: Proposal, path: Path)
    requires Differs(p, path) && !DifferenceInvalid(p, path)
    ensures ChangeOf(p, path).path == path
  {
    hide Differs, DifferenceInvalid;
  }

  lemma FileDiffers(p: Proposal, path: Path)
    requires FileOf(p.baseTree, path) != FileOf(p.head, path) && path != p.policy.identity.manifestPath
    ensures Differs(p, path) && path in p.baseTree.Keys + p.head.Keys
  {
  }

  // ---------- Over a whole run ----------

  /** No rotation and no product merge changes the policy's identity. */
  lemma {:induction false} IdentityIsFixed(r: Readers, states: seq<Main>, ps: seq<Proposal>, k: nat)
    requires Run(r, states, ps) && k <= |ps|
    ensures states[k].policy.identity == states[0].policy.identity
  {
    hide Genesis, Good, Mergeable, After;
    if k > 0 {
      IdentityIsFixed(r, states, ps, k - 1);
      EveryStateIsGood(r, states, ps, k - 1);
      assert StepAt(r, states, ps, k - 1);
      StepKeepsIdentity(r, states[0], states[k - 1], ps[k - 1]);
    }
  }

  lemma StepKeepsIdentity(r: Readers, g: Main, m: Main, p: Proposal)
    requires Good(r, g, m) && Mergeable(r, m, p)
    ensures After(r, m, p).policy.identity == m.policy.identity
  {
    hide Authentic, ActivePinned, JudgedOn, RotationRequested, RotationAccepted, ProductAccepted,
         ReadsComplete, PinsTrue, LedgerTellsPolicy, EpisodeBounded;
    if RotationRequested(p) {
      RotationAuthentic(r, m, p);
    }
  }

  lemma {:induction false} MarkIsNotSlug(path: Path, prefix: string, suffix: string)
    requires SlugPath(path, prefix, suffix) && '#' !in prefix && '#' !in suffix
    ensures '#' !in path
  {
    var middle := |path| - |suffix|;
    forall k | 0 <= k < |path| ensures path[k] != '#' {
      assert k < |prefix| ==> path[k] == prefix[k];
      assert k >= middle ==> path[k] == suffix[k - middle];
    }
  }

  lemma LiteralsHaveNoMark()
    ensures '#' !in "scripts/production-closure-" && '#' !in "scripts/fixtures/production-closure-"
    ensures '#' !in ".ts" && '#' !in ".test.ts" && '#' !in ".json" && '#' !in ".yml"
  {
    assert forall c | c in "scripts/production-closure-" :: c != '#';
    assert forall c | c in "scripts/fixtures/production-closure-" :: c != '#';
  }

  lemma DirectoryHasNoMark()
    ensures '#' !in "config/production-closure-successors"
  {
    assert forall c | c in "config/production-closure-successors" :: c != '#';
  }

  lemma TemplatePrefixHasNoMark()
    ensures '#' !in TEMPLATE_PREFIX
  {
    DirectoryHasNoMark();
    assert TEMPLATE_PREFIX == "config/production-closure-successors" + "/closure-authority-";
    assert forall c | c in "/closure-authority-" :: c != '#';
  }

  lemma WorkflowPrefixHasNoMark()
    ensures '#' !in WORKFLOW_PREFIX
  {
    assert forall c | c in WORKFLOW_PREFIX :: c != '#';
  }

  lemma MatrixPathHasNoMark()
    ensures '#' !in MATRIX_PATH
  {
    assert forall c | c in MATRIX_PATH :: c != '#';
  }

  lemma AdditionHasNoMark(path: Path)
    requires InNamespace(path)
    ensures '#' !in path
  {
    NamespaceExactly(path);
    LiteralsHaveNoMark();
    TemplatePrefixHasNoMark();
    WorkflowPrefixHasNoMark();
    hide SlugPath, InNamespace, TEMPLATE_PREFIX, WORKFLOW_PREFIX;
    if SlugPath(path, "scripts/production-closure-", ".ts") {
      MarkIsNotSlug(path, "scripts/production-closure-", ".ts");
    } else if SlugPath(path, "scripts/production-closure-", ".test.ts") {
      MarkIsNotSlug(path, "scripts/production-closure-", ".test.ts");
    } else if SlugPath(path, "scripts/fixtures/production-closure-", ".json") {
      MarkIsNotSlug(path, "scripts/fixtures/production-closure-", ".json");
    } else if SlugPath(path, TEMPLATE_PREFIX, ".yml") {
      MarkIsNotSlug(path, TEMPLATE_PREFIX, ".yml");
    } else {
      MarkIsNotSlug(path, WORKFLOW_PREFIX, ".yml");
    }
  }

  /** A path in scope has a fragment mark only if it is an auxiliary file. */
  lemma OnlyAuxiliaryHasMark(r: Readers, m: Main, path: Path)
    requires PinsTrue(r, m) && MayRotate(m.policy, path) && path !in m.policy.identity.auxiliaryFiles
    ensures '#' !in path
  {
    hide InNamespace, POLICY_PATH, MATRIX_PATH, SurfaceDigest, ReadFile;
    PolicyPathHasNoFragment();
    MatrixPathHasNoMark();
    if path in m.policy.protectedFiles {
      assert PinTrue(r, m.tree, path, m.policy.protectedFiles[path]);
      SplitParts(path, '#');
    } else if InNamespace(path) {
      AdditionHasNoMark(path);
    }
  }

  /** If no auxiliary file of the genesis policy has a fragment mark in its name, every receipt of the
      run states every change of its rotation as it is. */
  lemma EveryRotationIsAttested(r: Readers, states: seq<Main>, ps: seq<Proposal>, k: nat, change: FileChange)
    requires Run(r, states, ps) && Rotates(states, ps, k)
    requires forall path | path in states[0].policy.identity.auxiliaryFiles :: '#' !in path
    requires change in NewReceipt(states[k], states[k + 1]).changes
    ensures Attests(change, states[k].tree, states[k + 1].tree)
  {
    hide Genesis, Authentic, PinsTrue, LedgerTellsPolicy, EpisodeBounded, ActivePinned, After, MayRotate,
         Attests, GateAccepts, JudgedOn, RotationRequested, NormalizedLocator, NewReceipt;
    assert StepAt(r, states, ps, k);
    EveryStateIsGood(r, states, ps, k);
    IdentityIsFixed(r, states, ps, k);
    RotationIsAttested(r, states[k], ps[k]);
    OnlyMarkIsRead(r, states[k], ps[k], change);
  }

  lemma OnlyMarkIsRead(r: Readers, m: Main, p: Proposal, change: FileChange)
    requires Authentic(r, m) && PinsTrue(r, m) && Mergeable(r, m, p) && RotationRequested(p)
    requires |After(r, m, p).ledger.rotations| == |m.ledger.rotations| + 1
    requires change in NewReceipt(m, After(r, m, p)).changes && MayRotate(m.policy, change.path)
    requires forall path | path in m.policy.identity.auxiliaryFiles :: '#' !in path
    ensures ReadsAsItself(After(r, m, p).tree, change.path)
  {
    hide Accepted, Authentic, PinsTrue, RotationInput, After, MayRotate, NormalizedLocator, Differs,
         DifferenceInvalid, ChangeOf;
    RotationBinds(r, m, p);
    InputChangeFacts(r, m, After(r, m, p), RotationInput(r, p));
    assert change in multiset(RotationInput(r, p).changedFiles);
    ListedChangeIsReal(p, p.allPaths, change);
    if change.path !in m.policy.identity.auxiliaryFiles {
      OnlyAuxiliaryHasMark(r, m, change.path);
    }
    if change.path in p.head {
      ReadableIsLocator(p, change.path);
    }
  }
}
