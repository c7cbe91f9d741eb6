/**
 Import closure over runs of the protected branch: pinned code imports only pinned code.
 Every rotation establishes it; a product merge, which is judged by the pinned files
 alone, may lose it by adding a file that an import now finds first.
 */
module ImportClosure {
  import opened Basics
  import opened Texts
  import opened AuthorityPolicy
  import opened AuthorityRotation
  import opened AuthorityShapes
  import opened LegalRotation
  import opened ProposalGate
  import opened RotationRuns
  import opened RotationTheorems

  /** The specifier is imported by the pinned code file at this path. */
  ghost predicate Imports(r: Readers, m: Main, path: Path, specifier: string) {
    && path in m.policy.protectedFiles && IsCode(path)
    && ReadFile(m.tree, path).Some? && specifier in r.imports(ReadFile(m.tree, path).value)
  }

  /** Every import of pinned code means a pinned file. */
  ghost predicate ImportClosed(r: Readers, m: Main) {
    forall path, specifier | Imports(r, m, path, specifier) ::
      FirstIsPinned(r.importCandidates(path, specifier), m.tree.Keys, m.policy.protectedFiles.Keys)
  }

  /** A file that was not there comes before any candidate that was. */
  predicate Shadows(candidates: seq<Path>, before: set<Path>, after: set<Path>) {
    exists j | 0 <= j < |candidates| ::
      && candidates[j] in after
      && forall l | 0 <= l <= j :: candidates[l] !in before
  }

  /** The step adds a file that some import of pinned code now finds first. */
  ghost predicate ShadowsImport(r: Readers, m: Main, n: Main) {
    exists path, specifier | Imports(r, m, path, specifier) ::
      Shadows(r.importCandidates(path, specifier), m.tree.Keys, n.tree.Keys)
  }

  /** If all pins are there before and after, what is imported stays pinned exactly if nothing shadows it. */
  lemma ClosedExactly(candidates: seq<Path>, before: set<Path>, after: set<Path>, pins: set<Path>)
    requires pins <= before && pins <= after && FirstIsPinned(candidates, before, pins)
    ensures FirstIsPinned(candidates, after, pins) <==> !Shadows(candidates, before, after)
  {
    var k :| 0 <= k < |candidates| && candidates[k] in before && candidates[k] in pins
      && forall j | 0 <= j < k :: candidates[j] !in before;
    if !Shadows(candidates, before, after) {
      forall j | 0 <= j < k ensures candidates[j] !in after {
      }
    }
  }

  lemma PinsAreThere(r: Readers, m: Main)
    requires PinsTrue(r, m)
    ensures m.policy.protectedFiles.Keys <= m.tree.Keys
  {
    hide SurfaceDigest, NormalizedLocator;
    forall path | path in m.policy.protectedFiles ensures path in m.tree {
      assert PinTrue(r, m.tree, path, m.policy.protectedFiles[path]);
    }
  }

  /** Pinned code keeps its bytes as long as its pin does. */
  lemma SameImports(r: Readers, m: Main, n: Main, path: Path, specifier: string)
    requires PinsTrue(r, m) && PinsTrue(r, n) && n.policy == m.policy
    ensures Imports(r, m, path, specifier) <==> Imports(r, n, path, specifier)
  {
    hide NormalizedLocator;
    if path in m.policy.protectedFiles && IsCode(path) {
      assert PinTrue(r, m.tree, path, m.policy.protectedFiles[path])
        && PinTrue(r, n.tree, path, n.policy.protectedFiles[path]);
      CodeIsNoManifest(path);
    }
  }

  lemma CodeIsNoManifest(path: Path)
    requires IsCode(path)
    ensures path != MANIFEST_PATH
  {
    CodeExactly(path);
    assert MANIFEST_PATH[11] == 'n';
  }

  lemma SamePinsCloseExactly(r: Readers, m: Main, n: Main)
    requires PinsTrue(r, m) && PinsTrue(r, n) && n.policy == m.policy && ImportClosed(r, m)
    ensures ImportClosed(r, n) <==> !ShadowsImport(r, m, n)
  {
    hide Imports, FirstIsPinned, Shadows, PinsTrue;
    PinsAreThere(r, m);
    PinsAreThere(r, n);
    forall path, specifier ensures Imports(r, m, path, specifier) <==> Imports(r, n, path, specifier) {
      SameImports(r, m, n, path, specifier);
    }
    forall path, specifier | Imports(r, m, path, specifier)
      ensures FirstIsPinned(r.importCandidates(path, specifier), n.tree.Keys, n.policy.protectedFiles.Keys)
        <==> !Shadows(r.importCandidates(path, specifier), m.tree.Keys, n.tree.Keys)
    {
      ClosedExactly(r.importCandidates(path, specifier), m.tree.Keys, n.tree.Keys, m.policy.protectedFiles.Keys);
    }
  }

  /** A product merge keeps the closure exactly when it adds no file that an import of pinned code finds first. */
  lemma ProductKeepsClosureExactly(r: Readers, g: Main, m: Main, p: Proposal)
    requires Good(r, g, m) && ImportClosed(r, m) && Mergeable(r, m, p) && !RotationRequested(p)
    ensures ImportClosed(r, After(r, m, p)) <==> !ShadowsImport(r, m, After(r, m, p))
  {
    hide ImportClosed, ShadowsImport, PinsTrue, Authentic, ActivePinned, LedgerTellsPolicy, EpisodeBounded,
         RotationRequested, GateAccepts, JudgedOn;
    ProductStep(r, g, m, p);
    SamePinsCloseExactly(r, m, After(r, m, p));
  }

  /** After every accepted rotation the closure holds, whatever held before. */
  lemma RotationCloses(r: Readers, m: Main, p: Proposal)
    requires Authentic(r, m) && Mergeable(r, m, p) && RotationRequested(p)
    ensures ImportClosed(r, After(r, m, p))
  {
    var n, i := After(r, m, p), RotationInput(r, p);
    RotationBinds(r, m, p);
    RotationPins(r, m, p);
    AcceptedIsLegal(r, i);
    hide Accepted, Authentic, After, JudgedOn, RotationRequested, IsCode, FirstIsPinned, Links, LegalKind,
         LegalChanges, LegalPins, RotationInput;
    forall path, specifier | Imports(r, n, path, specifier)
      ensures FirstIsPinned(r.importCandidates(path, specifier), n.tree.Keys, n.policy.protectedFiles.Keys)
    {
      PinnedIsScanned(r, m, p, path);
      assert ImportPinned(r, i, path, specifier);
    }
  }

  lemma PinnedIsScanned(r: Readers, m: Main, p: Proposal, path: Path)
    requires Authentic(r, m) && Mergeable(r, m, p) && RotationRequested(p)
    requires path in After(r, m, p).policy.protectedFiles && IsCode(path) && ReadFile(p.head, path).Some?
    ensures var i := RotationInput(r, p);
      && path in i.proposedPolicy.protectedFiles && path in i.proposedFileContents
      && i.proposedFileContents[path] == ReadFile(p.head, path).value
  {
    RotationBinds(r, m, p);
    RotationPins(r, m, p);
    hide Accepted, ValidTreePath, IsCode, RotationVerified, DiffClean, SurfaceDigest;
    assert PinTrue(r, p.head, path, After(r, m, p).policy.protectedFiles[path]);
  }

  // ---------- Over a whole run ----------

  /** If the genesis is closed and no product merge shadows an import, every state of the run is closed. */
  lemma {:induction false} EveryStateIsClosed(r: Readers, states: seq<Main>, ps: seq<Proposal>, k: nat)
    requires Run(r, states, ps) && k <= |ps| && ImportClosed(r, states[0])
    requires forall j | 0 <= j < k && !Rotates(states, ps, j) :: !ShadowsImport(r, states[j], states[j + 1])
    ensures ImportClosed(r, states[k])
  {
    hide Genesis, Good, Mergeable, After, ImportClosed, ShadowsImport, Rotates;
    if k > 0 {
      EveryStateIsClosed(r, states, ps, k - 1);
      EveryStateIsGood(r, states, ps, k - 1);
      assert StepAt(r, states, ps, k - 1);
      StepKeepsClosure(r, states, ps, k - 1);
    }
  }

  lemma StepKeepsClosure(r: Readers, states: seq<Main>, ps: seq<Proposal>, k: nat)
    requires Run(r, states, ps) && k < |ps| && StepAt(r, states, ps, k)
    requires Good(r, states[0], states[k]) && ImportClosed(r, states[k])
    requires !Rotates(states, ps, k) ==> !ShadowsImport(r, states[k], states[k + 1])
    ensures ImportClosed(r, states[k + 1])
  {
    hide Genesis, ImportClosed, ShadowsImport, PinsTrue, Authentic, ActivePinned, LedgerTellsPolicy,
         EpisodeBounded, After, JudgedOn, RotationRequested, Transition, BaseAuthorityValid, ReadsComplete,
         RotationAccepted, ProductAccepted;
    var m, p := states[k], ps[k];
    if RotationRequested(p) {
      RotationCloses(r, m, p);
    } else {
      NoReceipt(r, m, p);
      ProductKeepsClosureExactly(r, states[0], m, p);
    }
  }

  lemma NoReceipt(r: Readers, m: Main, p: Proposal)
    requires Mergeable(r, m, p) && !RotationRequested(p)
    ensures After(r, m, p).ledger == m.ledger
  {
    hide GateAccepts, JudgedOn;
  }
}
