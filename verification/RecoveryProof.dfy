/**
 The production recovery proof: restore a backup into an empty target, snapshot it,
 converge its stores, roll back to the snapshot, and record the outcome once. The
 outside world (deployment, downloads, migrations, clocks, file operations that
 fail, other runs) is a `World` chosen freely for every run.
 */
module RecoveryProof {
  import opened Basics
  import opened Utf8
  import opened FileTrees

  /** What a request is: evidence is only ever replayed for the same one. */
  datatype Binding = Binding(proofId: string, tenantId: string, environment: string, requestDigest: string)

  datatype Input = Input(binding: Binding, key: string, expectedRevision: Option<string>)

  datatype Proof = Proof(binding: Binding, key: string, restored: Text, rollback: Text)

  /** The evidence file: absent, cut short, or signed by the key it names. */
  datatype Evidence = Absent | Torn | Passed(proof: Proof) | Failed(binding: Binding, key: string)

  datatype Outcome = Returned(proof: Proof) | Threw | Killed

  /** How a create-only write of the evidence file ends. */
  datatype Write = Whole | WholeButThrows | CutShort | NotCreated

  /** The file trees a run works on. */
  datatype Trees = Trees(backup: Option<Node>, target: Option<Node>, rollback: Option<Node>)

  /** Where a run may be killed, between two of its steps. */
  datatype Point =
    | BeforeReplay
    | BeforePreparing
    | BeforeRestoring
    | BeforeConverging
    | BeforeRecordingPass
    | BeforeReturning
    | BeforeRecordingFailure
    | BeforeReleasing

  /** What the world does when asked; a false flag means that the operation throws. */
  datatype World = World(
    hash: Hash,
    observedRevision: Option<string>,
    pathsSafe: bool,
    download: (Option<Node>, bool),
    manifestBinds: Node -> bool,
    restore: Node -> (Option<Node>, Option<Text>),
    resourcesComplete: Node -> bool,
    copyFails: Path -> bool,
    converge: Trees -> (Trees, bool),
    canariesPass: Trees -> bool,
    rollback: Option<Trees -> (Trees, bool)>,
    objectivesMet: bool,
    writtenMeanwhile: Evidence,
    writeProof: Write,
    writeFailure: Write,
    killedAt: Option<Point>)

  // ---------- Replay ----------

  datatype ReplayResult = NotYet | Replayed(proof: Proof) | Refused

  /** Existing evidence is replayed only if it authenticates, is for the same request, and passed. */
  function ReadCompletedReplay(evidence: Evidence, input: Input): ReplayResult {
    match evidence
    case Absent => NotYet
    case Torn => Refused
    case Passed(proof) => if proof.key == input.key && proof.binding == input.binding then Replayed(proof) else Refused
    case Failed(_, _) => Refused
  }

  // ---------- One run ----------

  function Written(write: Write, value: Evidence): Evidence {
    match write
    case Whole => value
    case WholeButThrows => value
    case CutShort => Torn
    case NotCreated => Absent
  }

  function DigestAt(w: World, tree: Option<Node>): Option<Text> {
    if tree.None? then None else DigestOf(w.hash, tree.value)
  }

  /** Removes the target and moves the snapshot in its place. */
  function DefaultRollback(t: Trees): (Trees, bool) {
    if t.rollback.None? then (t.(target := None), false)
    else (t.(target := t.rollback, rollback := None), true)
  }

  /** The tree the restore puts at the target. */
  function RestoredTree(w: World): Option<Node> {
    if w.download.0.None? then None else w.restore(w.download.0.value).0
  }

  /** The download is bound by its manifest, and its restore is complete and has the digest it says. */
  predicate RestoreInOrder(w: World) {
    && w.download.1 && w.download.0.Some? && w.manifestBinds(w.download.0.value)
    && var restore := w.restore(w.download.0.value);
       restore.0.Some? && restore.1.Some? && w.resourcesComplete(restore.0.value)
       && restore.0.value.Directory? && DigestAt(w, restore.0) == restore.1
  }

  // ---------- What a run from nothing comes to ----------

  /** The deployment is the expected one, the paths are safe and empty, and nobody holds the fence. */
  predicate Prepared(input: Input, w: World, trees: Trees, fenceHeld: bool) {
    && (input.expectedRevision.Some? ==> w.observedRevision == input.expectedRevision)
    && w.pathsSafe && trees == Trees(None, None, None) && !fenceHeld
  }

  /** From these trees, the stores converge, the canaries pass on the converged stores, and after rolling back
      the target has the restored digest again, all in time. */
  predicate Exercised(w: World, trees: Trees, restored: Text) {
    var converged := w.converge(trees);
    && converged.1
    && w.canariesPass(converged.0)
    && (match w.rollback
        case Some(rollback) =>
          rollback(converged.0).1 && DigestAt(w, rollback(converged.0).0.target) == Some(restored)
        case None => converged.0.rollback.Some? && DigestAt(w, converged.0.rollback) == Some(restored))
    && w.objectivesMet
  }

  /** Nothing is in the way of a pass. */
  ghost predicate Passes(input: Input, w: World, trees: Trees, fenceHeld: bool) {
    && Prepared(input, w, trees, fenceHeld)
    && RestoreInOrder(w) && AllCopied(RestoredTree(w).value, [], w.copyFails)
    && Exercised(w, Trees(w.download.0, RestoredTree(w), RestoredTree(w)), w.restore(w.download.0.value).1.value)
  }

  /** The proof that a pass records: the digest the restore reported, before and after. */
  function ProofOf(input: Input, w: World): Proof {
    var reported := if w.download.0.None? then None else w.restore(w.download.0.value).1;
    var digest := if reported.Some? then reported.value else [];
    Proof(input.binding, input.key, digest, digest)
  }

  predicate HasDigest(w: World, tree: Option<Node>, digest: Text) {
    tree.Some? && DigestOf(w.hash, tree.value) == Some(digest)
  }

  /** From the expected deployment on safe and empty paths, with the fence free: this backup is bound by its manifest,
      restores to this directory with this digest, and all of it can be copied; then the stores converge, the
      canaries pass, and rolling back gives the digest again, in time. */
  ghost predicate Succeeds(
    input: Input, w: World, trees: Trees, fenceHeld: bool, backup: Node, tree: Node, digest: Text)
  {
    && (input.expectedRevision == None || input.expectedRevision == w.observedRevision)
    && w.pathsSafe && trees.backup == None && trees.target == None && trees.rollback == None && !fenceHeld
    && w.download == (Some(backup), true) && w.manifestBinds(backup) && w.restore(backup) == (Some(tree), Some(digest))
    && w.resourcesComplete(tree) && tree.Directory? && HasDigest(w, Some(tree), digest)
    && AllCopied(tree, [], w.copyFails)
    && var converged := w.converge(Trees(Some(backup), Some(tree), Some(tree)));
    && converged.1 && w.canariesPass(converged.0) && w.objectivesMet
    && match w.rollback
       case Some(rollback) => rollback(converged.0).1 && HasDigest(w, rollback(converged.0).0.target, digest)
       case None => HasDigest(w, converged.0.rollback, digest)
  }

  lemma PassesExactly(input: Input, w: World, trees: Trees, fenceHeld: bool)
    ensures Passes(input, w, trees, fenceHeld) <==>
      exists backup, tree, digest :: Succeeds(input, w, trees, fenceHeld, backup, tree, digest)
    ensures forall backup, tree, digest | Succeeds(input, w, trees, fenceHeld, backup, tree, digest) ::
      ProofOf(input, w) == Proof(input.binding, input.key, digest, digest)
  {
    hide DigestOf, AllCopied;
    if Passes(input, w, trees, fenceHeld) {
      var backup := w.download.0.value;
      var restore := w.restore(backup);
      assert w.download == (Some(backup), true) && restore == (Some(restore.0.value), Some(restore.1.value));
      assert Succeeds(input, w, trees, fenceHeld, backup, restore.0.value, restore.1.value);
    }
  }

  /** The kills that come before anything is recorded. */
  predicate Interrupts(killedAt: Option<Point>) {
    killedAt in [Some(BeforePreparing), Some(BeforeRestoring), Some(BeforeConverging), Some(BeforeRecordingPass)]
  }

  /** The evidence after a run had the chance to record its pass. */
  function Recorded(input: Input, w: World, passes: bool): Evidence {
    if passes && w.writtenMeanwhile.Absent? then Written(w.writeProof, Passed(ProofOf(input, w)))
    else w.writtenMeanwhile
  }

  /** How a run ends that found no evidence and was not killed: it returns its proof exactly when it passes,
      records that first, and nobody else wrote; otherwise it throws, and unless there is evidence by then, it
      records its failure. */
  predicate Ends(input: Input, w: World, passes: bool, outcome: Outcome, after: Evidence) {
    if passes && w.writtenMeanwhile.Absent? && w.writeProof.Whole? then
      outcome == Returned(ProofOf(input, w)) && after == Passed(ProofOf(input, w))
    else
      && outcome == Threw
      && var mine := Recorded(input, w, passes);
         after == if mine.Absent? then Written(w.writeFailure, Failed(input.binding, input.key)) else mine
  }

  /** What a kill at a point leaves of the evidence, of which there was none: before the pass is recorded nothing
      of this run, then what it recorded, and at last what the run would have ended with. Only a failed run
      gets to the point before it records its failure. */
  predicate IsKilled(input: Input, w: World, passes: bool, point: Point, outcome: Outcome, after: Evidence) {
    match point
    case BeforeReplay => outcome == Killed && after == Absent
    case BeforePreparing => outcome == Killed && after == Absent
    case BeforeRestoring => outcome == Killed && after == Absent
    case BeforeConverging => outcome == Killed && after == Absent
    case BeforeRecordingPass => outcome == Killed && after == w.writtenMeanwhile
    case BeforeReturning => outcome == Killed && after == Recorded(input, w, passes)
    case BeforeRecordingFailure =>
      if passes && w.writtenMeanwhile.Absent? && w.writeProof.Whole? then Ends(input, w, passes, outcome, after)
      else outcome == Killed && after == Recorded(input, w, passes)
    case BeforeReleasing =>
      && outcome == Killed
      && (Ends(input, w, passes, Threw, after) || Ends(input, w, passes, Returned(ProofOf(input, w)), after))
  }

  class Host {
    var evidence: Evidence
    var trees: Trees
    /** The mutation fence, which another process may hold. */
    var fenceHeld: bool

    constructor (evidence: Evidence, trees: Trees, fenceHeld: bool)
      ensures this.evidence == evidence && this.trees == trees && this.fenceHeld == fenceHeld
    {
      this.evidence, this.trees, this.fenceHeld := evidence, trees, fenceHeld;
    }

    /** Creates the evidence file; an existing one, also one that appeared meanwhile, stays. */
    method PersistCreateOnly(value: Evidence, write: Write) returns (ok: bool)
      modifies this`evidence
      ensures evidence == if old(evidence).Absent? then Written(write, value) else old(evidence)
      ensures ok <==> old(evidence).Absent? && write.Whole?
    {
      ok := false;
      if evidence.Absent? {
        evidence := Written(write, value);
        ok := write.Whole?;
      }
    }

    /** Checks the deployment and the paths, and takes the fence. */
    method Prepare(input: Input, w: World) returns (ok: bool, leased: bool)
      modifies this`fenceHeld
      ensures fenceHeld == (old(fenceHeld) || leased) && (leased ==> !old(fenceHeld)) && (ok ==> leased)
      ensures ok <==> Prepared(input, w, trees, old(fenceHeld))
    {
      leased := false;
      if input.expectedRevision.Some? && w.observedRevision != input.expectedRevision {
        return false, false;
      }
      if !w.pathsSafe || trees.backup.Some? || trees.target.Some? || trees.rollback.Some? {
        return false, false;
      }
      if fenceHeld {
        return false, false;
      }
      fenceHeld, leased := true, true;
      ok := true;
    }

    /** Downloads, restores, and snapshots; returns the digest of the restored tree. It succeeds exactly if the
        backup and its restore are in order and everything restored can be copied. */
    method RestoreAndSnapshot(w: World) returns (restored: Option<Text>)
      requires trees == Trees(None, None, None)
      modifies this`trees
      ensures restored.Some? <==> RestoreInOrder(w) && AllCopied(RestoredTree(w).value, [], w.copyFails)
      ensures restored.Some? ==>
        && Plain(RestoredTree(w).value) && DigestAt(w, RestoredTree(w)) == restored
        && trees == Trees(w.download.0, RestoredTree(w), RestoredTree(w))
    {
      trees := trees.(backup := w.download.0);
      if !w.download.1 || trees.backup.None? || !w.manifestBinds(trees.backup.value) {
        return None;
      }
      var restore := w.restore(trees.backup.value);
      trees := trees.(target := restore.0);
      if restore.1.None? || trees.target.None? || !w.resourcesComplete(trees.target.value) {
        return None;
      }
      restored := DigestAt(w, trees.target);
      if restored != restore.1 {
        return None;
      }
      PlainNamesDiffer(trees.target.value);
      var snapshot := new CopyTarget();
      var copied := snapshot.CopyTreeCreateOnly(trees.target.value, w.copyFails);
      trees := trees.(rollback := snapshot.tree);
      if !copied || DigestAt(w, trees.rollback) != restored {
        return None;
      }
    }

    /** Converges the stores, runs the canaries, rolls back, and checks the target again. */
    method ConvergeAndRollBack(w: World, restored: Text) returns (ok: bool)
      modifies this`trees
      ensures ok <==> Exercised(w, old(trees), restored)
      ensures ok ==> DigestAt(w, trees.target) == Some(restored)
      ensures ok && w.rollback.None? ==> trees.target == w.converge(old(trees)).0.rollback
    {
      var converged := w.converge(trees);
      trees := converged.0;
      if !converged.1 || !w.canariesPass(trees) {
        return false;
      }
      var rolledBack := match w.rollback
        case Some(rollback) => rollback(trees)
        case None => DefaultRollback(trees);
      trees := rolledBack.0;
      ok := rolledBack.1 && DigestAt(w, trees.target) == Some(restored) && w.objectivesMet;
    }

    /** The part of a run that may throw at any point, up to recording a pass. */
    method Exercise(input: Input, w: World) returns (proof: Option<Proof>, leased: bool, killed: bool)
      requires evidence.Absent? && Injective(w.hash)
      modifies this
      ensures fenceHeld == (old(fenceHeld) || leased) && (leased ==> !old(fenceHeld))
      ensures proof.Some? ==> evidence == Passed(proof.value)
      ensures || evidence.Absent? || evidence == w.writtenMeanwhile || evidence.Torn?
              || (evidence.Passed? && Recovered(input, w, evidence.proof, trees.target))
      ensures proof.Some? ==> Recovered(input, w, proof.value, trees.target) && w.writtenMeanwhile.Absent?
      ensures killed <==> Interrupts(w.killedAt) || w.killedAt == Some(BeforeReturning)
      ensures Interrupts(w.killedAt) ==>
        evidence == if w.killedAt == Some(BeforeRecordingPass) then w.writtenMeanwhile else Absent
      ensures !Interrupts(w.killedAt) ==>
        var passes := Passes(input, w, old(trees), old(fenceHeld));
        && (proof.Some? <==> passes && w.writtenMeanwhile.Absent? && w.writeProof.Whole?)
        && (proof.Some? ==> proof.value == ProofOf(input, w))
        && evidence == Recorded(input, w, passes)
    {
      hide Plain, DigestOf, SameFiles, Injective, HoldsRestored, AllCopied, Recovered;
      proof, leased, killed := None, false, w.killedAt == Some(BeforePreparing);
      if killed {
        return;
      }
      var ok;
      ok, leased := Prepare(input, w);
      if w.killedAt == Some(BeforeRestoring) {
        killed := true;
        return;
      }
      var restored: Option<Text> := None;
      if ok {
        restored := RestoreAndSnapshot(w);
      }
      if w.killedAt == Some(BeforeConverging) {
        killed := true;
        return;
      }
      ok := false;
      if restored.Some? {
        ok := ConvergeAndRollBack(w, restored.value);
      }
      evidence := w.writtenMeanwhile;
      if w.killedAt == Some(BeforeRecordingPass) {
        killed := true;
        return;
      }
      if ok {
        RecoveredWhenDigestsAgree(w, restored.value, trees.target);
        AgreedIsRecovered(input, w, restored.value, trees.target);
        var value := Proof(input.binding, input.key, restored.value, restored.value);
        var written := PersistCreateOnly(Passed(value), w.writeProof);
        if written {
          proof := Some(value);
        }
      }
      killed := w.killedAt == Some(BeforeReturning);
    }

    /** A whole run. Existing evidence decides the outcome alone and nothing changes; otherwise the
        target has the digest of the restored tree whenever this run recorded a pass, whatever
        converging did, and the fence is left as it was found on every exit. A killed run
        leaves whatever its last step left. */
    method RunProductionRecoveryProof(input: Input, w: World) returns (outcome: Outcome)
      requires Injective(w.hash)
      modifies this
      ensures Transition(old(evidence), input, outcome, evidence)
      ensures !old(evidence).Absent? ==> trees == old(trees)
      ensures !outcome.Killed? ==> fenceHeld == old(fenceHeld)
      ensures old(evidence).Absent? && w.writtenMeanwhile.Absent? && evidence.Passed? ==>
        Recovered(input, w, evidence.proof, trees.target)
      ensures old(evidence).Absent? && w.killedAt.None? ==>
        Ends(input, w, Passes(input, w, old(trees), old(fenceHeld)), outcome, evidence)
      ensures old(evidence).Absent? && w.killedAt.Some? ==>
        IsKilled(input, w, Passes(input, w, old(trees), old(fenceHeld)), w.killedAt.value, outcome, evidence)
    {
      hide Recovered, Plain, DigestOf, RestoredTree, Injective, Passes;
      if w.killedAt == Some(BeforeReplay) {
        return Killed;
      }
      var replay := ReadCompletedReplay(evidence, input);
      if replay.Replayed? {
        return Returned(replay.proof);
      }
      if replay.Refused? {
        return Threw;
      }
      var proof, leased, killed := Exercise(input, w);
      if killed {
        return Killed;
      }
      if proof.Some? {
        BindingOfRecovered(input, w, proof.value, trees.target);
        outcome := Returned(proof.value);
      } else {
        outcome := Threw;
        if w.killedAt == Some(BeforeRecordingFailure) {
          return Killed;
        }
        if evidence.Absent? {
          var _ := PersistCreateOnly(Failed(input.binding, input.key), w.writeFailure);
        }
      }
      if w.killedAt == Some(BeforeReleasing) {
        return Killed;
      }
      if leased {
        fenceHeld := false;
      }
    }
  }

  lemma PlainNamesDiffer(n: Node)
    requires Plain(n)
    ensures NamesDistinctIn(n)
    decreases n
  {
    if n.Directory? {
      forall k | 0 <= k < |n.entries| ensures NamesDistinctIn(n.entries[k].node) {
        PlainNamesDiffer(n.entries[k].node);
      }
    }
  }

  /** The proof is this request's, and the target digests as the restored tree. */
  ghost predicate Recovered(input: Input, w: World, proof: Proof, target: Option<Node>) {
    && proof.binding == input.binding && proof.key == input.key
    && HoldsRestored(w, target) && DigestAt(w, target) == Some(proof.restored) && proof.rollback == proof.restored
  }

  /** When no restored file's path holds a backslash, the target has exactly the restored files if
      and only if it is a directory in which none does either. It is the very restored tree,
      empty directories included, when the snapshot was left alone and moved back. */
  ghost predicate HoldsRestored(w: World, target: Option<Node>) {
    && target.Some? && RestoredTree(w).Some? && Plain(target.value)
    && (CleanPaths(RestoredTree(w).value) ==>
          (SameFiles(RestoredTree(w).value, target.value) <==> target.value.Directory? && CleanPaths(target.value)))
    && (w.rollback.None? && LeavesSnapshot(w) ==> target == RestoredTree(w))
  }

  /** Converging does not touch the snapshot. */
  ghost predicate LeavesSnapshot(w: World) {
    forall t :: w.converge(t).0.rollback == t.rollback
  }

  lemma RecoveredWhenDigestsAgree(w: World, restored: Text, target: Option<Node>)
    requires Injective(w.hash) && DigestAt(w, target) == Some(restored)
    requires RestoredTree(w).Some? && RestoredTree(w).value.Directory? && Plain(RestoredTree(w).value)
    requires DigestAt(w, RestoredTree(w)) == Some(restored)
    requires w.rollback.None? && LeavesSnapshot(w) ==> target == RestoredTree(w)
    ensures HoldsRestored(w, target)
  {
    hide SameFiles, RestoredTree, Plain, LeavesSnapshot, CleanPaths, Injective;
    assert Plain(target.value);
    DigestIdentifiesFiles(w.hash, RestoredTree(w).value, target.value);
  }

  lemma AgreedIsRecovered(input: Input, w: World, restored: Text, target: Option<Node>)
    requires HoldsRestored(w, target) && DigestAt(w, target) == Some(restored)
    ensures Recovered(input, w, Proof(input.binding, input.key, restored, restored), target)
  {
    hide HoldsRestored;
  }

  lemma BindingOfRecovered(input: Input, w: World, proof: Proof, target: Option<Node>)
    requires Recovered(input, w, proof, target)
    ensures proof.binding == input.binding && proof.key == input.key
  {
    hide HoldsRestored;
  }

  // ---------- All retries ----------

  /** What one run, finished or killed, can do to the evidence. */
  predicate Transition(before: Evidence, input: Input, outcome: Outcome, after: Evidence) {
    if before.Absent? then
      outcome.Returned? ==>
        after == Passed(outcome.proof) && outcome.proof.binding == input.binding && outcome.proof.key == input.key
    else
      && after == before
      && (outcome.Killed? || outcome == match ReadCompletedReplay(before, input)
                                          case Replayed(proof) => Returned(proof)
                                          case _ => Threw)
  }

  datatype Run = Run(input: Input, outcome: Outcome)

  /** `evidence[k + 1]` is what run `k` left of `evidence[k]`. */
  predicate History(evidence: seq<Evidence>, runs: seq<Run>) {
    && |evidence| == |runs| + 1
    && forall k | 0 <= k < |runs| :: RunAt(evidence, runs, k)
  }

  predicate RunAt(evidence: seq<Evidence>, runs: seq<Run>, k: nat)
    requires k < |runs| && |evidence| == |runs| + 1
  {
    Transition(evidence[k], runs[k].input, runs[k].outcome, evidence[k + 1])
  }

  /** Once there is evidence of any kind, no later run changes it. */
  lemma {:induction false} EvidenceIsWriteOnce(evidence: seq<Evidence>, runs: seq<Run>, j: nat, k: nat)
    requires History(evidence, runs) && j <= k <= |runs| && !evidence[j].Absent?
    ensures evidence[k] == evidence[j]
    decreases k
  {
    if j < k {
      EvidenceIsWriteOnce(evidence, runs, j, k - 1);
      assert RunAt(evidence, runs, k - 1);
    }
  }

  /** After evidence of a failure, or torn evidence, every run that ends throws. */
  lemma FailureAlwaysThrows(evidence: seq<Evidence>, runs: seq<Run>, j: nat, k: nat)
    requires History(evidence, runs) && j <= k < |runs| && (evidence[j].Failed? || evidence[j].Torn?)
    ensures !runs[k].outcome.Returned?
  {
    EvidenceIsWriteOnce(evidence, runs, j, k);
    assert RunAt(evidence, runs, k);
  }

  /** After a pass, a run that ends returns that very proof exactly when it makes the same request
      under the same key. */
  lemma PassReplaysExactlyItsRequest(evidence: seq<Evidence>, runs: seq<Run>, j: nat, k: nat)
    requires History(evidence, runs) && j <= k < |runs| && evidence[j].Passed? && !runs[k].outcome.Killed?
    ensures runs[k].outcome.Returned? <==>
      runs[k].input.binding == evidence[j].proof.binding && runs[k].input.key == evidence[j].proof.key
    ensures runs[k].outcome.Returned? ==> runs[k].outcome.proof == evidence[j].proof
  {
    EvidenceIsWriteOnce(evidence, runs, j, k);
    assert RunAt(evidence, runs, k);
  }

  /** Over all retries there is at most one proof, and it is for one request. */
  lemma ReturnedRunsAgree(evidence: seq<Evidence>, runs: seq<Run>, j: nat, k: nat)
    requires History(evidence, runs) && j < |runs| && k < |runs|
    requires runs[j].outcome.Returned? && runs[k].outcome.Returned?
    ensures runs[j].outcome.proof == runs[k].outcome.proof
    ensures runs[j].input.binding == runs[k].input.binding && runs[j].input.key == runs[k].input.key
  {
    var first, second := if j <= k then j else k, if j <= k then k else j;
    assert RunAt(evidence, runs, first) && RunAt(evidence, runs, second);
    if first < second {
      PassReplaysExactlyItsRequest(evidence, runs, first + 1, second);
    }
  }
}
