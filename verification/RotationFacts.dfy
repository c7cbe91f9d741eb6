/** How the readings of the ledger extend by one more receipt. */
module RotationFacts {
  import opened Basics
  import opened AuthorityPolicy
  import opened AuthorityRotation

  lemma LastActivationAppend(rotations: seq<Receipt>, x: Receipt)
    ensures LastActivation(rotations + [x]) ==
      if x.kind.ActivateSuccessor? then |rotations| else LastActivation(rotations)
  {
    assert (rotations + [x])[..|rotations|] == rotations;
  }

  lemma {:induction false} FirstStageAppend(rotations: seq<Receipt>, x: Receipt)
    ensures FirstStage(rotations + [x]) ==
      if FirstStage(rotations).Some? then FirstStage(rotations)
      else if x.kind.StageSuccessor? then Some(x) else None
  {
    if rotations != [] && !rotations[0].kind.StageSuccessor? {
      assert (rotations + [x])[1..] == rotations[1..] + [x];
      FirstStageAppend(rotations[1..], x);
    } else if rotations == [] {
      assert [x][1..] == [];
    }
  }

  /** An activation closes the episode; a stage opens one that has not been opened. */
  lemma EpisodeOriginAppend(rotations: seq<Receipt>, x: Receipt)
    ensures EpisodeOrigin(rotations + [x]) ==
      if x.kind.ActivateSuccessor? then None
      else if EpisodeOrigin(rotations).Some? then EpisodeOrigin(rotations)
      else if x.kind.StageSuccessor? then Some(x) else None
  {
    LastActivationAppend(rotations, x);
    if x.kind.ActivateSuccessor? {
      assert Episode(rotations + [x]) == [];
    } else {
      assert Episode(rotations + [x]) == Episode(rotations) + [x];
      FirstStageAppend(Episode(rotations), x);
    }
  }

  lemma {:induction false} FindRotationAt(rotations: seq<Receipt>, k: nat)
    requires k < |rotations|
    requires forall j | 0 <= j < k :: rotations[j].rotationId != rotations[k].rotationId
    ensures FindRotation(rotations, rotations[k].rotationId) == Some(rotations[k])
  {
    if k > 0 {
      assert rotations[1..][k - 1] == rotations[k];
      assert forall j | 0 <= j < k - 1 :: rotations[1..][j] == rotations[j + 1];
      FindRotationAt(rotations[1..], k - 1);
    }
  }
}
