/**
 Concurrent runs that persist one report at one output path. Each run checks for
 an existing report, executes, writes its report to a temporary of its own, and
 links the temporary to the output path, which fails when the path exists. Any
 run may be interrupted by a failing file operation, or killed, at any step.
 */
module ProofPublication {
  import opened Basics
  import opened Utf8
  import opened CanonicalJson
  import opened CanonicalJsonTheorems
  import opened LifecycleReport
  import opened LifecycleProof

  type RunId = nat

  datatype Phase =
    | Checking
    | Executing
    | WritingTemporary(report: Json)
    | Linking(report: Json)
    | RemovingAfterLink(report: Json)
    | RemovingAfterLoss(winner: Json)
    | RemovingAfterFailure
    | Returned(result: Json)
    | Thrown
    | Killed

  /** What one run is asked to publish and how it authenticates reports. */
  datatype Request = Request(checks: Checks, authority: Authority, inputDigest: Text, origin: Text)

  /** Every run has a request of its own: input, origin and keys may differ between them. */
  type Requests = RunId -> Request

  /** The output file, the temporaries (each run draws its own name), and the runs. */
  datatype State = State(output: Option<Bytes>, temporaries: map<RunId, Bytes>, phases: map<RunId, Phase>)

  function Existing(q: Request, file: Bytes): Option<Json> {
    ExistingReport(q.checks, q.authority, file, q.inputDigest, q.origin)
  }

  ghost predicate Initial(s: State) {
    s.temporaries == map[] && forall id | id in s.phases :: s.phases[id].Checking?
  }

  function Move(s: State, id: RunId, phase: Phase): State { s.(phases := s.phases[id := phase]) }

  function Drop(s: State, id: RunId): State { s.(temporaries := s.temporaries - {id}) }

  predicate Finished(phase: Phase) { phase.Returned? || phase.Thrown? || phase.Killed? }

  /** One file operation of a run that is not interrupted. */
  ghost predicate Advances(q: Request, s: State, t: State, id: RunId)
    requires id in s.phases
  {
    match s.phases[id]
    case Checking =>
      if s.output.None? then t == Move(s, id, Executing)
      else (match Existing(q, s.output.value)
            case Some(report) => t == Move(s, id, Returned(report))
            case None => t == Move(s, id, Thrown))
    case Executing =>
      t == Move(s, id, Thrown) || exists report :: WellFormed(report) && t == Move(s, id, WritingTemporary(report))
    case WritingTemporary(report) =>
      || t == Move(s, id, Linking(report)).(temporaries := s.temporaries[id := FileBytes(report)])
      || t == Move(s, id, RemovingAfterFailure)
      || (id in t.temporaries &&  // a partly written temporary
          t == Move(s, id, RemovingAfterFailure).(temporaries := s.temporaries[id := t.temporaries[id]]))
    case Linking(report) =>
      t == Move(s, id, RemovingAfterFailure) || Links(q, s, t, id, report)
    case RemovingAfterLink(report) =>
      t == Drop(Move(s, id, Returned(report)), id) || t == Move(s, id, RemovingAfterFailure)
    case RemovingAfterLoss(winner) =>
      t == Drop(Move(s, id, Returned(winner)), id) || t == Move(s, id, RemovingAfterFailure)
    case RemovingAfterFailure => t == Drop(Move(s, id, Thrown), id)
    case _ => false
  }

  /** Linking creates the output, or finds it there and compares. */
  predicate Links(q: Request, s: State, t: State, id: RunId, report: Json)
    requires id in s.phases
  {
    match s.output
    case None =>
      id in s.temporaries && t == Move(s, id, RemovingAfterLink(report)).(output := Some(s.temporaries[id]))
    case Some(file) =>
      match Existing(q, file)
      case Some(winner) =>
        t == Move(s, id, if Print(winner) == Print(report) then RemovingAfterLoss(winner) else RemovingAfterFailure)
      case None => t == Move(s, id, RemovingAfterFailure)
  }

  /** One atomic step of run `id`, which may also be killed while it runs. */
  ghost predicate Step(q: Request, s: State, t: State, id: RunId) {
    && id in s.phases
    && !Finished(s.phases[id])
    && (t == Move(s, id, Killed) || Advances(q, s, t, id))
  }

  /** Any interleaving: `states[k + 1]` is one step of run `ids[k]` after `states[k]`. */
  ghost predicate Execution(requests: Requests, states: seq<State>, ids: seq<RunId>) {
    && |states| == |ids| + 1
    && Initial(states[0])
    && forall k | 0 <= k < |ids| :: StepAt(requests, states, ids, k)
  }

  ghost predicate StepAt(requests: Requests, states: seq<State>, ids: seq<RunId>, k: nat)
    requires k < |ids| && |states| == |ids| + 1
  {
    Step(requests(ids[k]), states[k], states[k + 1], ids[k])
  }

  // ---------- The invariant ----------

  /** The report reads back from this file, up to canonical form. */
  predicate PublishedAs(output: Option<Bytes>, report: Json) {
    && output.Some?
    && var read := ReadDocument(Decode(output.value));
    && read.Some? && Print(read.value) == Print(report)
  }

  predicate PhaseHolds(s: State, id: RunId)
    requires id in s.phases
  {
    match s.phases[id]
    case Checking => id !in s.temporaries
    case Executing => id !in s.temporaries
    case WritingTemporary(report) => id !in s.temporaries && WellFormed(report)
    case Linking(report) => WellFormed(report) && Get(s.temporaries, id) == Some(FileBytes(report))
    case RemovingAfterLink(report) => PublishedAs(s.output, report)
    case RemovingAfterLoss(winner) => PublishedAs(s.output, winner)
    case RemovingAfterFailure => true
    case Returned(result) => id !in s.temporaries && PublishedAs(s.output, result)
    case Thrown => id !in s.temporaries
    case Killed => true
  }

  ghost predicate Invariant(s: State) {
    && (forall id | id in s.phases :: PhaseHolds(s, id))
    && (forall id | id in s.temporaries :: id in s.phases)
  }

  lemma LinkedReportIsPublished(report: Json)
    requires WellFormed(report)
    ensures PublishedAs(Some(FileBytes(report)), report)
  {
    hide ReadDocument, Print, Canon, FileBytes;
    ReadOwnFile(report);
    CanonIsStable(report);
  }

  lemma ExistingIsPublished(q: Request, file: Bytes)
    ensures match Existing(q, file)
      case Some(report) => PublishedAs(Some(file), report)
      case None => true
  {
    hide AcceptsReport, Print;
  }

  /** A step touches only its own phase and temporary, and an output that was absent. */
  lemma StepFrame(q: Request, s: State, t: State, id: RunId, other: RunId)
    requires Step(q, s, t, id) && other != id
    ensures Get(t.phases, other) == Get(s.phases, other)
    ensures Get(t.temporaries, other) == Get(s.temporaries, other)
    ensures s.output.Some? ==> t.output == s.output
    ensures id in t.phases
  {
    hide Existing, FileBytes, WellFormed, Print;
  }

  lemma OthersHold(q: Request, s: State, t: State, id: RunId, other: RunId)
    requires Step(q, s, t, id) && other != id && other in t.phases
    requires other in s.phases ==> PhaseHolds(s, other)
    ensures PhaseHolds(t, other)
  {
    hide Step, FileBytes, WellFormed, Print, ReadDocument;
    StepFrame(q, s, t, id, other);
  }

  lemma StepKeepsInvariant(q: Request, s: State, t: State, id: RunId)
    requires Invariant(s) && Step(q, s, t, id)
    ensures Invariant(t)
    ensures s.output.Some? ==> t.output == s.output
    ensures forall other | other in s.phases && Finished(s.phases[other]) ::
      other in t.phases && t.phases[other] == s.phases[other]
  {
    hide PhaseHolds, Advances;
    StepKeepsOwnPhase(q, s, t, id);
    forall other | other in t.phases ensures PhaseHolds(t, other) {
      if other != id {
        StepFrame(q, s, t, id, other);
        OthersHold(q, s, t, id, other);
      }
    }
    forall other | other in t.temporaries ensures other in t.phases {
      if other != id {
        StepFrame(q, s, t, id, other);
      }
    }
    forall other | other in s.phases && Finished(s.phases[other])
      ensures other in t.phases && t.phases[other] == s.phases[other]
    {
      StepFrame(q, s, t, id, other);
    }
  }

  lemma StepKeepsOwnPhase(q: Request, s: State, t: State, id: RunId)
    requires Invariant(s) && Step(q, s, t, id)
    ensures id in t.phases && PhaseHolds(t, id)
    ensures s.output.Some? ==> t.output == s.output
  {
    hide PublishedAs, Print, Existing, FileBytes, WellFormed;
    assert PhaseHolds(s, id);
    if s.output.Some? {
      ExistingIsPublished(q, s.output.value);
    }
    if s.phases[id].Linking? {
      LinkedReportIsPublished(s.phases[id].report);
    }
  }

  lemma {:induction false} EveryStateHolds(requests: Requests, states: seq<State>, ids: seq<RunId>, k: nat)
    requires Execution(requests, states, ids) && k <= |ids|
    ensures Invariant(states[k])
  {
    hide Step, Invariant;
    if k == 0 {
      InitialHolds(states[0]);
    } else {
      EveryStateHolds(requests, states, ids, k - 1);
      assert StepAt(requests, states, ids, k - 1);
      StepKeepsInvariant(requests(ids[k - 1]), states[k - 1], states[k], ids[k - 1]);
    }
  }

  lemma InitialHolds(s: State)
    requires Initial(s)
    ensures Invariant(s)
  {
  }

  // ---------- The promises ----------

  /** The output file is created at most once and never changes afterwards. */
  lemma {:induction false} OutputNeverChanges(requests: Requests, states: seq<State>, ids: seq<RunId>, j: nat, k: nat)
    requires Execution(requests, states, ids) && j <= k <= |ids|
    requires states[j].output.Some?
    ensures states[k].output == states[j].output
    decreases k
  {
    hide Step, Invariant, Initial;
    if j < k {
      OutputNeverChanges(requests, states, ids, j, k - 1);
      EveryStateHolds(requests, states, ids, k - 1);
      assert StepAt(requests, states, ids, k - 1);
      StepKeepsInvariant(requests(ids[k - 1]), states[k - 1], states[k], ids[k - 1]);
    }
  }

  /** Every run that returned did so with a report canonically equal to the file, and
      left no temporary; so did every run that threw. */
  lemma ReturnedIsPublished(requests: Requests, states: seq<State>, ids: seq<RunId>, k: nat, id: RunId)
    requires Execution(requests, states, ids) && k <= |ids| && id in states[k].phases
    ensures states[k].phases[id].Returned? ==> PublishedAs(states[k].output, states[k].phases[id].result)
    ensures states[k].phases[id].Returned? || states[k].phases[id].Thrown? ==> id !in states[k].temporaries
  {
    hide Step, PublishedAs, Initial;
    EveryStateHolds(requests, states, ids, k);
    assert PhaseHolds(states[k], id);
  }

  /** Any two runs that return agree on the canonical report. */
  lemma ReturnedRunsAgree(requests: Requests, states: seq<State>, ids: seq<RunId>, k: nat, one: RunId, two: RunId)
    requires Execution(requests, states, ids) && k <= |ids| && one in states[k].phases && two in states[k].phases
    requires states[k].phases[one].Returned? && states[k].phases[two].Returned?
    ensures Print(states[k].phases[one].result) == Print(states[k].phases[two].result)
  {
    hide Step, Initial, Print, ReadDocument;
    ReturnedIsPublished(requests, states, ids, k, one);
    ReturnedIsPublished(requests, states, ids, k, two);
  }
}
