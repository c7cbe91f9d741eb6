/**
 Publishing the signed report as a table of file operations, and what a run returns: a report it
 found before it executed, or one that prints like its own.
 */
module ProofRuns {
  import opened Basics
  import opened Utf8
  import opened CanonicalJson
  import opened CanonicalForm
  import opened LifecycleProof
  import opened LifecycleRules
  import opened ProofPublication

  datatype Operation =
    | Kill
    | FindNothing
    | FindReport(report: Json)
    | FindConflict
    | Build(report: Json)
    | FailToBuild
    | WriteTemporary
    | FailToWrite(left: Option<Bytes>)
    | LinkFirst
    | LinkLost(winner: Json)
    | FailToLink
    | RemoveAndReturn
    | FailToRemove
    | RemoveAndThrow

  /** Only this run moves, to the phase; temporaries and output are left to the operation. */
  predicate MovesAlone(s: State, t: State, id: RunId, phase: Phase) {
    t.phases == s.phases[id := phase]
  }

  /** The file holds a legal report of the request. */
  ghost predicate HoldsReport(q: Request, file: Bytes, report: Json) {
    && 1 <= |file| <= 1_048_576
    && HoldsDocument(file, report)
    && LegalReport(q.checks, q.authority, report, q.inputDigest, q.origin)
  }

  /** Canonical text and a line end. */
  ghost predicate IsFileOf(file: Bytes, report: Json) {
    exists text: Text | Stands(report, text) :: file == Encode(text + FromAscii("\n"))
  }

  /** The two reports have one canonical text. */
  ghost predicate SameText(one: Json, two: Json) { exists text: Text :: Stands(one, text) && Stands(two, text) }

  ghost predicate Performs(q: Request, s: State, t: State, id: RunId, operation: Operation)
    requires id in s.phases
  {
    var was := s.phases[id];
    match operation
    case Kill =>
      !was.Returned? && !was.Thrown? && !was.Killed? && MovesAlone(s, t, id, Killed) && SameFiles(s, t)
    case FindNothing =>
      was.Checking? && s.output.None? && MovesAlone(s, t, id, Executing) && SameFiles(s, t)
    case FindReport(report) =>
      && was.Checking? && s.output.Some? && HoldsReport(q, s.output.value, report)
      && MovesAlone(s, t, id, Returned(report)) && SameFiles(s, t)
    case FindConflict =>
      && was.Checking? && s.output.Some? && (forall report :: !HoldsReport(q, s.output.value, report))
      && MovesAlone(s, t, id, Thrown) && SameFiles(s, t)
    case Build(report) =>
      was.Executing? && WellFormed(report) && MovesAlone(s, t, id, WritingTemporary(report)) && SameFiles(s, t)
    case FailToBuild =>
      was.Executing? && MovesAlone(s, t, id, Thrown) && SameFiles(s, t)
    case WriteTemporary =>
      && was.WritingTemporary? && MovesAlone(s, t, id, Linking(was.report)) && t.output == s.output
      && exists file | IsFileOf(file, was.report) :: t.temporaries == s.temporaries[id := file]
    case FailToWrite(left) =>
      && was.WritingTemporary? && MovesAlone(s, t, id, RemovingAfterFailure) && t.output == s.output
      && t.temporaries == if left.Some? then s.temporaries[id := left.value] else s.temporaries
    case LinkFirst =>
      && was.Linking? && s.output.None? && id in s.temporaries && t.output == Some(s.temporaries[id])
      && MovesAlone(s, t, id, RemovingAfterLink(was.report)) && t.temporaries == s.temporaries
    case LinkLost(winner) =>
      && was.Linking? && s.output.Some? && HoldsReport(q, s.output.value, winner) && SameText(winner, was.report)
      && MovesAlone(s, t, id, RemovingAfterLoss(winner)) && SameFiles(s, t)
    case FailToLink =>
      was.Linking? && MovesAlone(s, t, id, RemovingAfterFailure) && SameFiles(s, t)
    case RemoveAndReturn =>
      && (was.RemovingAfterLink? || was.RemovingAfterLoss?) && Removes(s, t, id)
      && MovesAlone(s, t, id, Returned(if was.RemovingAfterLink? then was.report else was.winner))
    case FailToRemove =>
      && (was.RemovingAfterLink? || was.RemovingAfterLoss?)
      && MovesAlone(s, t, id, RemovingAfterFailure) && SameFiles(s, t)
    case RemoveAndThrow =>
      was.RemovingAfterFailure? && MovesAlone(s, t, id, Thrown) && Removes(s, t, id)
  }

  predicate SameFiles(s: State, t: State) { t.output == s.output && t.temporaries == s.temporaries }

  /** Only this run's temporary is gone. */
  predicate Removes(s: State, t: State, id: RunId) {
    && t.output == s.output && t.temporaries.Keys == s.temporaries.Keys - {id}
    && forall other | other in t.temporaries :: t.temporaries[other] == s.temporaries[other]
  }

  lemma ExistingExactly(q: Request, file: Bytes)
    ensures forall report :: Existing(q, file) == Some(report) <==> HoldsReport(q, file, report)
  {
    hide ExistingReport, LegalReport, HoldsDocument;
    forall report ensures Existing(q, file) == Some(report) <==> HoldsReport(q, file, report) {
      ReplaysExactly(q.checks, q.authority, file, q.inputDigest, q.origin, report);
    }
  }

  lemma FileExactly(file: Bytes, report: Json)
    requires WellFormed(report)
    ensures IsFileOf(file, report) <==> file == FileBytes(report)
  {
    hide Stands, Print, Encode, WellFormed;
    assert FromAscii("\n") == [NEWLINE];
    StandsExactly(report, Print(report));
    forall text | Stands(report, text) ensures text == Print(report) {
      StandsExactly(report, text);
    }
  }

  lemma SameTextExactly(one: Json, two: Json)
    requires WellFormed(one) && WellFormed(two)
    ensures SameText(one, two) <==> Print(one) == Print(two)
  {
    hide Stands, Print, WellFormed;
    forall text ensures (Stands(one, text) <==> text == Print(one)) && (Stands(two, text) <==> text == Print(two)) {
      StandsExactly(one, text);
      StandsExactly(two, text);
    }
    assert Stands(one, Print(one));
  }

  lemma WinnerIsWellFormed(q: Request, file: Bytes, report: Json)
    requires HoldsReport(q, file, report)
    ensures WellFormed(report)
  {
    hide WellFormed;
  }

  lemma MovesExactly(s: State, t: State, id: RunId, phase: Phase)
    requires id in s.phases
    ensures t == Move(s, id, phase) <==> MovesAlone(s, t, id, phase) && SameFiles(s, t)
    ensures t == Drop(Move(s, id, phase), id) <==> MovesAlone(s, t, id, phase) && Removes(s, t, id)
  {
    if MovesAlone(s, t, id, phase) && Removes(s, t, id) {
      assert t.temporaries == s.temporaries - {id};
    }
  }

  lemma StepPerforms(q: Request, s: State, t: State, id: RunId) returns (operation: Operation)
    requires Invariant(s) && Step(q, s, t, id)
    ensures Performs(q, s, t, id, operation)
  {
    hide Existing, HoldsReport, IsFileOf, SameText, FileBytes, Print, WellFormed, PublishedAs;
    assert PhaseHolds(s, id);
    hide MovesAlone, SameFiles, Removes;
    forall phase
      ensures t == Move(s, id, phase) <==> MovesAlone(s, t, id, phase) && SameFiles(s, t)
      ensures t == Drop(Move(s, id, phase), id) <==> MovesAlone(s, t, id, phase) && Removes(s, t, id)
    {
      MovesExactly(s, t, id, phase);
    }
    if s.output.Some? {
      ExistingExactly(q, s.output.value);
    }
    if t == Move(s, id, Killed) {
      return Kill;
    }
    match s.phases[id] {
      case Checking =>
        operation := if s.output.None? then FindNothing
          else if Existing(q, s.output.value).Some? then FindReport(Existing(q, s.output.value).value)
          else FindConflict;
      case Executing =>
        if t == Move(s, id, Thrown) {
          operation := FailToBuild;
        } else {
          var report :| WellFormed(report) && t == Move(s, id, WritingTemporary(report));
          operation := Build(report);
        }
      case WritingTemporary(report) =>
        operation := WritePerforms(q, s, t, id);
      case Linking(report) =>
        operation := LinkPerforms(q, s, t, id);
      case RemovingAfterLink(report) =>
        operation := if t == Move(s, id, RemovingAfterFailure) then FailToRemove else RemoveAndReturn;
      case RemovingAfterLoss(winner) =>
        operation := if t == Move(s, id, RemovingAfterFailure) then FailToRemove else RemoveAndReturn;
      case RemovingAfterFailure =>
        operation := RemoveAndThrow;
    }
  }

  lemma WritePerforms(q: Request, s: State, t: State, id: RunId) returns (operation: Operation)
    requires id in s.phases && s.phases[id].WritingTemporary? && WellFormed(s.phases[id].report)
    requires Advances(q, s, t, id)
    ensures Performs(q, s, t, id, operation)
  {
    hide IsFileOf, FileBytes, WellFormed;
    var report := s.phases[id].report;
    FileExactly(FileBytes(report), report);
    if t == Move(s, id, Linking(report)).(temporaries := s.temporaries[id := FileBytes(report)]) {
      operation := WriteTemporary;
    } else if t == Move(s, id, RemovingAfterFailure) {
      operation := FailToWrite(None);
    } else {
      operation := FailToWrite(Some(t.temporaries[id]));
    }
  }

  lemma LinkPerforms(q: Request, s: State, t: State, id: RunId) returns (operation: Operation)
    requires id in s.phases && s.phases[id].Linking? && WellFormed(s.phases[id].report) && Advances(q, s, t, id)
    ensures Performs(q, s, t, id, operation)
  {
    hide Existing, HoldsReport, SameText, Print, WellFormed;
    var report := s.phases[id].report;
    if t == Move(s, id, RemovingAfterFailure) {
      operation := FailToLink;
    } else if s.output.None? {
      operation := LinkFirst;
    } else {
      ExistingExactly(q, s.output.value);
      var winner := Existing(q, s.output.value).value;
      WinnerIsWellFormed(q, s.output.value, winner);
      SameTextExactly(winner, report);
      operation := LinkLost(winner);
    }
  }

  lemma PerformsSteps(q: Request, s: State, t: State, id: RunId, operation: Operation)
    requires Invariant(s) && id in s.phases && Performs(q, s, t, id, operation)
    ensures Step(q, s, t, id)
  {
    hide Existing, HoldsReport, IsFileOf, SameText, FileBytes, Print, WellFormed, PublishedAs;
    assert PhaseHolds(s, id);
    var was := s.phases[id];
    MovesExactly(s, t, id, if id in t.phases then t.phases[id] else Thrown);
    if s.output.Some? {
      ExistingExactly(q, s.output.value);
    }
    match operation {
      case WriteTemporary =>
        var file :| IsFileOf(file, was.report) && t.temporaries == s.temporaries[id := file];
        FileExactly(file, was.report);
      case LinkLost(winner) =>
        WinnerIsWellFormed(q, s.output.value, winner);
        SameTextExactly(winner, was.report);
        assert Existing(q, s.output.value) == Some(winner);
      case FindReport(report) =>
        assert Existing(q, s.output.value) == Some(report);
      case _ =>
    }
  }

  /** The steps of a run are exactly the operations of the table. */
  lemma StepExactly(q: Request, s: State, t: State, id: RunId)
    requires Invariant(s)
    ensures Step(q, s, t, id) <==> id in s.phases && exists operation :: Performs(q, s, t, id, operation)
  {
    hide Performs, Advances, Invariant;
    if Step(q, s, t, id) {
      var operation := StepPerforms(q, s, t, id);
    }
    if id in s.phases {
      forall operation | Performs(q, s, t, id, operation) ensures Step(q, s, t, id) {
        PerformsSteps(q, s, t, id, operation);
      }
    }
  }

  // ---------- What a run returns ----------

  /** The run is past building this report, and will return one that prints like it, or none. */
  predicate CommittedTo(phase: Phase, report: Json) {
    match phase
    case WritingTemporary(own) => own == report
    case Linking(own) => own == report
    case RemovingAfterLink(own) => own == report
    case RemovingAfterLoss(winner) => Print(winner) == Print(report)
    case Returned(result) => Print(result) == Print(report)
    case RemovingAfterFailure => true
    case Thrown => true
    case Killed => true
    case _ => false
  }

  lemma StepStaysCommitted(q: Request, s: State, t: State, id: RunId, report: Json)
    requires Step(q, s, t, id) && CommittedTo(s.phases[id], report)
    ensures id in t.phases && CommittedTo(t.phases[id], report)
  {
    hide Existing, FileBytes, Print, WellFormed;
  }

  /** A run that has built a report returns one with the same text, if it returns. */
  lemma {:induction false} BuiltReportIsReturned(
    requests: Requests, states: seq<State>, ids: seq<RunId>, j: nat, k: nat, id: RunId, report: Json)
    requires Execution(requests, states, ids) && j <= k <= |ids|
    requires id in states[j].phases && states[j].phases[id] == WritingTemporary(report)
    ensures id in states[k].phases && CommittedTo(states[k].phases[id], report)
    ensures states[k].phases[id].Returned? ==> Print(states[k].phases[id].result) == Print(report)
    decreases k
  {
    hide Step, Initial, Print;
    if j < k {
      BuiltReportIsReturned(requests, states, ids, j, k - 1, id, report);
      assert StepAt(requests, states, ids, k - 1);
      if ids[k - 1] == id {
        StepStaysCommitted(requests(id), states[k - 1], states[k], id, report);
      } else {
        StepFrame(requests(ids[k - 1]), states[k - 1], states[k], ids[k - 1], id);
        assert Get(states[k].phases, id) == Some(states[k - 1].phases[id]);
      }
    }
  }
}
