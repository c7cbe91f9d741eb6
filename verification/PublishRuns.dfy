/**
 Publishing as a table of operations, and what an undisturbed publication reaches. The table spells
 out, for each operation, when it can happen and what it leaves; `ObjectStore.Step` is exactly that.
 */
module PublishRuns {
  import opened Basics
  import opened ObjectStore

  datatype Operation =
    | Stop
    | List
    | Upload(path: string)
    | FinishUpload
    | Verify(path: string)
    | FinishVerify
    | ReadManifest
    | PutCommit(answered: bool)
    | ReadCommit

  /** Only publisher `k` moves, and only its phase changes. */
  predicate MovesAlone(s: State, t: State, k: nat) {
    && k < |s.publishers| == |t.publishers|
    && (forall j | 0 <= j < |s.publishers| && j != k :: t.publishers[j] == s.publishers[j])
    && t.publishers[k].job == s.publishers[k].job
  }

  ghost predicate IsCommitOf(size: Sizes, content: Content, job: Job) {
    && content.CommitText? && content.authentic && "manifest.json" in job.local
    && content.commit.locator == job.locator && content.commit.manifest == job.local["manifest.json"]
    && content.commit.authentication == job.authentication && content.commit.publishedAt == job.publishedAt
    && content.commit.objectCount == |job.local| && content.commit.sizeBytes == TotalSize(size, job.local)
  }

  /** The store after storing an object where none is: every other object stays. */
  ghost predicate Stores(before: Files, after: Files, path: string, content: Content) {
    forall other :: Get(after, other) ==
      if other in before then Some(before[other]) else if other == path then Some(content) else None
  }

  ghost predicate Performs(size: Sizes, s: State, t: State, k: nat, operation: Operation) {
    && MovesAlone(s, t, k)
    && var local, was, now := s.publishers[k].job.local, s.publishers[k].phase, t.publishers[k].phase;
    match operation
    case Stop => was != Returned && was != Stopped && now == Stopped && t.remote == s.remote
    case List =>
      && was == Listing && now == Uploading({}) && t.remote == s.remote
      && |s.remote| == 0 && "manifest.json" in local
    case Upload(path) =>
      && was.Uploading? && now == Uploading(was.uploaded + {path})
      && path in local && Stores(s.remote, t.remote, path, local[path])
    case FinishUpload =>
      && was.Uploading? && now == Verifying({}) && t.remote == s.remote
      && forall path :: path in was.uploaded <==> path in local
    case Verify(path) =>
      && was.Verifying? && now == Verifying(was.verified + {path}) && t.remote == s.remote
      && path in local && path in s.remote && s.remote[path] == local[path]
    case FinishVerify =>
      && was.Verifying? && now == ReadingManifest && t.remote == s.remote
      && forall path :: path in was.verified <==> path in local
    case ReadManifest =>
      && was == ReadingManifest && now == Committing && t.remote == s.remote
      && "manifest.json" in local && Get(s.remote, "manifest.json") == Some(local["manifest.json"])
    case PutCommit(answered) =>
      && was == Committing && now == (if answered then ReadingCommit else Stopped)
      && exists commit | IsCommitOf(size, commit, s.publishers[k].job) ::
           Stores(s.remote, t.remote, "commit.json", commit)
    case ReadCommit =>
      && was == ReadingCommit && now == Returned && t.remote == s.remote
      && "commit.json" in s.remote && IsCommitOf(size, s.remote["commit.json"], s.publishers[k].job)
  }

  lemma CommitExactly(size: Sizes, content: Content, job: Job)
    ensures IsCommitOf(size, content, job) <==>
      MANIFEST in job.local && content == CommitText(CommitOf(size, job), true)
  {
    hide TotalSize;
  }

  lemma StoresExactly(before: Files, after: Files, path: string, content: Content)
    ensures Stores(before, after, path, content) <==> after == PutIfAbsent(before, path, content)
  {
    var stored := PutIfAbsent(before, path, content);
    if Stores(before, after, path, content) {
      forall other ensures Get(after, other) == Get(stored, other) {
      }
      SameFiles(after, stored);
    }
  }

  lemma SameFiles(one: Files, two: Files)
    requires forall path :: Get(one, path) == Get(two, path)
    ensures one == two
  {
    forall path ensures path in one <==> path in two {
      assert Get(one, path) == Get(two, path);
    }
    forall path | path in one ensures one[path] == two[path] {
      assert Get(one, path) == Get(two, path);
    }
  }

  /** Publisher `k` is left in the phase, and nothing else but the store may change. */
  predicate Arrives(s: State, t: State, k: nat, phase: Phase) {
    k < |s.publishers| && t == At(s, k, phase).(remote := t.remote)
  }

  lemma ArrivesExactly(s: State, t: State, k: nat, phase: Phase)
    ensures Arrives(s, t, k, phase) <==> MovesAlone(s, t, k) && t.publishers[k].phase == phase
  {
    if MovesAlone(s, t, k) && t.publishers[k].phase == phase {
      assert t.publishers == At(s, k, phase).publishers;
    }
  }

  lemma StepPerforms(size: Sizes, s: State, t: State, k: nat) returns (operation: Operation)
    requires Step(size, s, t, k)
    ensures Performs(size, s, t, k, operation)
  {
    hide TotalSize, CommitOf, IsCommitOf, Stores, PutIfAbsent, MovesAlone;
    var was, now, job := s.publishers[k].phase, t.publishers[k].phase, s.publishers[k].job;
    assert Arrives(s, t, k, now);
    ArrivesExactly(s, t, k, now);
    if now == Stopped && t.remote == s.remote {
      return Stop;
    }
    match was {
      case Listing =>
        operation := List;
      case Uploading(uploaded) =>
        if UploadsOne(s, t, k, uploaded) {
          var path :| path in job.local &&
            t == At(s, k, Uploading(uploaded + {path})).(remote := PutIfAbsent(s.remote, path, job.local[path]));
          StoresExactly(s.remote, t.remote, path, job.local[path]);
          operation := Upload(path);
        } else {
          operation := FinishUpload;
        }
      case Verifying(verified) =>
        if VerifiesOne(s, t, k, verified) {
          var path :| path in job.local && Get(s.remote, path) == Some(job.local[path])
            && t == At(s, k, Verifying(verified + {path}));
          operation := Verify(path);
        } else {
          operation := FinishVerify;
        }
      case ReadingManifest =>
        operation := ReadManifest;
      case Committing =>
        var commit := CommitText(CommitOf(size, job), true);
        CommitExactly(size, commit, job);
        StoresExactly(s.remote, t.remote, COMMIT, commit);
        operation := PutCommit(now == ReadingCommit);
      case ReadingCommit =>
        CommitExactly(size, s.remote[COMMIT], job);
        operation := ReadCommit;
    }
  }

  lemma PerformsSteps(size: Sizes, s: State, t: State, k: nat, operation: Operation)
    requires Performs(size, s, t, k, operation)
    ensures Step(size, s, t, k)
  {
    var now, job := t.publishers[k].phase, s.publishers[k].job;
    hide TotalSize, CommitOf, IsCommitOf, Stores, PutIfAbsent, MovesAlone;
    ArrivesExactly(s, t, k, now);
    match operation {
      case Upload(path) =>
        StoresExactly(s.remote, t.remote, path, job.local[path]);
        assert UploadsOne(s, t, k, s.publishers[k].phase.uploaded);
      case FinishUpload =>
        assert s.publishers[k].phase.uploaded == job.local.Keys;
      case Verify(path) =>
        assert VerifiesOne(s, t, k, s.publishers[k].phase.verified);
      case FinishVerify =>
        assert s.publishers[k].phase.verified == job.local.Keys;
      case PutCommit(_) =>
        var commit :| IsCommitOf(size, commit, job) && Stores(s.remote, t.remote, COMMIT, commit);
        CommitExactly(size, commit, job);
        StoresExactly(s.remote, t.remote, COMMIT, commit);
      case ReadCommit =>
        CommitExactly(size, s.remote[COMMIT], job);
      case _ =>
    }
  }

  /** The steps of a publisher are exactly the operations of the table. */
  lemma StepExactly(size: Sizes, s: State, t: State, k: nat)
    ensures Step(size, s, t, k) <==> exists operation :: Performs(size, s, t, k, operation)
  {
    hide Step, Performs;
    if Step(size, s, t, k) {
      var operation := StepPerforms(size, s, t, k);
    }
    if operation :| Performs(size, s, t, k, operation) {
      PerformsSteps(size, s, t, k, operation);
    }
  }

  // ---------- An undisturbed publication ----------

  ghost predicate Path(size: Sizes, states: seq<State>, ids: seq<nat>) {
    |states| == |ids| + 1 && forall i | 0 <= i < |ids| :: StepAt(size, states, ids, i)
  }

  ghost predicate Reaches(size: Sizes, s: State, t: State) {
    exists states: seq<State>, ids: seq<nat> | Path(size, states, ids) :: states[0] == s && states[|ids|] == t
  }

  lemma OneStep(size: Sizes, s: State, t: State, k: nat)
    requires Step(size, s, t, k)
    ensures Reaches(size, s, t)
  {
    hide Step;
    assert StepAt(size, [s, t], [k], 0);
    assert Path(size, [s, t], [k]);
  }

  lemma ThenReaches(size: Sizes, s: State, t: State, u: State)
    requires Reaches(size, s, t) && Reaches(size, t, u)
    ensures Reaches(size, s, u)
  {
    hide Step;
    var one: seq<State>, ids: seq<nat> :| Path(size, one, ids) && one[0] == s && one[|ids|] == t;
    var two: seq<State>, more: seq<nat> :| Path(size, two, more) && two[0] == t && two[|more|] == u;
    var states, all := one + two[1..], ids + more;
    forall i | 0 <= i < |all| ensures StepAt(size, states, all, i) {
      if i < |ids| {
        assert StepAt(size, one, ids, i);
      } else {
        assert StepAt(size, two, more, i - |ids|);
      }
    }
    assert Path(size, states, all);
  }

  function Alone(remote: Files, job: Job, phase: Phase): State { State(remote, [Publisher(job, phase)]) }

  lemma AloneMoves(remote: Files, after: Files, job: Job, was: Phase, now: Phase)
    ensures At(Alone(remote, job, was), 0, now).(remote := after) == Alone(after, job, now)
    ensures At(Alone(remote, job, was), 0, now) == Alone(remote, job, now)
  {
    assert Alone(remote, job, was).publishers[0 := Publisher(job, now)] == [Publisher(job, now)];
  }

  /** Every file not yet uploaded is uploaded, one after another. */
  lemma {:induction false} UploadsRest(size: Sizes, job: Job, uploaded: set<string>)
    requires uploaded <= job.local.Keys
    ensures Reaches(size, Alone(Only(job.local, uploaded), job, Uploading(uploaded)),
              Alone(job.local, job, Uploading(job.local.Keys)))
    decreases job.local.Keys - uploaded
  {
    hide Step, Reaches;
    if uploaded == job.local.Keys {
      assert Only(job.local, uploaded) == job.local;
      Nothing(size, Alone(job.local, job, Uploading(uploaded)));
    } else {
      var path :| path in job.local && path !in uploaded;
      var more := uploaded + {path};
      var before, after := Only(job.local, uploaded), Only(job.local, more);
      assert after == PutIfAbsent(before, path, job.local[path]);
      AloneMoves(before, after, job, Uploading(uploaded), Uploading(more));
      UploadStep(size, Alone(before, job, Uploading(uploaded)), Alone(after, job, Uploading(more)), path);
      UploadsRest(size, job, more);
      ThenReaches(size, Alone(before, job, Uploading(uploaded)), Alone(after, job, Uploading(more)),
        Alone(job.local, job, Uploading(job.local.Keys)));
    }
  }

  lemma Nothing(size: Sizes, s: State)
    ensures Reaches(size, s, s)
  {
    assert Path(size, [s], []);
  }

  lemma UploadStep(size: Sizes, s: State, t: State, path: string)
    requires |s.publishers| == 1 && s.publishers[0].phase.Uploading? && path in s.publishers[0].job.local
    requires t == At(s, 0, Uploading(s.publishers[0].phase.uploaded + {path}))
      .(remote := PutIfAbsent(s.remote, path, s.publishers[0].job.local[path]))
    ensures Reaches(size, s, t)
  {
    assert UploadsOne(s, t, 0, s.publishers[0].phase.uploaded);
    OneStep(size, s, t, 0);
  }

  /** Every file not yet verified is verified, one after another. */
  lemma {:induction false} VerifiesRest(size: Sizes, job: Job, verified: set<string>)
    requires verified <= job.local.Keys
    ensures Reaches(size, Alone(job.local, job, Verifying(verified)),
              Alone(job.local, job, Verifying(job.local.Keys)))
    decreases job.local.Keys - verified
  {
    hide Step, Reaches;
    if verified == job.local.Keys {
      Nothing(size, Alone(job.local, job, Verifying(verified)));
    } else {
      var path :| path in job.local && path !in verified;
      var more := verified + {path};
      AloneMoves(job.local, job.local, job, Verifying(verified), Verifying(more));
      VerifyStep(size, Alone(job.local, job, Verifying(verified)), Alone(job.local, job, Verifying(more)), path);
      VerifiesRest(size, job, more);
      ThenReaches(size, Alone(job.local, job, Verifying(verified)), Alone(job.local, job, Verifying(more)),
        Alone(job.local, job, Verifying(job.local.Keys)));
    }
  }

  lemma VerifyStep(size: Sizes, s: State, t: State, path: string)
    requires |s.publishers| == 1 && s.publishers[0].phase.Verifying? && path in s.publishers[0].job.local
    requires Get(s.remote, path) == Some(s.publishers[0].job.local[path])
    requires t == At(s, 0, Verifying(s.publishers[0].phase.verified + {path}))
    ensures Reaches(size, s, t)
  {
    assert VerifiesOne(s, t, 0, s.publishers[0].phase.verified);
    OneStep(size, s, t, 0);
  }

  lemma PhaseStep(size: Sizes, remote: Files, after: Files, job: Job, was: Phase, now: Phase)
    requires Step(size, Alone(remote, job, was), At(Alone(remote, job, was), 0, now).(remote := after), 0)
    ensures Reaches(size, Alone(remote, job, was), Alone(after, job, now))
  {
    hide Step;
    AloneMoves(remote, after, job, was, now);
    OneStep(size, Alone(remote, job, was), Alone(after, job, now), 0);
  }

  lemma FilesReach(size: Sizes, job: Job)
    requires MANIFEST in job.local
    ensures Reaches(size, Alone(map[], job, Listing), Alone(job.local, job, Committing))
  {
    hide Reaches, TotalSize;
    var local, keys := job.local, job.local.Keys;
    var none: set<string> := {};
    assert Only(local, none) == map[];
    PhaseStep(size, map[], map[], job, Listing, Uploading(none));
    PhaseStep(size, local, local, job, Uploading(keys), Verifying(none));
    PhaseStep(size, local, local, job, Verifying(keys), ReadingManifest);
    PhaseStep(size, local, local, job, ReadingManifest, Committing);
    UploadsRest(size, job, none);
    VerifiesRest(size, job, none);
    var start := Alone(map[], job, Listing);
    ThenReaches(size, start, Alone(map[], job, Uploading(none)), Alone(local, job, Uploading(keys)));
    ThenReaches(size, start, Alone(local, job, Uploading(keys)), Alone(local, job, Verifying(none)));
    ThenReaches(size, start, Alone(local, job, Verifying(none)), Alone(local, job, Verifying(keys)));
    ThenReaches(size, start, Alone(local, job, Verifying(keys)), Alone(local, job, ReadingManifest));
    ThenReaches(size, start, Alone(local, job, ReadingManifest), Alone(local, job, Committing));
  }

  lemma CommitReaches(size: Sizes, job: Job)
    requires MANIFEST in job.local
    requires COMMIT in job.local ==> job.local[COMMIT] == CommitText(CommitOf(size, job), true)
    ensures Reaches(size, Alone(map[], job, Listing),
              Alone(job.local[COMMIT := CommitText(CommitOf(size, job), true)], job, Returned))
  {
    hide Reaches, TotalSize, CommitOf;
    FilesReach(size, job);
    var local, commit := job.local, CommitText(CommitOf(size, job), true);
    var done := local[COMMIT := commit];
    assert PutIfAbsent(local, COMMIT, commit) == done;
    PhaseStep(size, local, done, job, Committing, ReadingCommit);
    PhaseStep(size, done, done, job, ReadingCommit, Returned);
    var start := Alone(map[], job, Listing);
    ThenReaches(size, start, Alone(local, job, Committing), Alone(done, job, ReadingCommit));
    ThenReaches(size, start, Alone(done, job, ReadingCommit), Alone(done, job, Returned));
  }

  /** A publication into an empty prefix can return if and only if the local directory has a manifest
      and no commit file other than the very commit to be written. */
  lemma ReturnsExactly(size: Sizes, job: Job)
    ensures (exists remote :: Reaches(size, Alone(map[], job, Listing), Alone(remote, job, Returned))) <==>
      && "manifest.json" in job.local
      && ("commit.json" in job.local ==> IsCommitOf(size, job.local["commit.json"], job))
  {
    hide Reaches, Step, TotalSize, IsCommitOf, CommitOf;
    if COMMIT in job.local {
      CommitExactly(size, job.local[COMMIT], job);
    }
    if MANIFEST in job.local && (COMMIT in job.local ==> IsCommitOf(size, job.local[COMMIT], job)) {
      CommitReaches(size, job);
    }
    if remote :| Reaches(size, Alone(map[], job, Listing), Alone(remote, job, Returned)) {
      ReturnedHasManifest(size, job, remote);
    }
  }

  lemma ReturnedHasManifest(size: Sizes, job: Job, remote: Files)
    requires Reaches(size, Alone(map[], job, Listing), Alone(remote, job, Returned))
    ensures MANIFEST in job.local
    ensures COMMIT in job.local ==> job.local[COMMIT] == CommitText(CommitOf(size, job), true)
  {
    hide Step, TotalSize, CommitOf;
    var start, end := Alone(map[], job, Listing), Alone(remote, job, Returned);
    var states: seq<State>, ids: seq<nat> :| Path(size, states, ids) && states[0] == start && states[|ids|] == end;
    assert Execution(size, states, ids);
    EveryStateHolds(size, states, ids, |ids|);
    assert PublisherOk(size, end.remote, end.publishers[0]);
    if COMMIT in job.local {
      OwnCommitFileBlocks(size, states, ids, |ids|, 0);
    }
  }

  // ---------- Finding and downloading ----------

  /** A download into a directory leaves every stored object but the commit, and no commit. */
  lemma CopiedExactly(remote: Files, destination: Files, path: string)
    ensures Get(Copied(remote, destination), path) ==
      if path == "commit.json" then None
      else if path in remote then Some(remote[path]) else Get(destination, path)
  {
  }

  /** A backup id resolves to what its stored, authentic commit says, and to nothing else. */
  lemma ResolveExactly(remote: Files, locator: Locator, p: Publication)
    ensures Resolve(remote, locator) == Some(p) <==>
      && Get(remote, "commit.json") == Some(CommitText(p.commit, true))
      && p.locator == p.commit.locator == locator && p.manifest == p.commit.manifest
  {
  }

  /** What a finished download has checked. */
  lemma RestoredExactly(size: Sizes, remote: Files, p: Publication, files: Files)
    ensures Restored(size, remote, p, files) <==>
      && Get(remote, "commit.json") == Some(CommitText(p.commit, true))
      && p.locator == p.commit.locator && p.manifest == p.commit.manifest
      && Get(files, "manifest.json") == Some(p.manifest)
      && p.commit.objectCount == |files| && p.commit.sizeBytes == TotalSize(size, files)
  {
    hide TotalSize;
  }
}
