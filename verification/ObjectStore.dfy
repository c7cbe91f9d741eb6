/**
 Publishing customer backups to an object store. Any number of publishers may work on
 one backup prefix at once; each uploads its files one by one in any order, verifies
 them, and writes `commit.json` last. Any of them may fail or be killed between two
 remote operations. The transport never replaces an object that exists.
 */
module ObjectStore {
  import opened Basics

  datatype Locator = Locator(backupId: string, bucket: string, prefix: string, endpointOrigin: string)

  /** `commit.json`: the manifest digest stands for the manifest, and the commit for its own digest. */
  datatype Commit = Commit(
    locator: Locator,
    manifest: Content,
    authentication: string,
    objectCount: nat,
    sizeBytes: nat,
    publishedAt: string)

  /** The bytes of an object. `CommitText(c, true)` is a commit that authenticates under the key. */
  datatype Content = Data(bytes: Bytes) | CommitText(commit: Commit, authentic: bool)

  type Files = map<string, Content>

  type Sizes = Content -> nat

  const MANIFEST := "manifest.json"
  const COMMIT := "commit.json"

  // ---------- Directory summaries ----------

  ghost function TotalSize(size: Sizes, files: Files): nat {
    if files == map[] then 0
    else
      var path :| path in files;
      size(files[path]) + TotalSize(size, files - {path})
  }

  /** The total does not depend on the order in which files are visited. */
  lemma {:induction false} TotalWithout(size: Sizes, files: Files, path: string)
    requires path in files
    ensures TotalSize(size, files) == size(files[path]) + TotalSize(size, files - {path})
    decreases |files|
  {
    var chosen :| chosen in files && TotalSize(size, files) == size(files[chosen]) + TotalSize(size, files - {chosen});
    if chosen != path {
      TotalWithout(size, files - {chosen}, path);
      TotalWithout(size, files - {path}, chosen);
      assert files - {chosen} - {path} == files - {path} - {chosen};
    }
  }

  /** The counters of the directory visit. */
  method DirectorySummary(size: Sizes, files: Files) returns (objectCount: nat, sizeBytes: nat)
    ensures objectCount == |files| && sizeBytes == TotalSize(size, files)
  {
    objectCount, sizeBytes := 0, 0;
    var left := files;
    while left != map[]
      invariant objectCount + |left| == |files|
      invariant sizeBytes + TotalSize(size, left) == TotalSize(size, files)
      decreases |left|
    {
      var path :| path in left;
      TotalWithout(size, left, path);
      assert left == (left - {path})[path := left[path]];
      objectCount, sizeBytes := objectCount + 1, sizeBytes + size(left[path]);
      left := left - {path};
    }
  }

  // ---------- Publishing, one remote operation at a time ----------

  datatype Job = Job(local: Files, locator: Locator, authentication: string, publishedAt: string)

  /** The commit a job writes when its local directory has a manifest. */
  ghost function CommitOf(size: Sizes, job: Job): Commit
    requires MANIFEST in job.local
  {
    Commit(job.locator, job.local[MANIFEST], job.authentication, |job.local|, TotalSize(size, job.local),
      job.publishedAt)
  }

  datatype Phase =
    | Listing
    | Uploading(uploaded: set<string>)
    | Verifying(verified: set<string>)
    | ReadingManifest
    | Committing
    | ReadingCommit
    | Returned
    | Stopped

  datatype Publisher = Publisher(job: Job, phase: Phase)

  /** The objects under the prefix, by path below it, and the publishers. */
  datatype State = State(remote: Files, publishers: seq<Publisher>)

  function PutIfAbsent(remote: Files, path: string, content: Content): Files {
    if path in remote then remote else remote[path := content]
  }

  ghost predicate UploadsOne(s: State, t: State, k: nat, uploaded: set<string>)
    requires k < |s.publishers|
  {
    var job := s.publishers[k].job;
    exists path | path in job.local ::
      t == At(s, k, Uploading(uploaded + {path})).(remote := PutIfAbsent(s.remote, path, job.local[path]))
  }

  ghost predicate VerifiesOne(s: State, t: State, k: nat, verified: set<string>)
    requires k < |s.publishers|
  {
    var job := s.publishers[k].job;
    exists path | path in job.local ::
      Get(s.remote, path) == Some(job.local[path]) && t == At(s, k, Verifying(verified + {path}))
  }

  function At(s: State, k: nat, phase: Phase): State
    requires k < |s.publishers|
  {
    s.(publishers := s.publishers[k := s.publishers[k].(phase := phase)])
  }

  /** A publisher completes one remote operation, or stops for good. */
  ghost predicate Step(size: Sizes, s: State, t: State, k: nat) {
    && k < |s.publishers|
    && var job := s.publishers[k].job;
    match s.publishers[k].phase
    case Listing =>
      t == At(s, k, Stopped) || (s.remote == map[] && MANIFEST in job.local && t == At(s, k, Uploading({})))
    case Uploading(uploaded) =>
      || t == At(s, k, Stopped) || UploadsOne(s, t, k, uploaded)
      || (uploaded == job.local.Keys && t == At(s, k, Verifying({})))
    case Verifying(verified) =>
      || t == At(s, k, Stopped) || VerifiesOne(s, t, k, verified)
      || (verified == job.local.Keys && t == At(s, k, ReadingManifest))
    case ReadingManifest =>
      || t == At(s, k, Stopped)
      || (MANIFEST in job.local && Get(s.remote, MANIFEST) == Some(job.local[MANIFEST]) && t == At(s, k, Committing))
    case Committing =>
      || t == At(s, k, Stopped)
      || (MANIFEST in job.local &&
            var remote := PutIfAbsent(s.remote, COMMIT, CommitText(CommitOf(size, job), true));
            t == At(s, k, Stopped).(remote := remote) || t == At(s, k, ReadingCommit).(remote := remote))
    case ReadingCommit =>
      || t == At(s, k, Stopped)
      || (MANIFEST in job.local && Get(s.remote, COMMIT) == Some(CommitText(CommitOf(size, job), true))
          && t == At(s, k, Returned))
    case Returned => false
    case Stopped => false
  }

  ghost predicate Initial(s: State) {
    s.remote == map[] && forall k | 0 <= k < |s.publishers| :: s.publishers[k].phase == Listing
  }

  ghost predicate Execution(size: Sizes, states: seq<State>, ids: seq<nat>) {
    && |states| == |ids| + 1
    && Initial(states[0])
    && forall i | 0 <= i < |ids| :: StepAt(size, states, ids, i)
  }

  ghost predicate StepAt(size: Sizes, states: seq<State>, ids: seq<nat>, i: nat)
    requires i < |ids| && |states| == |ids| + 1
  {
    Step(size, states[i], states[i + 1], ids[i])
  }

  // ---------- What every step keeps ----------

  /** The store holds this file exactly as it is locally. */
  predicate Holds(remote: Files, local: Files, path: string) {
    path in local && Get(remote, path) == Some(local[path])
  }

  ghost predicate HoldsAll(remote: Files, local: Files) {
    forall path | path in local :: Holds(remote, local, path)
  }

  ghost predicate PublisherOk(size: Sizes, remote: Files, p: Publisher) {
    match p.phase
    case Listing => true
    case Stopped => true
    case Uploading(uploaded) => MANIFEST in p.job.local && forall path | path in uploaded :: path in remote
    case Verifying(verified) =>
      MANIFEST in p.job.local && forall path | path in verified :: Holds(remote, p.job.local, path)
    case ReadingManifest => MANIFEST in p.job.local && HoldsAll(remote, p.job.local)
    case Committing => MANIFEST in p.job.local && HoldsAll(remote, p.job.local)
    case ReadingCommit => MANIFEST in p.job.local && HoldsAll(remote, p.job.local) && COMMIT in remote
    case Returned =>
      MANIFEST in p.job.local && HoldsAll(remote, p.job.local)
      && Get(remote, COMMIT) == Some(CommitText(CommitOf(size, p.job), true))
  }

  /** The job's own commit, with everything the job had to upload. */
  ghost predicate CommittedBy(size: Sizes, remote: Files, job: Job) {
    && MANIFEST in job.local && HoldsAll(remote, job.local)
    && Get(remote, COMMIT) == Some(CommitText(CommitOf(size, job), true))
  }

  /** Every object is some publisher's local file, or the commit of a publisher all of whose files are there. */
  ghost predicate ObjectOk(size: Sizes, s: State, path: string) {
    exists k | 0 <= k < |s.publishers| ::
      || Holds(s.remote, s.publishers[k].job.local, path)
      || (path == COMMIT && CommittedBy(size, s.remote, s.publishers[k].job))
  }

  ghost predicate Invariant(size: Sizes, s: State) {
    && (forall k | 0 <= k < |s.publishers| :: PublisherOk(size, s.remote, s.publishers[k]))
    && (forall path | path in s.remote :: ObjectOk(size, s, path))
  }

  /** Objects are only added, jobs never change, and only publisher `k` moves. */
  lemma StepFrame(size: Sizes, s: State, t: State, k: nat)
    requires Step(size, s, t, k)
    ensures forall path | path in s.remote :: Get(t.remote, path) == Get(s.remote, path)
    ensures |t.publishers| == |s.publishers|
    ensures forall j | 0 <= j < |s.publishers| :: t.publishers[j].job == s.publishers[j].job
    ensures forall j | 0 <= j < |s.publishers| && j != k :: t.publishers[j] == s.publishers[j]
  {
    hide TotalSize;
  }

  lemma GrowthKeepsPublisher(size: Sizes, remote: Files, grown: Files, p: Publisher)
    requires PublisherOk(size, remote, p) && forall path | path in remote :: Get(grown, path) == Get(remote, path)
    ensures PublisherOk(size, grown, p)
  {
    hide TotalSize, CommitOf;
    assert forall path :: Holds(remote, p.job.local, path) ==> Holds(grown, p.job.local, path);
  }

  lemma GrowthKeepsObject(size: Sizes, s: State, t: State, path: string)
    requires ObjectOk(size, s, path) && |t.publishers| == |s.publishers|
    requires forall p | p in s.remote :: Get(t.remote, p) == Get(s.remote, p)
    requires forall j | 0 <= j < |s.publishers| :: t.publishers[j].job == s.publishers[j].job
    ensures ObjectOk(size, t, path)
  {
    hide TotalSize, CommitOf;
    var k :| 0 <= k < |s.publishers| && (Holds(s.remote, s.publishers[k].job.local, path)
      || (path == COMMIT && CommittedBy(size, s.remote, s.publishers[k].job)));
    var local := s.publishers[k].job.local;
    assert forall p :: Holds(s.remote, local, p) ==> Holds(t.remote, local, p);
    assert t.publishers[k].job.local == local;
  }

  lemma StepKeepsOwn(size: Sizes, s: State, t: State, k: nat)
    requires Invariant(size, s) && Step(size, s, t, k)
    ensures k < |t.publishers| && PublisherOk(size, t.remote, t.publishers[k])
  {
    hide TotalSize, CommitOf, ObjectOk;
    StepFrame(size, s, t, k);
    var p, q := s.publishers[k], t.publishers[k];
    assert PublisherOk(size, s.remote, p);
    GrowthKeepsPublisher(size, s.remote, t.remote, p);
    if p.phase.Verifying? && q.phase.Verifying? {
      assert VerifiesOne(s, t, k, p.phase.verified);
    }
  }

  lemma NewObjectOk(size: Sizes, s: State, t: State, k: nat, path: string)
    requires Invariant(size, s) && Step(size, s, t, k) && path in t.remote && path !in s.remote
    ensures ObjectOk(size, t, path)
  {
    hide TotalSize, CommitOf;
    StepFrame(size, s, t, k);
    assert PublisherOk(size, s.remote, s.publishers[k]);
    GrowthKeepsPublisher(size, s.remote, t.remote, s.publishers[k]);
    assert t.publishers[k].job == s.publishers[k].job;
    assert Holds(t.remote, t.publishers[k].job.local, path) || CommittedBy(size, t.remote, t.publishers[k].job);
  }

  lemma StepKeepsInvariant(size: Sizes, s: State, t: State, k: nat)
    requires Invariant(size, s) && Step(size, s, t, k)
    ensures Invariant(size, t)
  {
    hide Step, PublisherOk, ObjectOk;
    StepFrame(size, s, t, k);
    StepKeepsOwn(size, s, t, k);
    forall j | 0 <= j < |t.publishers| ensures PublisherOk(size, t.remote, t.publishers[j]) {
      if j != k {
        GrowthKeepsPublisher(size, s.remote, t.remote, s.publishers[j]);
      }
    }
    forall path | path in t.remote ensures ObjectOk(size, t, path) {
      if path in s.remote {
        GrowthKeepsObject(size, s, t, path);
      } else {
        NewObjectOk(size, s, t, k, path);
      }
    }
  }

  lemma InitialHolds(size: Sizes, s: State)
    requires Initial(s)
    ensures Invariant(size, s)
  {
  }

  lemma {:induction false} EveryStateHolds(size: Sizes, states: seq<State>, ids: seq<nat>, i: nat)
    requires Execution(size, states, ids) && i <= |ids|
    ensures Invariant(size, states[i])
    ensures |states[i].publishers| == |states[0].publishers|
    ensures forall k | 0 <= k < |states[0].publishers| :: states[i].publishers[k].job == states[0].publishers[k].job
  {
    hide Step, Invariant, Initial;
    if i == 0 {
      InitialHolds(size, states[0]);
    } else {
      EveryStateHolds(size, states, ids, i - 1);
      assert StepAt(size, states, ids, i - 1);
      StepKeepsInvariant(size, states[i - 1], states[i], ids[i - 1]);
      StepFrame(size, states[i - 1], states[i], ids[i - 1]);
    }
  }

  // ---------- Commit last ----------

  predicate Authenticated(remote: Files) {
    COMMIT in remote && remote[COMMIT].CommitText? && remote[COMMIT].authentic
  }

  /** An authenticated commit in the store is the commit of a publisher all of whose files are there. */
  ghost predicate CommitIsLast(size: Sizes, s: State) {
    Authenticated(s.remote) ==> exists k | 0 <= k < |s.publishers| :: CommittedBy(size, s.remote, s.publishers[k].job)
  }

  /** Whatever the interleaving and wherever publishers stop, an authenticated commit means a
      complete backup, as long as no local directory itself holds an authenticated commit. */
  lemma CommitMeansComplete(size: Sizes, states: seq<State>, ids: seq<nat>, i: nat)
    requires Execution(size, states, ids) && i <= |ids|
    requires forall k | 0 <= k < |states[0].publishers| :: !Authenticated(states[0].publishers[k].job.local)
    ensures CommitIsLast(size, states[i])
  {
    hide Step, PublisherOk, HoldsAll;
    EveryStateHolds(size, states, ids, i);
    var s := states[i];
    if Authenticated(s.remote) {
      assert ObjectOk(size, s, COMMIT);
      var k :| 0 <= k < |s.publishers| && (Holds(s.remote, s.publishers[k].job.local, COMMIT)
        || CommittedBy(size, s.remote, s.publishers[k].job));
      assert !Authenticated(states[0].publishers[k].job.local);
    }
  }

  /** One publisher's run that has just uploaded `path` first. */
  function FirstUpload(job: Job, path: string): seq<State>
    requires path in job.local
  {
    [State(map[], [Publisher(job, Listing)]),
     State(map[], [Publisher(job, Uploading({}))]),
     State(map[path := job.local[path]], [Publisher(job, Uploading({path}))])]
  }

  lemma FirstUploadRuns(size: Sizes, job: Job, path: string)
    requires path in job.local && MANIFEST in job.local
    ensures Execution(size, FirstUpload(job, path), [0, 0])
  {
    hide TotalSize, CommitOf;
    var states := FirstUpload(job, path);
    var none: set<string>, p := {}, states[2].publishers;
    assert none + {path} == {path};
    assert p == states[1].publishers[0 := Publisher(job, Uploading(none + {path}))];
    assert states[2] ==
      At(states[1], 0, Uploading(none + {path})).(remote := PutIfAbsent(map[], path, job.local[path]));
    assert UploadsOne(states[1], states[2], 0, {});
    assert StepAt(size, states, [0, 0], 0) && StepAt(size, states, [0, 0], 1);
  }

  /** The condition is exact: for a directory with a manifest, every reachable state of its
      publication keeps the commit last if and only if its own `commit.json`, if any, does not
      authenticate. A directory that holds an authenticated commit may upload it first. */
  lemma CommitLastExactly(size: Sizes, job: Job)
    requires MANIFEST in job.local
    ensures !Authenticated(job.local) <==>
      forall states: seq<State>, ids: seq<nat> {:trigger Execution(size, states, ids)} |
        Execution(size, states, ids) && states[0].publishers == [Publisher(job, Listing)] ::
        CommitIsLast(size, states[|ids|])
  {
    hide Step;
    if Authenticated(job.local) {
      var states, ids := FirstUpload(job, COMMIT), [0, 0];
      FirstUploadRuns(size, job, COMMIT);
      assert states[0].publishers == [Publisher(job, Listing)];
      assert !Holds(states[2].remote, job.local, MANIFEST);
      assert states[2].publishers[0].job == job && !CommitIsLast(size, states[|ids|]);
    } else {
      forall states: seq<State>, ids: seq<nat> |
        Execution(size, states, ids) && states[0].publishers == [Publisher(job, Listing)]
        ensures CommitIsLast(size, states[|ids|])
      {
        CommitMeansComplete(size, states, ids, |ids|);
      }
    }
  }

  /** Objects are never replaced or removed. */
  lemma {:induction false} ObjectsStay(size: Sizes, states: seq<State>, ids: seq<nat>, i: nat, j: nat, path: string)
    requires Execution(size, states, ids) && i <= j <= |ids| && path in states[i].remote
    ensures Get(states[j].remote, path) == Get(states[i].remote, path)
    decreases j
  {
    hide Step;
    if i < j {
      ObjectsStay(size, states, ids, i, j - 1, path);
      assert StepAt(size, states, ids, j - 1);
      StepFrame(size, states[j - 1], states[j], ids[j - 1]);
    }
  }

  /** Once anything is stored under the prefix, a publisher that has not listed it yet never
      gets further, and so never uploads, commits or returns. */
  lemma {:induction false} UsedPrefixIsNotRepublished(
    size: Sizes, states: seq<State>, ids: seq<nat>, i: nat, j: nat, k: nat)
    requires Execution(size, states, ids) && i <= j <= |ids| && k < |states[i].publishers|
    requires states[i].remote != map[] && states[i].publishers[k].phase in {Listing, Stopped}
    ensures k < |states[j].publishers| && states[j].publishers[k].phase in {Listing, Stopped}
    decreases j
  {
    hide TotalSize;
    if i < j {
      UsedPrefixIsNotRepublished(size, states, ids, i, j - 1, k);
      assert StepAt(size, states, ids, j - 1);
      StepFrame(size, states[j - 1], states[j], ids[j - 1]);
      var path :| path in states[i].remote;
      ObjectsStay(size, states, ids, i, j - 1, path);
      assert path in states[j - 1].remote;
    }
  }

  /** Two publishers that both return published the same commit. */
  lemma ReturnedPublishersAgree(size: Sizes, states: seq<State>, ids: seq<nat>, i: nat, one: nat, two: nat)
    requires Execution(size, states, ids) && i <= |ids| && one < |states[i].publishers| && two < |states[i].publishers|
    requires states[i].publishers[one].phase.Returned? && states[i].publishers[two].phase.Returned?
    ensures var a, b := states[i].publishers[one].job, states[i].publishers[two].job;
      MANIFEST in a.local && MANIFEST in b.local && CommitOf(size, a) == CommitOf(size, b)
  {
    hide TotalSize, Step, HoldsAll, ObjectOk, CommitOf;
    EveryStateHolds(size, states, ids, i);
    assert PublisherOk(size, states[i].remote, states[i].publishers[one]);
    assert PublisherOk(size, states[i].remote, states[i].publishers[two]);
  }

  // ---------- Resolving and downloading ----------

  /** What publishing returns: where the backup is, and its commit and manifest digests. */
  datatype Publication = Publication(locator: Locator, commit: Commit, manifest: Content)

  ghost function PublicationOf(size: Sizes, job: Job): Publication
    requires MANIFEST in job.local
  {
    Publication(job.locator, CommitOf(size, job), job.local[MANIFEST])
  }

  /** Finds the publication of a backup id from its stored commit. */
  function Resolve(remote: Files, locator: Locator): (r: Option<Publication>)
    ensures r.Some? ==> CommitMatches(remote, r.value) && r.value.locator == locator
  {
    if !Authenticated(remote) || remote[COMMIT].commit.locator != locator then None
    else
      var commit := remote[COMMIT].commit;
      Some(Publication(commit.locator, commit, commit.manifest))
  }

  /** The stored commit authenticates and is the publication's own. */
  predicate CommitMatches(remote: Files, p: Publication) {
    && Authenticated(remote) && remote[COMMIT].commit == p.commit
    && p.commit.locator == p.locator && p.commit.manifest == p.manifest
  }

  /** The files left after copying the prefix over the destination and dropping the commit. */
  function Copied(remote: Files, destination: Files): Files { (destination + remote) - {COMMIT} }

  /** What a download that returns guarantees. */
  ghost predicate Restored(size: Sizes, remote: Files, p: Publication, files: Files) {
    && CommitMatches(remote, p)
    && Get(files, MANIFEST) == Some(p.manifest)
    && |files| == p.commit.objectCount
    && TotalSize(size, files) == p.commit.sizeBytes
  }

  /** The directory a backup is downloaded into. */
  class Destination {
    var files: Files

    constructor ()
      ensures files == map[]
    {
      files := map[];
    }

    /** Copies a committed backup; nothing is copied unless the commit matches. A transfer that fails
        has copied the paths that `arrived` and throws; one that succeeds has copied them all. */
    method Download(
      size: Sizes, remote: Files, p: Publication, arrived: set<string>, transferFails: bool) returns (ok: bool)
      modifies this
      ensures ok <==> !transferFails && Restored(size, remote, p, Copied(remote, old(files)))
      ensures !CommitMatches(remote, p) ==> files == old(files)
      ensures ok ==> files == Copied(remote, old(files))
      ensures CommitMatches(remote, p) && transferFails ==>
        forall path ::
          Get(files, path) == if path in arrived && path in remote then Some(remote[path]) else Get(old(files), path)
    {
      if !Authenticated(remote) || remote[COMMIT].commit != p.commit {
        return false;
      }
      if p.commit.locator != p.locator || p.commit.manifest != p.manifest {
        return false;
      }
      if transferFails {
        files := files + Only(remote, arrived);
        return false;
      }
      files := files + remote;
      assert Get(files, MANIFEST) == Get(files - {COMMIT}, MANIFEST);
      if MANIFEST !in files || files[MANIFEST] != p.manifest {
        return false;
      }
      files := files - {COMMIT};
      var objectCount, sizeBytes := DirectorySummary(size, files);
      ok := objectCount == p.commit.objectCount && sizeBytes == p.commit.sizeBytes;
    }
  }

  function Only(files: Files, paths: set<string>): Files { map path | path in files && path in paths :: files[path] }

  /** In any run without authenticated commits among the local files, what can be resolved or restored
      is what one of the publishers published, and all of that publisher's files are stored. */
  lemma RestoredIsPublished(size: Sizes, states: seq<State>, ids: seq<nat>, i: nat, p: Publication, files: Files)
    requires Execution(size, states, ids) && i <= |ids|
    requires forall k | 0 <= k < |states[0].publishers| :: !Authenticated(states[0].publishers[k].job.local)
    requires Resolve(states[i].remote, p.locator) == Some(p) || Restored(size, states[i].remote, p, files)
    ensures exists k | 0 <= k < |states[i].publishers| ::
      CommittedBy(size, states[i].remote, states[i].publishers[k].job)
        && p == PublicationOf(size, states[i].publishers[k].job)
  {
    hide TotalSize, CommitOf, Step, HoldsAll;
    var remote := states[i].remote;
    CommitMeansComplete(size, states, ids, i);
    assert CommitMatches(remote, p);
    var k :| 0 <= k < |states[i].publishers| && CommittedBy(size, remote, states[i].publishers[k].job);
    CommitNames(size, states[i].publishers[k].job);
  }

  /** A local `commit.json` other than the very commit being written keeps its publisher from ever returning. */
  lemma OwnCommitFileBlocks(size: Sizes, states: seq<State>, ids: seq<nat>, i: nat, k: nat)
    requires Execution(size, states, ids) && i <= |ids| && k < |states[i].publishers|
    requires states[i].publishers[k].phase.Returned? && COMMIT in states[i].publishers[k].job.local
    ensures MANIFEST in states[i].publishers[k].job.local
    ensures states[i].publishers[k].job.local[COMMIT] == CommitText(CommitOf(size, states[i].publishers[k].job), true)
  {
    hide TotalSize, CommitOf, Step;
    EveryStateHolds(size, states, ids, i);
    var p := states[i].publishers[k];
    assert PublisherOk(size, states[i].remote, p);
    assert Holds(states[i].remote, p.job.local, COMMIT);
  }

  /** Every object under the prefix is a local file of the one publisher, or its commit. */
  lemma OnlyOwnObjects(size: Sizes, s: State, job: Job)
    requires Invariant(size, s) && |s.publishers| == 1 && s.publishers[0].job == job && s.publishers[0].phase.Returned?
    ensures MANIFEST in job.local
    ensures s.remote == job.local[COMMIT := CommitText(CommitOf(size, job), true)]
  {
    hide TotalSize, CommitOf;
    assert PublisherOk(size, s.remote, s.publishers[0]);
    forall path | path in s.remote ensures path in job.local || path == COMMIT {
      assert ObjectOk(size, s, path);
    }
    assert forall path | path in job.local :: Holds(s.remote, job.local, path);
  }

  lemma CommitNames(size: Sizes, job: Job)
    requires MANIFEST in job.local
    ensures var c := CommitOf(size, job);
      c.locator == job.locator && c.manifest == job.local[MANIFEST]
      && c.objectCount == |job.local| && c.sizeBytes == TotalSize(size, job.local)
  {
  }

  lemma CompleteStoreResolves(size: Sizes, remote: Files, job: Job)
    requires MANIFEST in job.local && Get(remote, COMMIT) == Some(CommitText(CommitOf(size, job), true))
    ensures Resolve(remote, job.locator) == Some(PublicationOf(size, job))
    ensures CommitMatches(remote, PublicationOf(size, job))
  {
    hide TotalSize, CommitOf;
    CommitNames(size, job);
  }

  lemma AddedAndRemoved<V>(m: map<string, V>, key: string, value: V)
    ensures (map[] + m[key := value]) - {key} == m - {key}
  {
  }

  lemma WithoutKey<V>(m: map<string, V>, key: string)
    ensures key !in m ==> m - {key} == m
    ensures key in m ==> |m - {key}| + 1 == |m|
  {
    if key in m {
      assert m.Keys == (m - {key}).Keys + {key};
      assert |m.Keys| == |m| && |(m - {key}).Keys| == |m - {key}|;
    } else {
      assert m - {key} == m;
    }
  }

  /** What is left of the store in an empty directory: the local files but for a commit. */
  lemma CopiedIsLocal(remote: Files, local: Files, commit: Content)
    requires remote == local[COMMIT := commit]
    ensures Copied(remote, map[]) == local - {COMMIT}
    ensures COMMIT !in local ==> Copied(remote, map[]) == local
    ensures COMMIT in local ==> |Copied(remote, map[])| + 1 == |local|
  {
    AddedAndRemoved(local, COMMIT, commit);
    WithoutKey(local, COMMIT);
  }

  lemma CompleteStoreRestores(size: Sizes, remote: Files, job: Job)
    requires MANIFEST in job.local && remote == job.local[COMMIT := CommitText(CommitOf(size, job), true)]
    ensures var p, copied := PublicationOf(size, job), Copied(remote, map[]);
      && Resolve(remote, job.locator) == Some(p)
      && (Restored(size, remote, p, copied) <==> COMMIT !in job.local)
      && (COMMIT !in job.local ==> copied == job.local)
  {
    hide TotalSize, CommitOf, Copied, Resolve, CommitMatches;
    CompleteStoreResolves(size, remote, job);
    CopiedIsLocal(remote, job.local, CommitText(CommitOf(size, job), true));
    CommitNames(size, job);
    assert MANIFEST != COMMIT;
  }

  /** A publication that returned, downloaded into an empty directory, gives back exactly the
      local files; it is refused only when the local files themselves include `commit.json`, which
      then is the very commit that was written. */
  lemma DownloadGivesBack(size: Sizes, states: seq<State>, ids: seq<nat>, i: nat, job: Job)
    requires Execution(size, states, ids) && i <= |ids|
    requires states[0].publishers == [Publisher(job, Listing)]
    requires |states[i].publishers| == 1 && states[i].publishers[0].phase.Returned?
    ensures MANIFEST in job.local
    ensures var p, copied := PublicationOf(size, job), Copied(states[i].remote, map[]);
      && Resolve(states[i].remote, job.locator) == Some(p)
      && (Restored(size, states[i].remote, p, copied) <==> COMMIT !in job.local)
      && (COMMIT !in job.local ==> copied == job.local)
  {
    hide TotalSize, Step, Invariant, Initial, CommitOf, Restored, Resolve, Copied, PublicationOf;
    EveryStateHolds(size, states, ids, i);
    OnlyOwnObjects(size, states[i], job);
    CompleteStoreRestores(size, states[i].remote, job);
  }
}
