/**
 Which approvals count. The release owner is read from the pull request's labels, the
 trusted reviewers are the identities bound to the other agents, and an approval counts
 only when it is its reviewer's latest word on the exact head, given after the last
 change of any release-owner label. Logins are given in lower case.
 */
module ReviewAuthority {
  import opened Basics

  datatype Actor = Codex | Claude | Cursor

  /** A configured identity of an agent. */
  datatype Bound = Bound(actor: Actor, login: string, userId: int)

  datatype Attestation = Attestation(rotationId: string, kind: string, basePolicy: string, proposedPolicy: string)

  /** A review; a time that does not parse is absent. */
  datatype Review = Review(
    id: int, login: string, userId: int, approved: bool, commit: Option<string>,
    submittedAt: Option<int>, attestation: Option<Attestation>)

  datatype LabelEvent = LabelEvent(labeledOrUnlabeled: bool, name: string, at: Option<int>)

  datatype Rotation = Rotation(attestation: Attestation, issuedAt: int, expiresAt: int)

  /** What the verdict depends on. */
  datatype Case = Case(
    bindings: seq<Bound>, labels: seq<string>, head: string, author: string,
    reviews: seq<Review>, events: seq<LabelEvent>, rotation: Option<Rotation>)

  const OWNER_PREFIX := "release-owner:"

  function LabelOf(actor: Actor): string {
    match actor
    case Codex => OWNER_PREFIX + "codex"
    case Claude => OWNER_PREFIX + "claude"
    case Cursor => OWNER_PREFIX + "cursor"
  }

  // ---------- Owner and trusted identities ----------

  /** The agent whose release-owner label the pull request carries, if it carries exactly one. */
  function ResolveReleaseOwner(labels: seq<string>): (owner: Option<Actor>)
    ensures forall actor :: owner == Some(actor) <==> Owns(labels, actor)
  {
    LabelTexts();
    match (LabelOf(Codex) in labels, LabelOf(Claude) in labels, LabelOf(Cursor) in labels)
    case (true, false, false) => Some(Codex)
    case (false, true, false) => Some(Claude)
    case (false, false, true) => Some(Cursor)
    case _ => None
  }

  /** The labels name this agent as the owner, and no other. */
  predicate Owns(labels: seq<string>, actor: Actor) {
    && ("release-owner:codex" in labels <==> actor == Codex)
    && ("release-owner:claude" in labels <==> actor == Claude)
    && ("release-owner:cursor" in labels <==> actor == Cursor)
  }

  lemma LabelTexts()
    ensures LabelOf(Codex) == "release-owner:codex" && LabelOf(Claude) == "release-owner:claude"
    ensures LabelOf(Cursor) == "release-owner:cursor"
  {
  }

  /** No login is bound to two agents. */
  predicate OneAgentPerLogin(bindings: seq<Bound>) {
    forall i, j | 0 <= i < j < |bindings| :: bindings[i].login == bindings[j].login ==>
      bindings[i].actor == bindings[j].actor
  }

  /** The configuration is refused exactly when it is empty or binds a login to two agents. */
  method BindReviewers(bindings: seq<Bound>) returns (ok: bool)
    ensures ok <==> bindings != [] && OneAgentPerLogin(bindings)
  {
    var bound: map<string, Actor> := map[];
    var i := 0;
    while i < |bindings|
      invariant i <= |bindings|
      invariant OneAgentPerLogin(bindings[..i])
      invariant forall k | 0 <= k < i :: Get(bound, bindings[k].login) == Some(bindings[k].actor)
      invariant forall login | login in bound :: exists k | 0 <= k < i :: bindings[k].login == login
    {
      var b := bindings[i];
      if b.login in bound && bound[b.login] != b.actor {
        var k :| 0 <= k < i && bindings[k].login == b.login;
        assert bindings[k].actor != b.actor;
        return false;
      }
      bound := bound[b.login := b.actor];
      i := i + 1;
    }
    assert bindings[..i] == bindings;
    ok := |bindings| > 0;
  }

  /** The user id bound to a login among the agents that are not the owner; the last binding counts. */
  function TrustedId(bindings: seq<Bound>, owner: Actor, login: string): Option<int> {
    if bindings == [] then None
    else
      var last := bindings[|bindings| - 1];
      if last.actor != owner && last.login == login then Some(last.userId)
      else TrustedId(bindings[..|bindings| - 1], owner, login)
  }

  method TrustedReviewerIdentities(bindings: seq<Bound>, owner: Actor) returns (trusted: map<string, int>)
    ensures forall login :: Get(trusted, login) == TrustedId(bindings, owner, login)
  {
    trusted := map[];
    var i := 0;
    while i < |bindings|
      invariant i <= |bindings|
      invariant forall login :: Get(trusted, login) == TrustedId(bindings[..i], owner, login)
    {
      assert bindings[..i + 1][..i] == bindings[..i];
      if bindings[i].actor != owner {
        trusted := trusted[bindings[i].login := bindings[i].userId];
      }
      i := i + 1;
    }
    assert bindings[..i] == bindings;
  }

  /** Trusted means: bound to another agent by that login's last binding. */
  lemma {:induction false} TrustedIdMeaning(bindings: seq<Bound>, owner: Actor, login: string)
    ensures match TrustedId(bindings, owner, login)
      case Some(userId) => exists k | 0 <= k < |bindings| ::
        LastOfOther(bindings, owner, login, k) && bindings[k].userId == userId
      case None => forall k | 0 <= k < |bindings| :: bindings[k].login == login ==> bindings[k].actor == owner
  {
    if bindings != [] {
      var last := |bindings| - 1;
      var front := bindings[..last];
      TrustedIdMeaning(front, owner, login);
      assert forall k | 0 <= k < last :: front[k] == bindings[k];
      if bindings[last].actor != owner && bindings[last].login == login {
        assert LastOfOther(bindings, owner, login, last);
      } else if TrustedId(front, owner, login).Some? {
        var k :| 0 <= k < |front| && LastOfOther(front, owner, login, k)
          && front[k].userId == TrustedId(front, owner, login).value;
        assert LastOfOther(bindings, owner, login, k);
      }
    }
  }

  predicate LastOfOther(bindings: seq<Bound>, owner: Actor, login: string, k: nat)
    requires k < |bindings|
  {
    && bindings[k].login == login && bindings[k].actor != owner
    && forall j | k < j < |bindings| && bindings[j].login == login :: bindings[j].actor == owner
  }

  // ---------- Candidate reviews ----------

  /** The review is its login's one with the highest id, the earliest listed of equals. */
  predicate IsLatest(reviews: seq<Review>, k: nat)
    requires k < |reviews|
  {
    forall j | 0 <= j < |reviews| && reviews[j].login == reviews[k].login ::
      reviews[j].id < reviews[k].id || (reviews[j].id == reviews[k].id && k <= j)
  }

  /** An approval of the head by a trusted reviewer who is not the author. */
  predicate Approves(head: string, author: string, trusted: map<string, int>, r: Review) {
    && r.approved && r.commit == Some(head) && r.login != author
    && Get(trusted, r.login) == Some(r.userId)
  }

  function InsertById(r: Review, sorted: seq<Review>): seq<Review> {
    if sorted == [] || r.id > sorted[0].id then [r] + sorted else [sorted[0]] + InsertById(r, sorted[1..])
  }

  predicate Descending(reviews: seq<Review>) {
    forall i, j | 0 <= i < j < |reviews| :: reviews[i].id >= reviews[j].id
  }

  lemma {:induction false} InsertMembers(r: Review, sorted: seq<Review>, x: Review)
    ensures x in InsertById(r, sorted) <==> x == r || x in sorted
  {
    if sorted != [] {
      InsertMembers(r, sorted[1..], x);
      assert x in sorted <==> x == sorted[0] || x in sorted[1..];
    }
  }

  lemma ConsDescending(first: Review, rest: seq<Review>)
    requires Descending(rest) && forall k | 0 <= k < |rest| :: first.id >= rest[k].id
    ensures Descending([first] + rest)
  {
  }

  lemma TailDescending(reviews: seq<Review>)
    requires Descending(reviews) && reviews != []
    ensures Descending(reviews[1..]) && forall x | x in reviews :: reviews[0].id >= x.id
  {
    assert forall k | 0 <= k < |reviews[1..]| :: reviews[1..][k] == reviews[k + 1];
  }

  lemma {:induction false} InsertKeepsDescending(r: Review, sorted: seq<Review>)
    requires Descending(sorted)
    ensures Descending(InsertById(r, sorted))
  {
    hide Descending;
    if sorted == [] || r.id > sorted[0].id {
      if sorted != [] {
        TailDescending(sorted);
      }
      ConsDescending(r, sorted);
    } else {
      TailDescending(sorted);
      InsertKeepsDescending(r, sorted[1..]);
      var inserted := InsertById(r, sorted[1..]);
      forall k | 0 <= k < |inserted| ensures sorted[0].id >= inserted[k].id {
        InsertMembers(r, sorted[1..], inserted[k]);
      }
      ConsDescending(sorted[0], inserted);
    }
  }

  /** The latest review of every login, in the order in which logins first appear. */
  method LatestByReviewer(reviews: seq<Review>) returns (latest: map<string, nat>, logins: seq<string>)
    ensures forall login | login in latest ::
      latest[login] < |reviews| && reviews[latest[login]].login == login && IsLatest(reviews, latest[login])
    ensures forall k | 0 <= k < |reviews| :: reviews[k].login in latest
    ensures forall login :: login in logins <==> login in latest
  {
    latest, logins := map[], [];
    var i := 0;
    while i < |reviews|
      invariant i <= |reviews|
      invariant forall login | login in latest ::
        latest[login] < i && reviews[latest[login]].login == login && LatestSoFar(reviews, i, latest[login])
      invariant forall k | 0 <= k < i :: reviews[k].login in latest
      invariant forall login :: login in logins <==> login in latest
    {
      var login := reviews[i].login;
      if login !in latest {
        logins := logins + [login];
        latest := latest[login := i];
      } else if reviews[i].id > reviews[latest[login]].id {
        latest := latest[login := i];
      }
      i := i + 1;
    }
  }

  predicate LatestSoFar(reviews: seq<Review>, n: nat, k: nat)
    requires k < n <= |reviews|
  {
    forall j | 0 <= j < n && reviews[j].login == reviews[k].login ::
      reviews[j].id < reviews[k].id || (reviews[j].id == reviews[k].id && k <= j)
  }

  /** At most one review of a login is its latest. */
  lemma LatestIsUnique(reviews: seq<Review>, j: nat, k: nat)
    requires j < |reviews| && k < |reviews| && reviews[j].login == reviews[k].login
    requires IsLatest(reviews, j) && IsLatest(reviews, k)
    ensures j == k
  {
  }

  ghost predicate IsCandidate(c: Case, trusted: map<string, int>, r: Review) {
    exists k | 0 <= k < |c.reviews| ::
      c.reviews[k] == r && IsLatest(c.reviews, k) && Approves(c.head, c.author, trusted, r)
  }

  /** The candidates, highest id first. */
  method QualifyingReviews(c: Case, trusted: map<string, int>) returns (candidates: seq<Review>)
    ensures Descending(candidates)
    ensures forall r :: r in candidates <==> IsCandidate(c, trusted, r)
  {
    var latest, logins := LatestByReviewer(c.reviews);
    candidates := [];
    var i := 0;
    while i < |logins|
      invariant i <= |logins|
      invariant Descending(candidates)
      invariant forall r :: r in candidates <==>
        exists k | 0 <= k < i :: c.reviews[latest[logins[k]]] == r && Approves(c.head, c.author, trusted, r)
    {
      assert logins[i] in logins;
      var r := c.reviews[latest[logins[i]]];
      if Approves(c.head, c.author, trusted, r) {
        InsertKeepsDescending(r, candidates);
        forall x ensures x in InsertById(r, candidates) <==> x == r || x in candidates {
          InsertMembers(r, candidates, x);
        }
        candidates := InsertById(r, candidates);
      }
      i := i + 1;
    }
    forall r ensures r in candidates <==> IsCandidate(c, trusted, r) {
      CandidateByLogin(c, trusted, latest, logins, r);
    }
  }

  lemma CandidateByLogin(c: Case, trusted: map<string, int>, latest: map<string, nat>, logins: seq<string>, r: Review)
    requires forall login | login in latest ::
      latest[login] < |c.reviews| && c.reviews[latest[login]].login == login && IsLatest(c.reviews, latest[login])
    requires forall k | 0 <= k < |c.reviews| :: c.reviews[k].login in latest
    requires forall login :: login in logins <==> login in latest
    ensures IsCandidate(c, trusted, r) <==>
      exists k | 0 <= k < |logins| :: c.reviews[latest[logins[k]]] == r && Approves(c.head, c.author, trusted, r)
  {
    hide IsLatest, Approves;
    if IsCandidate(c, trusted, r) {
      var k :| 0 <= k < |c.reviews| && c.reviews[k] == r && IsLatest(c.reviews, k)
        && Approves(c.head, c.author, trusted, r);
      assert r.login in logins;
      var l :| 0 <= l < |logins| && logins[l] == r.login;
      LatestIsUnique(c.reviews, k, latest[logins[l]]);
    }
    if l :| 0 <= l < |logins| && c.reviews[latest[logins[l]]] == r && Approves(c.head, c.author, trusted, r) {
      assert logins[l] in logins;
      assert IsLatest(c.reviews, latest[logins[l]]);
    }
  }

  // ---------- Binding to the labels and to the rotation ----------

  predicate ChangesOwnerLabel(e: LabelEvent) {
    e.labeledOrUnlabeled && OWNER_PREFIX <= e.name && e.at.Some?
  }

  /** A release-owner label was put on or taken off at this time. */
  ghost predicate OwnerLabelChanged(e: LabelEvent) {
    e.labeledOrUnlabeled && e.at.Some? && exists owner :: e.name == "release-owner:" + owner
  }

  lemma OwnerLabelExactly(e: LabelEvent)
    ensures ChangesOwnerLabel(e) <==> OwnerLabelChanged(e)
  {
    var n := |"release-owner:"|;
    if OWNER_PREFIX <= e.name {
      assert e.name == "release-owner:" + e.name[n..];
    }
  }

  /** The time of the latest change of any release-owner label. */
  function LatestOwnerChange(events: seq<LabelEvent>): (at: Option<int>)
    ensures at.Some? ==> exists e | e in events :: ChangesOwnerLabel(e) && e.at == at
    ensures forall e | e in events && ChangesOwnerLabel(e) :: at.Some? && e.at.value <= at.value
  {
    if events == [] then None
    else
      var rest := LatestOwnerChange(events[1..]);
      if ChangesOwnerLabel(events[0]) && (rest.None? || events[0].at.value > rest.value) then events[0].at else rest
  }

  predicate LabelBound(events: seq<LabelEvent>, r: Review) {
    var changed := LatestOwnerChange(events);
    r.submittedAt.Some? && changed.Some? && r.submittedAt.value >= changed.value
  }

  predicate Attests(rotation: Rotation, r: Review) {
    && r.attestation == Some(rotation.attestation)
    && r.submittedAt.Some? && rotation.issuedAt <= r.submittedAt.value <= rotation.expiresAt
  }

  /** Counts for this case: bound to the current labels, and attesting the rotation if there is one. */
  predicate Counts(c: Case, r: Review) {
    LabelBound(c.events, r) && (c.rotation.Some? ==> Attests(c.rotation.value, r))
  }

  /** Bound to an agent that is not the owner, by the last such binding of the login. */
  ghost predicate IsTrusted(c: Case, r: Review) {
    exists owner, k: nat :: TrustedBy(c, r, owner, k)
  }

  predicate TrustedBy(c: Case, r: Review, owner: Actor, k: nat) {
    && k < |c.bindings| && Owns(c.labels, owner)
    && LastOfOther(c.bindings, owner, r.login, k) && c.bindings[k].userId == r.userId
  }

  /** An approval of the head that is its login's latest review, by a trusted reviewer who is not the author. */
  ghost predicate IsTrustedApproval(c: Case, r: Review) {
    && (exists k | 0 <= k < |c.reviews| :: c.reviews[k] == r && IsLatest(c.reviews, k))
    && r.approved && r.commit == Some(c.head) && r.login != c.author && IsTrusted(c, r)
  }

  /** Submitted after the labels were last changed, if ever they were. */
  ghost predicate IsLabelBound(c: Case, r: Review) {
    && r.submittedAt.Some?
    && (exists e | e in c.events :: OwnerLabelChanged(e))
    && (forall e | e in c.events && OwnerLabelChanged(e) :: e.at.value <= r.submittedAt.value)
  }

  /** Attests the rotation, while its receipt is valid. */
  predicate IsAttested(rotation: Rotation, r: Review) {
    && r.attestation.Some? && r.submittedAt.Some?
    && r.attestation.value.rotationId == rotation.attestation.rotationId
    && r.attestation.value.kind == rotation.attestation.kind
    && r.attestation.value.basePolicy == rotation.attestation.basePolicy
    && r.attestation.value.proposedPolicy == rotation.attestation.proposedPolicy
    && rotation.issuedAt <= r.submittedAt.value <= rotation.expiresAt
  }

  ghost predicate Qualifies(c: Case, r: Review) {
    IsTrustedApproval(c, r) && IsLabelBound(c, r) && (c.rotation.Some? ==> IsAttested(c.rotation.value, r))
  }

  lemma CountsExactly(c: Case, r: Review)
    ensures Counts(c, r) <==> IsLabelBound(c, r) && (c.rotation.Some? ==> IsAttested(c.rotation.value, r))
  {
    hide ChangesOwnerLabel, OwnerLabelChanged, LatestOwnerChange;
    forall e ensures ChangesOwnerLabel(e) <==> OwnerLabelChanged(e) {
      OwnerLabelExactly(e);
    }
    ChangeHasTime();
    var at := LatestOwnerChange(c.events);
    if at.Some? {
      var e :| e in c.events && ChangesOwnerLabel(e) && e.at == at;
    }
  }

  lemma ChangeHasTime()
    ensures forall e | ChangesOwnerLabel(e) :: e.at.Some?
  {
  }

  lemma OwnsOne(labels: seq<string>, a: Actor, b: Actor)
    requires Owns(labels, a) && Owns(labels, b)
    ensures a == b
  {
  }

  lemma TrustedExactly(c: Case, owner: Actor, r: Review)
    requires Owns(c.labels, owner)
    ensures TrustedId(c.bindings, owner, r.login) == Some(r.userId) <==> IsTrusted(c, r)
  {
    hide TrustedId, Owns;
    TrustedIdMeaning(c.bindings, owner, r.login);
    if other, k: nat :| TrustedBy(c, r, other, k) {
      OwnsOne(c.labels, other, owner);
      var id := TrustedId(c.bindings, owner, r.login);
      var j :| 0 <= j < |c.bindings| && LastOfOther(c.bindings, owner, r.login, j) && c.bindings[j].userId == id.value;
      assert j == k;
    }
    if TrustedId(c.bindings, owner, r.login) == Some(r.userId) {
      var j :| 0 <= j < |c.bindings| && LastOfOther(c.bindings, owner, r.login, j) && c.bindings[j].userId == r.userId;
      assert TrustedBy(c, r, owner, j);
    }
  }

  /** The review the verdict rests on, and whether it raises no issue: the qualifying review with
      the highest id, which must not attest a rotation when there is none. */
  method JudgeReview(c: Case) returns (chosen: Option<Review>, passed: bool)
    ensures chosen.None? <==> forall r :: !Qualifies(c, r)
    ensures chosen.Some? ==> Qualifies(c, chosen.value) && forall r | Qualifies(c, r) :: r.id <= chosen.value.id
    ensures passed <==> chosen.Some? && (c.rotation.None? ==> chosen.value.attestation.None?)
  {
    hide IsLatest, LatestOwnerChange, Counts, TrustedId, Owns, IsLabelBound, IsAttested, IsTrusted;
    var owner := ResolveReleaseOwner(c.labels);
    chosen, passed := None, false;
    if owner.None? {
      forall r ensures !IsTrusted(c, r) {
        NobodyTrusted(c, r);
      }
      return;
    }
    var trusted := TrustedReviewerIdentities(c.bindings, owner.value);
    var candidates := QualifyingReviews(c, trusted);
    forall r ensures Qualifies(c, r) <==> r in candidates && Counts(c, r) {
      assert Get(trusted, r.login) == TrustedId(c.bindings, owner.value, r.login);
      TrustedExactly(c, owner.value, r);
      CountsExactly(c, r);
    }
    var i := 0;
    while i < |candidates|
      invariant i <= |candidates|
      invariant forall k | 0 <= k < i :: !Counts(c, candidates[k])
    {
      if Counts(c, candidates[i]) {
        chosen := Some(candidates[i]);
        passed := c.rotation.Some? || candidates[i].attestation.None?;
        return;
      }
      i := i + 1;
    }
  }

  lemma NobodyTrusted(c: Case, r: Review)
    requires ResolveReleaseOwner(c.labels).None?
    ensures !IsTrusted(c, r)
  {
    hide Owns, LastOfOther;
  }

  // ---------- What a passing verdict means ----------

  /** Bound to another agent, and never to the owner. */
  ghost predicate BoundToOther(bindings: seq<Bound>, owner: Actor, r: Review) {
    && (exists b | b in bindings :: b.actor != owner && b.login == r.login && b.userId == r.userId)
    && (forall b | b in bindings && b.actor == owner :: b.login != r.login)
  }

  /** An approval by an agent's reviewer who is neither the author nor the owner's reviewer, given
      at the exact head after every change of the owner labels, attesting the rotation if there is one,
      and never taken back since. */
  ghost predicate IndependentApproval(c: Case, r: Review) {
    && r in c.reviews && r.approved && r.commit == Some(c.head) && r.login != c.author
    && (forall other | other in c.reviews && other.login == r.login :: other.id <= r.id)
    && (exists owner :: Owns(c.labels, owner) && BoundToOther(c.bindings, owner, r))
    && IsLabelBound(c, r)
    && (c.rotation.Some? ==> IsAttested(c.rotation.value, r))
  }

  lemma QualifyingIsIndependent(c: Case, r: Review)
    requires OneAgentPerLogin(c.bindings) && Qualifies(c, r)
    ensures IndependentApproval(c, r)
  {
    hide Owns, IsLabelBound, IsAttested;
    var owner, k: nat :| TrustedBy(c, r, owner, k);
    assert c.bindings[k] in c.bindings;
    forall b | b in c.bindings && b.actor == owner ensures b.login != r.login {
      var j :| 0 <= j < |c.bindings| && c.bindings[j] == b;
      assert j < k ==> c.bindings[j].login != c.bindings[k].login;
    }
    forall other | other in c.reviews && other.login == r.login ensures other.id <= r.id {
      var j :| 0 <= j < |c.reviews| && c.reviews[j] == other;
    }
  }

  lemma HighestIsLatest(reviews: seq<Review>, r: Review)
    requires r in reviews && forall other | other in reviews && other.login == r.login :: other.id <= r.id
    requires forall i, j | 0 <= i < j < |reviews| :: reviews[i].id != reviews[j].id
    ensures exists k | 0 <= k < |reviews| :: reviews[k] == r && IsLatest(reviews, k)
  {
    var k :| 0 <= k < |reviews| && reviews[k] == r;
    assert IsLatest(reviews, k);
  }

  /** When review ids are distinct and each login has one binding, the qualifying reviews are exactly
      the independent approvals. */
  lemma QualifiesExactly(c: Case, r: Review)
    requires forall i, j | 0 <= i < j < |c.reviews| :: c.reviews[i].id != c.reviews[j].id
    requires forall i, j | 0 <= i < j < |c.bindings| :: c.bindings[i].login != c.bindings[j].login
    ensures Qualifies(c, r) <==> IndependentApproval(c, r)
  {
    hide Qualifies, IndependentApproval;
    if Qualifies(c, r) {
      QualifyingIsIndependent(c, r);
    }
    if IndependentApproval(c, r) {
      IndependentQualifies(c, r);
    }
  }

  lemma IndependentQualifies(c: Case, r: Review)
    requires IndependentApproval(c, r)
    requires forall i, j | 0 <= i < j < |c.reviews| :: c.reviews[i].id != c.reviews[j].id
    requires forall i, j | 0 <= i < j < |c.bindings| :: c.bindings[i].login != c.bindings[j].login
    ensures Qualifies(c, r)
  {
    hide Owns, IsLatest, IsLabelBound, IsAttested;
    var owner :| Owns(c.labels, owner) && BoundToOther(c.bindings, owner, r);
    var b :| b in c.bindings && b.actor != owner && b.login == r.login && b.userId == r.userId;
    var at :| 0 <= at < |c.bindings| && c.bindings[at] == b;
    assert TrustedBy(c, r, owner, at);
    HighestIsLatest(c.reviews, r);
  }

  /** Any later change of a release-owner label invalidates every earlier approval; of those that
      qualified before, it keeps exactly the ones submitted no earlier than the change. */
  lemma LaterLabelChangeInvalidates(c: Case, e: LabelEvent, r: Review)
    requires OwnerLabelChanged(e) && forall o | o in c.events && OwnerLabelChanged(o) :: o.at.value <= e.at.value
    ensures Qualifies(c.(events := c.events + [e]), r) ==> r.submittedAt.value >= e.at.value
    ensures Qualifies(c, r) ==>
      (Qualifies(c.(events := c.events + [e]), r) <==> r.submittedAt.value >= e.at.value)
  {
    hide Owns, IsAttested, IsLatest, OwnerLabelChanged;
    var changed := c.(events := c.events + [e]);
    assert e in changed.events;
    assert forall owner, k: nat :: TrustedBy(changed, r, owner, k) <==> TrustedBy(c, r, owner, k);
    assert IsTrustedApproval(changed, r) <==> IsTrustedApproval(c, r);
  }

  /** A later review of the same login that is not an approval of the head takes the approval back. */
  lemma LaterReviewRevokes(c: Case, r: Review, later: Review)
    requires later.login == r.login && later.id > r.id
    ensures !Qualifies(c.(reviews := c.reviews + [later]), r)
  {
    hide Owns, IsAttested, IsLabelBound, IsTrusted;
    var reviews := c.reviews + [later];
    assert reviews[|c.reviews|] == later;
  }
}
