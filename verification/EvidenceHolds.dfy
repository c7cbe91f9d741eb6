/**
 Recorded, time-boxed holds on stale live evidence: which issues of the public claims
 check they turn into warnings, and for how long.
 */
module EvidenceHolds {
  import opened Basics
  import Texts
  import Patterns

  const SEVEN_DAYS_MS := 7 * 24 * 60 * 60 * 1000
  const STALE := "LIVE_EVIDENCE_STALE"

  datatype Issue = Issue(code: string, subject: string, message: string)

  /** A hold as recorded; a field of the wrong type is empty, an instant that does not parse absent. */
  datatype Hold = Hold(evidenceId: string, recordedAt: Option<int>, expiresAt: Option<int>, reason: string,
    authorizedBy: string)

  /** What is reported: an issue as it came, or what a hold made of one, or about the hold itself. */
  datatype Notice =
    | Kept(issue: Issue)
    | HoldExpired(issue: Issue, expiresAt: int)
    | StaleHeld(issue: Issue, expiresAt: int)
    | HoldInvalid(subject: string)
    | NotYetEffective(subject: string)
    | HoldUnused(subject: string)

  /** A well-formed hold in effect. */
  datatype Cover = Cover(expiresAt: int, expired: bool)

  /** A recorded instant; one that is absent makes the hold ill-formed. */
  function Instant(at: Option<int>): int { if at.Some? then at.value else 0 }

  predicate WellFormed(hold: Hold, live: set<string>) {
    && hold.evidenceId != ""
    && Texts.NonBlank(hold.reason) && Texts.NonBlank(hold.authorizedBy)
    && hold.recordedAt.Some? && hold.expiresAt.Some?
    && hold.expiresAt.value > hold.recordedAt.value
    && hold.expiresAt.value - hold.recordedAt.value <= SEVEN_DAYS_MS
    && hold.evidenceId in live
  }

  /** The first hold of its evidence id. */
  predicate IsFirst(holds: seq<Hold>, k: nat)
    requires k < |holds|
  {
    forall j | 0 <= j < k :: holds[j].evidenceId != holds[k].evidenceId
  }

  predicate Accepted(holds: seq<Hold>, live: set<string>, k: nat)
    requires k < |holds|
  {
    IsFirst(holds, k) && WellFormed(holds[k], live)
  }

  /** Accepted and recorded by `now`. */
  predicate InEffect(holds: seq<Hold>, live: set<string>, now: int, k: nat)
    requires k < |holds|
  {
    Accepted(holds, live, k) && Instant(holds[k].recordedAt) <= now
  }

  function CoverBy(hold: Hold, now: int): Cover { Cover(Instant(hold.expiresAt), Instant(hold.expiresAt) <= now) }

  // ---------- Reading the holds ----------

  /** The cover map is exactly the holds in effect. */
  ghost predicate CoversExactly(holds: seq<Hold>, live: set<string>, now: int, covers: map<string, Cover>) {
    && (forall k | 0 <= k < |holds| && InEffect(holds, live, now, k) ::
          Get(covers, holds[k].evidenceId) == Some(CoverBy(holds[k], now)))
    && (forall id | id in covers ::
      exists k | 0 <= k < |holds| :: holds[k].evidenceId == id && InEffect(holds, live, now, k))
  }

  /** One blocking notice for every hold that is malformed or repeats an evidence id. */
  function InvalidNotices(holds: seq<Hold>, live: set<string>, n: nat): seq<Notice>
    requires n <= |holds|
  {
    if n == 0 then []
    else
      InvalidNotices(holds, live, n - 1) +
      if Accepted(holds, live, n - 1) then [] else [HoldInvalid(holds[n - 1].evidenceId)]
  }

  /** One warning for every accepted hold recorded after `now`. */
  function EarlyNotices(holds: seq<Hold>, live: set<string>, now: int, n: nat): seq<Notice>
    requires n <= |holds|
  {
    if n == 0 then []
    else
      EarlyNotices(holds, live, now, n - 1) +
      if Accepted(holds, live, n - 1) && Instant(holds[n - 1].recordedAt) > now
      then [NotYetEffective(holds[n - 1].evidenceId)]
      else []
  }

  lemma {:induction false} NoneInvalid(holds: seq<Hold>, live: set<string>, n: nat)
    requires n <= |holds|
    ensures InvalidNotices(holds, live, n) == [] <==> forall k | 0 <= k < n :: Accepted(holds, live, k)
  {
    hide Accepted;
    if n > 0 {
      NoneInvalid(holds, live, n - 1);
    }
  }

  method ReadHolds(holds: seq<Hold>, live: set<string>, now: int)
    returns (covers: map<string, Cover>, ids: seq<string>, blocking: seq<Notice>, held: seq<Notice>)
    ensures CoversExactly(holds, live, now, covers)
    ensures blocking == InvalidNotices(holds, live, |holds|) && held == EarlyNotices(holds, live, now, |holds|)
    ensures (forall id :: id in ids <==> id in covers) && Distinct(ids)
  {
    hide WellFormed, Accepted, IsFirst, CoverBy;
    covers, ids, blocking, held := map[], [], [], [];
    var seen: set<string> := {};
    var i := 0;
    while i < |holds|
      invariant i <= |holds|
      invariant forall id :: id in seen <==> id != "" && exists k | 0 <= k < i :: holds[k].evidenceId == id
      invariant forall k | 0 <= k < i && InEffect(holds, live, now, k) ::
        Get(covers, holds[k].evidenceId) == Some(CoverBy(holds[k], now))
      invariant forall id | id in covers ::
        exists k | 0 <= k < i :: holds[k].evidenceId == id && InEffect(holds, live, now, k)
      invariant blocking == InvalidNotices(holds, live, i) && held == EarlyNotices(holds, live, now, i)
      invariant (forall id :: id in ids <==> id in covers) && Distinct(ids)
    {
      var hold := holds[i];
      AcceptedMeans(holds, live, i, seen);
      if hold.evidenceId in seen || !WellFormed(hold, live) {
        blocking := blocking + [HoldInvalid(hold.evidenceId)];
      } else if Instant(hold.recordedAt) > now {
        held := held + [NotYetEffective(hold.evidenceId)];
      } else {
        assert hold.evidenceId !in covers && hold.evidenceId !in ids;
        covers := covers[hold.evidenceId := CoverBy(hold, now)];
        ids := ids + [hold.evidenceId];
        assert InEffect(holds, live, now, i);
      }
      if hold.evidenceId != "" {
        seen := seen + {hold.evidenceId};
      }
      i := i + 1;
    }
  }

  lemma AcceptedMeans(holds: seq<Hold>, live: set<string>, i: nat, seen: set<string>)
    requires i < |holds|
    requires forall id :: id in seen <==> id != "" && exists k | 0 <= k < i :: holds[k].evidenceId == id
    ensures Accepted(holds, live, i) <==> holds[i].evidenceId !in seen && WellFormed(holds[i], live)
    ensures WellFormed(holds[i], live) ==> holds[i].evidenceId != ""
    ensures holds[i].evidenceId in seen ==> exists k | 0 <= k < i :: holds[k].evidenceId == holds[i].evidenceId
  {
  }

  // ---------- Partitioning the issues ----------

  /** What becomes of one issue, given the hold in effect for its subject. */
  function Disposition(issue: Issue, cover: Option<Cover>): Notice {
    if issue.code != STALE || cover.None? then Kept(issue)
    else if cover.value.expired then HoldExpired(issue, cover.value.expiresAt)
    else StaleHeld(issue, cover.value.expiresAt)
  }

  function Dispositions(issues: seq<Issue>, covers: map<string, Cover>): (r: seq<Notice>)
    ensures |r| == |issues|
    ensures forall k | 0 <= k < |r| :: r[k] == Disposition(issues[k], Get(covers, issues[k].subject))
  {
    seq(|issues|, k requires 0 <= k < |issues| => Disposition(issues[k], Get(covers, issues[k].subject)))
  }

  method SplitIssues(issues: seq<Issue>, covers: map<string, Cover>) returns (blocking: seq<Notice>, held: seq<Notice>)
    ensures multiset(blocking) + multiset(held) == multiset(Dispositions(issues, covers))
    ensures (forall n | n in blocking :: !n.StaleHeld?) && (forall n | n in held :: n.StaleHeld?)
  {
    blocking, held := [], [];
    var all := Dispositions(issues, covers);
    var i := 0;
    while i < |issues|
      invariant i <= |issues|
      invariant multiset(blocking) + multiset(held) == multiset(all[..i])
      invariant (forall n | n in blocking :: !n.StaleHeld?) && (forall n | n in held :: n.StaleHeld?)
    {
      var notice := Disposition(issues[i], Get(covers, issues[i].subject));
      if notice.StaleHeld? {
        held := held + [notice];
      } else {
        blocking := blocking + [notice];
      }
      assert all[..i + 1] == all[..i] + [notice];
      i := i + 1;
    }
    assert all[..i] == all;
  }

  /** The holds whose evidence has no stale issue. */
  method UnusedHolds(issues: seq<Issue>, ids: seq<string>) returns (notices: seq<Notice>)
    requires Distinct(ids)
    ensures (forall n | n in notices :: n.HoldUnused?) && Distinct(notices)
    ensures forall id :: HoldUnused(id) in notices <==> id in ids && !IsStale(issues, id)
  {
    notices := [];
    var i := 0;
    while i < |ids|
      invariant i <= |ids|
      invariant (forall n | n in notices :: n.HoldUnused?) && Distinct(notices)
      invariant forall id :: HoldUnused(id) in notices <==> id in ids[..i] && !IsStale(issues, id)
    {
      if !IsStale(issues, ids[i]) {
        notices := notices + [HoldUnused(ids[i])];
      }
      assert ids[..i + 1] == ids[..i] + [ids[i]];
      i := i + 1;
    }
    assert ids[..i] == ids;
  }

  predicate IsStale(issues: seq<Issue>, id: string) {
    exists k | 0 <= k < |issues| :: issues[k].code == STALE && issues[k].subject == id
  }

  /** Every issue has exactly one place in the output: the two lists together hold one disposition
      of each issue, one notice of each hold that is rejected or early, and one of each hold in
      effect whose evidence is fresh. Nothing blocks exactly when every hold is accepted and every
      issue is a stale one that a hold covers now. */
  method ApplyEvidenceHolds(issues: seq<Issue>, holds: seq<Hold>, live: set<string>, now: int)
    returns (blocking: seq<Notice>, held: seq<Notice>, ghost covers: map<string, Cover>, ghost unused: seq<Notice>)
    ensures CoversExactly(holds, live, now, covers)
    ensures multiset(blocking) + multiset(held) ==
      multiset(Dispositions(issues, covers)) + multiset(InvalidNotices(holds, live, |holds|))
      + multiset(EarlyNotices(holds, live, now, |holds|)) + multiset(unused)
    ensures (forall n | n in unused :: n.HoldUnused?) && Distinct(unused)
    ensures forall id :: HoldUnused(id) in unused <==> id in covers && !IsStale(issues, id)
    ensures forall issue | issue in issues && issue.code != STALE :: Kept(issue) in blocking
    ensures blocking == [] <==>
      && (forall k | 0 <= k < |holds| :: Accepted(holds, live, k))
      && forall k | 0 <= k < |issues| :: Covered(holds, live, now, issues[k])
  {
    hide InEffect, Accepted, Disposition, InvalidNotices, EarlyNotices;
    var covering, ids, invalid, early := ReadHolds(holds, live, now);
    covers := covering;
    var stillBlocking, staleHeld := SplitIssues(issues, covering);
    var idle := UnusedHolds(issues, ids);
    unused := idle;
    blocking, held := invalid + stillBlocking, early + staleHeld + idle;
    NoneInvalid(holds, live, |holds|);
    BlockingIssues(issues, holds, live, now, covering, stillBlocking, staleHeld);
    OtherIssuesBlock(issues, covering, stillBlocking, staleHeld);
  }

  /** A stale issue with an accepted hold on its subject, recorded by now and not yet expired. */
  ghost predicate Covered(holds: seq<Hold>, live: set<string>, now: int, issue: Issue) {
    issue.code == STALE &&
    exists k | 0 <= k < |holds| ::
      InEffect(holds, live, now, k) && holds[k].evidenceId == issue.subject && now < Instant(holds[k].expiresAt)
  }

  lemma CoverMeans(holds: seq<Hold>, live: set<string>, now: int, covers: map<string, Cover>, issue: Issue)
    requires CoversExactly(holds, live, now, covers)
    ensures Disposition(issue, Get(covers, issue.subject)).StaleHeld? <==> Covered(holds, live, now, issue)
  {
    hide WellFormed, IsFirst;
    if issue.code == STALE && issue.subject in covers {
      var k :| 0 <= k < |holds| && holds[k].evidenceId == issue.subject && InEffect(holds, live, now, k);
      forall j | 0 <= j < |holds| && InEffect(holds, live, now, j) && holds[j].evidenceId == issue.subject
        ensures j == k
      {
        OneHoldInEffect(holds, live, now, j, k);
      }
    }
  }

  lemma BlockingIssues(issues: seq<Issue>, holds: seq<Hold>, live: set<string>, now: int, covers: map<string, Cover>,
                       blocking: seq<Notice>, held: seq<Notice>)
    requires CoversExactly(holds, live, now, covers)
    requires multiset(blocking) + multiset(held) == multiset(Dispositions(issues, covers))
    requires (forall n | n in blocking :: !n.StaleHeld?) && (forall n | n in held :: n.StaleHeld?)
    ensures blocking == [] <==> forall k | 0 <= k < |issues| :: Covered(holds, live, now, issues[k])
  {
    hide CoversExactly, Covered, Disposition;
    var all := Dispositions(issues, covers);
    forall k | 0 <= k < |issues| ensures all[k].StaleHeld? <==> Covered(holds, live, now, issues[k]) {
      CoverMeans(holds, live, now, covers, issues[k]);
    }
    if blocking == [] {
      forall k | 0 <= k < |issues| ensures Covered(holds, live, now, issues[k]) {
        assert all[k] in multiset(all);
        assert all[k] in held;
      }
    } else {
      assert blocking[0] in multiset(all);
      var k :| 0 <= k < |all| && all[k] == blocking[0];
    }
  }

  // ---------- One hold, at most seven days ----------

  /** At most one hold of an evidence id is ever in effect, whatever the two times of asking. */
  lemma OneHoldInEffect(holds: seq<Hold>, live: set<string>, now: int, j: nat, k: nat)
    requires j < |holds| && k < |holds| && holds[j].evidenceId == holds[k].evidenceId
    requires Accepted(holds, live, j) && Accepted(holds, live, k)
    ensures j == k
  {
  }

  /** One set of holds covers an evidence id during at most seven days. */
  lemma CoverLastsSevenDays(holds: seq<Hold>, live: set<string>, from: int, to: int, one: Issue, two: Issue)
    requires one.subject == two.subject && from <= to
    requires Covered(holds, live, from, one) && Covered(holds, live, to, two)
    ensures to - from < SEVEN_DAYS_MS
  {
    hide Accepted;
    var j :| 0 <= j < |holds| && InEffect(holds, live, from, j) && holds[j].evidenceId == one.subject
      && from < Instant(holds[j].expiresAt);
    var k :| 0 <= k < |holds| && InEffect(holds, live, to, k) && holds[k].evidenceId == two.subject
      && to < Instant(holds[k].expiresAt);
    OneHoldInEffect(holds, live, from, j, k);
    AcceptedSpan(holds, live, k);
  }

  lemma AcceptedSpan(holds: seq<Hold>, live: set<string>, k: nat)
    requires k < |holds| && Accepted(holds, live, k)
    ensures Instant(holds[k].expiresAt) - Instant(holds[k].recordedAt) <= SEVEN_DAYS_MS && holds[k].evidenceId in live
  {
  }

  /** Only the code of stale evidence is ever downgraded. */
  lemma OtherIssuesBlock(issues: seq<Issue>, covers: map<string, Cover>, blocking: seq<Notice>, held: seq<Notice>)
    requires multiset(blocking) + multiset(held) == multiset(Dispositions(issues, covers))
    requires forall n | n in held :: n.StaleHeld?
    ensures forall issue | issue in issues && issue.code != STALE :: Kept(issue) in blocking
  {
    var all := Dispositions(issues, covers);
    forall issue | issue in issues && issue.code != STALE ensures Kept(issue) in blocking {
      var k :| 0 <= k < |issues| && issues[k] == issue;
      assert all[k] == Kept(issue) && all[k] in multiset(all);
      assert Kept(issue) !in held;
    }
  }

  // ---------- The rules by their literals ----------

  /** The first hold of its id, which is that of live evidence, with a reason and a name that are not blank, and for
      at most seven days after it was recorded. */
  ghost predicate Holds(holds: seq<Hold>, live: set<string>, k: nat, from: int, to: int)
    requires k < |holds|
  {
    var hold := holds[k];
    && hold.recordedAt == Some(from) && hold.expiresAt == Some(to) && from < to <= from + 604_800_000
    && hold.evidenceId != "" && hold.evidenceId in live
    && Patterns.Trim(hold.reason) != "" && Patterns.Trim(hold.authorizedBy) != ""
    && forall j | 0 <= j < k :: holds[j].evidenceId != hold.evidenceId
  }

  lemma AcceptedExactly(holds: seq<Hold>, live: set<string>, now: int, k: nat)
    requires k < |holds|
    ensures Accepted(holds, live, k) <==> exists from, to :: Holds(holds, live, k, from, to)
    ensures forall from, to | Holds(holds, live, k, from, to) ::
      (InEffect(holds, live, now, k) <==> from <= now) && CoverBy(holds[k], now) == Cover(to, to <= now)
  {
    hide Texts.NonBlank, Patterns.Trim;
    Patterns.NonBlankExactly(holds[k].reason);
    Patterns.NonBlankExactly(holds[k].authorizedBy);
    if Accepted(holds, live, k) {
      assert Holds(holds, live, k, holds[k].recordedAt.value, holds[k].expiresAt.value);
    }
  }

  /** An issue stays as it is unless it is one of stale evidence with a cover. */
  lemma DispositionExactly(issue: Issue, cover: Option<Cover>)
    ensures issue.code == "LIVE_EVIDENCE_STALE" && cover.Some? ==>
      Disposition(issue, cover) ==
        if cover.value.expired then HoldExpired(issue, cover.value.expiresAt)
        else StaleHeld(issue, cover.value.expiresAt)
    ensures issue.code != "LIVE_EVIDENCE_STALE" || cover.None? ==> Disposition(issue, cover) == Kept(issue)
  {
  }
}
