/**
 What the strict gate means: it is meant to fail exactly when a verified requirement rests
 on dead code of its own. Evidence is grouped by requirement id, so that depends on the ids.
 */
module StrictGate {
  import opened Basics
  import opened Closures
  import opened Reachability
  import Texts

  /** One of the requirement's own citations is proven dead. */
  ghost predicate RestsOnDead(index: Index, checks: Checks, r: Requirement) {
    exists i | 0 <= i < |r.evidence| :: ProvenDead(index, checks, Cited(r.id, r.evidence)[i])
  }

  /** When the gate fails, as `EvaluateStrictGate` does. */
  ghost predicate GateFails(index: Index, checks: Checks, requirements: seq<Requirement>) {
    exists k | 0 <= k < |requirements| :: Blocks(index, checks, requirements, k)
  }

  /** When it is meant to fail. */
  ghost predicate VerifiedRestsOnDead(index: Index, checks: Checks, requirements: seq<Requirement>) {
    exists k | 0 <= k < |requirements| :: requirements[k].verified && RestsOnDead(index, checks, requirements[k])
  }

  ghost predicate GateIsRight(index: Index, checks: Checks, requirements: seq<Requirement>) {
    GateFails(index, checks, requirements) <==> VerifiedRestsOnDead(index, checks, requirements)
  }

  /** Verified requirements have an id, and share it with verified ones only. */
  predicate IdsOk(requirements: seq<Requirement>) {
    && (forall k | 0 <= k < |requirements| && requirements[k].verified :: requirements[k].id != "")
    && (forall j, k | 0 <= j < |requirements| && 0 <= k < |requirements| ::
          requirements[k].verified && !requirements[j].verified ==> requirements[j].id != requirements[k].id)
  }

  /** The same requirements, citing this evidence instead. */
  function WithEvidence(requirements: seq<Requirement>, evidence: seq<seq<Evidence>>): (r: seq<Requirement>)
    requires |evidence| == |requirements|
    ensures |r| == |requirements|
    ensures forall k | 0 <= k < |r| :: r[k] == requirements[k].(evidence := evidence[k])
  {
    seq(|requirements|, k requires 0 <= k < |requirements| => requirements[k].(evidence := evidence[k]))
  }

  lemma IdsOkMeansOwn(index: Index, checks: Checks, requirements: seq<Requirement>)
    requires IdsOk(requirements)
    ensures GateFails(index, checks, requirements) <==> VerifiedRestsOnDead(index, checks, requirements)
  {
    hide ProvenDead;
    if k :| 0 <= k < |requirements| && Blocks(index, checks, requirements, k) {
      var j, i :| 0 <= j < |requirements| && 0 <= i < |requirements[j].evidence|
        && requirements[j].id == requirements[k].id
        && ProvenDead(index, checks, Cited(requirements[j].id, requirements[j].evidence)[i]);
      assert requirements[j].verified && RestsOnDead(index, checks, requirements[j]);
    }
    if k :| 0 <= k < |requirements| && requirements[k].verified && RestsOnDead(index, checks, requirements[k]) {
      assert Blocks(index, checks, requirements, k);
    }
  }

  // ---------- The script's own checks ----------

  predicate Contains(s: string, part: string) {
    exists k | 0 <= k <= |s| :: part <= s[k..]
  }

  const NON_SOURCE_KINDS: set<string> := {"planned", "external", "live", "document"}

  const SOURCE_EXTENSIONS: seq<string> := [".ts", ".tsx", ".mts", ".cts", ".mjs", ".cjs", ".js", ".jsx"]

  predicate IsSourcePath(path: string) {
    exists k | 0 <= k < |SOURCE_EXTENSIONS| :: Texts.EndsWith(path, SOURCE_EXTENSIONS[k])
  }

  predicate DrivesApplication(path: string, kind: string) {
    Contains(path, ".e2e.") || Contains(path, "e2e/") || Contains(path, ".spec.") || kind == "e2e"
  }

  const SCRIPT_CHECKS := Checks(
    (kind: string) => kind in NON_SOURCE_KINDS,
    (path: string) => IsSourcePath(path),
    (path: string, kind: string) => DrivesApplication(path, kind))

  lemma ContainsExactly(s: string, part: string)
    ensures Contains(s, part) <==> exists before, after :: s == before + part + after
  {
    if k :| 0 <= k <= |s| && part <= s[k..] {
      assert s == s[..k] + part + s[k + |part|..];
    }
    if before, after :| s == before + part + after {
      assert s[|before|..] == part + after;
    }
  }

  lemma EndsExactly(s: string, suffix: string)
    ensures Texts.EndsWith(s, suffix) <==> exists stem :: s == stem + suffix
  {
    if Texts.EndsWith(s, suffix) {
      assert s == s[..|s| - |suffix|] + suffix;
    }
  }

  /** The script's checks: kinds that are no source, `\.(?:tsx?|mts|cts|mjs|cjs|jsx?)$`, and
      `\.e2e\.|e2e\/|\.spec\.` or the kind "e2e". */
  lemma ScriptChecksExactly(path: string, kind: string)
    ensures SCRIPT_CHECKS.isNonSource(kind) <==> kind in ["planned", "external", "live", "document"]
    ensures SCRIPT_CHECKS.isSourcePath(path) <==> exists stem, extension | path == stem + extension ::
      extension in [".ts", ".tsx", ".mts", ".cts", ".mjs", ".cjs", ".js", ".jsx"]
    ensures SCRIPT_CHECKS.drivesApplication(path, kind) <==>
      || kind == "e2e" || (exists before, after :: path == before + ".e2e." + after)
      || (exists before, after :: path == before + "e2e/" + after)
      || exists before, after :: path == before + ".spec." + after
  {
    hide Texts.EndsWith, Contains;
    forall extension ensures Texts.EndsWith(path, extension) <==> exists stem :: path == stem + extension {
      EndsExactly(path, extension);
    }
    ContainsExactly(path, ".e2e.");
    ContainsExactly(path, "e2e/");
    ContainsExactly(path, ".spec.");
  }

  // ---------- Evidence that is dead ----------

  /** Evidence of this kind at this path can be traced, once the path is in the index. */
  predicate CanTrace(checks: Checks, e: Evidence) {
    '#' !in e.locator && !checks.isNonSource(e.kind) && checks.isSourcePath(e.locator)
    && !checks.drivesApplication(e.locator, e.kind)
  }

  const CODE := Evidence("code", "d.ts")

  /** The script can trace code. */
  lemma ScriptTraces()
    ensures CanTrace(SCRIPT_CHECKS, CODE)
  {
    assert Texts.EndsWith("d.ts", SOURCE_EXTENSIONS[0]);
    assert CODE.locator[0] == 'd' && CODE.locator[1] == '.' && CODE.locator[2] == 't' && CODE.locator[3] == 's';
    assert |"e2e/"| == 4 && "e2e/"[0] == 'e';
  }

  /** At the path one source file exports a name that nothing uses. */
  function DeadIndex(path: string): Index {
    Index(map[path := FileInfo(false, [], {}, {}, {"gone"}, [], false, {})], [], (from: string, to: string) => None)
  }

  lemma DeadIsDead(checks: Checks, e: Evidence, id: string)
    requires CanTrace(checks, e)
    ensures ProvenDead(DeadIndex(e.locator), checks, Citation(Some(id), e.kind, e.locator))
  {
    var index, c := DeadIndex(e.locator), Citation(Some(id), e.kind, e.locator);
    assert Texts.StandsBefore(e.locator, '#', e.locator);
    assert ForwardedBy(index, [e.locator], e.locator, e.locator);
    assert e.locator in index.files && "gone" in index.files[e.locator].exports;
    assert StandsFor(index, e.locator, "gone");
  }

  /** Only requirement `k` cites anything: the evidence `e`. */
  function OnlyCites(requirements: seq<Requirement>, k: nat, e: Evidence): (r: seq<Requirement>)
    requires k < |requirements|
  {
    WithEvidence(requirements, EvidenceAt(|requirements|, k, e))
  }

  function EvidenceAt(n: nat, k: nat, e: Evidence): (r: seq<seq<Evidence>>)
    ensures |r| == n && forall j | 0 <= j < n :: r[j] == if j == k then [e] else []
  {
    seq(n, j => if j == k then [e] else [])
  }

  /** The requirement's id is one, and a verified requirement's. */
  predicate SharesVerifiedId(requirements: seq<Requirement>, k: nat)
    requires k < |requirements|
  {
    requirements[k].id != "" &&
    exists j | 0 <= j < |requirements| :: requirements[j].verified && requirements[j].id == requirements[k].id
  }

  lemma OnlyDeadMeans(checks: Checks, e: Evidence, requirements: seq<Requirement>, k: nat)
    requires k < |requirements| && CanTrace(checks, e)
    ensures var index, rs := DeadIndex(e.locator), OnlyCites(requirements, k, e);
      && (VerifiedRestsOnDead(index, checks, rs) <==> requirements[k].verified)
      && (GateFails(index, checks, rs) <==> SharesVerifiedId(requirements, k))
  {
    hide ProvenDead, DeadIndex, CanTrace;
    var index, rs := DeadIndex(e.locator), OnlyCites(requirements, k, e);
    assert rs[k].evidence[0] == e;
    DeadIsDead(checks, e, requirements[k].id);
    assert Cited(rs[k].id, rs[k].evidence)[0] == Citation(Some(rs[k].id), e.kind, e.locator);
    assert RestsOnDead(index, checks, rs[k]);
    forall j | 0 <= j < |requirements| && requirements[j].verified && requirements[j].id == requirements[k].id
        && requirements[k].id != ""
      ensures Blocks(index, checks, rs, j)
    {
      assert ProvenDead(index, checks, Cited(rs[k].id, rs[k].evidence)[0]);
    }
  }

  /** A verified requirement without an id rests on dead code of its own, and the script's gate passes. */
  lemma EmptyIdPasses()
    ensures var index, requirements := DeadIndex(CODE.locator), [Requirement("", true, [CODE])];
      VerifiedRestsOnDead(index, SCRIPT_CHECKS, requirements) && !GateFails(index, SCRIPT_CHECKS, requirements)
  {
    ScriptTraces();
    hide ProvenDead, SCRIPT_CHECKS, CanTrace, DeadIndex;
    var requirements := [Requirement("", true, [CODE])];
    assert OnlyCites(requirements, 0, CODE) == requirements;
    OnlyDeadMeans(SCRIPT_CHECKS, CODE, requirements, 0);
  }

  /** With checks that can trace anything at all, as the script's can: whatever the code and whatever the
      requirements cite, the gate fails exactly when a verified requirement rests on dead code of its own,
      if and only if the ids are in order. */
  lemma GateMeansOwnExactly(checks: Checks, e: Evidence, requirements: seq<Requirement>)
    requires CanTrace(checks, e)
    ensures IdsOk(requirements) <==>
      forall index: Index, evidence: seq<seq<Evidence>> | |evidence| == |requirements| ::
        GateIsRight(index, checks, WithEvidence(requirements, evidence))
  {
    hide GateFails, VerifiedRestsOnDead, DeadIndex, IdsOk, CanTrace;
    if IdsOk(requirements) {
      forall index: Index, evidence: seq<seq<Evidence>> | |evidence| == |requirements|
        ensures GateIsRight(index, checks, WithEvidence(requirements, evidence))
      {
        SameIds(requirements, evidence);
        IdsOkMeansOwn(index, checks, WithEvidence(requirements, evidence));
      }
    } else {
      var k := BadId(requirements);
      OnlyDeadMeans(checks, e, requirements, k);
      var evidence := EvidenceAt(|requirements|, k, e);
      assert OnlyCites(requirements, k, e) == WithEvidence(requirements, evidence);
      assert !GateIsRight(DeadIndex(e.locator), checks, WithEvidence(requirements, evidence));
    }
  }

  /** So it is for the script. */
  lemma ScriptGateMeansOwnExactly(requirements: seq<Requirement>)
    ensures IdsOk(requirements) <==>
      forall index: Index, evidence: seq<seq<Evidence>> | |evidence| == |requirements| ::
        GateIsRight(index, SCRIPT_CHECKS, WithEvidence(requirements, evidence))
  {
    ScriptTraces();
    hide SCRIPT_CHECKS, CanTrace, GateIsRight, IdsOk;
    GateMeansOwnExactly(SCRIPT_CHECKS, CODE, requirements);
  }

  lemma SameIds(requirements: seq<Requirement>, evidence: seq<seq<Evidence>>)
    requires |evidence| == |requirements|
    ensures IdsOk(WithEvidence(requirements, evidence)) <==> IdsOk(requirements)
  {
  }

  /** A requirement at which dead evidence is judged wrongly. */
  lemma BadId(requirements: seq<Requirement>) returns (k: nat)
    requires !IdsOk(requirements)
    ensures k < |requirements|
    ensures requirements[k].verified <==> !SharesVerifiedId(requirements, k)
  {
    if i :| 0 <= i < |requirements| && requirements[i].verified && requirements[i].id == "" {
      k := i;
    } else {
      var j, i :| 0 <= j < |requirements| && 0 <= i < |requirements| &&
        requirements[i].verified && !requirements[j].verified && requirements[j].id == requirements[i].id;
      k := j;
    }
  }
}
