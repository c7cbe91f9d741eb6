/**
 The evidence reachability check: which modules run, which names a cited file exports
 through cyclic `export *`, and when a citation is proven to rest on dead code.
 */
module Reachability {
  import opened Basics
  import opened Closures
  import Texts

  // ---------- The repository index ----------

  /** What parsing one file gives: import specifiers, the names its code uses anywhere but at
      their own declaration, the names it declares, its value exports and its `export *` specifiers,
      and for a test file the first-party value names it imports. */
  datatype FileInfo = FileInfo(
    isTest: bool,
    edges: seq<string>,
    uses: set<string>,
    declares: set<string>,
    exports: set<string>,
    stars: seq<string>,
    firstParty: bool,
    imports: set<string>)

  datatype Index = Index(
    files: map<string, FileInfo>,
    entries: seq<string>,
    resolve: (string, string) -> Option<string>)

  /** Specifiers that resolve to no path, or to the empty path, are skipped. */
  function Resolved(index: Index, from: string, specs: seq<string>): seq<string> {
    if specs == [] then []
    else
      var target := index.resolve(from, specs[0]);
      (if target.Some? && target.value != "" then [target.value] else []) + Resolved(index, from, specs[1..])
  }

  /** The modules a file imports; a path outside the index imports nothing. */
  function Imports(index: Index, rel: string): seq<string> {
    if rel in index.files then Resolved(index, rel, index.files[rel].edges) else []
  }

  /** The modules a file re-exports whole. */
  function StarTargets(index: Index, rel: string): seq<string> {
    if rel in index.files then Resolved(index, rel, index.files[rel].stars) else []
  }

  function ImportsOf(index: Index): Successors { rel => Imports(index, rel) }

  function StarsOf(index: Index): Successors { rel => StarTargets(index, rel) }

  // ---------- Imports and re-exports, said of the index alone ----------

  /** One of the specifiers resolves to the path. */
  predicate ResolveTo(index: Index, from: string, specs: seq<string>, to: string) {
    to != "" && exists k | 0 <= k < |specs| :: index.resolve(from, specs[k]) == Some(to)
  }

  predicate ImportsFile(index: Index, from: string, to: string) {
    from in index.files && ResolveTo(index, from, index.files[from].edges, to)
  }

  predicate ReExports(index: Index, from: string, to: string) {
    from in index.files && ResolveTo(index, from, index.files[from].stars, to)
  }

  /** Imports lead from an entry to the file. */
  ghost predicate IsLoaded(index: Index, rel: string) {
    exists p: seq<string> :: LoadedBy(index, p, rel)
  }

  ghost predicate LoadedBy(index: Index, p: seq<string>, rel: string) {
    && p != [] && p[0] in index.entries && p[|p| - 1] == rel
    && forall i, j | 0 <= i < j < |p| && j == i + 1 :: ImportsFile(index, p[i], p[j])
  }

  /** Whole re-exports lead from one file to the other. */
  ghost predicate Forwards(index: Index, from: string, to: string) {
    exists p: seq<string> :: ForwardedBy(index, p, from, to)
  }

  ghost predicate ForwardedBy(index: Index, p: seq<string>, from: string, to: string) {
    && p != [] && p[0] == from && p[|p| - 1] == to
    && forall i, j | 0 <= i < j < |p| && j == i + 1 :: ReExports(index, p[i], p[j])
  }

  lemma {:induction false} ResolvedExactly(index: Index, from: string, specs: seq<string>, to: string)
    ensures to in Resolved(index, from, specs) <==> ResolveTo(index, from, specs, to)
  {
    if specs != [] {
      ResolvedExactly(index, from, specs[1..], to);
      assert forall k | 0 < k < |specs| :: specs[1..][k - 1] == specs[k];
    }
  }

  lemma LoadedExactly(index: Index, rel: string)
    ensures ReachedFrom(ImportsOf(index), index.entries, rel) <==> IsLoaded(index, rel)
  {
    hide Resolved, ResolveTo;
    forall from, to ensures to in ImportsOf(index)(from) <==> ImportsFile(index, from, to) {
      if from in index.files {
        ResolvedExactly(index, from, index.files[from].edges, to);
      }
    }
    hide Imports, ImportsFile;
    if k :| 0 <= k < |index.entries| && Reaches(ImportsOf(index), index.entries[k], rel) {
      var p :| WalkBetween(ImportsOf(index), p, index.entries[k], rel);
      assert LoadedBy(index, p, rel);
    }
    if p :| LoadedBy(index, p, rel) {
      var k :| 0 <= k < |index.entries| && index.entries[k] == p[0];
      assert WalkBetween(ImportsOf(index), p, index.entries[k], rel);
    }
  }

  lemma ForwardsExactly(index: Index, from: string, to: string)
    ensures Reaches(StarsOf(index), from, to) <==> Forwards(index, from, to)
  {
    hide Resolved, ResolveTo;
    forall a, b ensures b in StarsOf(index)(a) <==> ReExports(index, a, b) {
      if a in index.files {
        ResolvedExactly(index, a, index.files[a].stars, b);
      }
    }
    hide StarTargets, ReExports;
    if p :| WalkBetween(StarsOf(index), p, from, to) {
      assert ForwardedBy(index, p, from, to);
    }
    if p :| ForwardedBy(index, p, from, to) {
      assert WalkBetween(StarsOf(index), p, from, to);
    }
  }

  // ---------- The modules that run ----------

  function AllTargets(index: Index): set<string> {
    set rel, k | rel in index.files && 0 <= k < |Imports(index, rel)| :: Imports(index, rel)[k]
  }

  /** Everything outside the work list has had its imports recorded. */
  ghost predicate Expanded(index: Index, reached: set<string>, queue: seq<string>) {
    forall rel | rel in reached && rel !in queue :: Includes(reached, Imports(index, rel))
  }

  /** Every recorded module is reached, and the work list and entries are recorded. */
  ghost predicate Recorded(index: Index, reached: set<string>, queue: seq<string>) {
    && (forall rel | rel in reached :: ReachedFrom(ImportsOf(index), index.entries, rel))
    && Includes(reached, queue) && Includes(reached, index.entries)
    && (forall rel | rel in reached :: rel in index.entries || rel in AllTargets(index))
  }

  lemma EntryIsReached(index: Index, k: nat)
    requires k < |index.entries|
    ensures ReachedFrom(ImportsOf(index), index.entries, index.entries[k])
  {
    ReachesItself(ImportsOf(index), index.entries[k]);
  }

  lemma ImportIsReached(index: Index, rel: string, k: nat)
    requires ReachedFrom(ImportsOf(index), index.entries, rel) && k < |Imports(index, rel)|
    ensures ReachedFrom(ImportsOf(index), index.entries, Imports(index, rel)[k])
    ensures Imports(index, rel)[k] in AllTargets(index)
  {
    var e :| 0 <= e < |index.entries| && Reaches(ImportsOf(index), index.entries[e], rel);
    ReachesFurther(ImportsOf(index), index.entries[e], rel, Imports(index, rel)[k]);
  }

  lemma ClosedIsAllReached(index: Index, reached: set<string>)
    requires Expanded(index, reached, []) && Includes(reached, index.entries)
    ensures forall rel | ReachedFrom(ImportsOf(index), index.entries, rel) :: rel in reached
  {
    assert Closed(ImportsOf(index), reached);
    forall rel | ReachedFrom(ImportsOf(index), index.entries, rel) ensures rel in reached {
      var e :| 0 <= e < |index.entries| && Reaches(ImportsOf(index), index.entries[e], rel);
      ClosedHoldsReachable(ImportsOf(index), reached, index.entries[e]);
    }
  }

  /** The work list of `current` put on it: new import targets only. */
  method PushImports(index: Index, current: string, reached0: set<string>, queue0: seq<string>)
    returns (reached: set<string>, queue: seq<string>)
    requires Recorded(index, reached0, queue0) && current in reached0
    requires forall rel | rel in reached0 && rel !in queue0 && rel != current :: Includes(reached0, Imports(index, rel))
    ensures Recorded(index, reached, queue) && Expanded(index, reached, queue)
    ensures reached0 <= reached && queue0 <= queue
    ensures reached == reached0 ==> queue == queue0
  {
    hide Imports, ReachedFrom, AllTargets;
    reached, queue := reached0, queue0;
    var targets := Imports(index, current);
    var i := 0;
    while i < |targets|
      invariant i <= |targets|
      invariant Recorded(index, reached, queue)
      invariant Includes(reached, targets[..i])
      invariant reached0 <= reached && queue0 <= queue
      invariant forall rel | rel in reached && rel !in queue && rel != current :: Includes(reached, Imports(index, rel))
      invariant reached == reached0 ==> queue == queue0
    {
      var target := targets[i];
      ImportIsReached(index, current, i);
      if target !in reached {
        reached := reached + {target};
        queue := queue + [target];
      }
      i := i + 1;
    }
    assert targets[..i] == targets;
  }

  /** The work-list search returns exactly the modules some entry leads to. */
  method ComputeReached(index: Index) returns (reached: set<string>)
    ensures forall rel :: rel in reached <==> IsLoaded(index, rel)
  {
    hide Imports, ReachedFrom, AllTargets, IsLoaded;
    reached := {};
    var i := 0;
    while i < |index.entries|
      invariant i <= |index.entries|
      invariant reached == set k | 0 <= k < i :: index.entries[k]
    {
      reached := reached + {index.entries[i]};
      i := i + 1;
    }
    var queue := index.entries;
    forall rel | rel in reached ensures ReachedFrom(ImportsOf(index), index.entries, rel) {
      var k :| 0 <= k < |index.entries| && index.entries[k] == rel;
      EntryIsReached(index, k);
    }
    ghost var universe := AllTargets(index) + (set k | 0 <= k < |index.entries| :: index.entries[k]);
    while queue != []
      invariant Recorded(index, reached, queue) && Expanded(index, reached, queue)
      decreases universe - reached, |queue|
    {
      var current := queue[|queue| - 1];
      var rest := queue[..|queue| - 1];
      ghost var before := reached;
      assert forall rel | rel in queue :: rel == current || rel in rest;
      reached, queue := PushImports(index, current, reached, rest);
      if reached != before {
        var added :| added in reached && added !in before;
        assert added in universe;
      }
    }
    ClosedIsAllReached(index, reached);
    forall rel ensures rel in reached <==> IsLoaded(index, rel) {
      LoadedExactly(index, rel);
    }
  }

  // ---------- The names a source file exports ----------

  /** The value names exported by the indexed files among `modules`. */
  function ExportedBy(index: Index, modules: set<string>): set<string> {
    set rel, name | rel in modules && rel in index.files && name in index.files[rel].exports :: name
  }

  lemma ExportedByUnion(index: Index, a: set<string>, b: set<string>)
    ensures ExportedBy(index, a + b) == ExportedBy(index, a) + ExportedBy(index, b)
  {
  }

  /** One walk over `export *`; `seen` is shared by all the recursive calls. */
  class ExportScan {
    const index: Index
    var seen: set<string>

    constructor (index: Index)
      ensures this.index == index && seen == {}
    {
      this.index := index;
      seen := {};
    }

    /** Adds to `seen` only modules `rel` leads to, and all their targets; returns their exports. */
    method Names(rel: string) returns (names: set<string>)
      modifies this`seen
      ensures old(seen) + {rel} <= seen
      ensures forall m | m in seen - old(seen) ::
        Reaches(StarsOf(index), rel, m) && Includes(seen, StarTargets(index, m))
      ensures names == ExportedBy(index, seen - old(seen))
      decreases index.files.Keys - seen
    {
      hide StarTargets, Reaches, ExportedBy;
      ghost var before := seen;
      if rel in seen {
        NoExports(index, seen - before);
        return {};
      }
      seen := seen + {rel};
      ReachesItself(StarsOf(index), rel);
      assert seen - before == {rel};
      OwnExports(index, rel);
      if rel !in index.files {
        return {};
      }
      names := index.files[rel].exports;
      var targets := StarTargets(index, rel);
      var i := 0;
      while i < |targets|
        invariant i <= |targets|
        invariant before + {rel} <= seen
        invariant Includes(seen, targets[..i])
        invariant forall m | m in seen - before :: Reaches(StarsOf(index), rel, m)
        invariant forall m | m in seen - before - {rel} :: Includes(seen, StarTargets(index, m))
        invariant names == ExportedBy(index, seen - before)
      {
        ghost var middle := seen;
        var more := Names(targets[i]);
        StarReaches(index, rel, i, seen - middle);
        ExportedByUnion(index, middle - before, seen - middle);
        assert (middle - before) + (seen - middle) == seen - before;
        names := names + more;
        i := i + 1;
      }
      assert targets[..i] == targets;
    }
  }

  lemma NoExports(index: Index, modules: set<string>)
    requires modules == {}
    ensures ExportedBy(index, modules) == {}
  {
  }

  lemma OwnExports(index: Index, rel: string)
    ensures ExportedBy(index, {rel}) == if rel in index.files then index.files[rel].exports else {}
    ensures rel !in index.files ==> StarTargets(index, rel) == []
  {
  }

  lemma StarReaches(index: Index, rel: string, i: nat, more: set<string>)
    requires i < |StarTargets(index, rel)|
    requires forall m | m in more :: Reaches(StarsOf(index), StarTargets(index, rel)[i], m)
    ensures forall m | m in more :: Reaches(StarsOf(index), rel, m)
  {
    hide Reaches;
    var target := StarTargets(index, rel)[i];
    ReachesItself(StarsOf(index), rel);
    ReachesFurther(StarsOf(index), rel, rel, target);
    forall m | m in more ensures Reaches(StarsOf(index), rel, m) {
      Transitive(StarsOf(index), rel, target, m);
    }
  }

  /** A name is exported when some module reached by `export *`, cycles included, exports it. */
  ghost predicate Exports(index: Index, rel: string, name: string) {
    exists m | m in index.files :: Forwards(index, rel, m) && name in index.files[m].exports
  }

  /** The names of a whole walk are exactly the exports of all the modules it can reach. */
  method SubjectSymbols(index: Index, rel: string) returns (names: set<string>)
    ensures forall name :: name in names <==> Exports(index, rel, name)
  {
    hide Reaches, StarTargets, Forwards;
    forall m ensures Reaches(StarsOf(index), rel, m) <==> Forwards(index, rel, m) {
      ForwardsExactly(index, rel, m);
    }
    var scan := new ExportScan(index);
    names := scan.Names(rel);
    assert Closed(StarsOf(index), scan.seen);
    ClosedHoldsReachable(StarsOf(index), scan.seen, rel);
  }

  // ---------- Verdicts ----------

  datatype Verdict = Live | Unreachable | NotDetermined

  /** The patterns that decide which citations can be traced at all. */
  datatype Checks = Checks(
    isNonSource: string -> bool,
    isSourcePath: string -> bool,
    drivesApplication: (string, string) -> bool)

  /** Evidence of the register names its requirement; the document catalog's names none. */
  datatype Citation = Citation(requirementId: Option<string>, kind: string, locator: string)

  datatype SymbolStatus = SymbolStatus(name: string, hasNonTestCaller: bool, entryTraced: bool)

  predicate IsSource(index: Index, rel: string) { rel in index.files && !index.files[rel].isTest }

  function CallerFiles(index: Index, name: string): set<string> {
    set rel | rel in index.files && IsSource(index, rel) && name in index.files[rel].uses
  }

  predicate DefinedInEntry(index: Index, name: string) {
    exists k | 0 <= k < |index.entries| ::
      IsSource(index, index.entries[k]) && name in index.files[index.entries[k]].declares
  }

  function AnalyzeSymbol(index: Index, reached: set<string>, name: string): SymbolStatus {
    var callers := CallerFiles(index, name);
    SymbolStatus(name,
                 callers != {} || DefinedInEntry(index, name),
                 DefinedInEntry(index, name) || callers * reached != {})
  }

  function VerdictFromSymbols(symbols: set<SymbolStatus>): Verdict {
    if exists s | s in symbols :: s.entryTraced then Live
    else if forall s | s in symbols :: !s.hasNonTestCaller then Unreachable
    else NotDetermined
  }

  function LocatorPath(locator: string): string { Texts.Split(locator, '#')[0] }

  /** The evidence can be traced: source of the index that is not run from outside, and as a test imports our own. */
  predicate Traceable(index: Index, checks: Checks, kind: string, rel: string) {
    && !checks.isNonSource(kind) && checks.isSourcePath(rel) && rel in index.files
    && !checks.drivesApplication(rel, kind)
    && (index.files[rel].isTest ==> index.files[rel].firstParty)
  }

  /** The file stands for this name: as a test it imports it, as a source it exports it. */
  ghost predicate StandsFor(index: Index, rel: string, name: string) {
    rel in index.files
      && if index.files[rel].isTest then name in index.files[rel].imports else Exports(index, rel, name)
  }

  ghost predicate Cites(index: Index, c: Citation, name: string) {
    exists rel :: Texts.StandsBefore(c.locator, '#', rel) && StandsFor(index, rel, name)
  }

  /** A file that is not a test uses the name. */
  predicate IsUsed(index: Index, name: string) {
    exists rel | rel in index.files :: !index.files[rel].isTest && name in index.files[rel].uses
  }

  /** An entry that is not a test declares the name. */
  predicate IsEntry(index: Index, name: string) {
    exists rel | rel in index.entries ::
      rel in index.files && !index.files[rel].isTest && name in index.files[rel].declares
  }

  predicate HasCaller(index: Index, name: string) { IsUsed(index, name) || IsEntry(index, name) }

  /** The name is declared by an entry, or used by a file, not a test, that imports lead to from an entry. */
  ghost predicate Traced(index: Index, name: string) {
    IsEntry(index, name) ||
    exists rel | rel in index.files ::
      !index.files[rel].isTest && name in index.files[rel].uses && IsLoaded(index, rel)
  }

  /** The citation names something, and no file but tests uses anything it names, and no entry declares it. */
  ghost predicate ProvenDead(index: Index, checks: Checks, c: Citation) {
    exists rel ::
      && Texts.StandsBefore(c.locator, '#', rel) && Traceable(index, checks, c.kind, rel)
      && (exists name :: StandsFor(index, rel, name))
      && forall name | StandsFor(index, rel, name) :: !IsUsed(index, name) && !IsEntry(index, name)
  }

  ghost predicate ProvenLive(index: Index, checks: Checks, c: Citation) {
    exists rel ::
      && Texts.StandsBefore(c.locator, '#', rel) && Traceable(index, checks, c.kind, rel)
      && exists name :: StandsFor(index, rel, name) && Traced(index, name)
  }

  lemma CallersExactly(index: Index, name: string)
    ensures CallerFiles(index, name) != {} <==> IsUsed(index, name)
    ensures DefinedInEntry(index, name) <==> IsEntry(index, name)
    ensures forall rel :: rel in CallerFiles(index, name) <==>
      rel in index.files && !index.files[rel].isTest && name in index.files[rel].uses
  {
    if IsEntry(index, name) {
      var rel :| rel in index.entries && rel in index.files && !index.files[rel].isTest
        && name in index.files[rel].declares;
      var k :| 0 <= k < |index.entries| && index.entries[k] == rel;
      assert IsSource(index, index.entries[k]);
    }
    if rel :| rel in index.files && !index.files[rel].isTest && name in index.files[rel].uses {
      assert rel in CallerFiles(index, name);
    }
    assert CallerFiles(index, name) != {} ==> exists rel :: rel in CallerFiles(index, name);
  }

  lemma StatusMeaning(index: Index, reached: set<string>, name: string)
    requires forall rel :: rel in reached <==> IsLoaded(index, rel)
    ensures var s := AnalyzeSymbol(index, reached, name);
      (s.entryTraced <==> Traced(index, name)) && (s.hasNonTestCaller <==> HasCaller(index, name))
      && (s.entryTraced ==> s.hasNonTestCaller)
  {
    CallersExactly(index, name);
    hide CallerFiles, DefinedInEntry, IsLoaded, IsUsed, IsEntry;
    var callers := CallerFiles(index, name);
    if callers * reached != {} {
      var rel :| rel in callers * reached;
      assert rel in callers;
    }
    forall rel | rel in callers && IsLoaded(index, rel) ensures callers * reached != {} {
      assert rel in callers * reached;
    }
  }

  /** The verdict over a file's names, given what each of their two flags means. */
  lemma VerdictMeaning(index: Index, reached: set<string>, names: set<string>)
    requires names != {} && forall rel :: rel in reached <==> IsLoaded(index, rel)
    ensures var verdict := VerdictFromSymbols(set name | name in names :: AnalyzeSymbol(index, reached, name));
      && (verdict == Unreachable <==> forall name | name in names :: !HasCaller(index, name))
      && (verdict == Live <==> exists name | name in names :: Traced(index, name))
  {
    hide AnalyzeSymbol, HasCaller, Traced, IsLoaded;
    var symbols := set name | name in names :: AnalyzeSymbol(index, reached, name);
    forall name ensures
      var s := AnalyzeSymbol(index, reached, name);
      (s.entryTraced <==> Traced(index, name)) && (s.hasNonTestCaller <==> HasCaller(index, name))
      && (s.entryTraced ==> s.hasNonTestCaller)
    {
      StatusMeaning(index, reached, name);
    }
    var witness_ :| witness_ in names;
    assert forall name | name in names :: AnalyzeSymbol(index, reached, name) in symbols;
  }

  lemma LocatedMeaning(index: Index, checks: Checks, c: Citation, rel: string)
    requires forall other :: Texts.StandsBefore(c.locator, '#', other) <==> other == rel
    ensures ProvenDead(index, checks, c) <==>
      && Traceable(index, checks, c.kind, rel) && (exists name :: StandsFor(index, rel, name))
      && forall name | StandsFor(index, rel, name) :: !HasCaller(index, name)
    ensures ProvenLive(index, checks, c) <==>
      Traceable(index, checks, c.kind, rel) && exists name :: StandsFor(index, rel, name) && Traced(index, name)
  {
    hide Texts.StandsBefore, Traceable, StandsFor, IsUsed, IsEntry, Traced;
    assert Texts.StandsBefore(c.locator, '#', rel);
  }

  /** A citation is proven dead exactly when it names something and no file but tests uses anything it names
      and no entry declares it, and live exactly when one of its names is declared by an entry or used by a
      file that imports lead to from an entry. */
  method AnalyzeCitation(index: Index, checks: Checks, reached: set<string>, c: Citation) returns (verdict: Verdict)
    requires forall rel :: rel in reached <==> IsLoaded(index, rel)
    ensures verdict == Unreachable <==> ProvenDead(index, checks, c)
    ensures verdict == Live <==> ProvenLive(index, checks, c)
  {
    hide IsLoaded, Exports, Texts.StandsBefore, AnalyzeSymbol, IsUsed, IsEntry, Traced, VerdictFromSymbols;
    var rel := LocatorPath(c.locator);
    forall other ensures Texts.StandsBefore(c.locator, '#', other) <==> other == rel {
      Texts.StandsBeforeExactly(c.locator, '#', other);
    }
    LocatedMeaning(index, checks, c, rel);
    hide ProvenDead, ProvenLive, HasCaller;
    if checks.isNonSource(c.kind) || !checks.isSourcePath(rel) || rel !in index.files
       || checks.drivesApplication(rel, c.kind) {
      return NotDetermined;
    }
    var names;
    if index.files[rel].isTest {
      if !index.files[rel].firstParty {
        return NotDetermined;
      }
      names := index.files[rel].imports;
    } else {
      names := SubjectSymbols(index, rel);
    }
    assert forall name :: name in names <==> StandsFor(index, rel, name);
    if names == {} {
      return NotDetermined;
    }
    var witness_ :| witness_ in names;
    var symbols := set name | name in names :: AnalyzeSymbol(index, reached, name);
    verdict := VerdictFromSymbols(symbols);
    VerdictMeaning(index, reached, names);
  }

  // ---------- An unreachable verdict is sound ----------

  /** A named declaration of a module. */
  datatype Element = Element(rel: string, name: string)

  /** Which declarations' code uses which others. */
  type Usage = (Element, Element) -> bool

  /** Every use stands in the text of a file that is not a test, under the used declaration's own name. */
  ghost predicate ContainedInText(index: Index, usage: Usage) {
    forall a, b | usage(a, b) :: IsSource(index, a.rel) && b.name in index.files[a.rel].uses
  }

  /** A chain of uses from a declaration of an entry module. */
  ghost predicate RunsBy(index: Index, usage: Usage, chain: seq<Element>, e: Element) {
    && chain != [] && chain[|chain| - 1] == e
    && chain[0].rel in index.entries && chain[0].rel in index.files
      && chain[0].name in index.files[chain[0].rel].declares
    && forall i, j | 0 <= i < j < |chain| && j == i + 1 :: usage(chain[i], chain[j])
  }

  /** The index lists only source files as entries. */
  predicate EntriesAreSources(index: Index) {
    forall k | 0 <= k < |index.entries| :: IsSource(index, index.entries[k])
  }

  /** Some chain of uses from an entry module ends in the declaration. */
  ghost predicate Runs(index: Index, usage: Usage, e: Element) {
    exists chain :: RunsBy(index, usage, chain, e)
  }

  lemma RunningNeedsCaller(index: Index, usage: Usage, e: Element)
    requires EntriesAreSources(index) && ContainedInText(index, usage)
    ensures Runs(index, usage, e) ==> HasCaller(index, e.name)
  {
    if chain :| RunsBy(index, usage, chain, e) {
      if |chain| == 1 {
        var k :| 0 <= k < |index.entries| && index.entries[k] == e.rel;
        assert IsEntry(index, e.name);
      } else {
        var user := chain[|chain| - 2];
        assert usage(user, e);
        assert IsUsed(index, e.name);
      }
    }
  }

  /** Whatever the code's true uses are, nothing an unreachable citation rests on can run. */
  lemma UnreachableIsSound(index: Index, checks: Checks, c: Citation, usage: Usage)
    requires EntriesAreSources(index) && ContainedInText(index, usage) && ProvenDead(index, checks, c)
    ensures forall e: Element | Cites(index, c, e.name) :: !Runs(index, usage, e)
  {
    hide Traceable, StandsFor, Runs, IsUsed, IsEntry, Texts.StandsBefore;
    var rel :| Texts.StandsBefore(c.locator, '#', rel) && Traceable(index, checks, c.kind, rel)
      && (exists name :: StandsFor(index, rel, name))
      && forall name | StandsFor(index, rel, name) :: !IsUsed(index, name) && !IsEntry(index, name);
    forall e: Element | Cites(index, c, e.name) ensures !Runs(index, usage, e) {
      var other :| Texts.StandsBefore(c.locator, '#', other) && StandsFor(index, other, e.name);
      Texts.StandsBeforeExactly(c.locator, '#', rel);
      Texts.StandsBeforeExactly(c.locator, '#', other);
      RunningNeedsCaller(index, usage, e);
    }
  }

  // ---------- The strict gate ----------

  datatype Evidence = Evidence(kind: string, locator: string)

  datatype Requirement = Requirement(id: string, verified: bool, evidence: seq<Evidence>)

  function Cited(id: string, evidence: seq<Evidence>): (r: seq<Citation>)
    ensures |r| == |evidence|
    ensures forall k | 0 <= k < |r| :: r[k] == Citation(Some(id), evidence[k].kind, evidence[k].locator)
  {
    seq(|evidence|, k requires 0 <= k < |evidence| => Citation(Some(id), evidence[k].kind, evidence[k].locator))
  }

  function RegisterCitations(requirements: seq<Requirement>): seq<Citation> {
    if requirements == [] then []
    else Cited(requirements[0].id, requirements[0].evidence) + RegisterCitations(requirements[1..])
  }

  /** The verdicts grouped under one requirement id; an empty id groups nothing. */
  function Listed(citations: seq<Citation>, verdicts: seq<Verdict>, id: string): seq<Verdict>
    requires |citations| == |verdicts|
  {
    if citations == [] then []
    else
      var last := |citations| - 1;
      Listed(citations[..last], verdicts[..last], id) +
      if citations[last].requirementId == Some(id) && id != "" then [verdicts[last]] else []
  }

  ghost predicate CitesUnreachable(index: Index, checks: Checks, citations: seq<Citation>, id: string) {
    id != "" && exists k | 0 <= k < |citations| ::
      citations[k].requirementId == Some(id) && ProvenDead(index, checks, citations[k])
  }

  lemma {:induction false} ListedHas(citations: seq<Citation>, verdicts: seq<Verdict>, id: string, v: Verdict)
    requires |citations| == |verdicts|
    ensures v in Listed(citations, verdicts, id) <==>
      id != "" && exists k | 0 <= k < |citations| :: citations[k].requirementId == Some(id) && verdicts[k] == v
  {
    if citations != [] {
      var last := |citations| - 1;
      ListedHas(citations[..last], verdicts[..last], id, v);
      assert forall k | 0 <= k < last :: citations[..last][k] == citations[k] && verdicts[..last][k] == verdicts[k];
    }
  }

  function Group(byRequirement: map<string, seq<Verdict>>, id: string): seq<Verdict> {
    if id in byRequirement then byRequirement[id] else []
  }

  /** Groups the verdicts of register citations by requirement id. */
  method GroupVerdicts(citations: seq<Citation>, verdicts: seq<Verdict>) returns (groups: map<string, seq<Verdict>>)
    requires |citations| == |verdicts|
    ensures forall id :: Group(groups, id) == Listed(citations, verdicts, id)
  {
    groups := map[];
    var i := 0;
    while i < |citations|
      invariant i <= |citations|
      invariant forall id :: Group(groups, id) == Listed(citations[..i], verdicts[..i], id)
    {
      var c := citations[i];
      ghost var before := groups;
      if c.requirementId.Some? && c.requirementId.value != "" {
        var id := c.requirementId.value;
        groups := groups[id := Group(groups, id) + [verdicts[i]]];
      }
      assert citations[..i + 1][..i] == citations[..i] && verdicts[..i + 1][..i] == verdicts[..i];
      forall id ensures Group(groups, id) == Listed(citations[..i + 1], verdicts[..i + 1], id) {
        assert Group(before, id) == Listed(citations[..i], verdicts[..i], id);
      }
      i := i + 1;
    }
    assert citations[..i] == citations && verdicts[..i] == verdicts;
  }

  method AnalyzeAll(index: Index, checks: Checks, citations: seq<Citation>) returns (verdicts: seq<Verdict>)
    ensures |verdicts| == |citations|
    ensures forall k | 0 <= k < |citations| :: verdicts[k] == Unreachable <==> ProvenDead(index, checks, citations[k])
    ensures forall k | 0 <= k < |citations| :: verdicts[k] == Live <==> ProvenLive(index, checks, citations[k])
  {
    hide ProvenDead, ProvenLive, IsLoaded;
    var reached := ComputeReached(index);
    verdicts := [];
    while |verdicts| < |citations|
      invariant |verdicts| <= |citations|
      invariant forall k | 0 <= k < |verdicts| :: verdicts[k] == Unreachable <==>
        ProvenDead(index, checks, citations[k])
      invariant forall k | 0 <= k < |verdicts| :: verdicts[k] == Live <==> ProvenLive(index, checks, citations[k])
    {
      var verdict := AnalyzeCitation(index, checks, reached, citations[|verdicts|]);
      verdicts := verdicts + [verdict];
    }
  }

  /** The strict gate: the verified requirements citing proven-dead code, in order. */
  method EvaluateStrictGate(index: Index, checks: Checks, requirements: seq<Requirement>, catalog: seq<Citation>)
    returns (blockers: seq<string>, failed: bool)
    requires forall k | 0 <= k < |catalog| :: catalog[k].requirementId.None?
    ensures failed <==> exists k | 0 <= k < |requirements| :: Blocks(index, checks, requirements, k)
    ensures blockers == BlockedIds(index, checks, requirements, |requirements|)
  {
    hide ProvenDead, ProvenLive, Listed, RegisterCitations, Blocks;
    var register := RegisterCitations(requirements);
    var citations := register + catalog;
    var verdicts := AnalyzeAll(index, checks, citations);
    var groups := GroupVerdicts(citations, verdicts);
    blockers := [];
    var i := 0;
    while i < |requirements|
      invariant i <= |requirements|
      invariant blockers == BlockedIds(index, checks, requirements, i)
      invariant blockers != [] <==> exists k | 0 <= k < i :: Blocks(index, checks, requirements, k)
    {
      var id := requirements[i].id;
      ListedHas(citations, verdicts, id, Unreachable);
      BlocksMeans(index, checks, requirements, catalog, i);
      if requirements[i].verified && Unreachable in Group(groups, id) {
        blockers := blockers + [id];
      }
      i := i + 1;
    }
    failed := |blockers| > 0;
  }

  /** The ids of the requirements that block, among the first `n`, in order. */
  ghost function BlockedIds(index: Index, checks: Checks, requirements: seq<Requirement>, n: nat): seq<string>
    requires n <= |requirements|
  {
    if n == 0 then []
    else
      BlockedIds(index, checks, requirements, n - 1) +
      if Blocks(index, checks, requirements, n - 1) then [requirements[n - 1].id] else []
  }

  /** Requirement `k` is verified, has an id, and evidence under that id is proven dead. */
  ghost predicate Blocks(index: Index, checks: Checks, requirements: seq<Requirement>, k: nat)
    requires k < |requirements|
  {
    requirements[k].verified && requirements[k].id != "" &&
    exists j, i | 0 <= j < |requirements| && 0 <= i < |requirements[j].evidence| ::
      requirements[j].id == requirements[k].id
      && ProvenDead(index, checks, Cited(requirements[j].id, requirements[j].evidence)[i])
  }

  lemma {:induction false} RegisterHas(requirements: seq<Requirement>, c: Citation)
    ensures c in RegisterCitations(requirements) <==>
      exists j | 0 <= j < |requirements| :: c in Cited(requirements[j].id, requirements[j].evidence)
  {
    hide Cited;
    if requirements != [] {
      var rest := requirements[1..];
      RegisterHas(rest, c);
      assert forall j | 0 <= j < |rest| :: rest[j] == requirements[j + 1];
      if j :| 0 <= j < |requirements| && c in Cited(requirements[j].id, requirements[j].evidence) {
        if j > 0 {
          assert c in Cited(rest[j - 1].id, rest[j - 1].evidence);
        }
      }
    }
  }

  lemma BlocksMeans(index: Index, checks: Checks, requirements: seq<Requirement>, catalog: seq<Citation>, k: nat)
    requires k < |requirements| && forall i | 0 <= i < |catalog| :: catalog[i].requirementId.None?
    ensures Blocks(index, checks, requirements, k) <==>
      requirements[k].verified
        && CitesUnreachable(index, checks, RegisterCitations(requirements) + catalog, requirements[k].id)
  {
    hide ProvenDead, RegisterCitations;
    var id, citations := requirements[k].id, RegisterCitations(requirements) + catalog;
    if Blocks(index, checks, requirements, k) {
      var j, i :| 0 <= j < |requirements| && 0 <= i < |requirements[j].evidence| && requirements[j].id == id
        && ProvenDead(index, checks, Cited(requirements[j].id, requirements[j].evidence)[i]);
      var c := Cited(requirements[j].id, requirements[j].evidence)[i];
      RegisterHas(requirements, c);
      var at :| 0 <= at < |RegisterCitations(requirements)| && RegisterCitations(requirements)[at] == c;
      assert citations[at] == c;
    }
    if CitesUnreachable(index, checks, citations, id) {
      var at :| 0 <= at < |citations| && citations[at].requirementId == Some(id)
        && ProvenDead(index, checks, citations[at]);
      var c := citations[at];
      assert c in RegisterCitations(requirements);
      RegisterHas(requirements, c);
      var j :| 0 <= j < |requirements| && c in Cited(requirements[j].id, requirements[j].evidence);
      var i :| 0 <= i < |requirements[j].evidence| && Cited(requirements[j].id, requirements[j].evidence)[i] == c;
    }
  }
}
