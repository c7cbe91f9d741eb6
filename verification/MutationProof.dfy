/**
 The mutation proof: mutate one implementation file, run the cited test, restore the
 file; a citation is proven only when removing a control makes its test fail. Files
 are read and written as text, so a file survives exactly when it is valid UTF-8.
 */
module MutationProof {
  import opened Basics
  import opened Utf8

  type Disk = map<string, Bytes>

  datatype MutantKind = Removal | Diagnostic

  datatype Mutant = Mutant(kind: MutantKind, start: nat, end: nat, replacement: Text, line: nat, priority: nat)

  /** A mutant of one implementation file. */
  datatype Item = Item(path: string, original: Text, mutant: Mutant)

  datatype TestRun = Threw | Finished(ran: bool, passed: bool)

  /** The mutants of a file, and the test runner, whose answer depends on the files it sees and on
      how many runs came before. */
  datatype Tools = Tools(
    mutants: (string, Text) -> seq<Mutant>,
    run: (Disk, nat) -> TestRun)

  /** A splice of the replacement over [start, end). */
  function ApplyMutant(source: Text, m: Mutant): (r: Text)
    requires m.start <= m.end <= |source|
    ensures |r| == |source| - (m.end - m.start) + |m.replacement|
    ensures r[..m.start] == source[..m.start]
    ensures r[m.start..m.start + |m.replacement|] == m.replacement
    ensures r[m.start + |m.replacement|..] == source[m.end..]
  {
    source[..m.start] + m.replacement + source[m.end..]
  }

  /** Mutants come from the syntax tree of the text they are for. */
  ghost predicate InRange(tools: Tools) {
    forall path, text :: AllInRange(text, tools.mutants(path, text))
  }

  predicate AllInRange(text: Text, mutants: seq<Mutant>) {
    forall k | 0 <= k < |mutants| :: mutants[k].start <= mutants[k].end <= |text|
  }

  predicate ItemOk(item: Item) { item.mutant.start <= item.mutant.end <= |item.original| }

  function Mutated(item: Item): Text
    requires ItemOk(item)
  {
    ApplyMutant(item.original, item.mutant)
  }

  // ---------- The order of mutants ----------

  predicate Ordered(items: seq<Item>) {
    forall i, j | 0 <= i < j < |items| :: items[i].mutant.priority <= items[j].mutant.priority
  }

  /** Insertion before the first item of a strictly higher priority, which keeps the sort stable. */
  function InsertByPriority(item: Item, items: seq<Item>): seq<Item> {
    if items == [] || item.mutant.priority <= items[0].mutant.priority then [item] + items
    else [items[0]] + InsertByPriority(item, items[1..])
  }

  function SortByPriority(items: seq<Item>): seq<Item> {
    if items == [] then [] else InsertByPriority(items[0], SortByPriority(items[1..]))
  }

  function OfKind(items: seq<Item>, kind: MutantKind): seq<Item> {
    if items == [] then []
    else (if items[0].mutant.kind == kind then [items[0]] else []) + OfKind(items[1..], kind)
  }

  function Take(items: seq<Item>, n: nat): (r: seq<Item>)
    ensures r <= items && |r| <= n && (r == items || |r| == n)
  {
    if |items| <= n then items else items[..n]
  }

  lemma {:induction false} InsertPermutes(item: Item, items: seq<Item>)
    ensures multiset(InsertByPriority(item, items)) == multiset([item]) + multiset(items)
  {
    if items != [] && item.mutant.priority > items[0].mutant.priority {
      InsertPermutes(item, items[1..]);
      assert items == [items[0]] + items[1..];
    }
  }

  lemma InsertMember(item: Item, items: seq<Item>, x: Item)
    requires x in InsertByPriority(item, items)
    ensures x == item || x in items
  {
    InsertPermutes(item, items);
    assert x in multiset(InsertByPriority(item, items));
  }

  predicate AtLeast(items: seq<Item>, priority: nat) {
    forall k | 0 <= k < |items| :: priority <= items[k].mutant.priority
  }

  lemma ConsOrdered(first: Item, rest: seq<Item>)
    requires Ordered(rest) && AtLeast(rest, first.mutant.priority)
    ensures Ordered([first] + rest)
  {
  }

  lemma {:induction false} InsertKeepsOrder(item: Item, items: seq<Item>)
    requires Ordered(items)
    ensures Ordered(InsertByPriority(item, items))
  {
    hide Ordered;
    if items != [] {
      TailOrdered(items);
      if item.mutant.priority > items[0].mutant.priority {
        var rest := InsertByPriority(item, items[1..]);
        InsertKeepsOrder(item, items[1..]);
        forall k | 0 <= k < |rest| ensures items[0].mutant.priority <= rest[k].mutant.priority {
          InsertMember(item, items[1..], rest[k]);
        }
        ConsOrdered(items[0], rest);
      } else {
        ConsOrdered(item, items);
      }
    } else {
      ConsOrdered(item, items);
    }
  }

  lemma TailOrdered(items: seq<Item>)
    requires Ordered(items) && items != []
    ensures Ordered(items[1..]) && AtLeast(items[1..], items[0].mutant.priority)
      && AtLeast(items, items[0].mutant.priority)
  {
    assert forall k | 0 <= k < |items[1..]| :: items[1..][k] == items[k + 1];
  }

  /** The sort keeps every mutant and puts the lowest priorities first. */
  lemma {:induction false} SortSorts(items: seq<Item>)
    ensures Ordered(SortByPriority(items)) && multiset(SortByPriority(items)) == multiset(items)
  {
    if items != [] {
      SortSorts(items[1..]);
      InsertKeepsOrder(items[0], SortByPriority(items[1..]));
      InsertPermutes(items[0], SortByPriority(items[1..]));
      assert items == [items[0]] + items[1..];
    }
  }

  function OfPriority(items: seq<Item>, priority: nat): seq<Item> {
    if items == [] then []
    else (if items[0].mutant.priority == priority then [items[0]] else []) + OfPriority(items[1..], priority)
  }

  lemma FirstOfPriority(first: Item, rest: seq<Item>, priority: nat)
    ensures OfPriority([first] + rest, priority) ==
      (if first.mutant.priority == priority then [first] else []) + OfPriority(rest, priority)
  {
    assert ([first] + rest)[1..] == rest;
  }

  lemma {:induction false} InsertIsStable(item: Item, items: seq<Item>, priority: nat)
    ensures OfPriority(InsertByPriority(item, items), priority) ==
      (if item.mutant.priority == priority then [item] else []) + OfPriority(items, priority)
  {
    hide OfPriority;
    if items == [] || item.mutant.priority <= items[0].mutant.priority {
      FirstOfPriority(item, items, priority);
    } else {
      var rest := InsertByPriority(item, items[1..]);
      InsertIsStable(item, items[1..], priority);
      FirstOfPriority(items[0], rest, priority);
      FirstOfPriority(items[0], items[1..], priority);
      assert items == [items[0]] + items[1..];
    }
  }

  /** Mutants of one priority stay in the order in which they come. */
  lemma {:induction false} SortIsStable(items: seq<Item>, priority: nat)
    ensures OfPriority(SortByPriority(items), priority) == OfPriority(items, priority)
  {
    if items != [] {
      SortIsStable(items[1..], priority);
      InsertIsStable(items[0], SortByPriority(items[1..]), priority);
    }
  }

  /** The items tried: no mutant left out by the cap comes before one that is tried. */
  lemma CapKeepsLowestPriorities(items: seq<Item>, cap: nat, i: nat, j: nat)
    requires i < |Take(SortByPriority(items), cap)| <= j < |SortByPriority(items)|
    ensures Take(SortByPriority(items), cap)[i].mutant.priority <= SortByPriority(items)[j].mutant.priority
  {
    SortSorts(items);
  }

  function ItemsOf(path: string, original: Text, mutants: seq<Mutant>): (r: seq<Item>)
    ensures |r| == |mutants|
    ensures forall k | 0 <= k < |r| :: r[k] == Item(path, original, mutants[k])
  {
    seq(|mutants|, k requires 0 <= k < |mutants| => Item(path, original, mutants[k]))
  }

  /** The mutants of every implementation file, in file order. */
  function AllItems(tools: Tools, disk: Disk, files: seq<string>): seq<Item>
    requires forall k | 0 <= k < |files| :: files[k] in disk
  {
    if files == [] then []
    else
      var original := Decode(disk[files[0]]);
      ItemsOf(files[0], original, tools.mutants(files[0], original)) + AllItems(tools, disk, files[1..])
  }

  /** One more file adds its mutants at the end. */
  lemma {:induction false} OneMoreFile(tools: Tools, disk: Disk, files: seq<string>, file: string)
    requires file in disk && forall k | 0 <= k < |files| :: files[k] in disk
    ensures AllItems(tools, disk, files + [file]) ==
      AllItems(tools, disk, files) + ItemsOf(file, Decode(disk[file]), tools.mutants(file, Decode(disk[file])))
  {
    if files == [] {
      assert [file][1..] == [] && [] + [file] == [file];
    } else {
      OneMoreFile(tools, disk, files[1..], file);
      assert (files + [file])[1..] == files[1..] + [file];
    }
  }

  const DIAGNOSTIC_LIMIT := 8

  function Removals(tools: Tools, disk: Disk, files: seq<string>): seq<Item>
    requires forall k | 0 <= k < |files| :: files[k] in disk
  {
    SortByPriority(OfKind(AllItems(tools, disk, files), Removal))
  }

  function Diagnostics(tools: Tools, disk: Disk, files: seq<string>): seq<Item>
    requires forall k | 0 <= k < |files| :: files[k] in disk
  {
    SortByPriority(OfKind(AllItems(tools, disk, files), Diagnostic))
  }

  /** The item is a mutant, in range, of the text of one of the files. */
  predicate FromFile(disk: Disk, files: seq<string>, item: Item) {
    && item.path in files && item.path in disk
    && item.original == Decode(disk[item.path]) && ItemOk(item)
  }

  lemma {:induction false} AllItemsFromFiles(tools: Tools, disk: Disk, files: seq<string>, item: Item)
    requires InRange(tools) && (forall k | 0 <= k < |files| :: files[k] in disk) && item in AllItems(tools, disk, files)
    ensures FromFile(disk, files, item)
  {
    var original := Decode(disk[files[0]]);
    var mutants := tools.mutants(files[0], original);
    if item in ItemsOf(files[0], original, mutants) {
      assert AllInRange(original, mutants);
    } else {
      AllItemsFromFiles(tools, disk, files[1..], item);
    }
  }

  lemma {:induction false} OfKindKeeps(items: seq<Item>, kind: MutantKind, item: Item)
    ensures item in OfKind(items, kind) <==> item in items && item.mutant.kind == kind
  {
    if items != [] {
      OfKindKeeps(items[1..], kind, item);
      assert items == [items[0]] + items[1..];
    }
  }

  /** Exactly the mutants of a kind are candidates, each from its own file. */
  lemma Candidates(tools: Tools, disk: Disk, files: seq<string>, kind: MutantKind)
    requires InRange(tools) && forall k | 0 <= k < |files| :: files[k] in disk
    ensures forall item | item in SortByPriority(OfKind(AllItems(tools, disk, files), kind)) ::
      FromFile(disk, files, item) && item.mutant.kind == kind
  {
    var some := OfKind(AllItems(tools, disk, files), kind);
    SortSorts(some);
    forall item | item in SortByPriority(some) ensures FromFile(disk, files, item) && item.mutant.kind == kind {
      assert item in multiset(SortByPriority(some));
      OfKindKeeps(AllItems(tools, disk, files), kind, item);
      AllItemsFromFiles(tools, disk, files, item);
    }
  }

  // ---------- Mutate, run, restore ----------

  /** One test run of a mutant: what it saw and how it ended. */
  datatype Logged = Logged(saw: Disk, item: Item, result: TestRun)

  predicate Failed(run: TestRun) { run.Finished? && run.ran && !run.passed }

  datatype Verdict = Killed(item: Item) | Survived | Undetermined

  datatype Result = Exception | Judged(verdict: Verdict, tried: nat)

  /** The files after their text was read and written back. */
  function Recoded(disk: Disk, files: seq<string>): Disk {
    map path | path in disk :: if path in files then Encode(Decode(disk[path])) else disk[path]
  }

  /** Every one of the files is valid UTF-8. */
  predicate AllValid(disk: Disk, files: seq<string>) {
    forall path | path in files && path in disk :: ValidUtf8(disk[path])
  }

  /** Writing every file back leaves the disk as it was exactly when every implementation file is
      valid UTF-8. */
  lemma RestoredExactly(disk: Disk, files: seq<string>)
    ensures Recoded(disk, files) == disk <==> AllValid(disk, files)
  {
    hide Encode, Decode, ValidUtf8;
    forall path | path in disk ensures Encode(Decode(disk[path])) == disk[path] <==> ValidUtf8(disk[path]) {
      RoundTripsExactly(disk[path]);
    }
    if Recoded(disk, files) == disk {
      forall path | path in files && path in disk ensures ValidUtf8(disk[path]) {
        assert Recoded(disk, files)[path] == disk[path];
      }
    }
  }

  /** A file with one byte that is not UTF-8 comes back as three others, mutated or not. */
  lemma InvalidFileIsChanged(path: string)
    ensures Recoded(map[path := [0xFF]], [path]) == map[path := [0xEF, 0xBF, 0xBD]]
  {
    hide Encode, Decode, ValidUtf8;
    LoneByteIsReplaced();
    var disk: Disk := map[path := [0xFF]];
    assert Recoded(disk, [path]).Keys == {path};
  }

  /** Every file is as it was, or, if an implementation file, as its text encodes. */
  predicate Intact(before: Disk, files: seq<string>, disk: Disk) {
    && disk.Keys == before.Keys
    && forall path | path in before ::
      disk[path] == before[path] || (path in files && disk[path] == Encode(Decode(before[path])))
  }

  /** The run saw the original files with exactly this mutant spliced in. */
  predicate SawOneSplice(before: Disk, files: seq<string>, entry: Logged) {
    && FromFile(before, files, entry.item)
    && Mutated(entry.item) != entry.item.original
    && entry.item.path in entry.saw && entry.saw[entry.item.path] == Encode(Mutated(entry.item))
    && Intact(before, files, entry.saw[entry.item.path := before[entry.item.path]])
  }

  ghost predicate LogOk(before: Disk, files: seq<string>, log: seq<Logged>) {
    forall k | 0 <= k < |log| :: SawOneSplice(before, files, log[k])
  }

  /** The items whose mutant changes the text. */
  function Effective(items: seq<Item>): seq<Item> {
    if items == [] then []
    else
      var last := items[|items| - 1];
      Effective(items[..|items| - 1]) + if ItemOk(last) && Mutated(last) != last.original then [last] else []
  }

  function ItemsIn(log: seq<Logged>): (items: seq<Item>)
    ensures |items| == |log| && forall k | 0 <= k < |log| :: items[k] == log[k].item
  {
    seq(|log|, k requires 0 <= k < |log| => log[k].item)
  }

  /** The first `n` runs neither threw nor failed. */
  ghost predicate WentOn(log: seq<Logged>, n: nat)
    requires n <= |log|
  {
    forall k | 0 <= k < n :: log[k].result.Finished? && !Failed(log[k].result)
  }

  /** Every result is the runner's answer to what the run saw, the runs counted from `runs`. */
  ghost predicate Answered(tools: Tools, log: seq<Logged>, runs: nat) {
    forall k | 0 <= k < |log| :: log[k].result == tools.run(log[k].saw, runs + k)
  }

  class Workspace {
    var disk: Disk
    /** How often the test was run. */
    var runs: nat
    ghost var log: seq<Logged>

    constructor (disk: Disk)
      ensures this.disk == disk && runs == 0 && log == []
    {
      this.disk := disk;
      runs, log := 0, [];
    }

    /** Skips a mutant that changes nothing; otherwise writes it, runs the test, and writes the
        original text back, also when the runner throws. */
    method RunMutant(tools: Tools, item: Item) returns (skipped: bool, result: TestRun)
      requires ItemOk(item) && item.path in disk
      modifies this
      ensures skipped <==> Mutated(item) == item.original
      ensures skipped ==> disk == old(disk) && log == old(log) && runs == old(runs)
      ensures !skipped ==> disk == old(disk)[item.path := Encode(item.original)] && runs == old(runs) + 1
      ensures !skipped ==> log == old(log) + [Logged(old(disk)[item.path := Encode(Mutated(item))], item, result)]
      ensures !skipped ==> result == tools.run(old(disk)[item.path := Encode(Mutated(item))], old(runs))
    {
      var mutated := ApplyMutant(item.original, item.mutant);
      if mutated == item.original {
        return true, Finished(false, false);
      }
      disk := disk[item.path := Encode(mutated)];
      result := tools.run(disk, runs);
      log := log + [Logged(disk, item, result)];
      runs := runs + 1;
      disk := disk[item.path := Encode(item.original)];
      skipped := false;
    }

    /** Runs the items that change anything, in order, until a run fails or throws. */
    method RunAll(tools: Tools, ghost before: Disk, files: seq<string>, items: seq<Item>)
      returns (tried: nat, failure: Option<Item>, threw: bool)
      requires forall k | 0 <= k < |items| :: FromFile(before, files, items[k])
      requires Intact(before, files, disk) && LogOk(before, files, log)
      modifies this
      ensures Intact(before, files, disk) && LogOk(before, files, log)
      ensures old(log) <= log && runs - old(runs) == |log| - |old(log)|
      ensures Ran(tools, items, log[|old(log)|..], old(runs), failure, threw)
      ensures |log| == |old(log)| + tried + (if threw then 1 else 0)
    {
      hide Mutated, FromFile, Intact, SawOneSplice, LogOk, ItemOk, Encode, Decode, Effective, ItemsIn, Answered, WentOn;
      tried, failure, threw := 0, None, false;
      ghost var start := |log|;
      NothingRun(tools, items[..0], log[start..], runs);
      var i := 0;
      while i < |items|
        invariant i <= |items| && tried <= i
        invariant Intact(before, files, disk) && LogOk(before, files, log)
        invariant old(log) <= log && |log| == start + tried && start == |old(log)|
        invariant runs - old(runs) == |log| - start
        invariant WentOn(log[start..], tried) && Answered(tools, log[start..], old(runs))
        invariant ItemsIn(log[start..]) == Effective(items[..i])
      {
        ghost var disk0, log0 := disk, log;
        ItemReady(before, files, disk, items[i]);
        EffectiveStep(items, i);
        var skipped, result := RunMutant(tools, items[i]);
        if !skipped {
          LogsOneSplice(before, files, disk0, log0, items[i], log[|log0|]);
          assert log[start..] == log0[start..] + [log[|log0|]];
          OneMoreRun(tools, log0[start..], log[|log0|], old(runs));
          EffectiveStarts(items, i + 1);
          if result.Threw? {
            threw := true;
            return;
          }
          tried := tried + 1;
          if result.ran && !result.passed {
            failure := Some(items[i]);
            return;
          }
        }
        i := i + 1;
      }
      assert items[..i] == items;
    }

    /** Judges one citation. */
    method ProveCitation(tools: Tools, testExists: bool, files: seq<string>, cap: nat) returns (r: Result)
      requires InRange(tools) && log == [] && Distinct(files)
      requires forall k | 0 <= k < |files| :: files[k] in disk
      modifies this
      ensures disk == old(disk) || disk == Recoded(old(disk), files)
      ensures AllValid(old(disk), files) ==> disk == old(disk)
      ensures log != [] ==> (disk == old(disk) <==> AllValid(old(disk), files))
      ensures LogOk(old(disk), files, log) && Answered(tools, log, old(runs) + 1)
      ensures Meaning(tools, old(disk), old(runs), testExists, files, cap, log, r)
    {
      hide Recoded, AllValid, Intact, SawOneSplice, FromFile, Removals, Diagnostics, InRange, Effective, HasRemoval,
           LogOk, Ran, Take, WentOn;
      NothingRun(tools, [], log, old(runs) + 1);
      NothingLogged(disk, files);
      if !testExists || |files| == 0 {
        return Judged(Undetermined, 0);
      }
      var baseline := tools.run(disk, runs);
      runs := runs + 1;
      if baseline.Threw? {
        return Exception;
      }
      if !baseline.ran || !baseline.passed {
        return Judged(Undetermined, 0);
      }
      ghost var before := disk;
      var originals := disk;
      var removals, diagnostics := Removals(tools, disk, files), Diagnostics(tools, disk, files);
      RemovalsExactly(tools, disk, files);
      if |removals| == 0 {
        return Judged(Undetermined, 0);
      }
      PlansFromFiles(tools, disk, files, cap);
      IntactAtFirst(disk, files);
      var tried, killer, threw := RunAll(tools, before, files, Take(removals, cap));
      ghost var removalLog := log;
      assert log[0..] == log;
      r := Exception;
      RemovalsDecide(tools, before, old(runs), testExists, files, cap, log, killer, threw);
      if killer.Some? {
        r := Judged(Killed(killer.value), tried);
      } else if !threw {
        var more, executed, threwToo := RunAll(tools, before, files, Take(diagnostics, DIAGNOSTIC_LIMIT));
        assert log == removalLog + log[|removalLog|..];
        SurvivalIsJudged(tools, before, old(runs), testExists, files, cap, removalLog, log[|removalLog|..], executed,
          threwToo);
        if !threwToo {
          r := Judged(Survived, tried + more);
        }
      }
      RestoreAll(originals, files);
      RestoredExactly(before, files);
    }

    /** Writes the text of every file back. */
    method RestoreAll(originals: Disk, files: seq<string>)
      requires Intact(originals, files, disk) && forall k | 0 <= k < |files| :: files[k] in originals
      modifies this`disk
      ensures disk == Recoded(originals, files)
    {
      hide Encode, Decode;
      var i := 0;
      while i < |files|
        invariant i <= |files|
        invariant Intact(originals, files, disk)
        invariant forall k | 0 <= k < i :: disk[files[k]] == Encode(Decode(originals[files[k]]))
      {
        disk := disk[files[i] := Encode(Decode(originals[files[i]]))];
        i := i + 1;
      }
    }
  }

  /** The runs are those of the effective items, in order, up to the first that fails or throws. */
  ghost predicate Ran(
    tools: Tools, items: seq<Item>, log: seq<Logged>, runs: nat, failure: Option<Item>, threw: bool)
  {
    && ItemsIn(log) <= Effective(items) && Answered(tools, log, runs)
    && (if threw then failure.None? && log != [] && log[|log| - 1].result.Threw? && WentOn(log, |log| - 1)
        else if failure.Some? then
          && log != [] && failure == Some(log[|log| - 1].item) && Failed(log[|log| - 1].result)
          && WentOn(log, |log| - 1)
        else ItemsIn(log) == Effective(items) && WentOn(log, |log|))
  }

  /** The item is mutant `j` of file `i`, with the text it is for. */
  predicate MutantAt(tools: Tools, disk: Disk, files: seq<string>, i: nat, j: nat, item: Item)
    requires i < |files| && files[i] in disk
  {
    && j < |tools.mutants(files[i], Decode(disk[files[i]]))|
    && item == Item(files[i], Decode(disk[files[i]]), tools.mutants(files[i], Decode(disk[files[i]]))[j])
  }

  ghost predicate IsMutant(tools: Tools, disk: Disk, files: seq<string>, item: Item)
    requires forall k | 0 <= k < |files| :: files[k] in disk
  {
    exists i: nat, j: nat | i < |files| :: MutantAt(tools, disk, files, i, j, item)
  }

  /** Some implementation file has a control that can be removed. */
  ghost predicate HasRemoval(tools: Tools, disk: Disk, files: seq<string>)
    requires forall k | 0 <= k < |files| :: files[k] in disk
  {
    exists item :: IsMutant(tools, disk, files, item) && item.mutant.kind == Removal
  }

  /** What is judged. Without test, files or control, or unless the test is green before anything is mutated,
      nothing is mutated. Otherwise the removals within the cap are tried until one fails, and after them up
      to eight diagnostics until one fails. */
  ghost predicate Meaning(
    tools: Tools, disk: Disk, runs: nat, testExists: bool, files: seq<string>, cap: nat, log: seq<Logged>, r: Result)
    requires forall k | 0 <= k < |files| :: files[k] in disk
  {
    var baseline := tools.run(disk, runs);
    var removals, diagnostics :=
      Effective(Take(Removals(tools, disk, files), cap)), Effective(Take(Diagnostics(tools, disk, files), 8));
    if testExists && files != [] && baseline.Threw? then r == Exception && log == []
    else if !testExists || files == [] || baseline != Finished(true, true) || !HasRemoval(tools, disk, files) then
      r == Judged(Undetermined, 0) && log == []
    else
      match r
      case Exception =>
        && log != [] && log[|log| - 1].result.Threw? && WentOn(log, |log| - 1)
        && ItemsIn(log) <= removals + diagnostics
      case Judged(Killed(item), n) =>
        && n == |log| > 0 && ItemsIn(log) <= removals
        && log[n - 1].item == item && Failed(log[n - 1].result) && WentOn(log, n - 1)
      case Judged(Survived, n) =>
        && n == |log| >= |removals| && ItemsIn(log) <= removals + diagnostics && WentOn(log, |removals|)
        && (if n > |removals| && Failed(log[n - 1].result) then WentOn(log, n - 1)
            else WentOn(log, n) && n == |removals| + |diagnostics|)
      case Judged(Undetermined, n) => false
  }

  /** Only a test that is green at first kills or survives; nothing is determined exactly when there is nothing
      to run or remove or the test is not green; and an exception is one of the runs'. */
  lemma VerdictsExactly(
    tools: Tools, disk: Disk, runs: nat, testExists: bool, files: seq<string>, cap: nat, log: seq<Logged>, r: Result)
    requires forall k | 0 <= k < |files| :: files[k] in disk
    requires Meaning(tools, disk, runs, testExists, files, cap, log, r)
    ensures r.Judged? && !r.verdict.Undetermined? ==> tools.run(disk, runs) == Finished(true, true)
    ensures r == Exception <==>
      (testExists && files != [] && tools.run(disk, runs).Threw?) || exists k | 0 <= k < |log| :: log[k].result.Threw?
    ensures r.Judged? && r.verdict.Undetermined? <==>
      || !testExists || files == []
      || (tools.run(disk, runs).Finished? && tools.run(disk, runs) != Finished(true, true))
      || (tools.run(disk, runs) == Finished(true, true) && !HasRemoval(tools, disk, files))
  {
    hide HasRemoval, Effective, Take, Removals, Diagnostics;
  }

  lemma RemovalsDecide(
    tools: Tools, disk: Disk, runs: nat, testExists: bool, files: seq<string>, cap: nat, log: seq<Logged>,
    killer: Option<Item>, threw: bool)
    requires forall k | 0 <= k < |files| :: files[k] in disk
    requires testExists && files != [] && tools.run(disk, runs) == Finished(true, true)
    requires HasRemoval(tools, disk, files)
    requires Ran(tools, Take(Removals(tools, disk, files), cap), log, runs + 1, killer, threw)
    ensures killer.Some? ==>
      Meaning(tools, disk, runs, testExists, files, cap, log, Judged(Killed(killer.value), |log|))
    ensures threw ==> killer.None? && Meaning(tools, disk, runs, testExists, files, cap, log, Exception)
    ensures Answered(tools, log, runs + 1)
  {
    hide Effective, Take, Removals, Diagnostics, Answered, WentOn, HasRemoval;
    if threw {
      var removals, diagnostics :=
        Effective(Take(Removals(tools, disk, files), cap)), Effective(Take(Diagnostics(tools, disk, files), 8));
      assert removals <= removals + diagnostics;
    }
  }

  lemma SurvivalIsJudged(
    tools: Tools, disk: Disk, runs: nat, testExists: bool, files: seq<string>, cap: nat, first: seq<Logged>,
    second: seq<Logged>, executed: Option<Item>, threw: bool)
    requires forall k | 0 <= k < |files| :: files[k] in disk
    requires testExists && files != [] && tools.run(disk, runs) == Finished(true, true)
    requires HasRemoval(tools, disk, files)
    requires Ran(tools, Take(Removals(tools, disk, files), cap), first, runs + 1, None, false)
    requires Ran(tools, Take(Diagnostics(tools, disk, files), DIAGNOSTIC_LIMIT), second, runs + 1 + |first|, executed,
      threw)
    ensures var log := first + second;
      && Answered(tools, log, runs + 1)
      && Meaning(tools, disk, runs, testExists, files, cap, log,
           if threw then Exception else Judged(Survived, |log|))
  {
    hide Effective, Take, Removals, Diagnostics, HasRemoval, Answered, WentOn, ItemsIn, Failed;
    var log := first + second;
    AnsweredBoth(tools, first, second, runs + 1);
    ItemsOfBoth(first, second);
    assert second != [] ==> log[|log| - 1] == second[|second| - 1];
    if threw || executed.Some? {
      WentOnBoth(first, second, |second| - 1);
    } else {
      WentOnBoth(first, second, |second|);
    }
    WentOnFirst(first, second);
  }

  lemma AnsweredBoth(tools: Tools, first: seq<Logged>, second: seq<Logged>, runs: nat)
    requires Answered(tools, first, runs) && Answered(tools, second, runs + |first|)
    ensures Answered(tools, first + second, runs)
  {
    assert forall k | 0 <= k < |second| :: (first + second)[|first| + k] == second[k];
  }

  lemma ItemsOfBoth(first: seq<Logged>, second: seq<Logged>)
    ensures ItemsIn(first + second) == ItemsIn(first) + ItemsIn(second)
  {
  }

  lemma WentOnBoth(first: seq<Logged>, second: seq<Logged>, n: nat)
    requires n <= |second| && WentOn(first, |first|) && WentOn(second, n)
    ensures WentOn(first + second, |first| + n)
  {
    assert forall k | 0 <= k < |second| :: (first + second)[|first| + k] == second[k];
  }

  lemma WentOnFirst(first: seq<Logged>, second: seq<Logged>)
    requires WentOn(first, |first|)
    ensures WentOn(first + second, |first|)
  {
  }

  lemma {:induction false} AllItemsExactly(tools: Tools, disk: Disk, files: seq<string>, item: Item)
    requires forall k | 0 <= k < |files| :: files[k] in disk
    ensures item in AllItems(tools, disk, files) <==> IsMutant(tools, disk, files, item)
  {
    hide Decode;
    if files != [] {
      var rest, first := files[1..], ItemsOf(files[0], Decode(disk[files[0]]),
        tools.mutants(files[0], Decode(disk[files[0]])));
      AllItemsExactly(tools, disk, rest, item);
      if i: nat, j: nat :| i < |rest| && MutantAt(tools, disk, rest, i, j, item) {
        assert MutantAt(tools, disk, files, i + 1, j, item);
      }
      if i: nat, j: nat :| i < |files| && MutantAt(tools, disk, files, i, j, item) {
        if i > 0 {
          assert MutantAt(tools, disk, rest, i - 1, j, item);
        } else {
          assert first[j] == item;
        }
      }
      if item in first {
        var j :| 0 <= j < |first| && first[j] == item;
        assert MutantAt(tools, disk, files, 0, j, item);
      }
    }
  }

  /** The plan of a kind holds exactly the mutants of that kind, each with its file and text. */
  lemma PlanExactly(tools: Tools, disk: Disk, files: seq<string>, kind: MutantKind, item: Item)
    requires forall k | 0 <= k < |files| :: files[k] in disk
    ensures item in SortByPriority(OfKind(AllItems(tools, disk, files), kind)) <==>
      item.mutant.kind == kind && IsMutant(tools, disk, files, item)
  {
    hide Decode, SortByPriority, OfKind, AllItems, IsMutant;
    var all := AllItems(tools, disk, files);
    SortSorts(OfKind(all, kind));
    assert item in multiset(SortByPriority(OfKind(all, kind))) <==> item in multiset(OfKind(all, kind));
    OfKindKeeps(all, kind, item);
    AllItemsExactly(tools, disk, files, item);
  }

  lemma RemovalsExactly(tools: Tools, disk: Disk, files: seq<string>)
    requires forall k | 0 <= k < |files| :: files[k] in disk
    ensures Removals(tools, disk, files) != [] <==> HasRemoval(tools, disk, files)
  {
    hide Decode, SortByPriority, OfKind, AllItems, IsMutant;
    var removals := Removals(tools, disk, files);
    if removals != [] {
      PlanExactly(tools, disk, files, Removal, removals[0]);
    }
    if item :| IsMutant(tools, disk, files, item) && item.mutant.kind == Removal {
      PlanExactly(tools, disk, files, Removal, item);
    }
  }

  lemma PlansFromFiles(tools: Tools, disk: Disk, files: seq<string>, cap: nat)
    requires InRange(tools) && forall k | 0 <= k < |files| :: files[k] in disk
    ensures forall k | 0 <= k < |Take(Removals(tools, disk, files), cap)| ::
      FromFile(disk, files, Take(Removals(tools, disk, files), cap)[k])
    ensures forall k | 0 <= k < |Take(Diagnostics(tools, disk, files), DIAGNOSTIC_LIMIT)| ::
      FromFile(disk, files, Take(Diagnostics(tools, disk, files), DIAGNOSTIC_LIMIT)[k])
  {
    hide InRange, FromFile, SortByPriority, OfKind, AllItems;
    Candidates(tools, disk, files, Removal);
    Candidates(tools, disk, files, Diagnostic);
  }

  lemma ItemReady(before: Disk, files: seq<string>, disk: Disk, item: Item)
    requires FromFile(before, files, item) && Intact(before, files, disk)
    ensures ItemOk(item) && item.path in disk
  {
  }

  lemma IntactAtFirst(disk: Disk, files: seq<string>)
    ensures Intact(disk, files, disk)
  {
  }

  lemma LogsOneSplice(before: Disk, files: seq<string>, disk: Disk, log: seq<Logged>, item: Item, entry: Logged)
    requires FromFile(before, files, item) && Intact(before, files, disk) && Mutated(item) != item.original
    requires entry.item == item && entry.saw == disk[item.path := Encode(Mutated(item))]
    requires LogOk(before, files, log)
    ensures LogOk(before, files, log + [entry])
    ensures Intact(before, files, disk[item.path := Encode(item.original)])
  {
    hide Mutated, Encode, Decode;
  }

  lemma NothingRun(tools: Tools, items: seq<Item>, log: seq<Logged>, runs: nat)
    requires items == [] && log == []
    ensures ItemsIn(log) == Effective(items) && WentOn(log, 0) && Answered(tools, log, runs)
  {
  }

  lemma NothingLogged(before: Disk, files: seq<string>)
    ensures LogOk(before, files, [])
  {
  }

  lemma OneMoreRun(tools: Tools, log: seq<Logged>, entry: Logged, runs: nat)
    requires Answered(tools, log, runs) && WentOn(log, |log|) && entry.result == tools.run(entry.saw, runs + |log|)
    ensures Answered(tools, log + [entry], runs) && ItemsIn(log + [entry]) == ItemsIn(log) + [entry.item]
    ensures WentOn(log + [entry], |log|)
    ensures entry.result.Finished? && !Failed(entry.result) ==> WentOn(log + [entry], |log| + 1)
  {
  }

  lemma EffectiveStep(items: seq<Item>, i: nat)
    requires i < |items|
    ensures Effective(items[..i + 1]) == Effective(items[..i]) +
      if ItemOk(items[i]) && Mutated(items[i]) != items[i].original then [items[i]] else []
  {
    hide Mutated, ItemOk;
    assert items[..i + 1][..i] == items[..i] && items[..i + 1][i] == items[i];
  }

  lemma {:induction false} EffectiveStarts(items: seq<Item>, n: nat)
    requires n <= |items|
    ensures Effective(items[..n]) <= Effective(items)
    decreases |items| - n
  {
    hide Effective;
    if n < |items| {
      EffectiveStep(items, n);
      EffectiveStarts(items, n + 1);
    } else {
      assert items[..n] == items;
    }
  }

  /** When every implementation file is valid UTF-8, a mutant run saw the very original disk but for
      the one spliced file. */
  lemma SpliceIsOnlyChange(before: Disk, files: seq<string>, entry: Logged)
    requires AllValid(before, files) && SawOneSplice(before, files, entry)
    ensures entry.saw == before[entry.item.path := Encode(Mutated(entry.item))]
  {
    hide Mutated, Encode, Decode, ValidUtf8;
    forall path | path in before ensures ValidUtf8(before[path]) ==> Encode(Decode(before[path])) == before[path] {
      RoundTripsExactly(before[path]);
    }
    var path := entry.item.path;
    forall p | p in entry.saw ensures p in before && (p != path ==> entry.saw[p] == before[p]) {
      assert p in entry.saw[path := before[path]];
    }
    assert forall p | p in before :: p in entry.saw[path := before[path]];
  }

  // ---------- The seeded sample ----------

  const MAX_STATE := 0xffff_ffff

  function FirstState(seed: int): nat {
    var s := seed % 0x1_0000_0000;
    if s == 0 then 1 else s
  }

  function NextState(state: nat): nat { (state * 1664525 + 1013904223) % 0x1_0000_0000 }

  lemma LowBits(a: int, bits: int)
    ensures bits == a % 4_294_967_296 <==> 0 <= bits < 4_294_967_296 && (a - bits) % 4_294_967_296 == 0
  {
  }

  /** The low 32 bits of the seed, or one where they are zero; then the next 32 bits of a linear sequence. */
  lemma StatesExactly(seed: int, state: nat, next: nat)
    ensures FirstState(seed) == state <==>
      || (0 < state < 4_294_967_296 && (seed - state) % 4_294_967_296 == 0)
      || (state == 1 && (seed - 0) % 4_294_967_296 == 0)
    ensures NextState(state) == next <==>
      next < 4_294_967_296 && (1_664_525 * state + 1_013_904_223 - next) % 4_294_967_296 == 0
  {
    LowBits(seed, state);
    LowBits(seed, 0);
    LowBits(1_664_525 * state + 1_013_904_223, next);
  }

  const EPSILON: real := 1.0 / 9_007_199_254_740_992.0
  const MAX_LENGTH := 0xffff_ffff

  function Times(a: real, b: real): real { a * b }

  const GROWTH: real := 1.0 + EPSILON
  const BELOW_ONE: real := (MAX_STATE - 1) as real / MAX_STATE as real

  /** A quotient of states is zero or at least this, and so is its product with a length. */
  const SMALLEST: real := 1.0 / 8_589_934_592.0

  /** Rounding to doubles: exact on lengths, zero among them, and elsewhere between the smallest quotient
      and the largest length, where no double is subnormal, by a relative step upwards at most. */
  ghost predicate Rounds(round: real -> real) {
    && (forall x | SMALLEST <= x <= MAX_LENGTH as real :: SMALLEST <= round(x) <= Times(x, GROWTH))
    && (forall x | 0.0 <= x <= MAX_LENGTH as real && x == x.Floor as real :: round(x) == x)
  }

  /** The index drawn below `i + 1`, in rounded arithmetic. */
  function Draw(round: real -> real, state: nat, i: nat): int {
    round(Times(round(state as real / MAX_STATE as real), (i + 1) as real)).Floor
  }

  lemma Product(a: real, b: real, n: real)
    requires 0.0 <= a <= b && n >= 0.0
    ensures 0.0 <= Times(a, n) <= Times(b, n)
  {
  }

  lemma BelowTop(q: real, n: real)
    requires 0.0 <= q <= BELOW_ONE && n > 0.0
    ensures Times(Times(Times(q, GROWTH), n), GROWTH) < n
  {
    hide Times;
    Reorder(Times(q, GROWTH), n, GROWTH);
    Shrinking(q);
    Shrinks(Times(Times(q, GROWTH), GROWTH), n);
  }

  lemma Reorder(a: real, b: real, c: real)
    ensures Times(Times(a, b), c) == Times(Times(a, c), b)
  {
  }

  lemma Shrinking(q: real)
    requires 0.0 <= q <= BELOW_ONE
    ensures Times(Times(q, GROWTH), GROWTH) < 1.0
  {
    assert BELOW_ONE * GROWTH * GROWTH < 1.0;
  }

  lemma Shrinks(f: real, n: real)
    requires f < 1.0 && n > 0.0
    ensures Times(f, n) < n
  {
    assert (1.0 - f) * n > 0.0;
    assert (1.0 - f) * n == n - f * n;
  }

  lemma RoundedBelow(round: real -> real, q: real, n: real)
    requires Rounds(round) && 1.0 <= n <= MAX_LENGTH as real && (q == 0.0 || SMALLEST <= q) && q <= BELOW_ONE
    ensures 0.0 <= round(Times(round(q), n)) < n
  {
    hide Times, GROWTH, BELOW_ONE, SMALLEST;
    GrowthPositive();
    if q == 0.0 {
      ZeroTimes(n);
      assert round(0.0) == 0.0;
    } else {
      var a := round(q);
      BelowOneIsLength();
      Product(a, Times(q, GROWTH), n);
      Product(Times(a, n), Times(Times(q, GROWTH), n), GROWTH);
      BelowTop(q, n);
      Grows(Times(Times(q, GROWTH), n));
      AtLeastItself(a, n);
    }
  }

  lemma ZeroTimes(n: real)
    ensures Times(0.0, n) == 0.0
  {
  }

  lemma BelowOneIsLength()
    ensures SMALLEST > 0.0 && BELOW_ONE <= MAX_LENGTH as real
  {
  }

  lemma Grows(x: real)
    requires x >= 0.0
    ensures x <= Times(x, GROWTH)
  {
    assert x * EPSILON >= 0.0;
  }

  lemma AtLeastItself(a: real, n: real)
    requires a >= 0.0 && n >= 1.0
    ensures a <= Times(a, n)
  {
    assert a * (n - 1.0) >= 0.0;
  }

  lemma GrowthPositive()
    ensures GROWTH >= 0.0
  {
  }

  lemma Quotient(state: nat)
    requires state < MAX_STATE
    ensures state as real / MAX_STATE as real == 0.0 || SMALLEST <= state as real / MAX_STATE as real
    ensures state as real / MAX_STATE as real <= BELOW_ONE
  {
  }

  lemma FloorBelow(c: real, n: nat)
    requires 0.0 <= c < n as real
    ensures 0 <= c.Floor < n
  {
  }

  lemma TopQuotient(n: nat)
    ensures MAX_STATE as real / MAX_STATE as real == 1.0 && Times(1.0, n as real) == n as real && (n as real).Floor == n
  {
  }

  /** Rounding or not, only the top state draws one past the range. */
  lemma DrawBound(round: real -> real, state: nat, i: nat)
    requires Rounds(round) && state <= MAX_STATE && i + 1 <= MAX_LENGTH
    ensures 0 <= Draw(round, state, i) <= i + 1
    ensures Draw(round, state, i) == i + 1 <==> state == MAX_STATE
  {
    hide Times, BELOW_ONE, SMALLEST;
    var n := (i + 1) as real;
    if state == MAX_STATE {
      TopQuotient(1);
      TopQuotient(i + 1);
      assert round(1.0) == 1.0 && round(n) == n;
    } else {
      var q := state as real / MAX_STATE as real;
      Quotient(state);
      RoundedBelow(round, q, n);
      FloorBelow(round(Times(round(q), n)), i + 1);
    }
  }

  function Present<T>(items: seq<T>): (r: seq<Option<T>>)
    ensures |r| == |items| && forall k | 0 <= k < |r| :: r[k] == Some(items[k])
  {
    seq(|items|, k requires 0 <= k < |items| => Some(items[k]))
  }

  /** The two places exchanged; there is nothing to read past the end, and writing there adds a place. */
  function Exchanged<T>(s: seq<Option<T>>, i: nat, j: int): (r: seq<Option<T>>)
    requires i < |s|
    ensures |r| >= |s|
  {
    if 0 <= j < |s| then s[i := s[j]][j := s[i]] else s[i := None] + [s[i]]
  }

  /** Each place, from `i` down to the second, is exchanged with the one the next state draws. */
  ghost function Shuffled<T>(round: real -> real, s: seq<Option<T>>, state: nat, i: nat): seq<Option<T>>
    requires i < |s|
    decreases i
  {
    if i == 0 then s
    else
      var next := NextState(state);
      Shuffled(round, Exchanged(s, i, Draw(round, next, i)), next, i - 1)
  }

  lemma ShuffledStep<T>(round: real -> real, s: seq<Option<T>>, state: nat, i: nat)
    requires i < |s|
    ensures i == 0 ==> Shuffled(round, s, state, i) == s
    ensures i > 0 ==>
      var next := NextState(state);
      Shuffled(round, s, state, i) == Shuffled(round, Exchanged(s, i, Draw(round, next, i)), next, i - 1)
  {
    hide Draw, NextState, Exchanged;
  }

  lemma ExchangedAt<T>(s: seq<Option<T>>, i: nat, j: int)
    requires i < |s|
    ensures 0 <= j < |s| ==> Exchanged(s, i, j) == s[i := s[j]][j := s[i]]
    ensures j >= |s| ==> Exchanged(s, i, j) == s[i := None] + [s[i]]
  {
  }

  lemma SwapKeepsAll<T>(s: seq<Option<T>>, i: nat, j: nat)
    requires i < |s| && j < |s|
    ensures multiset(s[i := s[j]][j := s[i]]) == multiset(s)
  {
  }

  /** The shuffle. Writing one past the end adds a slot, and reading there gives `undefined`. It
      is a permutation exactly when the first state drawn is not the top one. */
  method Sample<T(==)>(round: real -> real, items: seq<T>, seed: int) returns (out: seq<Option<T>>)
    requires Rounds(round) && |items| <= MAX_LENGTH
    ensures multiset(out) == multiset(Present(items)) <==> |items| <= 1 || NextState(FirstState(seed)) != MAX_STATE
    ensures out == if items == [] then [] else Shuffled(round, Present(items), FirstState(seed), |items| - 1)
  {
    hide Draw, NextState, FirstState, Rounds, Shuffled, Exchanged;
    out := Present(items);
    if items == [] {
      return;
    }
    var state, i := FirstState(seed), |items| - 1;
    while i > 0
      invariant 0 <= i < |items| <= |out|
      invariant Shuffled(round, out, state, i) == Shuffled(round, Present(items), FirstState(seed), |items| - 1)
    {
      StateInRange(state);
      ShuffledStep(round, out, state, i);
      state := NextState(state);
      DrawBound(round, state, i);
      var j := Draw(round, state, i);
      ExchangedAt(out, i, j);
      if j < |out| {
        out := out[i := out[j]][j := out[i]];
      } else {
        out := out[i := None] + [out[i]];
      }
      i := i - 1;
    }
    ShuffledStep(round, out, state, 0);
    ShuffledExactly(round, Present(items), FirstState(seed), |items| - 1);
  }

  /** With a place to spare, every draw is in range. */
  lemma {:induction false} ShuffledKeeps<T>(round: real -> real, s: seq<Option<T>>, state: nat, i: nat)
    requires Rounds(round) && i + 1 <= MAX_LENGTH && i + 1 < |s|
    ensures multiset(Shuffled(round, s, state, i)) == multiset(s)
    decreases i
  {
    hide Draw, NextState, Rounds, Shuffled, Exchanged;
    ShuffledStep(round, s, state, i);
    if i > 0 {
      var next := NextState(state);
      StateInRange(state);
      DrawBound(round, next, i);
      ExchangedKeeps(s, i, Draw(round, next, i));
      ShuffledKeeps(round, Exchanged(s, i, Draw(round, next, i)), next, i - 1);
    }
  }

  lemma ShuffledExactly<T>(round: real -> real, s: seq<Option<T>>, state: nat, i: nat)
    requires Rounds(round) && i + 1 <= MAX_LENGTH && |s| == i + 1
    ensures multiset(Shuffled(round, s, state, i)) == multiset(s) <==> i == 0 || NextState(state) != MAX_STATE
  {
    hide Draw, NextState, Rounds, Shuffled, Exchanged;
    ShuffledStep(round, s, state, i);
    if i > 0 {
      var next := NextState(state);
      StateInRange(state);
      DrawBound(round, next, i);
      var after := Exchanged(s, i, Draw(round, next, i));
      ExchangedKeeps(s, i, Draw(round, next, i));
      ShuffledKeeps(round, after, next, i - 1);
      assert |multiset(after)| == |after| && |multiset(s)| == |s|;
    }
  }

  lemma ExchangedKeeps<T>(s: seq<Option<T>>, i: nat, j: nat)
    requires i < |s|
    ensures j < |s| ==> |Exchanged(s, i, j)| == |s| && multiset(Exchanged(s, i, j)) == multiset(s)
    ensures j >= |s| ==> |Exchanged(s, i, j)| == |s| + 1
  {
    if j < |s| {
      SwapKeepsAll(s, i, j);
    }
  }

  lemma StateInRange(state: nat)
    ensures NextState(state) <= MAX_STATE
  {
  }

  /** A seed for which the sample loses its last item to an empty slot. */
  lemma BadSeed()
    ensures NextState(FirstState(653637408)) == MAX_STATE
  {
  }
}
