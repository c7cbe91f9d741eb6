/**
 Links between release-train records: supersession declared from both ends,
 requirement/pull-request and requirement/issue references declared from both
 ends, and which dependencies an accepted matrix discharges.
 */
module ReleaseTrain {
  import opened Basics

  datatype PrState = Open | Merged | Closed

  datatype PullRequest = PullRequest(
    number: int,
    state: PrState,
    checksGreen: bool,
    supersededBy: Option<int>,
    supersedes: seq<int>,
    dependencies: seq<int>,
    requirementIds: seq<string>)

  datatype Row = Row(requirementId: string, issues: seq<int>, pullRequests: seq<int>)

  datatype IssueRecord = IssueRecord(number: int, requirementIds: seq<string>)

  /** The pull request under judgement as the matrix declares it. */
  datatype Bootstrap = Bootstrap(number: int, requirementIds: seq<string>)

  datatype Matrix = Matrix(
    prs: map<int, PullRequest>,
    rows: map<string, Row>,
    issues: map<int, IssueRecord>,
    bootstrap: Option<Bootstrap>,
    bootstrapNumber: Option<int>)

  datatype MatrixIssue =
    | SupersededByInvalid(number: int)
    | SupersedesInvalid(number: int)
    | DependencyUntracked(number: int, dependency: int)
    | DependencyUnsatisfied(number: int, dependency: int)
    | IssueReference(row: string, issue: int)
    | IssueAuthorityMissing(row: string, issue: int)
    | IssueRequirementMismatch(row: string, issue: int)
    | PrReference(row: string, number: int)
    | PrNotInReleaseTrain(row: string, number: int)
    | PrRequirementMismatch(row: string, number: int)

  /** The maps are keyed by each record's own number or id; only positive pull request numbers are tracked. */
  predicate Keyed(m: Matrix) {
    && (forall n | n in m.prs :: m.prs[n].number == n && n >= 1)
    && (forall id | id in m.rows :: m.rows[id].requirementId == id)
    && (forall n | n in m.issues :: m.issues[n].number == n)
  }

  lemma Position(numbers: seq<int>, all: set<int>, n: int) returns (k: nat)
    requires Enumerates(numbers, all) && n in all
    ensures k < |numbers| && numbers[k] == n
  {
    k :| 0 <= k < |numbers| && numbers[k] == n;
  }

  // ---------- Supersession ----------

  /** The closed record's work was landed by a merged record that lists it. */
  predicate SupersededByMerged(prs: map<int, PullRequest>, record: PullRequest) {
    && record.supersededBy.Some?
    && record.supersededBy.value >= 1
    && record.state == Closed
    && record.supersededBy.value in prs
    && var superseder := prs[record.supersededBy.value];
       && superseder.number != record.number
       && superseder.state == Merged
       && superseder.supersededBy.None?
       && record.number in superseder.supersedes
  }

  predicate SupersededByBroken(prs: map<int, PullRequest>, record: PullRequest) {
    record.supersededBy.Some? && !SupersededByMerged(prs, record)
  }

  /** One entry of a `supersedes` list, given the entries before it. */
  predicate EntryCoherent(prs: map<int, PullRequest>, record: PullRequest, k: nat)
    requires k < |record.supersedes|
  {
    var number := record.supersedes[k];
    && number >= 1
    && number != record.number
    && number !in record.supersedes[..k]
    && number in prs
    && prs[number].state == Closed
    && prs[number].supersededBy == Some(record.number)
  }

  predicate SupersedesBroken(prs: map<int, PullRequest>, record: PullRequest) {
    && record.supersedes != []
    && !(record.state == Merged && forall k | 0 <= k < |record.supersedes| :: EntryCoherent(prs, record, k))
  }

  predicate SupersessionOf(prs: map<int, PullRequest>, record: PullRequest) {
    !SupersededByBroken(prs, record) && !SupersedesBroken(prs, record)
  }

  predicate Supersession(prs: map<int, PullRequest>) { forall n | n in prs :: SupersessionOf(prs, prs[n]) }

  method CheckCoherent(prs: map<int, PullRequest>, record: PullRequest) returns (coherent: bool)
    ensures coherent <==> forall k | 0 <= k < |record.supersedes| :: EntryCoherent(prs, record, k)
  {
    var seen: set<int> := {};
    for k := 0 to |record.supersedes|
      invariant seen == set n | n in record.supersedes[..k]
      invariant forall j | 0 <= j < k :: EntryCoherent(prs, record, j)
    {
      var number := record.supersedes[k];
      if number < 1 || number == record.number || number in seen || number !in prs ||
         prs[number].state != Closed || prs[number].supersededBy != Some(record.number)
      {
        assert !EntryCoherent(prs, record, k);
        return false;
      }
      seen := seen + {number};
      assert record.supersedes[..k + 1] == record.supersedes[..k] + [number];
    }
    coherent := true;
  }

  method CheckSupersession(m: Matrix, numbers: seq<int>) returns (issues: seq<MatrixIssue>)
    requires Enumerates(numbers, m.prs.Keys)
    ensures issues == [] <==> Supersession(m.prs)
  {
    issues := [];
    for k := 0 to |numbers|
      invariant issues == [] <==> forall j | 0 <= j < k :: SupersessionOf(m.prs, m.prs[numbers[j]])
    {
      var record := m.prs[numbers[k]];
      if SupersededByBroken(m.prs, record) {
        issues := issues + [SupersededByInvalid(record.number)];
      }
      if |record.supersedes| > 0 {
        var coherent := CheckCoherent(m.prs, record);
        if record.state != Merged || !coherent {
          issues := issues + [SupersedesInvalid(record.number)];
        }
      }
    }
    forall n | n in m.prs && issues == [] ensures SupersessionOf(m.prs, m.prs[n]) {
      var j := Position(numbers, m.prs.Keys, n);
    }
    forall j | 0 <= j < |numbers| && Supersession(m.prs) ensures SupersessionOf(m.prs, m.prs[numbers[j]]) {
      var n := numbers[j];
      assert n in m.prs && SupersessionOf(m.prs, m.prs[n]);
    }
  }

  /** In an accepted matrix the two declarations are mutual inverses. */
  lemma SupersessionIsMutual(m: Matrix, closed: int, merged: int)
    requires Keyed(m) && Supersession(m.prs) && closed in m.prs && merged in m.prs
    ensures m.prs[closed].supersededBy == Some(merged) <==> closed in m.prs[merged].supersedes
  {
    assert SupersessionOf(m.prs, m.prs[closed]) && SupersessionOf(m.prs, m.prs[merged]);
    if closed in m.prs[merged].supersedes {
      var k :| 0 <= k < |m.prs[merged].supersedes| && m.prs[merged].supersedes[k] == closed;
      assert EntryCoherent(m.prs, m.prs[merged], k);
    }
  }

  /** A superseding link goes from a closed record to a merged one, never chains, and
      names a tracked record. */
  lemma SupersessionHasDepthOne(m: Matrix, closed: int)
    requires Keyed(m) && Supersession(m.prs) && closed in m.prs && m.prs[closed].supersededBy.Some?
    ensures var merged := m.prs[closed].supersededBy.value;
      && merged in m.prs && merged != closed
      && m.prs[closed].state == Closed && m.prs[merged].state == Merged
      && m.prs[merged].supersededBy.None? && m.prs[closed].supersedes == []
  {
    assert SupersessionOf(m.prs, m.prs[closed]);
  }

  // ---------- The redundant guards ----------

  // The same rules without the shape, self-reference and not-itself-superseded guards.

  predicate BareSupersededByMerged(prs: map<int, PullRequest>, record: PullRequest) {
    && record.supersededBy.Some?
    && record.state == Closed
    && record.supersededBy.value in prs
    && var superseder := prs[record.supersededBy.value];
       superseder.state == Merged && record.number in superseder.supersedes
  }

  predicate BareEntryCoherent(prs: map<int, PullRequest>, record: PullRequest, k: nat)
    requires k < |record.supersedes|
  {
    var number := record.supersedes[k];
    && number !in record.supersedes[..k]
    && number in prs
    && prs[number].state == Closed
    && prs[number].supersededBy == Some(record.number)
  }

  predicate BareSupersedesBroken(prs: map<int, PullRequest>, record: PullRequest) {
    && record.supersedes != []
    && !(record.state == Merged && forall k | 0 <= k < |record.supersedes| :: BareEntryCoherent(prs, record, k))
  }

  predicate BareAt(prs: map<int, PullRequest>, n: int)
    requires n in prs
  {
    !(prs[n].supersededBy.Some? && !BareSupersededByMerged(prs, prs[n])) && !BareSupersedesBroken(prs, prs[n])
  }

  predicate BareSupersession(prs: map<int, PullRequest>) { forall n | n in prs :: BareAt(prs, n) }

  lemma EntryGuardsAreRedundant(m: Matrix, n: int)
    requires Keyed(m) && n in m.prs
    ensures SupersedesBroken(m.prs, m.prs[n]) <==> BareSupersedesBroken(m.prs, m.prs[n])
  {
    var record := m.prs[n];
    if record.state == Merged {
      forall k | 0 <= k < |record.supersedes|
        ensures EntryCoherent(m.prs, record, k) <==> BareEntryCoherent(m.prs, record, k)
      {
      }
    }
  }

  /** Dropping the three guards changes neither which matrices pass nor, in those that
      pass, which dependencies are discharged. */
  lemma GuardsAreRedundant(m: Matrix)
    requires Keyed(m)
    ensures Supersession(m.prs) <==> BareSupersession(m.prs)
    ensures Supersession(m.prs) ==>
      forall n | n in m.prs :: SupersededByMerged(m.prs, m.prs[n]) <==> BareSupersededByMerged(m.prs, m.prs[n])
  {
    if BareSupersession(m.prs) {
      forall n | n in m.prs ensures SupersessionOf(m.prs, m.prs[n]) {
        assert BareAt(m.prs, n);
        EntryGuardsAreRedundant(m, n);
        if m.prs[n].supersededBy.Some? {
          assert BareAt(m.prs, m.prs[n].supersededBy.value);
        }
      }
    }
    if Supersession(m.prs) {
      forall n | n in m.prs
        ensures BareAt(m.prs, n)
        ensures SupersededByMerged(m.prs, m.prs[n]) <==> BareSupersededByMerged(m.prs, m.prs[n])
      {
        assert SupersessionOf(m.prs, m.prs[n]);
        EntryGuardsAreRedundant(m, n);
      }
    }
  }

  // ---------- Dependencies ----------

  /** A record that must have its dependencies discharged. */
  predicate MustBeDischarged(record: PullRequest) { record.state == Merged || record.checksGreen }

  predicate Discharged(prs: map<int, PullRequest>, n: int) {
    n in prs && (prs[n].state == Merged || SupersededByMerged(prs, prs[n]))
  }

  predicate DependencyBroken(m: Matrix, record: PullRequest, d: int) {
    if d !in m.prs then
      m.bootstrapNumber != Some(d) || MustBeDischarged(record)
    else MustBeDischarged(record) && !Discharged(m.prs, d)
  }

  predicate DependenciesOf(m: Matrix, record: PullRequest) {
    forall k | 0 <= k < |record.dependencies| :: !DependencyBroken(m, record, record.dependencies[k])
  }

  predicate Dependencies(m: Matrix) { forall n | n in m.prs :: DependenciesOf(m, m.prs[n]) }

  method CheckDependencies(m: Matrix, numbers: seq<int>) returns (issues: seq<MatrixIssue>)
    requires Keyed(m) && Enumerates(numbers, m.prs.Keys)
    ensures issues == [] <==> Dependencies(m)
  {
    issues := [];
    for k := 0 to |numbers|
      invariant issues == [] <==>
        forall j | 0 <= j < k :: DependenciesOf(m, m.prs[numbers[j]])
    {
      var found := CheckRecordDependencies(m, m.prs[numbers[k]]);
      issues := issues + found;
    }
    forall n | n in m.prs && issues == [] ensures DependenciesOf(m, m.prs[n]) {
      var j := Position(numbers, m.prs.Keys, n);
    }
    forall j | 0 <= j < |numbers| && Dependencies(m) ensures DependenciesOf(m, m.prs[numbers[j]]) {
      var n := numbers[j];
      assert n in m.prs && DependenciesOf(m, m.prs[n]);
    }
  }

  method CheckRecordDependencies(m: Matrix, record: PullRequest) returns (issues: seq<MatrixIssue>)
    ensures issues == [] <==> DependenciesOf(m, record)
  {
    issues := [];
    for k := 0 to |record.dependencies|
      invariant issues == [] <==> forall j | 0 <= j < k :: !DependencyBroken(m, record, record.dependencies[j])
    {
      var d := record.dependencies[k];
      if d !in m.prs {
        if m.bootstrapNumber != Some(d) {
          issues := issues + [DependencyUntracked(record.number, d)];
        } else if record.state == Merged || record.checksGreen {
          issues := issues + [DependencyUnsatisfied(record.number, d)];
        }
      } else if MustBeDischarged(record) && m.prs[d].state != Merged && !SupersededByMerged(m.prs, m.prs[d]) {
        issues := issues + [DependencyUnsatisfied(record.number, d)];
      }
    }
  }

  /** Whatever a merged or green record depends on is tracked and merged, or closed and
      superseded by a merged record that is tracked and lists it. */
  lemma DependenciesAreDischarged(m: Matrix, n: int, d: int)
    requires Keyed(m) && Supersession(m.prs) && Dependencies(m)
    requires n in m.prs && MustBeDischarged(m.prs[n]) && d in m.prs[n].dependencies
    ensures d in m.prs
    ensures m.prs[d].state == Merged ||
      (m.prs[d].state == Closed && exists merged | merged in m.prs ::
        m.prs[merged].state == Merged && d in m.prs[merged].supersedes)
  {
    var k :| 0 <= k < |m.prs[n].dependencies| && m.prs[n].dependencies[k] == d;
    assert DependenciesOf(m, m.prs[n]);
    if m.prs[d].state != Merged {
      SupersessionHasDepthOne(m, d);
      SupersessionIsMutual(m, d, m.prs[d].supersededBy.value);
    }
  }

  // ---------- Requirement references ----------

  predicate RowIssueBroken(m: Matrix, row: Row, issue: int) {
    issue < 1 || issue !in m.issues || row.requirementId !in m.issues[issue].requirementIds
  }

  predicate RowPrBroken(m: Matrix, row: Row, number: int) {
    || number < 1
    || (number in m.prs && row.requirementId !in m.prs[number].requirementIds)
    || (number !in m.prs &&
        (|| m.bootstrap.None?
         || number != m.bootstrap.value.number
         || row.requirementId !in m.bootstrap.value.requirementIds))
  }

  predicate IssueRowBroken(m: Matrix, record: IssueRecord, id: string) {
    id in m.rows && record.number !in m.rows[id].issues
  }

  predicate PrRowBroken(m: Matrix, number: int, id: string) { id in m.rows && number !in m.rows[id].pullRequests }

  predicate RowReferences(m: Matrix, row: Row) {
    && (forall k | 0 <= k < |row.issues| :: !RowIssueBroken(m, row, row.issues[k]))
    && (forall k | 0 <= k < |row.pullRequests| :: !RowPrBroken(m, row, row.pullRequests[k]))
  }

  predicate IssueReferences(m: Matrix, record: IssueRecord) {
    forall k | 0 <= k < |record.requirementIds| :: !IssueRowBroken(m, record, record.requirementIds[k])
  }

  predicate PrReferences(m: Matrix, number: int, ids: seq<string>) {
    forall k | 0 <= k < |ids| :: !PrRowBroken(m, number, ids[k])
  }

  predicate References(m: Matrix) {
    && (forall id | id in m.rows :: RowReferences(m, m.rows[id]))
    && (forall n | n in m.issues :: IssueReferences(m, m.issues[n]))
    && (forall n | n in m.prs :: PrReferences(m, n, m.prs[n].requirementIds))
    && (m.bootstrap.Some? ==> PrReferences(m, m.bootstrap.value.number, m.bootstrap.value.requirementIds))
  }

  method CheckRow(m: Matrix, row: Row) returns (issues: seq<MatrixIssue>)
    ensures issues == [] <==> RowReferences(m, row)
  {
    issues := [];
    for k := 0 to |row.issues|
      invariant issues == [] <==> forall j | 0 <= j < k :: !RowIssueBroken(m, row, row.issues[j])
    {
      var issue := row.issues[k];
      if issue < 1 {
        issues := issues + [IssueReference(row.requirementId, issue)];
      } else if issue !in m.issues {
        issues := issues + [IssueAuthorityMissing(row.requirementId, issue)];
      } else if row.requirementId !in m.issues[issue].requirementIds {
        issues := issues + [IssueRequirementMismatch(row.requirementId, issue)];
      }
    }
    ghost var rowIssues := issues == [];
    for k := 0 to |row.pullRequests|
      invariant issues == [] <==> rowIssues && forall j | 0 <= j < k :: !RowPrBroken(m, row, row.pullRequests[j])
    {
      var number := row.pullRequests[k];
      if number < 1 {
        issues := issues + [PrReference(row.requirementId, number)];
      } else if number !in m.prs {
        if m.bootstrap.None? || number != m.bootstrap.value.number ||
           row.requirementId !in m.bootstrap.value.requirementIds
        {
          issues := issues + [PrNotInReleaseTrain(row.requirementId, number)];
        }
      } else if row.requirementId !in m.prs[number].requirementIds {
        issues := issues + [PrRequirementMismatch(row.requirementId, number)];
      }
    }
  }

  method CheckBackReferences(m: Matrix, number: int, ids: seq<string>) returns (issues: seq<MatrixIssue>)
    ensures issues == [] <==> PrReferences(m, number, ids)
  {
    issues := [];
    for k := 0 to |ids|
      invariant issues == [] <==> forall j | 0 <= j < k :: !PrRowBroken(m, number, ids[j])
    {
      if ids[k] in m.rows && number !in m.rows[ids[k]].pullRequests {
        issues := issues + [PrRequirementMismatch(ids[k], number)];
      }
    }
  }

  method CheckIssueRecord(m: Matrix, record: IssueRecord) returns (issues: seq<MatrixIssue>)
    ensures issues == [] <==> IssueReferences(m, record)
  {
    issues := [];
    for k := 0 to |record.requirementIds|
      invariant issues == [] <==> forall j | 0 <= j < k :: !IssueRowBroken(m, record, record.requirementIds[j])
    {
      var id := record.requirementIds[k];
      if id in m.rows && record.number !in m.rows[id].issues {
        issues := issues + [IssueRequirementMismatch(id, record.number)];
      }
    }
  }

  method CheckRows(m: Matrix, rowIds: seq<string>) returns (issues: seq<MatrixIssue>)
    requires Enumerates(rowIds, m.rows.Keys)
    ensures issues == [] <==> forall id | id in m.rows :: RowReferences(m, m.rows[id])
  {
    hide RowReferences;
    issues := [];
    assert forall id | id in m.rows :: id in rowIds;
    for k := 0 to |rowIds|
      invariant issues == [] <==> forall j | 0 <= j < k :: RowReferences(m, m.rows[rowIds[j]])
    {
      var found := CheckRow(m, m.rows[rowIds[k]]);
      issues := issues + found;
    }
  }

  method CheckIssueRecords(m: Matrix, numbers: seq<int>) returns (issues: seq<MatrixIssue>)
    requires Enumerates(numbers, m.issues.Keys)
    ensures issues == [] <==> forall n | n in m.issues :: IssueReferences(m, m.issues[n])
  {
    hide IssueReferences;
    issues := [];
    for k := 0 to |numbers|
      invariant issues == [] <==> forall j | 0 <= j < k :: IssueReferences(m, m.issues[numbers[j]])
    {
      var found := CheckIssueRecord(m, m.issues[numbers[k]]);
      issues := issues + found;
    }
    forall n | n in m.issues && issues == [] ensures IssueReferences(m, m.issues[n]) {
      var j := Position(numbers, m.issues.Keys, n);
    }
    forall j | 0 <= j < |numbers| && (forall n | n in m.issues ::
      IssueReferences(m, m.issues[n])) ensures IssueReferences(m, m.issues[numbers[j]]) {
      var n := numbers[j];
      assert n in m.issues && IssueReferences(m, m.issues[n]);
    }
  }

  method CheckPullRequests(m: Matrix, numbers: seq<int>) returns (issues: seq<MatrixIssue>)
    requires Enumerates(numbers, m.prs.Keys)
    ensures issues == [] <==> forall n | n in m.prs :: PrReferences(m, n, m.prs[n].requirementIds)
  {
    hide PrReferences;
    issues := [];
    for k := 0 to |numbers|
      invariant issues == [] <==> forall j | 0 <= j < k :: PrReferences(m, numbers[j], m.prs[numbers[j]].requirementIds)
    {
      var found := CheckBackReferences(m, numbers[k], m.prs[numbers[k]].requirementIds);
      issues := issues + found;
    }
    forall n | n in m.prs && issues == [] ensures PrReferences(m, n, m.prs[n].requirementIds) {
      var j := Position(numbers, m.prs.Keys, n);
    }
    forall j | 0 <= j < |numbers| && (forall n | n in m.prs :: PrReferences(m, n, m.prs[n].requirementIds))
      ensures PrReferences(m, numbers[j], m.prs[numbers[j]].requirementIds) {
      var n := numbers[j];
      assert n in m.prs && PrReferences(m, n, m.prs[n].requirementIds);
    }
  }

  method CheckReferences(m: Matrix, rowIds: seq<string>, issueNumbers: seq<int>, numbers: seq<int>)
    returns (issues: seq<MatrixIssue>)
    requires Enumerates(rowIds, m.rows.Keys) && Enumerates(issueNumbers, m.issues.Keys)
      && Enumerates(numbers, m.prs.Keys)
    ensures issues == [] <==> References(m)
  {
    hide RowReferences, IssueReferences, PrReferences;
    issues := CheckRows(m, rowIds);
    var found := CheckIssueRecords(m, issueNumbers);
    issues := issues + found;
    found := CheckPullRequests(m, numbers);
    issues := issues + found;
    if m.bootstrap.Some? {
      found := CheckBackReferences(m, m.bootstrap.value.number, m.bootstrap.value.requirementIds);
      issues := issues + found;
    }
  }

  /** Requirement rows and tracked records name each other exactly, and so do rows and
      issues, and rows and an untracked current pull request. */
  lemma ReferencesAreConverse(m: Matrix, id: string, number: int, issue: int)
    requires Keyed(m) && References(m) && id in m.rows
    ensures number in m.prs ==> (number in m.rows[id].pullRequests <==> id in m.prs[number].requirementIds)
    ensures issue in m.issues ==> (issue in m.rows[id].issues <==> id in m.issues[issue].requirementIds)
    ensures m.bootstrap.Some? && m.bootstrap.value.number !in m.prs ==>
      (m.bootstrap.value.number in m.rows[id].pullRequests <==> id in m.bootstrap.value.requirementIds)
    ensures issue in m.rows[id].issues ==> issue in m.issues
    ensures number in m.rows[id].pullRequests ==>
      number in m.prs || (m.bootstrap.Some? && number == m.bootstrap.value.number)
  {
    hide IssueReferences, PrReferences, RowReferences;
    RowLinks(m, m.rows[id]);
    if issue in m.issues {
      IssueLinks(m, m.issues[issue], id);
    }
    if number in m.prs {
      PrLinks(m, number, m.prs[number].requirementIds, id);
    }
    if m.bootstrap.Some? {
      PrLinks(m, m.bootstrap.value.number, m.bootstrap.value.requirementIds, id);
    }
  }

  lemma RowLinks(m: Matrix, row: Row)
    requires RowReferences(m, row)
    ensures forall issue | issue in row.issues :: !RowIssueBroken(m, row, issue)
    ensures forall number | number in row.pullRequests :: !RowPrBroken(m, row, number)
  {
  }

  lemma IssueLinks(m: Matrix, record: IssueRecord, id: string)
    requires IssueReferences(m, record)
    ensures id in record.requirementIds && id in m.rows ==> record.number in m.rows[id].issues
  {
  }

  lemma PrLinks(m: Matrix, number: int, ids: seq<string>, id: string)
    requires PrReferences(m, number, ids)
    ensures id in ids && id in m.rows ==> number in m.rows[id].pullRequests
  {
  }
}
