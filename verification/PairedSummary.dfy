/** Result rows, their grouping into control/candidate pairs and the statistics
    drawn from the eligible pairs (`ferric-bench/src/autonomy_results.rs`). */
module PairedSummary {
  import opened Wrappers
  import opened Machine
  import opened EvidenceRows
  import CommandChecks
  import Decimal
  import Ordering
  import opened Selecting
  import Text

  datatype BinaryProvenance = BinaryProvenance(path: string, sizeBytes: Option<nat>, sha256: Option<string>)

  datatype ModelProvenance = ModelProvenance(
    backend: string, model: Option<string>, apiBase: Option<string>, paramsB: real, ctx: nat,
    sha256: Option<string>)

  datatype RunProvenance = RunProvenance(
    version: string, commit: Option<string>, binary: BinaryProvenance, model: ModelProvenance,
    protocol: string, variant: string, pythonBin: string)

  /** A managed model server; what the strict reader asks of it beyond its
      model digest is a parameter of the summary. */
  datatype ManagedServer = ManagedServer(
    engine: string, baseUrl: string, argv: seq<string>, modelSha256: Option<string>)

  datatype PairOrder = ControlCandidate | CandidateControl | UnknownOrder(text: string)

  datatype Evaluation = Evaluation(
    arm: Arm, policy: Policy, pairId: Option<string>, pairSlot: Option<nat>, pairOrder: Option<PairOrder>,
    workspaceSha256: Option<string>, treeSha256: Option<string>, binarySha256: Option<string>,
    corpusSha256: Option<string>, modelSha256: Option<string>, temperature: Option<string>,
    server: Option<ManagedServer>)

  const NO_EVALUATION := Evaluation(Single, Legacy, None, None, None, None, None, None, None, None, None, None)

  datatype Row = Row(
    schemaVersion: nat, runId: string, suiteId: string, suiteSchemaVersion: nat, suiteSha256: string,
    taskId: string, category: string, variant: string, arm: Arm, policy: Policy, trial: nat,
    outcome: Outcome, provenance: RunProvenance, evaluation: Evaluation)

  type ServerCheck = (ManagedServer, Row) -> bool

  const SCHEMA_VERSION: nat := 2

  // ----- which rows count ---------------------------------------------------------------

  predicate StrictCoordinate(row: Row) {
    row.arm != Single || row.policy == Evidence
  }

  predicate StrictRow(row: Row, serverOk: ServerCheck) {
    && row.schemaVersion == SCHEMA_VERSION
    && StrictEvidence(row.outcome)
    && ValidSha256(row.evaluation.workspaceSha256)
    && ValidSha256(row.evaluation.treeSha256)
    && ValidSha256(row.provenance.binary.sha256)
    && row.evaluation.binarySha256 == row.provenance.binary.sha256
    && ValidSha256(row.evaluation.corpusSha256)
    && row.evaluation.corpusSha256 == Some(row.suiteSha256)
    && ValidSha256(row.provenance.model.sha256)
    && row.evaluation.modelSha256 == row.provenance.model.sha256
    && row.evaluation.server.Some?
    && serverOk(row.evaluation.server.value, row)
  }

  predicate Scoreable(row: Row, serverOk: ServerCheck) {
    && row.outcome.infrastructureError.None?
    && !CommandChecks.AnyInfrastructureError(row.outcome.commandChecks)
    && (if row.schemaVersion == 1 then LegacyEvidence(row.outcome)
        else StrictCoordinate(row) ==> StrictRow(row, serverOk))
  }

  // ----- pairs -----------------------------------------------------------------------------

  datatype Pair = Pair(control: Row, candidate: Row)

  function PairId(trial: nat, task: string, variant: string): string {
    Text.Join(["trial", Decimal.Padded(trial, 3), task, variant], "-")
  }

  predicate IsControl(row: Row) {
    row.arm == Control && row.policy == Legacy
  }

  predicate IsCandidate(row: Row) {
    row.arm == Candidate && row.policy == Evidence
  }

  /** Id, order and slots name the same scheduled pair. */
  predicate LabelsAgree(control: Row, candidate: Row) {
    var c, d := control.evaluation, candidate.evaluation;
    && c.pairId == Some(PairId(control.trial, control.taskId, control.variant))
    && d.pairId == c.pairId
    && c.pairOrder.Some?
    && d.pairOrder == c.pairOrder
    && (match c.pairOrder.value
        case ControlCandidate => c.pairSlot == Some(1) && d.pairSlot == Some(2)
        case CandidateControl => d.pairSlot == Some(1) && c.pairSlot == Some(2)
        case UnknownOrder(_) => false)
    && control.taskId == candidate.taskId
    && control.variant == candidate.variant
    && control.trial == candidate.trial
  }

  /** Fresh distinct workspaces with equal contents, distinct binaries, and the
      same corpus, model, temperature and server. */
  predicate CircumstancesAgree(c: Evaluation, d: Evaluation) {
    && ValidSha256(c.workspaceSha256) && ValidSha256(d.workspaceSha256)
    && c.workspaceSha256 != d.workspaceSha256
    && ValidSha256(c.treeSha256) && ValidSha256(d.treeSha256)
    && c.treeSha256 == d.treeSha256
    && c.binarySha256.Some? && d.binarySha256.Some?
    && c.binarySha256 != d.binarySha256
    && c.corpusSha256 == d.corpusSha256
    && c.modelSha256.Some? && c.modelSha256 == d.modelSha256
    && c.temperature == Some("0.0") && d.temperature == Some("0.0")
    && c.server.Some? && c.server == d.server
    && c.server.value.modelSha256 == c.modelSha256
  }

  function FindRow(rows: seq<Row>, wanted: Row -> bool): Option<Row> {
    if rows == [] then None
    else if wanted(rows[0]) then Some(rows[0])
    else FindRow(rows[1..], wanted)
  }

  /** `paired_rows`: exactly two rows, one of each arm, that agree. */
  function PairedRows(group: seq<Row>): Option<Pair> {
    if |group| != 2 then None
    else
      var control := FindRow(group, IsControl);
      var candidate := FindRow(group, IsCandidate);
      if control.None? || candidate.None? then None
      else if LabelsAgree(control.value, candidate.value)
              && CircumstancesAgree(control.value.evaluation, candidate.value.evaluation) then
        Some(Pair(control.value, candidate.value))
      else None
  }

  lemma {:induction false} FindRowFinds(rows: seq<Row>, wanted: Row -> bool)
    ensures var found := FindRow(rows, wanted); found.Some? ==> found.value in rows && wanted(found.value)
  {
    if rows != [] {
      FindRowFinds(rows[1..], wanted);
    }
  }

  /** A pair uses up its group: the two rows, one of each arm. */
  lemma PairedRowsUsesGroup(group: seq<Row>)
    requires PairedRows(group).Some?
    ensures var pair := PairedRows(group).value;
            && |group| == 2
            && IsControl(pair.control) && IsCandidate(pair.candidate)
            && LabelsAgree(pair.control, pair.candidate)
            && multiset(group) == multiset{pair.control, pair.candidate}
  {
    FindRowFinds(group, IsControl);
    FindRowFinds(group, IsCandidate);
    assert group == [group[0], group[1]];
  }

  predicate HasPairId(row: Row, id: string) {
    row.evaluation.pairId == Some(id)
  }

  /** The rows of one pair id, in row order. */
  function GroupOf(rows: seq<Row>, id: string): seq<Row> {
    if rows == [] then []
    else
      GroupOf(rows[..|rows| - 1], id)
      + if HasPairId(rows[|rows| - 1], id) then [rows[|rows| - 1]] else []
  }

  function PairIds(rows: seq<Row>): set<string> {
    set i | 0 <= i < |rows| && rows[i].evaluation.pairId.Some? :: rows[i].evaluation.pairId.value
  }

  predicate PairScoreable(pair: Pair, serverOk: ServerCheck) {
    Scoreable(pair.control, serverOk) && Scoreable(pair.candidate, serverOk)
  }

  function EligibleIn(group: seq<Row>, serverOk: ServerCheck): seq<Pair> {
    var pair := PairedRows(group);
    if pair.Some? && PairScoreable(pair.value, serverOk) then [pair.value] else []
  }

  function EligibleAmong(rows: seq<Row>, ids: seq<string>, serverOk: ServerCheck): seq<Pair> {
    if ids == [] then []
    else
      EligibleAmong(rows, ids[..|ids| - 1], serverOk)
      + EligibleIn(GroupOf(rows, ids[|ids| - 1]), serverOk)
  }

  /** The eligible pairs of a run, by ascending pair id. */
  function EligiblePairs(rows: seq<Row>, serverOk: ServerCheck): seq<Pair> {
    EligibleAmong(rows, Ordering.Sorted(PairIds(rows)), serverOk)
  }

  lemma PairIdsExtend(rows: seq<Row>, row: Row)
    ensures PairIds(rows + [row]) ==
            PairIds(rows) + (if row.evaluation.pairId.Some? then {row.evaluation.pairId.value} else {})
  {
    var all := rows + [row];
    assert forall i | 0 <= i < |rows| :: all[i] == rows[i];
    assert all[|rows|] == row;
    forall id | id in PairIds(rows) ensures id in PairIds(all) {
      var i :| 0 <= i < |rows| && rows[i].evaluation.pairId == Some(id);
      assert all[i].evaluation.pairId == Some(id);
    }
  }

  lemma {:induction false} NoIdNoGroup(rows: seq<Row>, id: string)
    requires id !in PairIds(rows)
    ensures GroupOf(rows, id) == []
  {
    if rows != [] {
      var n := |rows| - 1;
      assert rows == rows[..n] + [rows[n]];
      PairIdsExtend(rows[..n], rows[n]);
      NoIdNoGroup(rows[..n], id);
    }
  }

  method GroupByPairId(rows: seq<Row>) returns (groups: map<string, seq<Row>>)
    ensures groups.Keys == PairIds(rows)
    ensures forall id | id in groups :: groups[id] == GroupOf(rows, id)
  {
    groups := map[];
    for n := 0 to |rows|
      invariant groups.Keys == PairIds(rows[..n])
      invariant forall id | id in groups :: groups[id] == GroupOf(rows[..n], id)
    {
      var row := rows[n];
      assert rows[..n + 1] == rows[..n] + [row];
      assert rows[..n + 1][..n] == rows[..n];
      PairIdsExtend(rows[..n], row);
      if row.evaluation.pairId.Some? {
        var id := row.evaluation.pairId.value;
        if id !in groups {
          NoIdNoGroup(rows[..n], id);
        }
        groups := groups[id := (if id in groups then groups[id] else []) + [row]];
      }
    }
    assert rows[..|rows|] == rows;
  }

  lemma EligibleStep(rows: seq<Row>, ids: seq<string>, n: nat, serverOk: ServerCheck)
    requires n < |ids|
    ensures EligibleAmong(rows, ids[..n + 1], serverOk)
            == EligibleAmong(rows, ids[..n], serverOk) + EligibleIn(GroupOf(rows, ids[n]), serverOk)
  {
    assert ids[..n + 1][..n] == ids[..n];
  }

  // ----- eligible pairs, field by field ----------------------------------------------------

  /** Two rows of one scheduled pair that are comparable: the two arms of one
      cell, labelled as such, started in distinct workspaces with equal trees,
      run by distinct binaries on the same corpus, model and server. */
  ghost predicate FairPair(control: Row, candidate: Row) {
    var c, d := control.evaluation, candidate.evaluation;
    && control.arm == Control && control.policy == Legacy
    && candidate.arm == Candidate && candidate.policy == Evidence
    && control.taskId == candidate.taskId && control.variant == candidate.variant && control.trial == candidate.trial
    && c.pairId == d.pairId == Some(PairId(control.trial, control.taskId, control.variant))
    && ((c.pairOrder == d.pairOrder == Some(ControlCandidate) && c.pairSlot == Some(1) && d.pairSlot == Some(2))
        || (c.pairOrder == d.pairOrder == Some(CandidateControl) && c.pairSlot == Some(2) && d.pairSlot == Some(1)))
    && ValidSha256(c.workspaceSha256) && ValidSha256(d.workspaceSha256) && c.workspaceSha256 != d.workspaceSha256
    && ValidSha256(c.treeSha256) && c.treeSha256 == d.treeSha256
    && c.binarySha256.Some? && d.binarySha256.Some? && c.binarySha256 != d.binarySha256
    && c.corpusSha256 == d.corpusSha256
    && c.modelSha256.Some? && c.modelSha256 == d.modelSha256
    && c.temperature == d.temperature == Some("0.0")
    && c.server.Some? && c.server == d.server && c.server.value.modelSha256 == c.modelSha256
  }

  lemma AgreeingIsFair(control: Row, candidate: Row)
    ensures IsControl(control) && IsCandidate(candidate) && LabelsAgree(control, candidate)
            && CircumstancesAgree(control.evaluation, candidate.evaluation)
            <==> FairPair(control, candidate)
  {
  }

  lemma FindInTwo(a: Row, b: Row, wanted: Row -> bool)
    ensures FindRow([a, b], wanted) == if wanted(a) then Some(a) else if wanted(b) then Some(b) else None
  {
    assert [a, b][1..] == [b] && [b][1..] == [];
    assert FindRow([b], wanted) == if wanted(b) then Some(b) else None;
  }

  /** A group is admitted exactly when it is two rows that make a fair pair, in
      either order; and that is the pair. */
  lemma PairedRowsExactly(group: seq<Row>, pair: Pair)
    ensures PairedRows(group) == Some(pair) <==>
            && FairPair(pair.control, pair.candidate)
            && (group == [pair.control, pair.candidate] || group == [pair.candidate, pair.control])
  {
    AgreeingIsFair(pair.control, pair.candidate);
    if |group| == 2 {
      assert group == [group[0], group[1]];
      FindInTwo(group[0], group[1], IsControl);
      FindInTwo(group[0], group[1], IsCandidate);
    }
  }

  /** A row that counts: nothing went wrong around it, and its evidence is such
      as its schema demands. */
  ghost predicate Counts(row: Row, serverOk: ServerCheck) {
    && row.outcome.infrastructureError == None
    && (forall i | 0 <= i < |row.outcome.commandChecks| ::
          row.outcome.commandChecks[i].status != CommandChecks.InfrastructureError)
    && (row.schemaVersion == 1 ==> LegacyEvidence(row.outcome))
    && (row.schemaVersion != 1 && (row.arm != Single || row.policy == Evidence) ==>
          && row.schemaVersion == 2
          && StrictEvidence(row.outcome)
          && ValidSha256(row.evaluation.workspaceSha256) && ValidSha256(row.evaluation.treeSha256)
          && ValidSha256(row.evaluation.binarySha256) && row.provenance.binary.sha256 == row.evaluation.binarySha256
          && ValidSha256(Some(row.suiteSha256)) && row.evaluation.corpusSha256 == Some(row.suiteSha256)
          && ValidSha256(row.evaluation.modelSha256) && row.provenance.model.sha256 == row.evaluation.modelSha256
          && row.evaluation.server.Some? && serverOk(row.evaluation.server.value, row))
  }

  lemma ScoreableCounts(row: Row, serverOk: ServerCheck)
    ensures Scoreable(row, serverOk) <==> Counts(row, serverOk)
  {
  }

  function WithId(id: string): Row -> Option<Row> {
    (row: Row) => if row.evaluation.pairId == Some(id) then Some(row) else None
  }

  lemma {:induction false} GroupIsSelected(rows: seq<Row>, id: string)
    ensures GroupOf(rows, id) == Select(rows, WithId(id))
  {
    if rows != [] {
      GroupIsSelected(rows[..|rows| - 1], id);
    }
  }

  /** Exactly the rows at these two places carry the id. */
  ghost predicate OnlyTwo(rows: seq<Row>, id: string, i: nat, j: nat) {
    && i < j < |rows|
    && rows[i].evaluation.pairId == rows[j].evaluation.pairId == Some(id)
    && forall k | 0 <= k < |rows| && rows[k].evaluation.pairId == Some(id) :: k == i || k == j
  }

  lemma OnlyTwoGroup(rows: seq<Row>, id: string, i: nat, j: nat)
    requires OnlyTwo(rows, id, i, j)
    ensures GroupOf(rows, id) == [rows[i], rows[j]]
  {
    GroupIsSelected(rows, id);
    SelectTwo(rows, WithId(id), i, j);
  }

  lemma TwoPlaces(rows: seq<Row>, id: string) returns (i: nat, j: nat)
    requires |GroupOf(rows, id)| == 2
    ensures OnlyTwo(rows, id, i, j)
  {
    var f := WithId(id);
    GroupIsSelected(rows, id);
    SelectSize(rows, f);
    var hits := Hits(rows, f);
    var x :| x in hits;
    assert |hits - {x}| == 1;
    var y :| y in hits - {x};
    assert |hits - {x} - {y}| == 0;
    assert hits == {x, y};
    i, j := if x < y then x else y, if x < y then y else x;
    forall k | 0 <= k < |rows| && rows[k].evaluation.pairId == Some(id) ensures k == i || k == j {
      assert f(rows[k]).Some?;
      assert k in hits;
    }
  }

  /** A pair is eligible, told by the rows alone: the two rows make a fair pair,
      both count, and they are the only two rows with their pair id. */
  ghost predicate Eligible(rows: seq<Row>, serverOk: ServerCheck, pair: Pair) {
    && FairPair(pair.control, pair.candidate)
    && Counts(pair.control, serverOk) && Counts(pair.candidate, serverOk)
    && exists i, j :: AreThePair(rows, pair, i, j)
  }

  ghost predicate AreThePair(rows: seq<Row>, pair: Pair, i: nat, j: nat) {
    && pair.control.evaluation.pairId.Some?
    && OnlyTwo(rows, pair.control.evaluation.pairId.value, i, j)
    && ([rows[i], rows[j]] == [pair.control, pair.candidate] || [rows[i], rows[j]] == [pair.candidate, pair.control])
  }

  function EligibleOf(rows: seq<Row>, serverOk: ServerCheck): string -> seq<Pair> {
    (id: string) => EligibleIn(GroupOf(rows, id), serverOk)
  }

  lemma {:induction false} EligibleAmongGathers(rows: seq<Row>, ids: seq<string>, serverOk: ServerCheck)
    ensures EligibleAmong(rows, ids, serverOk) == Gather(ids, EligibleOf(rows, serverOk))
  {
    if ids != [] {
      EligibleAmongGathers(rows, ids[..|ids| - 1], serverOk);
    }
  }

  lemma EligibleGroup(rows: seq<Row>, id: string, serverOk: ServerCheck, pair: Pair)
    requires pair in EligibleIn(GroupOf(rows, id), serverOk)
    ensures Eligible(rows, serverOk, pair)
  {
    var group := GroupOf(rows, id);
    PairedRowsExactly(group, pair);
    ScoreableCounts(pair.control, serverOk);
    ScoreableCounts(pair.candidate, serverOk);
    var i, j := TwoPlaces(rows, id);
    OnlyTwoGroup(rows, id, i, j);
    assert AreThePair(rows, pair, i, j);
  }

  lemma EligibleHasGroup(rows: seq<Row>, serverOk: ServerCheck, pair: Pair)
    requires Eligible(rows, serverOk, pair)
    ensures pair.control.evaluation.pairId.Some?
    ensures var id := pair.control.evaluation.pairId.value;
            id in PairIds(rows) && pair in EligibleIn(GroupOf(rows, id), serverOk)
  {
    var i: nat, j: nat :| AreThePair(rows, pair, i, j);
    var id := pair.control.evaluation.pairId.value;
    OnlyTwoGroup(rows, id, i, j);
    PairedRowsExactly(GroupOf(rows, id), pair);
    ScoreableCounts(pair.control, serverOk);
    ScoreableCounts(pair.candidate, serverOk);
    assert rows[i].evaluation.pairId == Some(id);
  }

  /** The pairs the statistics rest on are exactly the eligible ones. */
  lemma EligibleExactly(rows: seq<Row>, serverOk: ServerCheck, pair: Pair)
    ensures pair in EligiblePairs(rows, serverOk) <==> Eligible(rows, serverOk, pair)
  {
    var ids := Ordering.Sorted(PairIds(rows));
    var f := EligibleOf(rows, serverOk);
    EligibleAmongGathers(rows, ids, serverOk);
    GatherMembers(ids, f, pair);
    if pair in EligiblePairs(rows, serverOk) {
      var k :| 0 <= k < |ids| && pair in f(ids[k]);
      EligibleGroup(rows, ids[k], serverOk, pair);
    }
    if Eligible(rows, serverOk, pair) {
      EligibleHasGroup(rows, serverOk, pair);
      var id := pair.control.evaluation.pairId.value;
      assert id in ids;
      var k :| 0 <= k < |ids| && ids[k] == id;
      assert pair in f(ids[k]);
    }
  }

  lemma AllEligible(rows: seq<Row>, serverOk: ServerCheck)
    ensures forall pair :: pair in EligiblePairs(rows, serverOk) <==> Eligible(rows, serverOk, pair)
  {
    forall pair ensures pair in EligiblePairs(rows, serverOk) <==> Eligible(rows, serverOk, pair) {
      EligibleExactly(rows, serverOk, pair);
    }
  }

  /** `eligible_paired_rows`: group by id, then keep the scoreable pairs. The
      result holds exactly the eligible pairs. */
  method EligiblePairedRows(rows: seq<Row>, serverOk: ServerCheck) returns (pairs: seq<Pair>)
    ensures pairs == EligiblePairs(rows, serverOk)
    ensures forall pair :: pair in pairs <==> Eligible(rows, serverOk, pair)
  {
    AllEligible(rows, serverOk);
    var groups := GroupByPairId(rows);
    var ids := Ordering.Sorted(groups.Keys);
    pairs := [];
    for n := 0 to |ids|
      invariant pairs == EligibleAmong(rows, ids[..n], serverOk)
    {
      EligibleStep(rows, ids, n, serverOk);
      var group := groups[ids[n]];
      assert group == GroupOf(rows, ids[n]);
      pairs := pairs + EligibleIn(group, serverOk);
    }
    assert ids[..|ids|] == ids;
  }
}
