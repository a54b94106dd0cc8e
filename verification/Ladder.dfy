/** The ladder summary of one benchmark run and the evidence it leaves for
    calibration (`ferric-bench/src/summary.rs`). */
module Ladder {
  import opened Wrappers
  import opened Counting
  import opened Machine
  import opened BudgetControls
  import opened Selecting
  import CommandChecks

  type u8 = n: nat | n < 256

  datatype LadderRow = LadderRow(
    runId: Option<string>, trialId: Option<string>, level: u8, completed: bool,
    infrastructureError: Option<string>, commandChecks: seq<CommandChecks.CheckResult>,
    controls: Option<Controls>)

  // ----- which trials are complete -------------------------------------------------------

  function RunRows(runId: string, rows: seq<LadderRow>): seq<LadderRow> {
    if rows == [] then []
    else
      var last := rows[|rows| - 1];
      RunRows(runId, rows[..|rows| - 1]) + if last.runId == Some(runId) then [last] else []
  }

  /** Sorted and deduplicated levels. */
  function LevelsBelow(levels: seq<u8>, limit: nat): (s: seq<u8>)
    requires limit <= 256
    ensures forall i | 0 <= i < |s| :: s[i] < limit && s[i] in levels
    ensures forall i, j | 0 <= i < j < |s| :: s[i] < s[j]
    ensures forall l: u8 | l < limit && l in levels :: l in s
    ensures |s| <= limit
  {
    if limit == 0 then []
    else if limit - 1 in levels then LevelsBelow(levels, limit - 1) + [limit - 1]
    else LevelsBelow(levels, limit - 1)
  }

  function AscendingLevels(levels: seq<u8>): seq<u8> {
    LevelsBelow(levels, 256)
  }

  function TrialIds(rows: seq<LadderRow>): set<string> {
    set i | 0 <= i < |rows| && rows[i].trialId.Some? :: rows[i].trialId.value
  }

  /** The levels a trial recorded, in row order. */
  function LevelsOf(rows: seq<LadderRow>, id: string): seq<u8> {
    if rows == [] then []
    else
      var last := rows[|rows| - 1];
      LevelsOf(rows[..|rows| - 1], id) + if last.trialId == Some(id) then [last.level] else []
  }

  predicate TrialComplete(recorded: seq<u8>, levels: seq<u8>) {
    |recorded| == |levels| && (set l | l in recorded) == (set l | l in levels)
  }

  function CompleteTrials(rows: seq<LadderRow>, levels: seq<u8>): set<string> {
    set id | id in TrialIds(rows) && TrialComplete(LevelsOf(rows, id), levels)
  }

  lemma TrialIdsExtend(rows: seq<LadderRow>, row: LadderRow)
    ensures TrialIds(rows + [row]) == TrialIds(rows) + (if row.trialId.Some? then {row.trialId.value} else {})
  {
    var all := rows + [row];
    assert all[|rows|] == row;
    forall id | id in TrialIds(rows) ensures id in TrialIds(all) {
      var i :| 0 <= i < |rows| && rows[i].trialId == Some(id);
      assert all[i].trialId == Some(id);
    }
  }

  lemma {:induction false} UnknownTrialEmpty(rows: seq<LadderRow>, id: string)
    requires id !in TrialIds(rows)
    ensures LevelsOf(rows, id) == []
  {
    if rows != [] {
      var n := |rows| - 1;
      assert rows == rows[..n] + [rows[n]];
      TrialIdsExtend(rows[..n], rows[n]);
      UnknownTrialEmpty(rows[..n], id);
    }
  }

  method GroupByTrial(rows: seq<LadderRow>) returns (trials: map<string, seq<u8>>)
    ensures trials.Keys == TrialIds(rows)
    ensures forall id | id in trials :: trials[id] == LevelsOf(rows, id)
  {
    trials := map[];
    for n := 0 to |rows|
      invariant trials.Keys == TrialIds(rows[..n])
      invariant forall id | id in trials :: trials[id] == LevelsOf(rows[..n], id)
    {
      var row := rows[n];
      assert rows[..n + 1] == rows[..n] + [row];
      assert rows[..n + 1][..n] == rows[..n];
      TrialIdsExtend(rows[..n], row);
      if row.trialId.Some? {
        var id := row.trialId.value;
        if id !in trials {
          UnknownTrialEmpty(rows[..n], id);
        }
        trials := trials[id := (if id in trials then trials[id] else []) + [row.level]];
      }
    }
    assert rows[..|rows|] == rows;
  }

  /** `complete_trial_count`. */
  method CompleteTrialCount(levels: seq<u8>, rows: seq<LadderRow>) returns (count: nat)
    ensures count == AsU32(|CompleteTrials(rows, levels)|)
  {
    var trials := GroupByTrial(rows);
    var complete := set id | id in trials && TrialComplete(trials[id], levels);
    assert complete == CompleteTrials(rows, levels);
    count := AsU32(|complete|);
  }

  // ----- completeness means an exactly filled matrix ----------------------------------------

  predicate Complete(run: seq<LadderRow>, levels: seq<u8>, trials: u32) {
    AsU32(|run|) == SatMul(trials, AsU32(|levels|)) && AsU32(|CompleteTrials(run, levels)|) == trials
  }

  ghost predicate AllTagged(run: seq<LadderRow>) {
    forall i | 0 <= i < |run| :: run[i].trialId.Some?
  }

  function CellsOf(run: seq<LadderRow>): seq<(string, u8)>
    requires forall i | 0 <= i < |run| :: run[i].trialId.Some?
  {
    if run == [] then []
    else CellsOf(run[..|run| - 1]) + [(run[|run| - 1].trialId.value, run[|run| - 1].level)]
  }

  /** Every row belongs to a trial, there are as many trials as requested, and
      every (trial, level) cell is filled exactly once. */
  ghost predicate MatrixFilled(run: seq<LadderRow>, levels: seq<u8>, trials: nat) {
    && AllTagged(run)
    && |TrialIds(run)| == trials
    && multiset(CellsOf(run)) == multiset(Product(TrialIds(run), Elements(levels)))
  }

  lemma {:induction false} CellCount(run: seq<LadderRow>, id: string, level: u8)
    requires AllTagged(run)
    ensures multiset(CellsOf(run))[(id, level)] == multiset(LevelsOf(run, id))[level]
  {
    if run != [] {
      CellCount(run[..|run| - 1], id, level);
    }
  }

  /** How many rows belong to one of these trials. */
  function RowsIn(run: seq<LadderRow>, ids: set<string>): nat {
    if run == [] then 0
    else
      var last := run[|run| - 1];
      RowsIn(run[..|run| - 1], ids)
      + if last.trialId.Some? && last.trialId.value in ids then 1 else 0
  }

  lemma {:induction false} RowsInBound(run: seq<LadderRow>, ids: set<string>)
    ensures RowsIn(run, ids) <= |run|
    ensures RowsIn(run, ids) == |run| <==>
            forall i | 0 <= i < |run| :: run[i].trialId.Some? && run[i].trialId.value in ids
  {
    if run != [] {
      var n := |run| - 1;
      RowsInBound(run[..n], ids);
      assert forall i | 0 <= i < n :: run[..n][i] == run[i];
    }
  }

  lemma {:induction false} OneMoreTrial(run: seq<LadderRow>, ids: set<string>, id: string)
    requires id !in ids
    ensures RowsIn(run, ids + {id}) == RowsIn(run, ids) + |LevelsOf(run, id)|
  {
    if run != [] {
      OneMoreTrial(run[..|run| - 1], ids, id);
    }
  }

  lemma {:induction false} NoTrialsNoRows(run: seq<LadderRow>)
    ensures RowsIn(run, {}) == 0
  {
    if run != [] {
      NoTrialsNoRows(run[..|run| - 1]);
    }
  }

  lemma {:induction false} EqualTrials(run: seq<LadderRow>, ids: set<string>, size: nat)
    requires forall id | id in ids :: |LevelsOf(run, id)| == size
    ensures RowsIn(run, ids) == |ids| * size
  {
    if ids == {} {
      NoTrialsNoRows(run);
    } else {
      var id :| id in ids;
      var rest := ids - {id};
      EqualTrials(run, rest, size);
      OneMoreTrial(run, rest, id);
      assert ids == rest + {id};
      calc {
        RowsIn(run, ids);
        |rest| * size + size;
        (|rest| + 1) * size;
        |ids| * size;
      }
    }
  }

  lemma LevelsDistinct(levels: seq<u8>)
    requires forall i, j | 0 <= i < j < |levels| :: levels[i] < levels[j]
    ensures multiset(levels) == multiset(Elements(levels)) && |Elements(levels)| == |levels|
  {
    AscendingElements(levels);
    ElementsSize(levels);
  }

  lemma {:induction false} AscendingElements(levels: seq<u8>)
    requires forall i, j | 0 <= i < j < |levels| :: levels[i] < levels[j]
    ensures |Elements(levels)| == |levels|
  {
    if levels != [] {
      var n := |levels| - 1;
      AscendingElements(levels[..n]);
      assert Elements(levels) == Elements(levels[..n]) + {levels[n]};
      assert levels[n] !in Elements(levels[..n]);
    } else {
      assert Elements(levels) == {};
    }
  }

  /** A complete trial recorded each level once, and conversely. */
  lemma TrialCompleteExactly(recorded: seq<u8>, levels: seq<u8>)
    requires forall i, j | 0 <= i < j < |levels| :: levels[i] < levels[j]
    ensures TrialComplete(recorded, levels) <==> multiset(recorded) == multiset(Elements(levels))
  {
    LevelsDistinct(levels);
    ElementsSize(recorded);
    assert (set l | l in recorded) == Elements(recorded);
    assert (set l | l in levels) == Elements(levels);
    if multiset(recorded) == multiset(Elements(levels)) {
      assert |multiset(recorded)| == |Elements(levels)|;
      forall l ensures l in Elements(recorded) <==> l in Elements(levels) {
        assert l in Elements(recorded) <==> l in multiset(recorded);
      }
    }
  }

  /** If the complete trials account for all rows, there are no others. */
  lemma NothingButCompleteTrials(run: seq<LadderRow>, levels: seq<u8>)
    requires |run| == |CompleteTrials(run, levels)| * |levels|
    ensures AllTagged(run) && TrialIds(run) == CompleteTrials(run, levels)
  {
    var good := CompleteTrials(run, levels);
    EqualTrials(run, good, |levels|);
    RowsInBound(run, good);
  }

  lemma CompleteIsFilled(run: seq<LadderRow>, levels: seq<u8>, trials: u32)
    requires forall i, j | 0 <= i < j < |levels| :: levels[i] < levels[j]
    requires |run| == trials * |levels| && |CompleteTrials(run, levels)| == trials
    ensures MatrixFilled(run, levels, trials)
  {
    NothingButCompleteTrials(run, levels);
    var cells, expected := multiset(CellsOf(run)), multiset(Product(TrialIds(run), Elements(levels)));
    forall id: string, l: u8 ensures cells[(id, l)] == expected[(id, l)] {
      CellCount(run, id, l);
      if id in TrialIds(run) {
        TrialCompleteExactly(LevelsOf(run, id), levels);
      } else {
        UnknownTrialEmpty(run, id);
      }
    }
    forall c: (string, u8) ensures cells[c] == expected[c] {
      assert c == (c.0, c.1);
    }
  }

  lemma FilledIsComplete(run: seq<LadderRow>, levels: seq<u8>, trials: u32)
    requires forall i, j | 0 <= i < j < |levels| :: levels[i] < levels[j]
    requires MatrixFilled(run, levels, trials)
    ensures |run| == trials * |levels| && |CompleteTrials(run, levels)| == trials
  {
    LevelsDistinct(levels);
    forall id | id in TrialIds(run) ensures TrialComplete(LevelsOf(run, id), levels) {
      forall l: u8 ensures multiset(LevelsOf(run, id))[l] == multiset(Elements(levels))[l] {
        CellCount(run, id, l);
        assert (id, l) in Product(TrialIds(run), Elements(levels)) <==> l in Elements(levels);
      }
      assert multiset(LevelsOf(run, id)) == multiset(Elements(levels));
      TrialCompleteExactly(LevelsOf(run, id), levels);
    }
    assert CompleteTrials(run, levels) == TrialIds(run);
    EqualTrials(run, TrialIds(run), |levels|);
    RowsInBound(run, TrialIds(run));
    forall i | 0 <= i < |run| ensures run[i].trialId.Some? && run[i].trialId.value in TrialIds(run) {
    }
  }

  /** A run is judged complete exactly when its matrix is exactly filled. */
  lemma CompleteExactly(run: seq<LadderRow>, levels: seq<u8>, trials: u32)
    requires forall i, j | 0 <= i < j < |levels| :: levels[i] < levels[j]
    requires trials * |levels| <= U32_MAX && |levels| <= U32_MAX && |run| <= U32_MAX
    ensures Complete(run, levels, trials) <==> MatrixFilled(run, levels, trials)
  {
    CompleteByCounts(run, levels, trials);
    if Complete(run, levels, trials) {
      CompleteIsFilled(run, levels, trials);
    } else if MatrixFilled(run, levels, trials) {
      FilledIsComplete(run, levels, trials);
    }
  }

  /** Within these bounds no count is truncated and no product saturates. */
  lemma CompleteByCounts(run: seq<LadderRow>, levels: seq<u8>, trials: u32)
    requires trials * |levels| <= U32_MAX && |levels| <= U32_MAX && |run| <= U32_MAX
    ensures Complete(run, levels, trials) <==>
      |run| == trials * |levels| && |CompleteTrials(run, levels)| == trials
  {
    TrialsBounded(run);
    CompleteAmongTrials(run, levels);
  }

  lemma CompleteAmongTrials(run: seq<LadderRow>, levels: seq<u8>)
    ensures |CompleteTrials(run, levels)| <= |TrialIds(run)|
  {
    var ids, good := TrialIds(run), CompleteTrials(run, levels);
    assert ids == good + (ids - good);
  }

  lemma {:induction false} TrialsBounded(run: seq<LadderRow>)
    ensures |TrialIds(run)| <= |run|
  {
    if run == [] {
      assert TrialIds(run) == {};
    } else {
      var n := |run| - 1;
      assert run == run[..n] + [run[n]];
      TrialsBounded(run[..n]);
      TrialIdsExtend(run[..n], run[n]);
    }
  }

  // ----- levels --------------------------------------------------------------------------------

  function RowsAt(run: seq<LadderRow>, level: u8): nat {
    if run == [] then 0
    else RowsAt(run[..|run| - 1], level) + if run[|run| - 1].level == level then 1 else 0
  }

  function PassesAt(run: seq<LadderRow>, level: u8): nat {
    if run == [] then 0
    else
      PassesAt(run[..|run| - 1], level)
      + if run[|run| - 1].level == level && run[|run| - 1].completed then 1 else 0
  }

  lemma {:induction false} PassesWithinRows(run: seq<LadderRow>, level: u8)
    ensures PassesAt(run, level) <= RowsAt(run, level) <= |run|
  {
    if run != [] {
      PassesWithinRows(run[..|run| - 1], level);
    }
  }

  // The same counts, told by the rows of the whole results file.

  /** The rows of a run at a level. */
  ghost function RunLevelRows(rows: seq<LadderRow>, runId: string, level: u8): set<int> {
    Indices(rows, (row: LadderRow) => row.runId == Some(runId) && row.level == level)
  }

  /** Those of them that completed. */
  ghost function RunLevelPasses(rows: seq<LadderRow>, runId: string, level: u8): set<int> {
    Indices(rows, (row: LadderRow) => row.runId == Some(runId) && row.level == level && row.completed)
  }

  lemma RowsAtSnoc(run: seq<LadderRow>, row: LadderRow, level: u8)
    ensures RowsAt(run + [row], level) == RowsAt(run, level) + if row.level == level then 1 else 0
    ensures PassesAt(run + [row], level) == PassesAt(run, level) + if row.level == level && row.completed then 1 else 0
  {
    assert (run + [row])[..|run|] == run;
  }

  lemma RunRowsSnoc(runId: string, rows: seq<LadderRow>)
    requires rows != []
    ensures var front, last := rows[..|rows| - 1], rows[|rows| - 1];
            RunRows(runId, rows)
            == if last.runId == Some(runId) then RunRows(runId, front) + [last] else RunRows(runId, front)
  {
  }

  /** The counters of a level count the rows of the run at that level, and those
      of them that completed. */
  lemma {:induction false} LevelCountsAreRows(rows: seq<LadderRow>, runId: string, level: u8)
    ensures RowsAt(RunRows(runId, rows), level) == |RunLevelRows(rows, runId, level)|
    ensures PassesAt(RunRows(runId, rows), level) == |RunLevelPasses(rows, runId, level)|
  {
    if rows != [] {
      var front, last := rows[..|rows| - 1], rows[|rows| - 1];
      LevelCountsAreRows(front, runId, level);
      IndicesSnoc(rows, (row: LadderRow) => row.runId == Some(runId) && row.level == level);
      IndicesSnoc(rows, (row: LadderRow) => row.runId == Some(runId) && row.level == level && row.completed);
      RunRowsSnoc(runId, rows);
      RowsAtSnoc(RunRows(runId, front), last, level);
    }
  }

  function OfRun(runId: string): LadderRow -> Option<LadderRow> {
    (row: LadderRow) => if row.runId == Some(runId) then Some(row) else None
  }

  lemma {:induction false} RunRowsAreSelected(runId: string, rows: seq<LadderRow>)
    ensures RunRows(runId, rows) == Select(rows, OfRun(runId))
  {
    if rows != [] {
      RunRowsAreSelected(runId, rows[..|rows| - 1]);
    }
  }

  /** The run's rows are exactly those carrying its id, in file order. */
  lemma RunRowsSelected(runId: string, rows: seq<LadderRow>)
    ensures Selects(rows, OfRun(runId), RunRows(runId, rows))
  {
    RunRowsAreSelected(runId, rows);
    SelectSelects(rows, OfRun(runId));
  }

  lemma {:induction false} RunRowsMembers(runId: string, rows: seq<LadderRow>, row: LadderRow)
    ensures row in RunRows(runId, rows) <==> row in rows && row.runId == Some(runId)
  {
    if rows != [] {
      var front, last := rows[..|rows| - 1], rows[|rows| - 1];
      RunRowsMembers(runId, front, row);
      RunRowsSnoc(runId, rows);
      assert rows == front + [last];
    }
  }

  /** Rows of a level, counted trial by trial. */
  function RowsAtIn(run: seq<LadderRow>, ids: set<string>, level: u8): nat {
    if run == [] then 0
    else
      var last := run[|run| - 1];
      RowsAtIn(run[..|run| - 1], ids, level)
      + if last.trialId.Some? && last.trialId.value in ids && last.level == level then 1 else 0
  }

  lemma {:induction false} OneMoreTrialAt(run: seq<LadderRow>, ids: set<string>, id: string, level: u8)
    requires id !in ids
    ensures RowsAtIn(run, ids + {id}, level) == RowsAtIn(run, ids, level) + multiset(LevelsOf(run, id))[level]
  {
    if run != [] {
      OneMoreTrialAt(run[..|run| - 1], ids, id, level);
    }
  }

  ghost predicate OnceEach(run: seq<LadderRow>, ids: set<string>, level: u8) {
    forall id | id in ids :: multiset(LevelsOf(run, id))[level] == 1
  }

  lemma {:induction false} OnePerTrial(run: seq<LadderRow>, ids: set<string>, level: u8)
    requires OnceEach(run, ids, level)
    ensures RowsAtIn(run, ids, level) == |ids|
  {
    if ids == {} {
      NoTrialsNoRowsAt(run, level);
    } else {
      var id :| id in ids;
      OnePerTrial(run, ids - {id}, level);
      OneMoreTrialAt(run, ids - {id}, id, level);
      assert ids == ids - {id} + {id};
    }
  }

  lemma {:induction false} NoTrialsNoRowsAt(run: seq<LadderRow>, level: u8)
    ensures RowsAtIn(run, {}, level) == 0
  {
    if run != [] {
      NoTrialsNoRowsAt(run[..|run| - 1], level);
    }
  }

  lemma {:induction false} AllTrialsAllRowsAt(run: seq<LadderRow>, ids: set<string>, level: u8)
    requires forall i | 0 <= i < |run| :: run[i].trialId.Some? && run[i].trialId.value in ids
    ensures RowsAtIn(run, ids, level) == RowsAt(run, level)
  {
    if run != [] {
      AllTrialsAllRowsAt(run[..|run| - 1], ids, level);
    }
  }

  lemma {:induction false} RowsAtCounts(run: seq<LadderRow>, level: u8)
    ensures RowsAt(run, level) == |Indices(run, (row: LadderRow) => row.level == level)|
  {
    if run != [] {
      RowsAtCounts(run[..|run| - 1], level);
      IndicesSnoc(run, (row: LadderRow) => row.level == level);
    }
  }

  /** In a complete run every expected level was observed exactly `trials`
      times. */
  lemma EveryLevelObserved(run: seq<LadderRow>, levels: seq<u8>, trials: nat, level: u8)
    requires MatrixFilled(run, levels, trials) && level in levels
    ensures RowsAt(run, level) == |Indices(run, (row: LadderRow) => row.level == level)| == trials
  {
    RowsAtCounts(run, level);
    var ids := TrialIds(run);
    forall id | id in ids ensures multiset(LevelsOf(run, id))[level] == 1 {
      CellCount(run, id, level);
      var i :| 0 <= i < |levels| && levels[i] == level;
      assert level in Elements(levels);
      assert (id, level) in Product(ids, Elements(levels));
    }
    OnePerTrial(run, ids, level);
    forall i | 0 <= i < |run| ensures run[i].trialId.Some? && run[i].trialId.value in ids {
    }
    AllTrialsAllRowsAt(run, ids, level);
  }
}
