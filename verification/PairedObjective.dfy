/** The paired objective statistic and the per-arm rates it must agree with
    (`summarize_paired_objective`, `PairTally` and `rate_summary`). */
module PairedObjective {
  import opened Wrappers
  import opened Machine
  import opened EvidenceRows
  import opened PairedSummary
  import opened PairedRuns
  import opened Counting

  // ----- tallying outcomes ------------------------------------------------------------

  predicate Completed(row: Row) {
    row.outcome.objectiveCompleted
  }

  /** How many pairs ended with these two outcomes. */
  function Cell(pairs: seq<Pair>, control: bool, candidate: bool): nat {
    if pairs == [] then 0
    else
      var last := pairs[|pairs| - 1];
      Cell(pairs[..|pairs| - 1], control, candidate)
      + if Completed(last.control) == control && Completed(last.candidate) == candidate then 1 else 0
  }

  lemma CellStep(pairs: seq<Pair>, pair: Pair, control: bool, candidate: bool)
    ensures Cell(pairs + [pair], control, candidate)
            == Cell(pairs, control, candidate)
               + if Completed(pair.control) == control && Completed(pair.candidate) == candidate then 1 else 0
  {
    assert (pairs + [pair])[..|pairs|] == pairs;
  }

  /** The four outcomes of a pair are exhaustive and exclusive. */
  lemma {:induction false} CellsCountPairs(pairs: seq<Pair>)
    ensures Cell(pairs, true, false) + Cell(pairs, false, true) + Cell(pairs, true, true) + Cell(pairs, false, false)
            == |pairs|
  {
    if pairs != [] {
      CellsCountPairs(pairs[..|pairs| - 1]);
    }
  }

  /** The pairs whose two rows reached these objectives. */
  ghost function PairsWith(pairs: seq<Pair>, control: bool, candidate: bool): set<int> {
    Indices(pairs, (pair: Pair) => pair.control.outcome.objectiveCompleted == control
                                   && pair.candidate.outcome.objectiveCompleted == candidate)
  }

  /** A cell is a number of pairs. */
  lemma {:induction false} CellIsCount(pairs: seq<Pair>, control: bool, candidate: bool)
    ensures Cell(pairs, control, candidate) == |PairsWith(pairs, control, candidate)|
  {
    if pairs != [] {
      CellIsCount(pairs[..|pairs| - 1], control, candidate);
      IndicesSnoc(pairs, (pair: Pair) => pair.control.outcome.objectiveCompleted == control
                                         && pair.candidate.outcome.objectiveCompleted == candidate);
    }
  }

  class PairTally {
    var firstWins: u32
    var secondWins: u32
    var both: u32
    var neither: u32

    constructor ()
      ensures firstWins == secondWins == both == neither == 0
    {
      firstWins, secondWins, both, neither := 0, 0, 0, 0;
    }

    /** Exactly one cell grows, and it saturates. */
    method Record(first: bool, second: bool)
      modifies this
      ensures firstWins == if first && !second then SatAdd(old(firstWins), 1) else old(firstWins)
      ensures secondWins == if !first && second then SatAdd(old(secondWins), 1) else old(secondWins)
      ensures both == if first && second then SatAdd(old(both), 1) else old(both)
      ensures neither == if !first && !second then SatAdd(old(neither), 1) else old(neither)
    {
      match (first, second) {
        case (true, false) => firstWins := SatAdd(firstWins, 1);
        case (false, true) => secondWins := SatAdd(secondWins, 1);
        case (true, true) => both := SatAdd(both, 1);
        case (false, false) => neither := SatAdd(neither, 1);
      }
    }

    function Pairs(): nat
      reads this
    {
      SatAdd(SatAdd(SatAdd(firstWins, secondWins), both), neither)
    }

    /** Second-arm rate minus first-arm rate over all recorded pairs. */
    function SecondMinusFirst(): Option<real>
      reads this
    {
      var first, second := SatAdd(firstWins, both), SatAdd(secondWins, both);
      if Pairs() > 0 then Some((second as real - first as real) / Pairs() as real) else None
    }
  }

  // ----- outcomes by task, variant and trial ----------------------------------------------

  type TaskVariant = (string, string)

  predicate AtCell(pair: Pair, cell: TaskVariant, trial: nat) {
    && (pair.candidate.taskId, pair.candidate.variant) == cell
    && pair.candidate.trial == trial
  }

  /** What a map filled pair by pair holds for a task, variant and trial. */
  function Recorded(pairs: seq<Pair>, cell: TaskVariant, trial: nat): Option<bool> {
    if pairs == [] then None
    else if AtCell(pairs[|pairs| - 1], cell, trial) then Some(Completed(pairs[|pairs| - 1].candidate))
    else Recorded(pairs[..|pairs| - 1], cell, trial)
  }

  /** Among trials one to three, all present, at least two were completed. */
  predicate TwoOfThree(one: Option<bool>, two: Option<bool>, three: Option<bool>) {
    && one.Some? && two.Some? && three.Some?
    && ((one.value && two.value) || (one.value && three.value) || (two.value && three.value))
  }

  ghost predicate Qualifies(pairs: seq<Pair>, cell: TaskVariant) {
    TwoOfThree(Recorded(pairs, cell, 1), Recorded(pairs, cell, 2), Recorded(pairs, cell, 3))
  }

  lemma {:induction false} RecordedKeeps(pairs: seq<Pair>, k: nat, cell: TaskVariant, trial: nat)
    requires k < |pairs| && AtCell(pairs[k], cell, trial)
    requires forall j | 0 <= j < |pairs| && j != k :: !AtCell(pairs[j], cell, trial)
    ensures Recorded(pairs, cell, trial) == Some(Completed(pairs[k].candidate))
  {
    var n := |pairs| - 1;
    if k < n {
      RecordedKeeps(pairs[..n], k, cell, trial);
    }
  }

  /** No eligible pair's outcome is lost: the per-trial map returns each one. */
  lemma NothingOverwritten(rows: seq<Row>, serverOk: ServerCheck, k: nat)
    requires k < |EligiblePairs(rows, serverOk)|
    ensures var pairs := EligiblePairs(rows, serverOk);
            var pair := pairs[k].candidate;
            Recorded(pairs, (pair.taskId, pair.variant), pair.trial) == Some(Completed(pair))
  {
    EligiblePairsDistinct(rows, serverOk);
    var pairs := EligiblePairs(rows, serverOk);
    var row := pairs[k].candidate;
    forall j | 0 <= j < |pairs| && j != k ensures !AtCell(pairs[j], (row.taskId, row.variant), row.trial) {
      assert j < k ==> !SameCell(pairs[j], pairs[k]);
      assert j > k ==> !SameCell(pairs[k], pairs[j]);
    }
    RecordedKeeps(pairs, k, (row.taskId, row.variant), row.trial);
  }

  // ----- the summary -------------------------------------------------------------------------

  datatype PairedObjectiveSummary = PairedObjectiveSummary(
    expectedPairs: nat, eligiblePairs: nat, excludedPairs: nat, controlWins: nat, candidateWins: nat,
    bothCompleted: nat, neitherCompleted: nat, delta: Option<real>, qualifying: set<TaskVariant>,
    thresholdMet: bool)

  function Delta(pairs: seq<Pair>): Option<real> {
    if pairs == [] then None
    else Some((Cell(pairs, false, true) as real - Cell(pairs, true, false) as real) / |pairs| as real)
  }

  type TrialMap = map<TaskVariant, map<nat, bool>>

  function Get(trials: map<nat, bool>, trial: nat): Option<bool> {
    if trial in trials then Some(trials[trial]) else None
  }

  function Lookup(m: TrialMap, cell: TaskVariant, trial: nat): Option<bool> {
    if cell in m then Get(m[cell], trial) else None
  }

  ghost predicate Holds(m: TrialMap, pairs: seq<Pair>) {
    forall cell: TaskVariant, trial: nat :: Lookup(m, cell, trial) == Recorded(pairs, cell, trial)
  }

  function Store(m: TrialMap, pair: Pair): TrialMap {
    var row := pair.candidate;
    var cell := (row.taskId, row.variant);
    m[cell := (if cell in m then m[cell] else map[])[row.trial := Completed(row)]]
  }

  lemma StoreHolds(m: TrialMap, pairs: seq<Pair>, pair: Pair)
    requires Holds(m, pairs)
    ensures Holds(Store(m, pair), pairs + [pair])
  {
    assert (pairs + [pair])[..|pairs|] == pairs;
    forall cell: TaskVariant, trial: nat
      ensures Lookup(Store(m, pair), cell, trial) == Recorded(pairs + [pair], cell, trial)
    {
      assert Lookup(m, cell, trial) == Recorded(pairs, cell, trial);
    }
  }

  /** Fills the tally and the per-trial map in one pass over the pairs. */
  method TallyPairs(pairs: seq<Pair>, tally: PairTally) returns (trials: TrialMap)
    requires tally.firstWins == tally.secondWins == tally.both == tally.neither == 0
    modifies tally
    ensures tally.firstWins == Capped(Cell(pairs, true, false)) && tally.secondWins == Capped(Cell(pairs, false, true))
    ensures tally.both == Capped(Cell(pairs, true, true)) && tally.neither == Capped(Cell(pairs, false, false))
    ensures Holds(trials, pairs)
  {
    trials := map[];
    for n := 0 to |pairs|
      invariant tally.firstWins == Capped(Cell(pairs[..n], true, false))
      invariant tally.secondWins == Capped(Cell(pairs[..n], false, true))
      invariant tally.both == Capped(Cell(pairs[..n], true, true))
      invariant tally.neither == Capped(Cell(pairs[..n], false, false))
      invariant Holds(trials, pairs[..n])
    {
      var upto := pairs[..n];
      assert pairs[..n + 1] == upto + [pairs[n]];
      CellStep(upto, pairs[n], true, false);
      CellStep(upto, pairs[n], false, true);
      CellStep(upto, pairs[n], true, true);
      CellStep(upto, pairs[n], false, false);
      tally.Record(Completed(pairs[n].control), Completed(pairs[n].candidate));
      StoreHolds(trials, upto, pairs[n]);
      trials := Store(trials, pairs[n]);
    }
    assert pairs[..|pairs|] == pairs;
  }

  function QualifyingCells(trials: TrialMap): set<TaskVariant> {
    set cell | cell in trials && TwoOfThree(Get(trials[cell], 1), Get(trials[cell], 2), Get(trials[cell], 3))
  }

  lemma QualifyingExactly(trials: TrialMap, pairs: seq<Pair>)
    requires Holds(trials, pairs)
    ensures forall cell: TaskVariant :: cell in QualifyingCells(trials) <==> Qualifies(pairs, cell)
  {
    forall cell: TaskVariant ensures cell in QualifyingCells(trials) <==> Qualifies(pairs, cell) {
      assert Lookup(trials, cell, 1) == Recorded(pairs, cell, 1);
      assert Lookup(trials, cell, 2) == Recorded(pairs, cell, 2);
      assert Lookup(trials, cell, 3) == Recorded(pairs, cell, 3);
    }
  }

  lemma CellsAreCounts(pairs: seq<Pair>)
    ensures Cell(pairs, true, false) == |PairsWith(pairs, true, false)|
    ensures Cell(pairs, false, true) == |PairsWith(pairs, false, true)|
    ensures Cell(pairs, true, true) == |PairsWith(pairs, true, true)|
    ensures Cell(pairs, false, false) == |PairsWith(pairs, false, false)|
  {
    CellIsCount(pairs, true, false);
    CellIsCount(pairs, false, true);
    CellIsCount(pairs, true, true);
    CellIsCount(pairs, false, false);
  }

  // The threshold, told by the candidate rows.

  /** Some candidate row of the pairs ran this trial of the combination. */
  ghost predicate Ran(pairs: seq<Pair>, cell: TaskVariant, trial: nat) {
    exists k | 0 <= k < |pairs| ::
      && pairs[k].candidate.taskId == cell.0 && pairs[k].candidate.variant == cell.1
      && pairs[k].candidate.trial == trial
  }

  /** And it reached the objective. */
  ghost predicate Reached(pairs: seq<Pair>, cell: TaskVariant, trial: nat) {
    exists k | 0 <= k < |pairs| ::
      && pairs[k].candidate.taskId == cell.0 && pairs[k].candidate.variant == cell.1
      && pairs[k].candidate.trial == trial
      && pairs[k].candidate.outcome.objectiveCompleted
  }

  ghost predicate CellsDiffer(pairs: seq<Pair>) {
    forall j, k | 0 <= j < k < |pairs| :: !SameCell(pairs[j], pairs[k])
  }

  lemma RecordedExactly(pairs: seq<Pair>, cell: TaskVariant, trial: nat)
    requires CellsDiffer(pairs)
    ensures Recorded(pairs, cell, trial).Some? <==> Ran(pairs, cell, trial)
    ensures Recorded(pairs, cell, trial) == Some(true) <==> Reached(pairs, cell, trial)
  {
    if k :| 0 <= k < |pairs| && AtCell(pairs[k], cell, trial) {
      forall j | 0 <= j < |pairs| && j != k ensures !AtCell(pairs[j], cell, trial) {
        assert j < k ==> !SameCell(pairs[j], pairs[k]);
        assert k < j ==> !SameCell(pairs[k], pairs[j]);
      }
      RecordedKeeps(pairs, k, cell, trial);
      assert Ran(pairs, cell, trial);
    } else {
      NothingRecorded(pairs, cell, trial);
    }
  }

  lemma {:induction false} NothingRecorded(pairs: seq<Pair>, cell: TaskVariant, trial: nat)
    requires forall k | 0 <= k < |pairs| :: !AtCell(pairs[k], cell, trial)
    ensures Recorded(pairs, cell, trial).None?
  {
    if pairs != [] {
      NothingRecorded(pairs[..|pairs| - 1], cell, trial);
    }
  }

  /** The first three trials that reached the objective. */
  ghost function ReachedTrials(pairs: seq<Pair>, cell: TaskVariant): set<nat> {
    set trial: nat | 1 <= trial <= 3 && Reached(pairs, cell, trial)
  }

  lemma AtLeastTwo(a: bool, b: bool, c: bool, s: set<nat>)
    requires forall t :: t in s <==> (t == 1 && a) || (t == 2 && b) || (t == 3 && c)
    ensures |s| >= 2 <==> (a && b) || (a && c) || (b && c)
  {
    if a && b {
      assert {1, 2} <= s;
      SubsetSize({1, 2}, s);
    } else if a && c {
      assert {1, 3} <= s;
      SubsetSize({1, 3}, s);
    } else if b && c {
      assert {2, 3} <= s;
      SubsetSize({2, 3}, s);
    } else if a {
      assert s == {1};
    } else if b {
      assert s == {2};
    } else {
      SubsetSize(s, {3});
    }
  }

  /** A task and variant qualify exactly when each of the first three trials ran
      and at least two of them reached the objective. */
  lemma QualifiesMeans(pairs: seq<Pair>, cell: TaskVariant)
    requires CellsDiffer(pairs)
    ensures Qualifies(pairs, cell) <==>
            && Ran(pairs, cell, 1) && Ran(pairs, cell, 2) && Ran(pairs, cell, 3)
            && |ReachedTrials(pairs, cell)| >= 2
  {
    RecordedExactly(pairs, cell, 1);
    RecordedExactly(pairs, cell, 2);
    RecordedExactly(pairs, cell, 3);
    AtLeastTwo(Reached(pairs, cell, 1), Reached(pairs, cell, 2), Reached(pairs, cell, 3), ReachedTrials(pairs, cell));
  }

  /** For every row set: the combinations that meet the threshold are those whose
      eligible candidate rows reached the objective in two of the first three
      trials, all three being present. */
  lemma ThresholdMeans(rows: seq<Row>, serverOk: ServerCheck, cell: TaskVariant)
    ensures var pairs := EligiblePairs(rows, serverOk);
            Qualifies(pairs, cell) <==>
            && Ran(pairs, cell, 1) && Ran(pairs, cell, 2) && Ran(pairs, cell, 3)
            && |ReachedTrials(pairs, cell)| >= 2
  {
    EligiblePairsDistinct(rows, serverOk);
    QualifiesMeans(EligiblePairs(rows, serverOk), cell);
  }

  /** The summary of any number of pairs; only counters beyond 32 bits are cut
      off. */
  method SummarizePairedObjective(expectedPairs: nat, pairs: seq<Pair>) returns (s: PairedObjectiveSummary)
    ensures s.expectedPairs == expectedPairs
    ensures s.eligiblePairs == Capped(|pairs|) && s.excludedPairs == SatSub(expectedPairs, Capped(|pairs|))
    ensures s.controlWins == Capped(|PairsWith(pairs, true, false)|)
    ensures s.candidateWins == Capped(|PairsWith(pairs, false, true)|)
    ensures s.bothCompleted == Capped(|PairsWith(pairs, true, true)|)
    ensures s.neitherCompleted == Capped(|PairsWith(pairs, false, false)|)
    ensures |pairs| <= U32_MAX ==> s.delta == Delta(pairs)
    ensures forall cell: TaskVariant :: cell in s.qualifying <==> Qualifies(pairs, cell)
    ensures s.thresholdMet <==> exists cell: TaskVariant :: Qualifies(pairs, cell)
  {
    var tally := new PairTally();
    var trials := TallyPairs(pairs, tally);
    CellsCountPairs(pairs);
    CellsAreCounts(pairs);
    QualifyingExactly(trials, pairs);
    var qualifying := QualifyingCells(trials);
    s := PairedObjectiveSummary(
      expectedPairs, tally.Pairs(), SatSub(expectedPairs, tally.Pairs()), tally.firstWins, tally.secondWins,
      tally.both, tally.neither, tally.SecondMinusFirst(), qualifying, qualifying != {});
    if qualifying != {} {
      var cell :| cell in qualifying;
      assert Qualifies(pairs, cell);
    }
  }

  // ----- agreement with the per-arm rates --------------------------------------------------------

  function CountIf(rows: seq<Row>, counted: Row -> bool): nat {
    if rows == [] then 0
    else CountIf(rows[..|rows| - 1], counted) + if counted(rows[|rows| - 1]) then 1 else 0
  }

  datatype RateSummary = RateSummary(
    observed: nat, scoreable: nat, infrastructureFailures: nat, objectiveCompletions: nat, objectiveRate: real)

  function OfArm(arm: Arm): Row -> bool {
    (row: Row) => row.arm == arm
  }

  function CompletedOfArm(arm: Arm): Row -> bool {
    (row: Row) => row.arm == arm && Completed(row)
  }

  function Ratio(numerator: nat, denominator: nat): real {
    if denominator == 0 then 0.0 else numerator as real / denominator as real
  }

  /** `rate_summary` for one arm. */
  function ArmRate(observed: seq<Row>, scoreable: seq<Row>, arm: Arm): RateSummary {
    var seen := AsU32(CountIf(observed, OfArm(arm)));
    var scored := AsU32(CountIf(scoreable, OfArm(arm)));
    var completions := AsU32(CountIf(scoreable, CompletedOfArm(arm)));
    RateSummary(seen, scored, SatSub(seen, scored), completions, Ratio(completions, scored))
  }

  lemma CountAppendTwo(rows: seq<Row>, a: Row, b: Row, counted: Row -> bool)
    ensures CountIf(rows + [a, b], counted)
            == CountIf(rows, counted) + (if counted(a) then 1 else 0) + (if counted(b) then 1 else 0)
  {
    var all := rows + [a, b];
    assert all[..|all| - 1] == rows + [a];
    assert (rows + [a])[..|rows|] == rows;
  }

  ghost predicate ArmsInPlace(pairs: seq<Pair>) {
    forall k | 0 <= k < |pairs| :: pairs[k].control.arm == Control && pairs[k].candidate.arm == Candidate
  }

  lemma {:induction false} ArmsBalanced(pairs: seq<Pair>)
    requires ArmsInPlace(pairs)
    ensures CountIf(Flatten(pairs), OfArm(Control)) == |pairs|
    ensures CountIf(Flatten(pairs), OfArm(Candidate)) == |pairs|
    ensures CountIf(Flatten(pairs), CompletedOfArm(Control)) == Cell(pairs, true, false) + Cell(pairs, true, true)
    ensures CountIf(Flatten(pairs), CompletedOfArm(Candidate)) == Cell(pairs, false, true) + Cell(pairs, true, true)
  {
    if pairs != [] {
      var n := |pairs| - 1;
      var front, last := pairs[..n], pairs[n];
      ArmsBalanced(front);
      var flat := Flatten(front);
      CountAppendTwo(flat, last.control, last.candidate, OfArm(Control));
      CountAppendTwo(flat, last.control, last.candidate, OfArm(Candidate));
      CountAppendTwo(flat, last.control, last.candidate, CompletedOfArm(Control));
      CountAppendTwo(flat, last.control, last.candidate, CompletedOfArm(Candidate));
    }
  }

  lemma DifferenceOfRates(a: nat, b: nat, c: nat, n: nat)
    requires n > 0
    ensures (b as real - a as real) / n as real
            == (b + c) as real / n as real - (a + c) as real / n as real
  {
  }

  /** The rate of an arm with these counts, none of which is truncated. */
  lemma ArmRateIs(observed: seq<Row>, scoreable: seq<Row>, arm: Arm, scored: nat, completions: nat)
    requires completions <= scored <= U32_MAX
    requires CountIf(scoreable, OfArm(arm)) == scored
    requires CountIf(scoreable, CompletedOfArm(arm)) == completions
    ensures ArmRate(observed, scoreable, arm).scoreable == scored
    ensures ArmRate(observed, scoreable, arm).objectiveRate == Ratio(completions, scored)
  {
    SmallIsExact(scored);
    SmallIsExact(completions);
  }

  lemma DeltaIs(pairs: seq<Pair>, control: real, candidate: real)
    requires pairs != []
    requires control == Ratio(Cell(pairs, true, false) + Cell(pairs, true, true), |pairs|)
    requires candidate == Ratio(Cell(pairs, false, true) + Cell(pairs, true, true), |pairs|)
    ensures Delta(pairs) == Some(candidate - control)
  {
    DifferenceOfRates(Cell(pairs, true, false), Cell(pairs, false, true), Cell(pairs, true, true), |pairs|);
  }

  lemma ArmsRead(pairs: seq<Pair>, rows: seq<Row>)
    requires |pairs| <= U32_MAX && ArmsInPlace(pairs)
    ensures var flat := Flatten(pairs);
            && ArmRate(rows, flat, Control).scoreable == ArmRate(rows, flat, Candidate).scoreable == |pairs|
            && ArmRate(rows, flat, Control).objectiveRate
               == Ratio(Cell(pairs, true, false) + Cell(pairs, true, true), |pairs|)
            && ArmRate(rows, flat, Candidate).objectiveRate
               == Ratio(Cell(pairs, false, true) + Cell(pairs, true, true), |pairs|)
  {
    ArmsBalanced(pairs);
    CellsCountPairs(pairs);
    ArmRateIs(rows, Flatten(pairs), Control, |pairs|, Cell(pairs, true, false) + Cell(pairs, true, true));
    ArmRateIs(rows, Flatten(pairs), Candidate, |pairs|, Cell(pairs, false, true) + Cell(pairs, true, true));
  }

  lemma SoundStatistics(pairs: seq<Pair>, rows: seq<Row>)
    requires |pairs| <= U32_MAX && ArmsInPlace(pairs)
    ensures var control, candidate := ArmRate(rows, Flatten(pairs), Control), ArmRate(rows, Flatten(pairs), Candidate);
            && control.scoreable == candidate.scoreable == |pairs|
            && control.objectiveRate == Ratio(|ControlReached(pairs)|, |pairs|)
            && candidate.objectiveRate == Ratio(|CandidateReached(pairs)|, |pairs|)
            && (pairs != [] ==> Delta(pairs) == Some(candidate.objectiveRate - control.objectiveRate))
  {
    ArmCounts(pairs);
    ArmsRead(pairs, rows);
    if pairs != [] {
      DeltaIs(pairs, ArmRate(rows, Flatten(pairs), Control).objectiveRate,
              ArmRate(rows, Flatten(pairs), Candidate).objectiveRate);
    }
  }

  lemma EligibleArms(rows: seq<Row>, serverOk: ServerCheck)
    ensures ArmsInPlace(EligiblePairs(rows, serverOk))
  {
    var pairs := EligiblePairs(rows, serverOk);
    PairsSound(rows, serverOk);
    forall k | 0 <= k < |pairs| ensures pairs[k].control.arm == Control && pairs[k].candidate.arm == Candidate {
      assert SoundPair(pairs[k], rows, serverOk);
    }
  }

  /** For every row set, complete or not: both arms score exactly the eligible
      pairs, and the paired delta is the difference of the two arms' rates. */
  lemma PairedStatisticsAgree(rows: seq<Row>, serverOk: ServerCheck)
    requires |EligiblePairs(rows, serverOk)| <= U32_MAX
    ensures var pairs := EligiblePairs(rows, serverOk);
            var control, candidate := ArmRate(rows, Flatten(pairs), Control), ArmRate(rows, Flatten(pairs), Candidate);
            && control.scoreable == candidate.scoreable == |pairs|
            && control.objectiveRate == Ratio(|ControlReached(pairs)|, |pairs|)
            && candidate.objectiveRate == Ratio(|CandidateReached(pairs)|, |pairs|)
            && (pairs != [] ==> Delta(pairs) == Some(candidate.objectiveRate - control.objectiveRate))
    ensures var pairs := EligiblePairs(rows, serverOk);
            && Unscored(ArmRate(rows, Flatten(pairs), Control), Control, rows, |pairs|)
            && Unscored(ArmRate(rows, Flatten(pairs), Candidate), Candidate, rows, |pairs|)
  {
    EligibleArms(rows, serverOk);
    ObservedRows(rows, Control);
    ObservedRows(rows, Candidate);
    SoundStatistics(EligiblePairs(rows, serverOk), rows);
  }

  /** All rows of the arm are observed, and those that are not in a pair are its
      failures. */
  ghost predicate Unscored(rate: RateSummary, arm: Arm, rows: seq<Row>, pairs: nat) {
    && rate.observed == AsU32(|Indices(rows, (row: Row) => row.arm == arm)|)
    && rate.infrastructureFailures == if rate.observed < pairs then 0 else rate.observed - pairs
  }

  lemma {:induction false} ObservedRows(rows: seq<Row>, arm: Arm)
    ensures CountIf(rows, OfArm(arm)) == |Indices(rows, (row: Row) => row.arm == arm)|
  {
    if rows != [] {
      ObservedRows(rows[..|rows| - 1], arm);
      IndicesSnoc(rows, (row: Row) => row.arm == arm);
    }
  }

  /** The pairs whose control reached the objective. */
  ghost function ControlReached(pairs: seq<Pair>): set<int> {
    Indices(pairs, (pair: Pair) => pair.control.outcome.objectiveCompleted)
  }

  ghost function CandidateReached(pairs: seq<Pair>): set<int> {
    Indices(pairs, (pair: Pair) => pair.candidate.outcome.objectiveCompleted)
  }

  lemma {:induction false} ArmCounts(pairs: seq<Pair>)
    ensures |ControlReached(pairs)| == Cell(pairs, true, false) + Cell(pairs, true, true)
    ensures |CandidateReached(pairs)| == Cell(pairs, false, true) + Cell(pairs, true, true)
  {
    if pairs != [] {
      ArmCounts(pairs[..|pairs| - 1]);
      IndicesSnoc(pairs, (pair: Pair) => pair.control.outcome.objectiveCompleted);
      IndicesSnoc(pairs, (pair: Pair) => pair.candidate.outcome.objectiveCompleted);
    }
  }
}
