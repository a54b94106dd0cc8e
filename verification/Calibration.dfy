/** From a ladder run to calibration evidence, and from evidence to a published
    level (`summarize_run`, `required_passes`, `longest_prefix` in `summary.rs`;
    `calibrate_from_evidence` in `calibrate.rs`). */
module Calibration {
  import opened Wrappers
  import opened Machine
  import opened BudgetControls
  import opened Ladder
  import CommandChecks

  // ----- how many passes qualify -----------------------------------------------------------

  /** Enough of `trials` passed for the demanded rate. */
  predicate Sufficient(passes: nat, trials: nat, rate: real)
    requires trials > 0
  {
    passes as real / trials as real >= rate
  }

  function LeastFrom(passes: nat, trials: nat, rate: real): nat
    requires 0 < trials && passes <= trials
    decreases trials - passes
  {
    if Sufficient(passes, trials, rate) then passes
    else if passes < trials then LeastFrom(passes + 1, trials, rate)
    else SatAdd(trials, 1)
  }

  function RequiredPasses(trials: u32, rate: real): nat {
    if trials == 0 then 0 else LeastFrom(0, trials, rate)
  }

  /** No number of passes reaches a rate above one, and then one more than
      `trials` must be representable. */
  predicate NoCeiling(trials: nat, rate: real) {
    trials < U32_MAX || rate <= 1.0
  }

  lemma MorePassesSuffice(few: nat, many: nat, trials: nat, rate: real)
    requires trials > 0 && few <= many && Sufficient(few, trials, rate)
    ensures Sufficient(many, trials, rate)
  {
  }

  lemma {:induction false} LeastFromIsLeast(from: nat, trials: nat, rate: real, passes: nat)
    requires 0 < trials && NoCeiling(trials, rate) && from <= passes <= trials
    ensures passes >= LeastFrom(from, trials, rate) <==> Sufficient(passes, trials, rate)
    decreases trials - from
  {
    if Sufficient(from, trials, rate) {
      MorePassesSuffice(from, passes, trials, rate);
    } else if from < trials {
      if passes > from {
        LeastFromIsLeast(from + 1, trials, rate, passes);
      } else {
        LeastFromAbove(from + 1, trials, rate);
      }
    }
  }

  lemma {:induction false} LeastFromAbove(from: nat, trials: nat, rate: real)
    requires 0 < trials && NoCeiling(trials, rate) && from <= trials
    ensures LeastFrom(from, trials, rate) >= from
    decreases trials - from
  {
    if !Sufficient(from, trials, rate) && from < trials {
      LeastFromAbove(from + 1, trials, rate);
    }
  }

  /** Where no number of passes reaches the rate, one more than there are trials is
      required. */
  lemma OutOfReach(trials: u32, rate: real)
    requires 0 < trials && rate > 1.0
    ensures RequiredPasses(trials, rate) == SatAdd(trials, 1)
  {
    NoneSuffices(0, trials, rate);
  }

  lemma {:induction false} NoneSuffices(passes: nat, trials: nat, rate: real)
    requires 0 < trials && passes <= trials && rate > 1.0
    ensures LeastFrom(passes, trials, rate) == SatAdd(trials, 1)
    decreases trials - passes
  {
    assert passes as real / trials as real <= 1.0;
    if passes < trials {
      NoneSuffices(passes + 1, trials, rate);
    }
  }

  /** The required number of passes is the least one that reaches the rate. */
  lemma RequiredPassesIsLeast(trials: u32, rate: real, passes: nat)
    requires 0 < trials && NoCeiling(trials, rate) && passes <= trials
    ensures passes >= RequiredPasses(trials, rate) <==> Sufficient(passes, trials, rate)
  {
    LeastFromIsLeast(0, trials, rate, passes);
  }

  // ----- the longest qualified prefix ----------------------------------------------------------

  function PrefixFrom(levels: seq<u8>, level: u8): Option<u8>
    decreases 256 - level
  {
    if level !in levels then if level == 0 then None else Some(level - 1)
    else if level == 255 then Some(255)
    else PrefixFrom(levels, level + 1)
  }

  /** The highest `L` such that all of `0..=L` are listed. */
  function LongestPrefix(levels: seq<u8>): Option<u8> {
    PrefixFrom(levels, 0)
  }

  ghost predicate AllUpTo(levels: seq<u8>, top: int) {
    forall l: u8 | l <= top :: l in levels
  }

  lemma {:induction false} PrefixFromExactly(levels: seq<u8>, level: u8)
    requires AllUpTo(levels, level - 1)
    ensures var found := PrefixFrom(levels, level);
            && (found.None? ==> 0 !in levels)
            && (found.Some? ==> AllUpTo(levels, found.value) && (found.value < 255 ==> found.value + 1 !in levels))
    decreases 256 - level
  {
    if level in levels && level < 255 {
      PrefixFromExactly(levels, level + 1);
    }
  }

  // ----- evidence ----------------------------------------------------------------------------------

  /** Why a run may not be published; a diagnostic run names the budgets it
      changed. */
  datatype Reason = PartialLadder | Incomplete | InfrastructureError | Diagnostic(scaled: bool, capped: bool)

  datatype Evidence = Evidence(
    runId: string, summaryFile: string, trials: u32, minPassRate: real, requiredPasses: nat,
    qualifiedLevels: seq<u8>, fullLadder: bool, complete: bool, infrastructureClean: bool, eligible: bool,
    measuredLevel: Option<u8>, reason: Option<Reason>, diagnostic: bool, controls: Option<seq<Controls>>)

  function ControlsOf(e: Evidence): seq<Controls> {
    if e.controls.Some? then e.controls.value else []
  }

  predicate AnyDiagnostic(controls: seq<Controls>) {
    exists i | 0 <= i < |controls| :: DiagnosticControls(controls[i])
  }

  /** Recorded coordinates decide, not only the derived flag. */
  predicate IsDiagnostic(e: Evidence) {
    e.diagnostic || AnyDiagnostic(ControlsOf(e))
  }

  function AddControl(known: Option<seq<Controls>>, c: Controls): Option<seq<Controls>> {
    var list := if known.Some? then known.value else [];
    Some(if c in list then list else list + [c])
  }

  function AddControls(known: Option<seq<Controls>>, batch: seq<Controls>): Option<seq<Controls>> {
    if batch == [] then known
    else AddControl(AddControls(known, batch[..|batch| - 1]), batch[|batch| - 1])
  }

  function Settle(e: Evidence): Evidence {
    if IsDiagnostic(e) then
      e.(diagnostic := true, eligible := false, measuredLevel := None, reason := Some(DiagnosticReason(ControlsOf(e))))
    else e
  }

  function DiagnosticReason(controls: seq<Controls>): Reason {
    Diagnostic(exists i :: 0 <= i < |controls| && controls[i].timeoutScale != 1.0,
               exists i :: 0 <= i < |controls| && controls[i].maxOutputTokens.Some?)
  }

  /** The evidence after recording a batch of controls. */
  function RecordControls(e: Evidence, batch: seq<Controls>): Evidence {
    Settle(e.(controls := AddControls(e.controls, batch)))
  }

  /** The mutable record kept by a run. */
  class EvidenceCell {
    var value: Evidence

    constructor (initial: Evidence)
      ensures value == initial
    {
      value := initial;
    }

    /** `record_budget_controls`: add each control once, then settle. */
    method RecordBudgetControls(batch: seq<Controls>)
      modifies this
      ensures value == RecordControls(old(value), batch)
    {
      var known := value.controls;
      for n := 0 to |batch|
        invariant value == old(value)
        invariant known == AddControls(old(value).controls, batch[..n])
      {
        assert batch[..n + 1][..n] == batch[..n];
        var list := if known.Some? then known.value else [];
        if batch[n] !in list {
          list := list + [batch[n]];
        }
        known := Some(list);
      }
      assert batch[..|batch|] == batch;
      value := value.(controls := known);
      if IsDiagnostic(value) {
        value := value.(diagnostic := true, eligible := false, measuredLevel := None);
        value := value.(reason := Some(DiagnosticReason(ControlsOf(value))));
      }
    }
  }

  function Known(controls: Option<seq<Controls>>): seq<Controls> {
    if controls.Some? then controls.value else []
  }

  lemma AddedControl(known: Option<seq<Controls>>, c: Controls)
    ensures AnyDiagnostic(Known(AddControl(known, c))) <==> AnyDiagnostic(Known(known)) || DiagnosticControls(c)
  {
    var list := Known(known);
    if c in list {
      var i :| 0 <= i < |list| && list[i] == c;
    } else {
      AnyDiagnosticAppend(list, c);
    }
  }

  lemma {:induction false} AddedControls(known: Option<seq<Controls>>, batch: seq<Controls>)
    ensures AnyDiagnostic(Known(AddControls(known, batch))) <==> AnyDiagnostic(Known(known)) || AnyDiagnostic(batch)
  {
    if batch != [] {
      var front, last := batch[..|batch| - 1], batch[|batch| - 1];
      AddedControls(known, front);
      AddedControl(AddControls(known, front), last);
      AnyDiagnosticAppend(front, last);
      assert batch == front + [last];
    }
  }

  lemma AnyDiagnosticAppend(list: seq<Controls>, c: Controls)
    ensures AnyDiagnostic(list + [c]) <==> AnyDiagnostic(list) || DiagnosticControls(c)
  {
    var all := list + [c];
    assert all[|list|] == c;
    if AnyDiagnostic(list) {
      var i :| 0 <= i < |list| && DiagnosticControls(list[i]);
      assert DiagnosticControls(all[i]);
    }
  }

  /** Diagnosis is sticky: recording never clears it and detects every modified
      budget. */
  lemma RecordControlsSticky(e: Evidence, batch: seq<Controls>)
    ensures IsDiagnostic(RecordControls(e, batch)) <==> IsDiagnostic(e) || AnyDiagnostic(batch)
    ensures IsDiagnostic(RecordControls(e, batch)) ==> !RecordControls(e, batch).eligible
  {
    AddedControls(e.controls, batch);
  }

  // ----- the run summary -----------------------------------------------------------------------------

  datatype LadderSpec = LadderSpec(
    runId: string, trials: u32, minPassRate: real, levels: seq<u8>, fullLadder: bool)

  predicate RowClean(row: LadderRow) {
    row.infrastructureError.None? && !CommandChecks.AnyInfrastructureError(row.commandChecks)
  }

  predicate Clean(run: seq<LadderRow>, issues: seq<string>) {
    issues == [] && forall i | 0 <= i < |run| :: RowClean(run[i])
  }

  predicate LevelQualified(spec: LadderSpec, run: seq<LadderRow>, level: u8) {
    && AsU32(RowsAt(run, level)) == spec.trials
    && AsU32(PassesAt(run, level)) >= RequiredPasses(spec.trials, spec.minPassRate)
  }

  function QualifiedAmong(spec: LadderSpec, run: seq<LadderRow>, levels: seq<u8>): seq<u8> {
    if levels == [] then []
    else
      var last := levels[|levels| - 1];
      QualifiedAmong(spec, run, levels[..|levels| - 1])
      + if LevelQualified(spec, run, last) then [last] else []
  }

  function RecordedControls(run: seq<LadderRow>): seq<Controls> {
    if run == [] then []
    else
      var last := run[|run| - 1];
      RecordedControls(run[..|run| - 1]) + if last.controls.Some? then [last.controls.value] else []
  }

  function SummaryFile(runId: string): string {
    "summary-" + runId + ".json"
  }

  /** The evidence before any budget controls are recorded. */
  function BaseEvidence(spec: LadderSpec, run: seq<LadderRow>, issues: seq<string>): Evidence {
    var levels := AscendingLevels(spec.levels);
    var qualified := QualifiedAmong(spec, run, levels);
    var complete, clean := Complete(run, levels, spec.trials), Clean(run, issues);
    var eligible := spec.fullLadder && complete && clean;
    Evidence(spec.runId, SummaryFile(spec.runId), spec.trials, spec.minPassRate,
             RequiredPasses(spec.trials, spec.minPassRate), qualified, spec.fullLadder, complete, clean,
             eligible, if eligible then LongestPrefix(qualified) else None,
             if !spec.fullLadder then Some(PartialLadder)
             else if !complete then Some(Incomplete)
             else if !clean then Some(InfrastructureError)
             else None,
             false, None)
  }

  /** The calibration evidence of `summarize_run`. */
  function Summarize(spec: LadderSpec, rows: seq<LadderRow>, issues: seq<string>): Evidence {
    var run := Ladder.RunRows(spec.runId, rows);
    RecordControls(BaseEvidence(spec, run, issues), RecordedControls(run))
  }

  // ----- publication -----------------------------------------------------------------------------------

  predicate LevelsUnique(levels: seq<u8>) {
    forall i, j | 0 <= i < j < |levels| :: levels[i] != levels[j]
  }

  predicate NumbersValid(e: Evidence) {
    && 1 <= e.trials <= 100
    && 0.0 < e.minPassRate <= 1.0
    && e.requiredPasses == RequiredPasses(e.trials, e.minPassRate)
    && LevelsUnique(e.qualifiedLevels)
    && (forall i | 0 <= i < |e.qualifiedLevels| :: e.qualifiedLevels[i] <= 6)
  }

  predicate AttributionValid(e: Evidence) {
    e.runId != "" && e.summaryFile == SummaryFile(e.runId)
  }

  /** The level `calibrate_from_evidence` publishes; `None` when it refuses. */
  function Calibrate(e: Evidence): Option<Option<u8>> {
    if e.eligible && !IsDiagnostic(e) && e.fullLadder && e.complete && e.infrastructureClean
       && e.measuredLevel == LongestPrefix(e.qualifiedLevels) && NumbersValid(e) && AttributionValid(e)
    then Some(LongestPrefix(e.qualifiedLevels))
    else None
  }

  // ----- soundness and completeness -----------------------------------------------------------------------

  predicate SpecValid(spec: LadderSpec) {
    && 1 <= spec.trials <= 100
    && 0.0 < spec.minPassRate <= 1.0
    && spec.runId != ""
    && forall i | 0 <= i < |spec.levels| :: spec.levels[i] <= 6
  }

  lemma {:induction false} QualifiedMembers(spec: LadderSpec, run: seq<LadderRow>, levels: seq<u8>)
    requires forall i, j | 0 <= i < j < |levels| :: levels[i] < levels[j]
    ensures var q := QualifiedAmong(spec, run, levels);
            && (forall l: u8 :: l in q <==> l in levels && LevelQualified(spec, run, l))
            && LevelsUnique(q)
  {
    if levels != [] {
      var n := |levels| - 1;
      QualifiedMembers(spec, run, levels[..n]);
      assert levels == levels[..n] + [levels[n]];
      assert levels[n] !in levels[..n];
    }
  }

  lemma BaseNumbersValid(spec: LadderSpec, run: seq<LadderRow>, issues: seq<string>)
    requires SpecValid(spec)
    ensures NumbersValid(BaseEvidence(spec, run, issues)) && AttributionValid(BaseEvidence(spec, run, issues))
  {
    var levels := AscendingLevels(spec.levels);
    QualifiedMembers(spec, run, levels);
    var q := QualifiedAmong(spec, run, levels);
    forall i | 0 <= i < |q| ensures q[i] <= 6 {
      assert q[i] in levels;
    }
  }

  lemma FreshEvidenceCalibrates(e: Evidence, batch: seq<Controls>)
    requires NumbersValid(e) && AttributionValid(e)
    requires !e.diagnostic && e.controls.None?
    requires e.eligible == (e.fullLadder && e.complete && e.infrastructureClean)
    requires e.eligible ==> e.measuredLevel == LongestPrefix(e.qualifiedLevels)
    ensures Calibrate(RecordControls(e, batch)).Some? <==> e.eligible && !AnyDiagnostic(batch)
    ensures Calibrate(RecordControls(e, batch)).Some? <==> RecordControls(e, batch).eligible
  {
    AddedControls(None, batch);
  }

  /** A run with sound parameters is published exactly when it is a complete,
      clean full ladder without modified budgets. */
  lemma CalibratedExactly(spec: LadderSpec, rows: seq<LadderRow>, issues: seq<string>)
    requires SpecValid(spec)
    ensures var run := Ladder.RunRows(spec.runId, rows);
            Calibrate(Summarize(spec, rows, issues)).Some? <==>
            && spec.fullLadder
            && Complete(run, AscendingLevels(spec.levels), spec.trials)
            && Clean(run, issues)
            && !AnyDiagnostic(RecordedControls(run))
    ensures Calibrate(Summarize(spec, rows, issues)).Some? <==> Summarize(spec, rows, issues).eligible
  {
    var run := Ladder.RunRows(spec.runId, rows);
    BaseNumbersValid(spec, run, issues);
    FreshEvidenceCalibrates(BaseEvidence(spec, run, issues), RecordedControls(run));
  }

  /** A summary says why exactly when it may not be published; if budgets were
      changed it says which, whatever else is wrong. */
  lemma IneligibleSaysWhy(spec: LadderSpec, rows: seq<LadderRow>, issues: seq<string>)
    ensures var e, recorded := Summarize(spec, rows, issues), RecordedControls(Ladder.RunRows(spec.runId, rows));
            && (e.reason.None? <==> e.eligible)
            && (AnyDiagnostic(recorded) <==> e.reason.Some? && e.reason.value.Diagnostic?)
            && (e.reason == Some(PartialLadder) <==> !AnyDiagnostic(recorded) && !e.fullLadder)
            && (e.reason == Some(Incomplete) <==> !AnyDiagnostic(recorded) && e.fullLadder && !e.complete)
            && (e.reason == Some(InfrastructureError) <==>
                  !AnyDiagnostic(recorded) && e.fullLadder && e.complete && !e.infrastructureClean)
            && (AnyDiagnostic(recorded) ==>
                  && (e.reason.value.scaled <==> exists i | 0 <= i < |recorded| :: recorded[i].timeoutScale != 1.0)
                  && (e.reason.value.capped <==> exists i | 0 <= i < |recorded| :: recorded[i].maxOutputTokens.Some?))
  {
    var recorded := RecordedControls(Ladder.RunRows(spec.runId, rows));
    AddedControls(None, recorded);
    AddedMembers(recorded);
    SameReason(Known(AddControls(None, recorded)), recorded);
  }

  /** The recorded list has exactly the controls of the batch. */
  lemma {:induction false} AddedMembers(batch: seq<Controls>)
    ensures forall c :: c in Known(AddControls(None, batch)) <==> c in batch
  {
    if batch != [] {
      var front, last := batch[..|batch| - 1], batch[|batch| - 1];
      AddedMembers(front);
      assert batch == front + [last];
    }
  }

  lemma SameReason(a: seq<Controls>, b: seq<Controls>)
    requires forall c :: c in a <==> c in b
    ensures DiagnosticReason(a) == DiagnosticReason(b)
  {
    ReasonWithin(a, b);
    ReasonWithin(b, a);
  }

  lemma ReasonWithin(a: seq<Controls>, b: seq<Controls>)
    requires forall c :: c in a ==> c in b
    ensures DiagnosticReason(a).scaled ==> DiagnosticReason(b).scaled
    ensures DiagnosticReason(a).capped ==> DiagnosticReason(b).capped
  {
    if i :| 0 <= i < |a| && a[i].timeoutScale != 1.0 {
      assert a[i] in b;
      var j :| 0 <= j < |b| && b[j] == a[i];
      assert b[j].timeoutScale != 1.0;
    }
    if i :| 0 <= i < |a| && a[i].maxOutputTokens.Some? {
      assert a[i] in b;
      var j :| 0 <= j < |b| && b[j] == a[i];
      assert b[j].maxOutputTokens.Some?;
    }
  }

  /** A level was earned, told by the results file: the run has exactly one row
      per trial at that level, and those that completed reach the demanded rate. */
  ghost predicate Earned(spec: LadderSpec, rows: seq<LadderRow>, level: u8)
    requires spec.trials > 0
  {
    && level in spec.levels
    && |RunLevelRows(rows, spec.runId, level)| == spec.trials
    && |RunLevelPasses(rows, spec.runId, level)| as real / spec.trials as real >= spec.minPassRate
  }

  lemma QualifiedIsEarned(spec: LadderSpec, rows: seq<LadderRow>, level: u8)
    requires SpecValid(spec) && |Ladder.RunRows(spec.runId, rows)| <= U32_MAX && level in spec.levels
    ensures LevelQualified(spec, Ladder.RunRows(spec.runId, rows), level) <==> Earned(spec, rows, level)
  {
    var run := Ladder.RunRows(spec.runId, rows);
    LevelCountsAreRows(rows, spec.runId, level);
    PassesWithinRows(run, level);
    if RowsAt(run, level) == spec.trials {
      RequiredPassesIsLeast(spec.trials, spec.minPassRate, PassesAt(run, level));
    }
  }

  /** A published level `L` means that every level up to `L` was earned and
      level `L + 1` was not; publishing no level means level 0 was not earned. */
  lemma PublishedLevelMeans(spec: LadderSpec, rows: seq<LadderRow>, issues: seq<string>)
    requires SpecValid(spec) && |Ladder.RunRows(spec.runId, rows)| <= U32_MAX
    requires Calibrate(Summarize(spec, rows, issues)).Some?
    ensures var published := Calibrate(Summarize(spec, rows, issues)).value;
            && (published.None? <==> !Earned(spec, rows, 0))
            && (published.Some? ==>
                  && published.value <= 6
                  && (forall l: u8 | l <= published.value :: Earned(spec, rows, l))
                  && !Earned(spec, rows, published.value + 1))
  {
    var run := Ladder.RunRows(spec.runId, rows);
    var levels := AscendingLevels(spec.levels);
    var q := QualifiedAmong(spec, run, levels);
    QualifiedMembers(spec, run, levels);
    PrefixFromExactly(q, 0);
    var published := LongestPrefix(q);
    assert Calibrate(Summarize(spec, rows, issues)).value == published;
    forall l: u8 ensures l in q <==> Earned(spec, rows, l) {
      assert l in levels <==> l in spec.levels;
      if l in spec.levels {
        QualifiedIsEarned(spec, rows, l);
      }
    }
    if published.Some? {
      assert published.value in q && published.value in spec.levels;
    }
  }

  /** A level none of whose rows completed is never published, nor is any above
      it. */
  lemma FailedLevelNeverPublished(spec: LadderSpec, rows: seq<LadderRow>, issues: seq<string>, level: u8)
    requires SpecValid(spec) && |Ladder.RunRows(spec.runId, rows)| <= U32_MAX
    requires forall i | 0 <= i < |rows| && rows[i].runId == Some(spec.runId) && rows[i].level == level ::
               !rows[i].completed
    ensures var published := Calibrate(Summarize(spec, rows, issues));
            published.Some? && published.value.Some? ==> published.value.value < level
  {
    NothingEarned(spec, rows, level);
    if Calibrate(Summarize(spec, rows, issues)).Some? {
      PublishedLevelMeans(spec, rows, issues);
    }
  }

  lemma NothingEarned(spec: LadderSpec, rows: seq<LadderRow>, level: u8)
    requires SpecValid(spec)
    requires forall i | 0 <= i < |rows| && rows[i].runId == Some(spec.runId) && rows[i].level == level ::
               !rows[i].completed
    ensures !Earned(spec, rows, level)
  {
    assert RunLevelPasses(rows, spec.runId, level) == {};
  }

  // ----- publication, row by row -----------------------------------------------------------

  /** Nothing about the row speaks against publishing: no infrastructure error,
      no check that could not run, and no changed budget. */
  predicate Blameless(row: LadderRow) {
    && row.infrastructureError == None
    && (forall j | 0 <= j < |row.commandChecks| :: row.commandChecks[j].status != CommandChecks.InfrastructureError)
    && (row.controls.Some? ==> row.controls.value.timeoutScale == 1.0 && row.controls.value.maxOutputTokens == None)
  }

  lemma {:induction false} RecordedFromRows(run: seq<LadderRow>)
    ensures forall c :: c in RecordedControls(run) <==> exists i | 0 <= i < |run| :: run[i].controls == Some(c)
  {
    if run != [] {
      var n := |run| - 1;
      RecordedFromRows(run[..n]);
      forall c ensures c in RecordedControls(run) <==> exists i | 0 <= i < |run| :: run[i].controls == Some(c) {
        if i :| 0 <= i < n && run[..n][i].controls == Some(c) {
          assert run[i].controls == Some(c);
        }
        if i :| 0 <= i < |run| && run[i].controls == Some(c) {
          assert i < n ==> run[..n][i].controls == Some(c);
        }
      }
    }
  }

  lemma BlamelessRun(run: seq<LadderRow>)
    ensures (forall i | 0 <= i < |run| :: RowClean(run[i])) && !AnyDiagnostic(RecordedControls(run))
            <==> forall i | 0 <= i < |run| :: Blameless(run[i])
  {
    RecordedFromRows(run);
    var recorded := RecordedControls(run);
    if AnyDiagnostic(recorded) {
      var k :| 0 <= k < |recorded| && DiagnosticControls(recorded[k]);
      assert recorded[k] in recorded;
      var i :| 0 <= i < |run| && run[i].controls == Some(recorded[k]);
      assert !Blameless(run[i]);
    } else if forall i | 0 <= i < |run| :: RowClean(run[i]) {
      forall i | 0 <= i < |run| ensures Blameless(run[i]) {
        assert RowClean(run[i]);
        if run[i].controls.Some? {
          assert run[i].controls == Some(run[i].controls.value);
          assert run[i].controls.value in recorded;
          var k :| 0 <= k < |recorded| && recorded[k] == run[i].controls.value;
          assert !DiagnosticControls(recorded[k]);
        }
      }
    } else {
      var i :| 0 <= i < |run| && !RowClean(run[i]);
      assert !Blameless(run[i]);
    }
  }

  /** A run is published exactly when it is a full ladder, nothing went wrong
      around it, every row is blameless, and the rows fill the matrix of trials
      and levels exactly. */
  lemma PublishedExactly(spec: LadderSpec, rows: seq<LadderRow>, issues: seq<string>)
    requires SpecValid(spec) && |Ladder.RunRows(spec.runId, rows)| <= U32_MAX
    ensures Calibrate(Summarize(spec, rows, issues)).Some? <==>
            && spec.fullLadder && issues == []
            && (forall i | 0 <= i < |rows| && rows[i].runId == Some(spec.runId) :: Blameless(rows[i]))
            && MatrixFilled(Ladder.RunRows(spec.runId, rows), AscendingLevels(spec.levels), spec.trials)
  {
    var run := Ladder.RunRows(spec.runId, rows);
    CalibratedExactly(spec, rows, issues);
    BlamelessRun(run);
    BlamelessRows(spec.runId, rows);
    LevelsAreFew(spec);
    CompleteExactly(run, AscendingLevels(spec.levels), spec.trials);
  }

  lemma BlamelessRows(runId: string, rows: seq<LadderRow>)
    ensures var run := Ladder.RunRows(runId, rows);
            (forall i | 0 <= i < |run| :: Blameless(run[i]))
            <==> forall i | 0 <= i < |rows| && rows[i].runId == Some(runId) :: Blameless(rows[i])
  {
    var run := Ladder.RunRows(runId, rows);
    forall i | 0 <= i < |rows| && rows[i].runId == Some(runId) ensures rows[i] in run {
      RunRowsMembers(runId, rows, rows[i]);
    }
    forall i | 0 <= i < |run| ensures OfThisRun(runId, rows, run[i]) {
      RunRowsMembers(runId, rows, run[i]);
    }
  }

  ghost predicate OfThisRun(runId: string, rows: seq<LadderRow>, row: LadderRow) {
    exists i | 0 <= i < |rows| :: rows[i] == row && rows[i].runId == Some(runId)
  }

  lemma LevelsAreFew(spec: LadderSpec)
    requires SpecValid(spec)
    ensures |AscendingLevels(spec.levels)| <= 7
    ensures spec.trials * |AscendingLevels(spec.levels)| <= U32_MAX
  {
    var levels := AscendingLevels(spec.levels);
    if levels != [] {
      var last := |levels| - 1;
      ClimbsWithIndex(levels, last);
      assert levels[last] in spec.levels;
    }
    assert spec.trials * |levels| <= 100 * |levels|;
  }

  // ----- published runs exist ----------------------------------------------------------------

  lemma {:induction false} ClimbsWithIndex(levels: seq<u8>, i: nat)
    requires i < |levels| && forall j, k | 0 <= j < k < |levels| :: levels[j] < levels[k]
    ensures levels[i] >= i
  {
    if i > 0 {
      ClimbsWithIndex(levels, i - 1);
    }
  }

  lemma OneLevel()
    ensures AscendingLevels([0]) == [0]
  {
    var levels := AscendingLevels([0]);
    assert 0 in levels;
    var last := |levels| - 1;
    ClimbsWithIndex(levels, last);
    assert levels[last] in [0];
  }

  lemma OneLevelComplete(row: LadderRow, id: string)
    requires row.trialId == Some(id) && row.level == 0
    ensures Complete([row], [0], 1)
  {
    var run := [row];
    assert run[..0] == [];
    assert LevelsOf(run, id) == [0];
    assert run[0].trialId == Some(id);
    assert TrialIds(run) == {id};
    assert CompleteTrials(run, [0]) == {id};
  }

  lemma OneRowCounts(row: LadderRow)
    requires row.completed && row.level == 0 && row.runId.Some?
    ensures Ladder.RunRows(row.runId.value, [row]) == [row]
    ensures PassesAt([row], 0) == 1 && RowsAt([row], 0) == 1
    ensures row.controls.None? ==> RecordedControls([row]) == []
  {
    assert [row][..0] == [];
  }

  /** A one-trial full ladder of level 0. */
  predicate OneTrial(spec: LadderSpec) {
    spec.trials == 1 && spec.minPassRate == 1.0 && spec.levels == [0] && spec.fullLadder && spec.runId != ""
  }

  predicate PassesCleanly(spec: LadderSpec, row: LadderRow) {
    && row.runId == Some(spec.runId) && row.trialId.Some? && row.level == 0 && row.completed
    && row.infrastructureError.None? && row.commandChecks == [] && row.controls.None?
  }

  lemma OneTrialPublishes(spec: LadderSpec, row: LadderRow)
    requires OneTrial(spec) && PassesCleanly(spec, row)
    ensures SpecValid(spec) && Calibrate(Summarize(spec, [row], [])).Some?
  {
    OneLevel();
    OneLevelComplete(row, row.trialId.value);
    OneRowCounts(row);
    CalibratedExactly(spec, [row], []);
  }

  lemma OneTrialEarned(spec: LadderSpec, row: LadderRow)
    requires OneTrial(spec) && PassesCleanly(spec, row)
    ensures forall l: u8 :: Earned(spec, [row], l) <==> l == 0
  {
    assert RunLevelRows([row], spec.runId, 0) == {0} && RunLevelPasses([row], spec.runId, 0) == {0};
  }

  /** Passing it cleanly publishes level 0: calibration is not empty. */
  lemma PassingLevelPublished(spec: LadderSpec, row: LadderRow)
    requires OneTrial(spec) && PassesCleanly(spec, row)
    ensures Calibrate(Summarize(spec, [row], [])) == Some(Some(0))
  {
    OneTrialPublishes(spec, row);
    OneTrialEarned(spec, row);
    OneRowCounts(row);
    PublishedLevelMeans(spec, [row], []);
    ReadLevel(spec, [row], Calibrate(Summarize(spec, [row], [])).value);
  }

  lemma ReadLevel(spec: LadderSpec, run: seq<LadderRow>, published: Option<u8>)
    requires spec.trials > 0 && forall l: u8 :: Earned(spec, run, l) <==> l == 0
    requires published.None? ==> !Earned(spec, run, 0)
    requires published.Some? ==> published.value <= 6 && forall l: u8 | l <= published.value :: Earned(spec, run, l)
    ensures published == Some(0)
  {
    assert published.Some?;
    assert Earned(spec, run, published.value);
  }
}
