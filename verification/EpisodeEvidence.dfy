/** Rows written by the runner, read by the strict evidence predicate. */
module EpisodeEvidence {
  import opened Wrappers
  import opened Corpus
  import opened CommandChecks
  import opened EvidenceRows
  import opened Traces
  import opened Episode
  import opened EpisodeContract
  import Decimal
  import Stops
  import Text

  // ----- answers -------------------------------------------------------------------

  /** In every valid task, a segment that matched and paused for input while
      more segments follow finds a non-blank frozen answer. */
  lemma AnswerAlwaysAvailable(ep: Setting, i: nat, p: Process)
    requires ValidTask(ep.task)
    requires i + 1 < |ExpectedTerminals(ep)|
    requires SegmentMatches(ep, i, p) && ObservedOf(p) == Some(Stops.NeedsInput)
    ensures HasText(FrozenAnswer(ep.task))
  {
    assert ExpectedTerminals(ep)[i] == NeedsInput;
    if ep.task.category == RecoveryCategory {
      InjectionFixesOutcome(ep.task, i + 1);
      var injections := ep.task.recovery.value.injections;
      FindInjectionFinds(injections, i + 1);
      var found := InjectionFor(ep.task, i + 1).value;
      var k :| 0 <= k < |injections| && injections[k] == found;
      assert AsksForInput(injections);
    }
  }

  // ----- retained paths ---------------------------------------------------------------

  /** Names that stay one path component. */
  predicate PlainNames(ep: Setting) {
    '/' !in ep.runId && ep.runId != ".." && '/' !in ep.task.id
  }

  lemma {:induction false} JoinKeepsOut(parts: seq<string>, separator: string, c: char)
    requires c !in separator
    requires forall i | 0 <= i < |parts| :: c !in parts[i]
    ensures c !in Text.Join(parts, separator)
  {
    if |parts| >= 2 {
      JoinKeepsOut(parts[1..], separator, c);
    }
  }

  lemma DigitsAreNotSlashes(s: string)
    requires Decimal.AllDigits(s)
    ensures '/' !in s
  {
  }

  lemma TraceNamePlain(ep: Setting, segment: nat)
    requires PlainNames(ep)
    ensures '/' !in RetainedTraceName(ep, segment) && RetainedTraceName(ep, segment) != ".."
  {
    Decimal.PaddedDigits(ep.trial, 3);
    Decimal.PaddedDigits(segment, 2);
    DigitsAreNotSlashes(Decimal.Padded(ep.trial, 3));
    DigitsAreNotSlashes(Decimal.Padded(segment, 2));
    var parts := ["trial", Decimal.Padded(ep.trial, 3), ep.task.id, VariantLabel(ep.variant),
                  ArmLabel(ep.coordinate.arm), PolicyLabel(ep.coordinate.policy),
                  "s" + Decimal.Padded(segment, 2)];
    assert forall i | 0 <= i < |parts| :: '/' !in parts[i];
    JoinKeepsOut(parts, "-", '/');
    assert '/' !in ".jsonl";
  }

  lemma TracePathValid(ep: Setting, segment: nat)
    requires PlainNames(ep)
    ensures ValidTracePath(RetainedTracePath(ep, segment))
  {
    var name := RetainedTraceName(ep, segment);
    TraceNamePlain(ep, segment);
    var parts := ["traces", ep.runId, name];
    assert parts[1..] == [ep.runId, name] && parts[1..][1..] == [name];
    var inner := ep.runId + "/" + name;
    assert Text.Join(parts[1..], "/") == inner;
    assert RetainedTracePath(ep, segment) == "traces" + "/" + inner;
    Text.SplitSlashJoin("traces", inner);
    Text.SplitSlashJoin(ep.runId, name);
    Text.SplitSlashPlain(name);
  }

  // ----- what every loop state records --------------------------------------------------

  /** A segment that raised no issue: understood, and ended unless timed out. */
  predicate Unremarkable(p: Process) {
    && AnalysisOf(p).Some?
    && !(p.timedOut && p.exitCode.Some?)
    && (ObservedOf(p).None? ==> p.timedOut)
  }

  ghost predicate SegmentsFaithful(ep: Setting, segments: seq<Segment>) {
    && |segments| <= |ExpectedTerminals(ep)|
    && forall i | 0 <= i < |segments| ::
         Child(ep, i).Ok? && segments[i] == SegmentRecord(ep, i, Child(ep, i).value)
  }

  ghost predicate Recorded(ep: Setting, st: Loop, k: nat) {
    && SegmentsFaithful(ep, st.segments)
    && |st.segments| <= k
    && (k > 0 ==> st.segments != [])
    && (st.issues == [] ==> forall i | 0 <= i < |st.segments| :: Unremarkable(Child(ep, i).value))
    && (forall i | 0 <= i < |st.segments| - 1 :: !st.segments[i].timedOut)
    && (st.segments != [] && st.segments[|st.segments| - 1].timedOut ==> st.stopped)
    && (!st.stopped ==> |st.segments| == k)
  }

  lemma ObserveRecords(ep: Setting, st: Loop, i: nat, p: Process)
    requires i < |ExpectedTerminals(ep)| && Child(ep, i) == Ok(p)
    requires Recorded(ep, st, i) && !st.stopped
    ensures var seen := Observe(ep, st, i, p);
            && SegmentsFaithful(ep, seen.segments) && |seen.segments| == i + 1
            && (forall j | 0 <= j < i :: !seen.segments[j].timedOut)
            && seen.segments[i].timedOut == p.timedOut
            && (seen.issues == [] ==> forall j | 0 <= j <= i :: Unremarkable(Child(ep, j).value))
  {
    var seen := Observe(ep, st, i, p);
    assert seen.segments == st.segments + [SegmentRecord(ep, i, p)];
    if seen.issues == [] {
      assert st.issues == [] && CaptureIssues(p) == [] && TerminalIssues(InjectionFor(ep.task, i + 1), p) == [];
    }
  }

  lemma ProceedRecords(ep: Setting, seen: Loop, i: nat, p: Process)
    requires i < |ExpectedTerminals(ep)| && Proceed(ep, seen, i, p).Ok?
    ensures var next := Proceed(ep, seen, i, p).value;
            && next.segments == seen.segments
            && (next.issues == [] ==> seen.issues == [])
            && (p.timedOut ==> next.stopped)
  {
    HandOverRecords(ep, seen, i, p);
    if WorkspaceProbe(ep, i).Ok? {
      HandOverRecords(ep, WithProbe(seen, WorkspaceProbe(ep, i).value), i, p);
    }
  }

  lemma HandOverRecords(ep: Setting, st: Loop, i: nat, p: Process)
    requires i < |ExpectedTerminals(ep)|
    ensures var next := HandOver(ep, st, i, p);
            && next.segments == st.segments
            && (next.issues == [] ==> st.issues == [])
            && (p.timedOut ==> next.stopped)
  {
  }

  lemma {:induction false} RunRecords(ep: Setting, k: nat)
    requires k <= |ExpectedTerminals(ep)| && RunTo(ep, k).Ok?
    ensures Recorded(ep, RunTo(ep, k).value, k)
  {
    if k > 0 {
      RunRecords(ep, k - 1);
      var st := RunTo(ep, k - 1).value;
      if !st.stopped {
        assert RunTo(ep, k) == Advance(ep, st, k - 1);
        AdvanceRecords(ep, st, k - 1);
      }
    }
  }

  lemma AdvanceRecords(ep: Setting, st: Loop, i: nat)
    requires i < |ExpectedTerminals(ep)| && Advance(ep, st, i).Ok?
    requires Recorded(ep, st, i) && !st.stopped
    ensures Recorded(ep, Advance(ep, st, i).value, i + 1)
  {
    var p := Child(ep, i).value;
    ObserveRecords(ep, st, i, p);
    ProceedRecords(ep, Observe(ep, st, i, p), i, p);
  }

  // ----- the strict reader ---------------------------------------------------------------

  /** The digest function yields 64 hexadecimal characters. */
  predicate DigestsAreHex(ep: Setting) {
    forall i | 0 <= i < |ep.world.segments| ::
      ep.world.segments[i].Ok? && ep.world.segments[i].value.capture.Retained? ==>
        IsSha256Hex(ep.world.segments[i].value.capture.sha256)
  }

  /** No timed-out child left a session end behind, and no session end is the
      empty string. */
  predicate TerminalSound(p: Process) {
    && (p.timedOut ==> ObservedOf(p).None?)
    && ObservedOf(p) != Some(Stops.Unknown(""))
  }

  lemma RecordRetained(ep: Setting, i: nat, p: Process)
    requires i < |ExpectedTerminals(ep)| && Child(ep, i) == Ok(p)
    requires PlainNames(ep) && DigestsAreHex(ep) && Unremarkable(p)
    ensures SegmentRetained(SegmentRecord(ep, i, p), i)
  {
    TracePathValid(ep, i + 1);
    assert ep.world.segments[i] == Ok(p);
  }

  lemma TimeoutClaimsNothing(ep: Setting, st: Loop)
    requires TimedOut(st.segments) && Finish(ep, st).Ok?
    ensures var row := Finish(ep, st).value;
            !row.contractPassed && !row.objectiveCompleted && row.commandChecks == []
  {
  }

  /** A row without infrastructure error is accepted by the strict reader
      exactly when no timed-out segment carries a terminal and no terminal is
      empty. In any case a timeout is last, has no exit code, is not graded and
      claims no success. */
  lemma RecordedRowsAreStrict(ep: Setting)
    requires ExpectedTerminals(ep) != []
    requires PlainNames(ep) && DigestsAreHex(ep)
    requires Conclude(ep).Ok? && Conclude(ep).value.infrastructureError.None?
    ensures var row := Conclude(ep).value;
            && SegmentsFaithful(ep, row.segments)
            && (StrictEvidence(row) <==> forall i | 0 <= i < |row.segments| :: TerminalSound(Child(ep, i).value))
    ensures var row := Conclude(ep).value;
            forall i | 0 <= i < |row.segments| && row.segments[i].timedOut ::
              && i == |row.segments| - 1 && row.segments[i].exitCode.None?
              && !row.contractPassed && !row.objectiveCompleted && row.commandChecks == []
  {
    var n := |ExpectedTerminals(ep)|;
    RunRecords(ep, n);
    var st := RunTo(ep, n).value;
    var row := Conclude(ep).value;
    assert Finish(ep, st) == Ok(row);
    NoErrorNoIssues(ep, st);
    RowIsStrict(ep, st, row);
  }

  lemma NoErrorNoIssues(ep: Setting, st: Loop)
    requires Finish(ep, st).Ok? && Finish(ep, st).value.infrastructureError.None?
    ensures st.issues == []
    ensures var row := Finish(ep, st).value;
            && row.segments == st.segments
            && row.finalTerminal == if st.segments == [] then None else st.segments[|st.segments| - 1].observed
  {
    assert AllIssues(ep, st) == [];
  }

  lemma RowIsStrict(ep: Setting, st: Loop, row: Outcome)
    requires Recorded(ep, st, |ExpectedTerminals(ep)|) && ExpectedTerminals(ep) != []
    requires PlainNames(ep) && DigestsAreHex(ep)
    requires Finish(ep, st) == Ok(row)
    requires st.issues == [] && row.segments == st.segments
    requires row.finalTerminal == st.segments[|st.segments| - 1].observed
    ensures StrictEvidence(row) <==> forall i | 0 <= i < |row.segments| :: TerminalSound(Child(ep, i).value)
    ensures forall i | 0 <= i < |row.segments| && row.segments[i].timedOut ::
              && i == |row.segments| - 1 && row.segments[i].exitCode.None?
              && !row.contractPassed && !row.objectiveCompleted && row.commandChecks == []
  {
    if TimedOut(st.segments) {
      TimeoutClaimsNothing(ep, st);
    }
    forall i | 0 <= i < |row.segments|
      ensures SegmentRetained(row.segments[i], i)
      ensures row.segments[i].observed == ObservedOf(Child(ep, i).value)
      ensures row.segments[i].timedOut == Child(ep, i).value.timedOut
      ensures row.segments[i].exitCode == Child(ep, i).value.exitCode
      ensures Unremarkable(Child(ep, i).value)
    {
      RecordRetained(ep, i, Child(ep, i).value);
    }
    StrictReading(ep, row);
  }

  lemma StrictReading(ep: Setting, row: Outcome)
    requires row.segments != []
    requires forall i | 0 <= i < |row.segments| ::
               && Child(ep, i).Ok?
               && Unremarkable(Child(ep, i).value)
               && SegmentRetained(row.segments[i], i)
               && row.segments[i].observed == ObservedOf(Child(ep, i).value)
               && row.segments[i].timedOut == Child(ep, i).value.timedOut
               && row.segments[i].exitCode == Child(ep, i).value.exitCode
    requires forall i | 0 <= i < |row.segments| - 1 :: !row.segments[i].timedOut
    requires row.finalTerminal == row.segments[|row.segments| - 1].observed
    requires row.segments[|row.segments| - 1].timedOut ==>
               !row.contractPassed && !row.objectiveCompleted && row.commandChecks == []
    ensures StrictEvidence(row) <==> forall i | 0 <= i < |row.segments| :: TerminalSound(Child(ep, i).value)
  {
    var last := |row.segments| - 1;
    if StrictEvidence(row) {
      forall i | 0 <= i < |row.segments| ensures TerminalSound(Child(ep, i).value) {
        assert i < last ==> HasTerminal(row.segments[i]);
      }
    }
    if forall i | 0 <= i < |row.segments| :: TerminalSound(Child(ep, i).value) {
      forall i | 0 <= i < last ensures HasTerminal(row.segments[i]) {
        assert TerminalSound(Child(ep, i).value);
      }
      assert TerminalSound(Child(ep, last).value);
    }
  }

  // ----- rows the strict reader rejects ------------------------------------------------------

  /** Grading, if it happens at all, finds nothing wrong with the infrastructure. */
  predicate GradesQuietly(ep: Setting) {
    && !ep.world.deadlineExceeded
    && (RequiresCompletion(ep) ==> ep.world.gradingError.None?)
    && !AnyInfrastructureError(ResultsFrom(ep.task.checks, ep.world.grade, 0))
  }

  /** After `k` good segments a child is captured without any issue, and yet its
      terminal is unsound: it was killed after writing its session end, or the
      session end it wrote is the empty string. */
  ghost predicate UnsoundEnding(ep: Setting, k: nat) {
    && ep.world.opening.None? && ep.world.closing.None?
    && k < |ExpectedTerminals(ep)| && GoodUpTo(ep, k)
    && Child(ep, k).Ok?
    && var p := Child(ep, k).value;
    && p.discoveryError.None? && !(p.timedOut && p.exitCode.Some?)
    && AnalysisOf(p).Some? && LinkGood(ep, k)
    && TerminalIssues(InjectionFor(ep.task, k + 1), p) == []
    && ObservedOf(p).Some? && !TerminalSound(p)
    && (k + 1 < |ExpectedTerminals(ep)| && ObservedOf(p) == Some(Stops.NeedsInput) ==>
          HasText(FrozenAnswer(ep.task)))
    && (p.timedOut || GradesQuietly(ep))
  }

  lemma UnsoundObserved(ep: Setting, k: nat, p: Process)
    requires UnsoundEnding(ep, k) && Child(ep, k) == Ok(p)
    ensures var seen := Observe(ep, CleanState(ep, k), k, p);
            && seen.segments == RecordsUpTo(ep, k) + [SegmentRecord(ep, k, p)]
            && seen.issues == [] && !seen.sequenceMatches
    ensures !SegmentMatches(ep, k, p)
  {
    CleanLink(ep, k);
    assert CaptureIssues(p) == [];
  }

  lemma UnsoundHandedOver(ep: Setting, seen: Loop, k: nat, p: Process)
    requires UnsoundEnding(ep, k) && Child(ep, k) == Ok(p) && !SegmentMatches(ep, k, p)
    ensures Proceed(ep, seen, k, p).Ok?
    ensures var next := Proceed(ep, seen, k, p).value;
            && next.segments == seen.segments && next.issues == seen.issues
            && next.sequenceMatches == seen.sequenceMatches && next.stopped
  {
    assert Proceed(ep, seen, k, p) == Ok(HandOver(ep, seen, k, p));
  }

  lemma UnsoundState(ep: Setting, k: nat) returns (st: Loop)
    requires UnsoundEnding(ep, k)
    ensures RunTo(ep, |ExpectedTerminals(ep)|) == Ok(st)
    ensures st.issues == [] && !st.sequenceMatches && |st.segments| == k + 1
    ensures st.segments[k] == SegmentRecord(ep, k, Child(ep, k).value)
  {
    var p := Child(ep, k).value;
    var clean := CleanState(ep, k);
    assert RunTo(ep, k) == Ok(clean) by {
      RunIsClean(ep, k);
    }
    UnsoundObserved(ep, k, p);
    var seen := Observe(ep, clean, k, p);
    UnsoundHandedOver(ep, seen, k, p);
    st := Proceed(ep, seen, k, p).value;
    RunStep(ep, k + 1, clean);
    StoppedStays(ep, k + 1, |ExpectedTerminals(ep)|);
  }

  lemma UnsoundFinish(ep: Setting, k: nat, st: Loop)
    requires UnsoundEnding(ep, k)
    requires st.issues == [] && !st.sequenceMatches && |st.segments| == k + 1
    requires st.segments[k] == SegmentRecord(ep, k, Child(ep, k).value)
    ensures Finish(ep, st).Ok? && Finish(ep, st).value.infrastructureError.None?
    ensures Finish(ep, st).value.segments == st.segments
  {
    var p := Child(ep, k).value;
    assert st.segments[k].timedOut == p.timedOut;
    assert !p.timedOut ==> GradesQuietly(ep);
    assert !AnyInfrastructureError([]);
    assert GradingIssues(ep, st) == [];
    assert AllIssues(ep, st) == [];
  }

  lemma UnsoundNotStrict(outcome: Outcome)
    requires outcome.segments != []
    requires var last := outcome.segments[|outcome.segments| - 1];
             last.observed.Some? && (last.timedOut || last.observed == Some(Stops.Unknown("")))
    ensures !StrictEvidence(outcome)
  {
  }

  /** In every variant and after any number of good segments, such a child yields
      a row without infrastructure error that the strict reader rejects. */
  lemma UnsoundEndingRejected(ep: Setting, k: nat)
    requires UnsoundEnding(ep, k)
    ensures Conclude(ep).Ok? && Conclude(ep).value.infrastructureError.None?
    ensures !StrictEvidence(Conclude(ep).value)
  {
    var st := UnsoundState(ep, k);
    UnsoundFinish(ep, k, st);
    UnsoundNotStrict(Finish(ep, st).value);
  }

  function OneChild(child: Process): Setting {
    Setting(Task("H01", LongHorizon, 1, Terminals(Completed, [Completed], None, None), None, None, ["suite"]),
            Current, "run", 1, Coordinate(Single, Evidence),
            World(None, [Ok(child)], [], Err("unused"), None, _ => Passed, false, None))
  }

  lemma OneChildUnsound(child: Process)
    requires child.discoveryError.None? && !(child.timedOut && child.exitCode.Some?)
    requires AnalysisOf(child).Some? && AnalysisOf(child).value.resumedFrom.None?
    requires ObservedOf(child).Some? && ObservedOf(child).value != Stops.ProviderError && !TerminalSound(child)
    requires IsSha256Hex(child.capture.sha256)
    ensures var ep := OneChild(child);
            UnsoundEnding(ep, 0) && ValidTask(ep.task) && PlainNames(ep) && DigestsAreHex(ep)
  {
    var ep := OneChild(child);
    assert '/' !in "run" && '/' !in "H01" && "run" != "..";
    ResultsFromShape(ep.task.checks, ep.world.grade, 0);
    assert GradesQuietly(ep);
  }

  /** Both kinds exist, even for valid tasks with plain names: a child killed
      after its session end, and one whose session end is empty. */
  lemma UnsoundEndingsExist() returns (late: Setting, empty: Setting)
    ensures UnsoundEnding(late, 0) && ValidTask(late.task) && PlainNames(late) && DigestsAreHex(late)
    ensures Child(late, 0).value.timedOut
    ensures UnsoundEnding(empty, 0) && ValidTask(empty.task) && PlainNames(empty) && DigestsAreHex(empty)
    ensures !Child(empty, 0).value.timedOut
  {
    var digest := seq(64, _ => '0');
    var done := Analysis("s", None, Some(Stops.TaskComplete), [], [], false, 1, [], 1);
    var killed := Process(None, true, None, Retained(digest, Ok(done)));
    OneChildUnsound(killed);
    late := OneChild(killed);
    var silent := Process(Some(1), false, None,
                          Retained(digest, Ok(done.(terminal := Some(Stops.Unknown(""))))));
    OneChildUnsound(silent);
    empty := OneChild(silent);
  }
}
