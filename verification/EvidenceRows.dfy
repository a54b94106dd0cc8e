/** Persisted evidence of one autonomy episode, and the predicates that later
    readers apply to it (`ferric-bench/src/autonomy_results.rs`). */
module EvidenceRows {
  import opened Wrappers
  import opened CommandChecks
  import Corpus
  import Stops
  import Text

  datatype Arm = Single | Control | Candidate

  datatype Policy = Legacy | Evidence | EvidencePlanner

  function ArmLabel(arm: Arm): string {
    match arm
    case Single => "single"
    case Control => "control"
    case Candidate => "candidate"
  }

  function PolicyLabel(policy: Policy): string {
    match policy
    case Legacy => "legacy"
    case Evidence => "evidence"
    case EvidencePlanner => "evidence_planner"
  }

  datatype Coordinate = Coordinate(arm: Arm, policy: Policy)

  /** One process segment as recorded in the row. */
  datatype Segment = Segment(
    number: nat, expected: Corpus.TerminalOutcome, observed: Option<Stops.StopReason>, exitCode: Option<int>,
    timedOut: bool, tracePath: Option<string>, traceSha256: Option<string>, structureValidated: bool)

  datatype Probe = Probe(mode: Corpus.RefusalMode, attempted: bool, rejected: bool)

  /** The behavioural part of a result row. */
  datatype Outcome = Outcome(
    contractPassed: bool, objectiveCompleted: bool, infrastructureError: Option<string>,
    finalTerminal: Option<Stops.StopReason>, segments: seq<Segment>,
    clarificationExpected: bool, clarificationObserved: bool, clarificationCorrect: bool,
    unnecessaryClarification: bool, resumesExpected: nat, resumesObserved: nat,
    recoverySucceeded: bool, refusalProbes: seq<Probe>, commandChecks: seq<CheckResult>)

  /** Exactly 64 hexadecimal characters. */
  predicate IsSha256Hex(s: string) {
    && |s| == 64
    && forall i | 0 <= i < |s| :: '0' <= s[i] <= '9' || 'a' <= s[i] <= 'f' || 'A' <= s[i] <= 'F'
  }

  predicate ValidSha256(s: Option<string>) {
    s.Some? && IsSha256Hex(s.value)
  }

  /** A non-empty relative path all of whose components are ordinary names.
      A leading `.`, any `..` and a leading `/` are special components; empty
      and later `.` parts disappear when a path is read. */
  predicate ValidTracePath(path: string) {
    && path != ""
    && var parts := Text.SplitSlash(path);
    && parts[0] != "" && parts[0] != "."
    && forall i | 0 <= i < |parts| :: parts[i] != ".."
  }

  /** A valid path does not start at the root or with the current directory, and
      never goes up. */
  lemma TracePathExactly(path: string)
    ensures ValidTracePath(path) <==>
            && path != "" && path != "." && !("/" <= path) && !("./" <= path)
            && ".." !in Text.SplitSlash(path)
  {
    if path != "" && !("/" <= path) {
      assert Text.SplitSlash(path)[0] == [path[0]] + Text.SplitSlash(path[1..])[0];
      if |path| > 1 {
        assert Text.SplitSlash(path[1..])[0] == "" <==> path[1] == '/';
      }
    }
  }

  predicate SegmentRetained(segment: Segment, index: nat) {
    && segment.number == index + 1
    && segment.tracePath.Some? && ValidTracePath(segment.tracePath.value)
    && ValidSha256(segment.traceSha256)
    && segment.structureValidated
  }

  predicate HasTerminal(segment: Segment) {
    segment.observed.Some? && segment.observed.value != Stops.Unknown("")
  }

  predicate ClaimsNothing(outcome: Outcome) {
    && !outcome.contractPassed
    && !outcome.objectiveCompleted
    && outcome.finalTerminal.None?
    && outcome.commandChecks == []
  }

  /** What a strict reader accepts: numbered, retained and validated segments;
      every segment ended, except that the last one may have timed out, in
      which case it has neither terminal nor exit code and the row claims
      nothing. */
  predicate StrictEvidence(outcome: Outcome) {
    var last := |outcome.segments| - 1;
    && outcome.segments != []
    && (forall i | 0 <= i <= last :: SegmentRetained(outcome.segments[i], i))
    && (forall i | 0 <= i < last :: !outcome.segments[i].timedOut && HasTerminal(outcome.segments[i]))
    && (if outcome.segments[last].timedOut then
          && outcome.segments[last].observed.None?
          && outcome.segments[last].exitCode.None?
          && ClaimsNothing(outcome)
        else HasTerminal(outcome.segments[last]))
  }

  /** The segment ended, or it is the last one and timed out without a trace of
      an ending. */
  predicate EndsInPlace(outcome: Outcome, i: nat)
    requires i < |outcome.segments|
  {
    var segment := outcome.segments[i];
    if segment.timedOut then i == |outcome.segments| - 1 && segment.observed.None? && segment.exitCode.None?
    else HasTerminal(segment)
  }

  predicate SegmentAccepted(outcome: Outcome, i: nat)
    requires i < |outcome.segments|
  {
    SegmentRetained(outcome.segments[i], i) && EndsInPlace(outcome, i)
  }

  lemma StrictBySegment(outcome: Outcome)
    requires outcome.segments != []
    ensures StrictEvidence(outcome) <==>
      && (forall i | 0 <= i < |outcome.segments| :: SegmentAccepted(outcome, i))
      && (outcome.segments[|outcome.segments| - 1].timedOut ==> ClaimsNothing(outcome))
  {
    var last := |outcome.segments| - 1;
    if StrictEvidence(outcome) {
      forall i | 0 <= i <= last ensures SegmentAccepted(outcome, i) {
        assert SegmentRetained(outcome.segments[i], i);
      }
    } else if forall i | 0 <= i <= last :: SegmentAccepted(outcome, i) {
      assert SegmentAccepted(outcome, last);
      forall i | 0 <= i < last
        ensures !outcome.segments[i].timedOut && HasTerminal(outcome.segments[i])
      {
        assert SegmentAccepted(outcome, i);
      }
      forall i | 0 <= i <= last ensures SegmentRetained(outcome.segments[i], i) {
        assert SegmentAccepted(outcome, i);
      }
    }
  }

  /** One iteration: the segment must be retained, and a timeout must be last. */
  method CheckSegment(outcome: Outcome, index: nat, sawTimeout: bool) returns (accepted: bool, timeout: bool)
    requires index < |outcome.segments| && !sawTimeout
    ensures accepted <==> SegmentAccepted(outcome, index)
    ensures accepted ==> (timeout <==> outcome.segments[index].timedOut)
    ensures accepted && timeout ==> index + 1 == |outcome.segments|
  {
    var segment := outcome.segments[index];
    timeout := sawTimeout;
    if !SegmentRetained(segment, index) {
      return false, timeout;
    }
    if segment.timedOut {
      if sawTimeout || index + 1 != |outcome.segments| || segment.observed.Some? {
        return false, timeout;
      }
      timeout := true;
      if segment.exitCode.Some? {
        return false, timeout;
      }
    } else if !HasTerminal(segment) {
      return false, timeout;
    }
    return true, timeout;
  }

  /** `strict_retained_trace_evidence_valid`: one pass with a timeout flag. */
  method StrictEvidenceValid(outcome: Outcome) returns (valid: bool)
    ensures valid <==> StrictEvidence(outcome)
  {
    if outcome.segments == [] {
      return false;
    }
    StrictBySegment(outcome);
    var sawTimeout := false;
    for index := 0 to |outcome.segments|
      invariant forall i | 0 <= i < index :: SegmentAccepted(outcome, i)
      invariant sawTimeout <==> index == |outcome.segments| && outcome.segments[index - 1].timedOut
    {
      var accepted;
      accepted, sawTimeout := CheckSegment(outcome, index, sawTimeout);
      if !accepted {
        return false;
      }
    }
    return !sawTimeout || ClaimsNothing(outcome);
  }

  /** The reader of schema-one rows: no segment may have timed out. */
  predicate LegacyEvidence(outcome: Outcome) {
    && outcome.segments != []
    && forall i | 0 <= i < |outcome.segments| ::
         && SegmentRetained(outcome.segments[i], i)
         && !outcome.segments[i].timedOut
         && HasTerminal(outcome.segments[i])
  }

  // ----- the two readers, spelled out -------------------------------------------------------------

  /** A segment that can be traced: numbered in order, with a relative trace path,
      a 64-digit digest and a validated structure. */
  ghost predicate Traceable(segment: Segment, index: nat) {
    && segment.number == index + 1
    && segment.structureValidated
    && segment.tracePath.Some? && ValidTracePath(segment.tracePath.value)
    && segment.traceSha256.Some? && |segment.traceSha256.value| == 64
    && forall i | 0 <= i < 64 ::
         var c := segment.traceSha256.value[i]; '0' <= c <= '9' || 'a' <= c <= 'f' || 'A' <= c <= 'F'
  }

  lemma TraceableExactly(segment: Segment, index: nat)
    ensures SegmentRetained(segment, index) <==> Traceable(segment, index)
  {
  }

  lemma AllTraceable(outcome: Outcome)
    ensures (forall i | 0 <= i < |outcome.segments| :: SegmentRetained(outcome.segments[i], i))
            <==> forall i | 0 <= i < |outcome.segments| :: Traceable(outcome.segments[i], i)
  {
    forall i | 0 <= i < |outcome.segments|
      ensures SegmentRetained(outcome.segments[i], i) <==> Traceable(outcome.segments[i], i)
    {
      TraceableExactly(outcome.segments[i], i);
    }
  }

  /** The strict reader: every segment is traceable and ended with a non-empty
      reason; or the last one alone timed out, without reason or exit code, and
      the row claims no success and no checks. */
  lemma StrictExactly(outcome: Outcome)
    ensures StrictEvidence(outcome) <==>
            && outcome.segments != []
            && (forall i | 0 <= i < |outcome.segments| :: Traceable(outcome.segments[i], i))
            && (forall i | 0 <= i < |outcome.segments| - 1 :: Ended(outcome.segments[i]))
            && var last := outcome.segments[|outcome.segments| - 1];
            && (Ended(last)
                || (&& last.timedOut && last.observed == None && last.exitCode == None
                    && !outcome.contractPassed && !outcome.objectiveCompleted
                    && outcome.finalTerminal == None && outcome.commandChecks == []))
  {
    AllTraceable(outcome);
    forall i | 0 <= i < |outcome.segments|
      ensures Ended(outcome.segments[i]) <==> !outcome.segments[i].timedOut && HasTerminal(outcome.segments[i])
    {
    }
  }

  predicate Ended(segment: Segment) {
    !segment.timedOut && segment.observed.Some? && segment.observed.value != Stops.Unknown("")
  }

  /** The older reader accepts exactly what the strict one does without timeouts. */
  lemma LegacyIsStrictWithoutTimeouts(outcome: Outcome)
    ensures LegacyEvidence(outcome) <==>
            StrictEvidence(outcome) && forall i | 0 <= i < |outcome.segments| :: !outcome.segments[i].timedOut
  {
    if LegacyEvidence(outcome) {
      forall i | 0 <= i < |outcome.segments|
        ensures SegmentRetained(outcome.segments[i], i) && HasTerminal(outcome.segments[i])
                && !outcome.segments[i].timedOut
      {
      }
    }
    if StrictEvidence(outcome) && forall i | 0 <= i < |outcome.segments| :: !outcome.segments[i].timedOut {
      forall i | 0 <= i < |outcome.segments|
        ensures SegmentRetained(outcome.segments[i], i) && HasTerminal(outcome.segments[i])
      {
        assert !outcome.segments[i].timedOut;
      }
    }
  }
}
