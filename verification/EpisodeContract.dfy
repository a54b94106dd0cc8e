/** What a passed episode contract says about the whole run. */
module EpisodeContract {
  import opened Wrappers
  import opened Corpus
  import opened CommandChecks
  import opened EvidenceRows
  import opened Traces
  import opened Episode
  import Machine
  import Stops

  // ----- a declarative reading of one segment ------------------------------------

  function AnalysisAt(ep: Setting, i: nat): Option<Analysis> {
    if Child(ep, i).Ok? then AnalysisOf(Child(ep, i).value) else None
  }

  /** The segment resumes the session before it, and carries the answer if that
      session had asked for one. */
  ghost predicate LinkGood(ep: Setting, i: nat)
    requires AnalysisAt(ep, i).Some?
  {
    var a := AnalysisAt(ep, i).value;
    if i == 0 then a.resumedFrom.None?
    else
      && AnalysisAt(ep, i - 1).Some?
      && var before := AnalysisAt(ep, i - 1).value;
      && a.resumedFrom == Some(before.session)
      && (before.terminal == Some(Stops.NeedsInput) && FrozenAnswer(ep.task).Some? ==>
            exists j | 0 <= j < |a.resumePrompts| ::
              Text.Contains(a.resumePrompts[j], Text.Trim(FrozenAnswer(ep.task).value)))
  }

  /** The workspace probe belongs to the first expected stop. */
  ghost predicate ProbeDue(ep: Setting, i: nat)
    requires i < |ExpectedTerminals(ep)|
  {
    && RequestsRefusal(ep, WorkspaceMismatch)
    && IsStop(ExpectedTerminals(ep)[i])
    && forall j | 0 <= j < i :: !IsStop(ExpectedTerminals(ep)[j])
  }

  ghost predicate SegmentGood(ep: Setting, i: nat)
    requires i < |ExpectedTerminals(ep)|
  {
    && Child(ep, i).Ok?
    && var p := Child(ep, i).value;
    && p.discoveryError.None?
    && AnalysisOf(p).Some?
    && SegmentMatches(ep, i, p)
    && TerminalIssues(InjectionFor(ep.task, i + 1), p) == []
    && LinkGood(ep, i)
    && (ProbeDue(ep, i) ==> WorkspaceProbe(ep, i).Ok?)
    && (i + 1 < |ExpectedTerminals(ep)| && ObservedOf(p) == Some(Stops.NeedsInput) ==>
          HasText(FrozenAnswer(ep.task)))
  }

  ghost predicate GoodUpTo(ep: Setting, k: nat)
    requires k <= |ExpectedTerminals(ep)|
  {
    forall i | 0 <= i < k :: SegmentGood(ep, i)
  }

  ghost function WorkspaceProbes(ep: Setting, k: nat): seq<Probe>
    requires k <= |ExpectedTerminals(ep)|
    requires GoodUpTo(ep, k)
  {
    if k == 0 then []
    else
      assert SegmentGood(ep, k - 1);
      WorkspaceProbes(ep, k - 1) + ProbesAt(ep, k - 1)
  }

  ghost function ProbesAt(ep: Setting, i: nat): seq<Probe>
    requires i < |ExpectedTerminals(ep)| && SegmentGood(ep, i)
  {
    if ProbeDue(ep, i) then [Probe(WorkspaceMismatch, true, WorkspaceProbe(ep, i).value)] else []
  }

  ghost function AnalysesUpTo(ep: Setting, k: nat): (s: seq<Analysis>)
    requires k <= |ExpectedTerminals(ep)|
    requires GoodUpTo(ep, k)
    ensures |s| == k
    ensures forall i | 0 <= i < k :: AnalysisAt(ep, i) == Some(s[i])
  {
    if k == 0 then [] else
      assert SegmentGood(ep, k - 1);
      AnalysesUpTo(ep, k - 1) + [AnalysisAt(ep, k - 1).value]
  }

  ghost function RecordsUpTo(ep: Setting, k: nat): (s: seq<Segment>)
    requires k <= |ExpectedTerminals(ep)|
    requires GoodUpTo(ep, k)
    ensures |s| == k
  {
    if k == 0 then [] else
      assert SegmentGood(ep, k - 1);
      RecordsUpTo(ep, k - 1) + [SegmentRecord(ep, k - 1, Child(ep, k - 1).value)]
  }

  lemma {:induction false} RecordAt(ep: Setting, k: nat, i: nat)
    requires i < k <= |ExpectedTerminals(ep)|
    requires GoodUpTo(ep, k)
    ensures Child(ep, i).Ok? && RecordsUpTo(ep, k)[i] == SegmentRecord(ep, i, Child(ep, i).value)
  {
    assert SegmentGood(ep, i) && SegmentGood(ep, k - 1);
    var front := RecordsUpTo(ep, k - 1);
    assert RecordsUpTo(ep, k) == front + [SegmentRecord(ep, k - 1, Child(ep, k - 1).value)];
    if i < k - 1 {
      RecordAt(ep, k - 1, i);
      assert RecordsUpTo(ep, k)[i] == front[i];
    }
  }

  /** The loop state of a run in which nothing has gone wrong. */
  ghost function CleanState(ep: Setting, k: nat): Loop
    requires k <= |ExpectedTerminals(ep)|
    requires GoodUpTo(ep, k)
  {
    Loop(RecordsUpTo(ep, k), AnalysesUpTo(ep, k), k > 0, PendingAt(ep, k), [], true,
         CleanResumes(k),
         WorkspaceProbes(ep, k), Probed(ep, k), false)
  }

  ghost predicate Probed(ep: Setting, k: nat)
    requires k <= |ExpectedTerminals(ep)|
  {
    exists i | 0 <= i < k :: ProbeDue(ep, i)
  }

  /** The answer waiting for segment `k`; the last segment leaves it alone. */
  ghost function PendingAt(ep: Setting, k: nat): Option<string> {
    if k == 0 then None
    else
      var m := if k == |ExpectedTerminals(ep)| then k - 1 else k;
      if m > 0 && AnalysisAt(ep, m - 1).Some? && AnalysisAt(ep, m - 1).value.terminal == Some(Stops.NeedsInput)
      then FrozenAnswer(ep.task) else None
  }

  ghost predicate Spoiled(st: Loop) {
    st.issues != [] || !st.sequenceMatches
  }

  // ----- one iteration ---------------------------------------------------------------

  lemma ProbedAgrees(ep: Setting, i: nat)
    requires i < |ExpectedTerminals(ep)|
    ensures RequestsRefusal(ep, WorkspaceMismatch) && IsStop(ExpectedTerminals(ep)[i]) && !Probed(ep, i)
            <==> ProbeDue(ep, i)
  {
    if RequestsRefusal(ep, WorkspaceMismatch) && !Probed(ep, i) {
      NoStopBefore(ep, i);
    }
  }

  lemma {:induction false} NoStopBefore(ep: Setting, i: nat)
    requires i <= |ExpectedTerminals(ep)|
    requires RequestsRefusal(ep, WorkspaceMismatch) && !Probed(ep, i)
    ensures forall j | 0 <= j < i :: !IsStop(ExpectedTerminals(ep)[j])
  {
    if i > 0 {
      assert !Probed(ep, i - 1);
      NoStopBefore(ep, i - 1);
      assert !ProbeDue(ep, i - 1);
    }
  }

  lemma CleanLink(ep: Setting, i: nat)
    requires i < |ExpectedTerminals(ep)|
    requires GoodUpTo(ep, i) && AnalysisAt(ep, i).Some?
    ensures LinkIssues(AnalysesUpTo(ep, i), PendingAt(ep, i), AnalysisAt(ep, i).value) == [] <==> LinkGood(ep, i)
    ensures LinkGood(ep, i) ==> (Linked(AnalysesUpTo(ep, i), AnalysisAt(ep, i).value) <==> i > 0)
  {
    if i > 0 {
      assert AnalysisAt(ep, i - 1) == Some(AnalysesUpTo(ep, i)[i - 1]);
    }
  }

  /** The part of `SegmentGood` that recording the segment decides. */
  ghost predicate RecordedGood(ep: Setting, i: nat, p: Process)
    requires i < |ExpectedTerminals(ep)|
    requires Child(ep, i) == Ok(p)
  {
    && p.discoveryError.None?
    && AnalysisOf(p).Some?
    && SegmentMatches(ep, i, p)
    && TerminalIssues(InjectionFor(ep.task, i + 1), p) == []
    && LinkGood(ep, i)
  }

  ghost function CleanResumes(k: nat): nat {
    if k == 0 then 0 else if k - 1 <= Machine.U32_MAX then k - 1 else Machine.U32_MAX
  }

  lemma ObserveSpoilsExactly(ep: Setting, i: nat, p: Process)
    requires i < |ExpectedTerminals(ep)|
    requires GoodUpTo(ep, i) && Child(ep, i) == Ok(p)
    ensures Spoiled(Observe(ep, CleanState(ep, i), i, p)) <==> !RecordedGood(ep, i, p)
  {
    var st := CleanState(ep, i);
    var seen := Observe(ep, st, i, p);
    if AnalysisOf(p).Some? {
      CleanLink(ep, i);
      var links := LinkIssues(st.analyses, st.pendingAnswer, AnalysisOf(p).value);
      assert seen.issues == st.issues + CaptureIssues(p) + TerminalIssues(InjectionFor(ep.task, i + 1), p) + links;
    } else {
      assert CaptureIssues(p) != [];
    }
  }

  lemma ObserveClean(ep: Setting, i: nat, p: Process)
    requires i < |ExpectedTerminals(ep)|
    requires GoodUpTo(ep, i) && SegmentGood(ep, i) && Child(ep, i) == Ok(p)
    ensures GoodUpTo(ep, i + 1)
    ensures Observe(ep, CleanState(ep, i), i, p) ==
            CleanState(ep, i).(segments := RecordsUpTo(ep, i + 1), analyses := AnalysesUpTo(ep, i + 1),
                               resumes := CleanResumes(i + 1))
  {
    CleanLink(ep, i);
    assert CaptureIssues(p) == [];
  }

  lemma HandOverClean(ep: Setting, st: Loop, i: nat, p: Process)
    requires i < |ExpectedTerminals(ep)|
    requires Child(ep, i) == Ok(p) && SegmentGood(ep, i)
    requires !st.stopped && (i + 1 == |ExpectedTerminals(ep)| ==> st.pendingAnswer == PendingAt(ep, i))
    ensures HandOver(ep, st, i, p) == st.(resumable := true, pendingAnswer := PendingAt(ep, i + 1))
  {
  }

  lemma ProceedClean(ep: Setting, seen: Loop, i: nat, p: Process)
    requires i < |ExpectedTerminals(ep)|
    requires Child(ep, i) == Ok(p) && SegmentGood(ep, i)
    requires !seen.stopped && seen.pendingAnswer == PendingAt(ep, i) && seen.probed == Probed(ep, i)
    ensures Proceed(ep, seen, i, p) ==
            Ok(seen.(resumable := true, pendingAnswer := PendingAt(ep, i + 1), probed := Probed(ep, i + 1),
                     probes := seen.probes + ProbesAt(ep, i)))
  {
    ProbedAgrees(ep, i);
    assert Probed(ep, i + 1) == (Probed(ep, i) || ProbeDue(ep, i));
    if ProbeDue(ep, i) {
      HandOverClean(ep, WithProbe(seen, WorkspaceProbe(ep, i).value), i, p);
    } else {
      assert seen.probes + ProbesAt(ep, i) == seen.probes;
      HandOverClean(ep, seen, i, p);
    }
  }

  lemma GoodStep(ep: Setting, i: nat)
    requires i < |ExpectedTerminals(ep)|
    requires GoodUpTo(ep, i) && SegmentGood(ep, i)
    ensures GoodUpTo(ep, i + 1)
    ensures Advances(ep, CleanState(ep, i), i, CleanState(ep, i + 1))
  {
    var p := Child(ep, i).value;
    ObserveClean(ep, i, p);
    assert WorkspaceProbes(ep, i + 1) == WorkspaceProbes(ep, i) + ProbesAt(ep, i);
    ProceedClean(ep, Observe(ep, CleanState(ep, i), i, p), i, p);
  }

  lemma HandOverKeeps(ep: Setting, st: Loop, i: nat, p: Process)
    requires i < |ExpectedTerminals(ep)| && Spoiled(st)
    ensures Spoiled(HandOver(ep, st, i, p))
  {
  }

  lemma ProceedKeeps(ep: Setting, seen: Loop, i: nat, p: Process)
    requires i < |ExpectedTerminals(ep)| && Spoiled(seen)
    ensures Proceed(ep, seen, i, p).Ok? ==> Spoiled(Proceed(ep, seen, i, p).value)
  {
    HandOverKeeps(ep, seen, i, p);
    if WorkspaceProbe(ep, i).Ok? {
      HandOverKeeps(ep, WithProbe(seen, WorkspaceProbe(ep, i).value), i, p);
    }
  }

  /** Recording went well, but the probe failed to run or no answer exists. */
  lemma ProceedBad(ep: Setting, seen: Loop, i: nat, p: Process)
    requires i < |ExpectedTerminals(ep)|
    requires Child(ep, i) == Ok(p) && RecordedGood(ep, i, p) && !SegmentGood(ep, i)
    requires seen.probed == Probed(ep, i)
    ensures Proceed(ep, seen, i, p).Ok? ==> Spoiled(Proceed(ep, seen, i, p).value)
  {
    ProbedAgrees(ep, i);
  }

  lemma BadStep(ep: Setting, i: nat)
    requires i < |ExpectedTerminals(ep)|
    requires GoodUpTo(ep, i) && !SegmentGood(ep, i)
    ensures Spoils(ep, CleanState(ep, i), i)
  {
    if Child(ep, i).Ok? {
      var p := Child(ep, i).value;
      var seen := Observe(ep, CleanState(ep, i), i, p);
      ObserveSpoilsExactly(ep, i, p);
      if Spoiled(seen) {
        ProceedKeeps(ep, seen, i, p);
      } else {
        ProceedBad(ep, seen, i, p);
      }
    }
  }

  lemma ObserveKeeps(ep: Setting, st: Loop, i: nat, p: Process)
    requires i < |ExpectedTerminals(ep)| && Spoiled(st)
    ensures Spoiled(Observe(ep, st, i, p))
  {
  }

  lemma SpoiledStays(ep: Setting, st: Loop, i: nat)
    requires i < |ExpectedTerminals(ep)| && Spoiled(st)
    ensures Advance(ep, st, i).Ok? ==> Spoiled(Advance(ep, st, i).value)
  {
    if Child(ep, i).Ok? {
      var p := Child(ep, i).value;
      ObserveKeeps(ep, st, i, p);
      ProceedKeeps(ep, Observe(ep, st, i, p), i, p);
    }
  }

  lemma {:induction false} RunIsClean(ep: Setting, k: nat)
    requires k <= |ExpectedTerminals(ep)|
    requires GoodUpTo(ep, k)
    ensures RunTo(ep, k) == Ok(CleanState(ep, k))
  {
    if k == 0 {
      CleanStart(ep);
    } else {
      GoodPrefix(ep, k);
      RunIsClean(ep, k - 1);
      NextClean(ep, k - 1);
    }
  }

  lemma CleanStart(ep: Setting)
    ensures RunTo(ep, 0) == Ok(CleanState(ep, 0))
  {
    assert CleanState(ep, 0) == INITIAL;
  }

  lemma GoodPrefix(ep: Setting, k: nat)
    requires 0 < k <= |ExpectedTerminals(ep)| && GoodUpTo(ep, k)
    ensures GoodUpTo(ep, k - 1) && SegmentGood(ep, k - 1)
  {
    forall i | 0 <= i < k - 1 ensures SegmentGood(ep, i) {
      assert SegmentGood(ep, i);
    }
    assert SegmentGood(ep, k - 1);
  }

  lemma NextClean(ep: Setting, i: nat)
    requires i < |ExpectedTerminals(ep)| && GoodUpTo(ep, i) && SegmentGood(ep, i)
    requires RunTo(ep, i) == Ok(CleanState(ep, i))
    ensures GoodUpTo(ep, i + 1) && RunTo(ep, i + 1) == Ok(CleanState(ep, i + 1))
  {
    GoodStep(ep, i);
    CleanBy(ep, i + 1, CleanState(ep, i), CleanState(ep, i + 1));
  }

  ghost predicate Advances(ep: Setting, st: Loop, i: nat, next: Loop)
    requires i < |ExpectedTerminals(ep)|
  {
    Advance(ep, st, i) == Ok(next)
  }

  lemma CleanBy(ep: Setting, k: nat, st: Loop, next: Loop)
    requires 0 < k <= |ExpectedTerminals(ep)|
    requires RunTo(ep, k - 1) == Ok(st) && !st.stopped && Advances(ep, st, k - 1, next)
    ensures RunTo(ep, k) == Ok(next)
  {
    RunStep(ep, k, st);
  }

  lemma SpoiledFurther(ep: Setting, k: nat)
    requires 0 < k <= |ExpectedTerminals(ep)|
    requires RunTo(ep, k - 1).Ok? && Spoiled(RunTo(ep, k - 1).value)
    ensures RunTo(ep, k).Ok? ==> Spoiled(RunTo(ep, k).value)
  {
    var st := RunTo(ep, k - 1).value;
    if !st.stopped {
      RunStep(ep, k, st);
      SpoiledStays(ep, st, k - 1);
    }
  }

  lemma SpoiledFirst(ep: Setting, k: nat)
    requires 0 < k <= |ExpectedTerminals(ep)|
    requires GoodUpTo(ep, k - 1) && !SegmentGood(ep, k - 1)
    ensures RunTo(ep, k).Ok? ==> Spoiled(RunTo(ep, k).value)
  {
    var st := BeforeBadStep(ep, k - 1);
    SpoiledBy(ep, k, st);
  }

  lemma BeforeBadStep(ep: Setting, i: nat) returns (st: Loop)
    requires i < |ExpectedTerminals(ep)|
    requires GoodUpTo(ep, i) && !SegmentGood(ep, i)
    ensures RunTo(ep, i) == Ok(st) && !st.stopped && Spoils(ep, st, i)
  {
    st := CleanState(ep, i);
    BadStep(ep, i);
    RunIsClean(ep, i);
  }

  ghost predicate Spoils(ep: Setting, st: Loop, i: nat)
    requires i < |ExpectedTerminals(ep)|
  {
    var next := Advance(ep, st, i);
    next.Err? || Spoiled(next.value)
  }

  lemma SpoiledBy(ep: Setting, k: nat, st: Loop)
    requires 0 < k <= |ExpectedTerminals(ep)|
    requires RunTo(ep, k - 1) == Ok(st) && !st.stopped && Spoils(ep, st, k - 1)
    ensures RunTo(ep, k).Ok? ==> Spoiled(RunTo(ep, k).value)
  {
    RunStep(ep, k, st);
  }

  lemma {:induction false} RunIsSpoiled(ep: Setting, k: nat)
    requires k <= |ExpectedTerminals(ep)|
    requires !GoodUpTo(ep, k)
    ensures RunTo(ep, k).Ok? ==> Spoiled(RunTo(ep, k).value)
  {
    if GoodUpTo(ep, k - 1) {
      SpoiledFirst(ep, k);
    } else {
      RunIsSpoiled(ep, k - 1);
      if RunTo(ep, k - 1).Ok? {
        SpoiledFurther(ep, k);
      }
    }
  }

  // ----- the verdict ------------------------------------------------------------------

  /** A declarative reading of a passed contract: every segment went as the
      frozen task demands, all requested refusals happened, the end state was
      graded and the clarification behaviour was right. */
  ghost predicate Satisfied(ep: Setting) {
    var n := |ExpectedTerminals(ep)|;
    && GoodUpTo(ep, n)
    && (forall i | 0 <= i < n && ProbeDue(ep, i) :: WorkspaceProbe(ep, i) == Ok(true))
    && (RequiresCompletion(ep) ==> CompletionEvidence(ep))
    && !ep.world.deadlineExceeded
    && ClarificationHonoured(ep.task, AnalysesUpTo(ep, n))
  }

  ghost predicate CompletionEvidence(ep: Setting)
    requires RequiresCompletion(ep)
  {
    && (RequestsRefusal(ep, CompletedSession) ==> ep.world.completedProbe == Ok(true))
    && ep.world.gradingError.None?
    && ep.task.checks != []
    && (forall i | 0 <= i < |ep.task.checks| :: ep.world.grade(i) == Passed)
    && var n := |ExpectedTerminals(ep)|;
    && AnalysisAt(ep, n - 1).Some?
    && AnalysisAt(ep, n - 1).value.completionGatesPassed > 0
  }

  lemma CleanNeverTimedOut(ep: Setting, k: nat)
    requires k <= |ExpectedTerminals(ep)| && GoodUpTo(ep, k)
    ensures !TimedOut(RecordsUpTo(ep, k))
  {
    forall i | 0 <= i < k ensures !RecordsUpTo(ep, k)[i].timedOut {
      assert SegmentGood(ep, i);
      RecordAt(ep, k, i);
    }
  }

  lemma CleanEnding(ep: Setting, st: Loop)
    requires GoodUpTo(ep, |ExpectedTerminals(ep)|)
    requires st == CleanState(ep, |ExpectedTerminals(ep)|)
    ensures EndedCompleted(st) <==> RequiresCompletion(ep)
  {
    var n := |ExpectedTerminals(ep)|;
    if n > 0 {
      assert SegmentGood(ep, n - 1);
      RecordAt(ep, n, n - 1);
      assert st.segments[n - 1] == SegmentRecord(ep, n - 1, Child(ep, n - 1).value);
    }
  }

  lemma {:induction false} ProbesRejected(ep: Setting, k: nat)
    requires k <= |ExpectedTerminals(ep)| && GoodUpTo(ep, k)
    ensures ProbesPassed(WorkspaceProbes(ep, k))
            <==> forall i | 0 <= i < k && ProbeDue(ep, i) :: WorkspaceProbe(ep, i) == Ok(true)
  {
    if k > 0 {
      ProbesRejected(ep, k - 1);
      assert SegmentGood(ep, k - 1);
      var before, now := WorkspaceProbes(ep, k - 1), WorkspaceProbes(ep, k);
      assert now == before + ProbesAt(ep, k - 1);
      assert forall i | 0 <= i < |before| :: now[i] == before[i];
      if ProbeDue(ep, k - 1) {
        assert now[|before|] == Probe(WorkspaceMismatch, true, WorkspaceProbe(ep, k - 1).value);
      }
    }
  }

  lemma SpoiledFails(ep: Setting, st: Loop)
    requires Spoiled(st) && Finish(ep, st).Ok?
    ensures !Finish(ep, st).value.contractPassed
  {
  }

  lemma ProbesAppended(a: seq<Probe>, b: seq<Probe>)
    ensures ProbesPassed(a + b) <==> ProbesPassed(a) && ProbesPassed(b)
  {
    assert forall i | 0 <= i < |a| :: (a + b)[i] == a[i];
    assert forall i | 0 <= i < |b| :: (a + b)[|a| + i] == b[i];
  }

  /** Grading a clean run: no issue arises and the objective is reached exactly
      on complete evidence. */
  lemma CleanGrading(ep: Setting, st: Loop)
    requires GoodUpTo(ep, |ExpectedTerminals(ep)|)
    requires st == CleanState(ep, |ExpectedTerminals(ep)|)
    requires RequiresCompletion(ep)
    ensures (GradingIssues(ep, st) == [] && Graded(ep, st) != [] && AllPassed(Graded(ep, st)))
            <==> (ep.world.gradingError.None? && !ep.world.deadlineExceeded && ep.task.checks != []
                  && forall i | 0 <= i < |ep.task.checks| :: ep.world.grade(i) == Passed)
  {
    CleanNeverTimedOut(ep, |ExpectedTerminals(ep)|);
    if ep.world.gradingError.None? {
      PassingMeansEveryCheckRan(ep.task.checks, ep.world.grade);
      ResultsFromShape(ep.task.checks, ep.world.grade, 0);
    }
  }

  lemma CleanProbes(ep: Setting, st: Loop)
    requires GoodUpTo(ep, |ExpectedTerminals(ep)|)
    requires st == CleanState(ep, |ExpectedTerminals(ep)|)
    requires CompletedProbeDue(ep, st) ==> ep.world.completedProbe.Ok?
    ensures ProbesPassed(AllProbes(ep, st)) <==>
            && (forall i | 0 <= i < |ExpectedTerminals(ep)| && ProbeDue(ep, i) :: WorkspaceProbe(ep, i) == Ok(true))
            && (CompletedProbeDue(ep, st) ==> ep.world.completedProbe == Ok(true))
  {
    ProbesRejected(ep, |ExpectedTerminals(ep)|);
    var extra :=
      if CompletedProbeDue(ep, st) then [Probe(CompletedSession, true, ep.world.completedProbe.value)] else [];
    ProbesAppended(st.probes, extra);
    if CompletedProbeDue(ep, st) {
      assert extra[0] == Probe(CompletedSession, true, ep.world.completedProbe.value);
      assert ProbesPassed(extra) <==> extra[0].rejected;
    }
  }

  lemma CleanVerdict(ep: Setting, st: Loop)
    requires GoodUpTo(ep, |ExpectedTerminals(ep)|)
    requires st == CleanState(ep, |ExpectedTerminals(ep)|)
    requires CompletedProbeDue(ep, st) ==> ep.world.completedProbe.Ok?
    ensures ContractVerdict(ep, st) <==> Satisfied(ep)
  {
    if RequiresCompletion(ep) {
      CompletingVerdict(ep, st);
    } else {
      PausingVerdict(ep, st);
    }
  }

  lemma CompletingVerdict(ep: Setting, st: Loop)
    requires GoodUpTo(ep, |ExpectedTerminals(ep)|) && RequiresCompletion(ep)
    requires st == CleanState(ep, |ExpectedTerminals(ep)|)
    requires CompletedProbeDue(ep, st) ==> ep.world.completedProbe.Ok?
    ensures ContractVerdict(ep, st) <==> Satisfied(ep)
  {
    var n := |ExpectedTerminals(ep)|;
    CleanNeverTimedOut(ep, n);
    CleanEnding(ep, st);
    CleanProbes(ep, st);
    CleanGrading(ep, st);
    assert AnalysisAt(ep, n - 1) == Some(st.analyses[n - 1]);
    assert AllIssues(ep, st) == GradingIssues(ep, st);
  }

  lemma PausingVerdict(ep: Setting, st: Loop)
    requires GoodUpTo(ep, |ExpectedTerminals(ep)|) && !RequiresCompletion(ep)
    requires st == CleanState(ep, |ExpectedTerminals(ep)|)
    requires CompletedProbeDue(ep, st) ==> ep.world.completedProbe.Ok?
    ensures ContractVerdict(ep, st) <==> Satisfied(ep)
  {
    CleanNeverTimedOut(ep, |ExpectedTerminals(ep)|);
    CleanEnding(ep, st);
    CleanProbes(ep, st);
    assert Graded(ep, st) == [];
    assert !AnyInfrastructureError([]);
  }

  lemma CleanConcludes(ep: Setting)
    requires GoodUpTo(ep, |ExpectedTerminals(ep)|)
    ensures ep.world.opening.None? ==> Conclude(ep) == Finish(ep, CleanState(ep, |ExpectedTerminals(ep)|))
  {
    RunIsClean(ep, |ExpectedTerminals(ep)|);
  }

  lemma CleanFinish(ep: Setting, st: Loop)
    requires GoodUpTo(ep, |ExpectedTerminals(ep)|)
    requires st == CleanState(ep, |ExpectedTerminals(ep)|)
    ensures Finish(ep, st).Ok? ==> (Finish(ep, st).value.contractPassed <==> Satisfied(ep))
    ensures Satisfied(ep) && ep.world.closing.None? ==> Finish(ep, st).Ok?
  {
    CleanEnding(ep, st);
    if CompletedProbeDue(ep, st) ==> ep.world.completedProbe.Ok? {
      CleanVerdict(ep, st);
    }
  }

  /** A recorded contract verdict is positive exactly when the whole run was as
      the frozen task demands; and such a run is always recorded. */
  lemma ContractPassedExactly(ep: Setting)
    ensures Conclude(ep).Ok? ==> (Conclude(ep).value.contractPassed <==> Satisfied(ep))
    ensures Satisfied(ep) && ep.world.opening.None? && ep.world.closing.None? ==> Conclude(ep).Ok?
  {
    var n := |ExpectedTerminals(ep)|;
    if GoodUpTo(ep, n) {
      CleanConcludes(ep);
      CleanFinish(ep, CleanState(ep, n));
    } else {
      RunIsSpoiled(ep, n);
      if Conclude(ep).Ok? {
        SpoiledFails(ep, RunTo(ep, n).value);
      }
    }
  }

  // ----- recovery tasks ----------------------------------------------------------------

  function Modes(probes: seq<Probe>): seq<RefusalMode> {
    seq(|probes|, i requires 0 <= i < |probes| => probes[i].mode)
  }

  /** A valid recovery task stops at its first segment, so that is where the
      only workspace probe runs. */
  lemma {:induction false} OneWorkspaceProbe(ep: Setting, k: nat)
    requires ValidRecovery(ep.task) && ep.variant != Current
    requires 1 <= k <= |ExpectedTerminals(ep)| && GoodUpTo(ep, k)
    ensures Modes(WorkspaceProbes(ep, k)) ==
            Requested(ep.task.recovery.value.refusalModes, WorkspaceMismatch)
  {
    InjectionFixesOutcome(ep.task, 1);
    assert SegmentGood(ep, k - 1);
    if k == 1 {
      assert WorkspaceProbes(ep, 1) == ProbesAt(ep, 0);
    } else {
      OneWorkspaceProbe(ep, k - 1);
      assert IsStop(ExpectedTerminals(ep)[0]);
      assert WorkspaceProbes(ep, k) == WorkspaceProbes(ep, k - 1);
    }
  }

  lemma {:induction false} DistinctCount(modes: seq<RefusalMode>, mode: RefusalMode)
    requires forall i, j | 0 <= i < j < |modes| :: modes[i] != modes[j]
    ensures multiset(modes)[mode] == if mode in modes then 1 else 0
  {
    if modes != [] {
      assert modes == [modes[0]] + modes[1..];
      DistinctCount(modes[1..], mode);
    }
  }

  function Requested(modes: seq<RefusalMode>, mode: RefusalMode): seq<RefusalMode> {
    if mode in modes then [mode] else []
  }

  lemma ModesCounted(modes: seq<RefusalMode>)
    requires forall i, j | 0 <= i < j < |modes| :: modes[i] != modes[j]
    ensures multiset(Requested(modes, WorkspaceMismatch) + Requested(modes, CompletedSession)) == multiset(modes)
  {
    var listed := Requested(modes, WorkspaceMismatch) + Requested(modes, CompletedSession);
    forall mode: RefusalMode ensures multiset(listed)[mode] == multiset(modes)[mode] {
      DistinctCount(modes, mode);
      DistinctCount(listed, mode);
      assert mode in listed
             <==> mode in Requested(modes, WorkspaceMismatch) || mode in Requested(modes, CompletedSession);
      assert mode == WorkspaceMismatch || mode == CompletedSession;
    }
  }

  /** The chain of sessions behind a row. */
  ghost predicate ChainLinked(ep: Setting, count: nat) {
    && (forall i | 0 <= i < count :: AnalysisAt(ep, i).Some?)
    && (forall i | 1 <= i < count ::
          AnalysisAt(ep, i).value.resumedFrom == Some(AnalysisAt(ep, i - 1).value.session))
  }

  /** Segment `i` ran to the end the task demands of it. */
  ghost predicate SegmentConforms(task: Task, segment: Segment, i: nat)
    requires ValidRecovery(task) && i < |task.terminal.resumable|
  {
    && segment.number == i + 1
    && segment.expected == task.terminal.resumable[i]
    && TerminalMatches(segment.expected, segment.observed, segment.exitCode, segment.timedOut)
    && (if i + 1 < |task.terminal.resumable| then
          && InjectionFor(task, i + 1).Some?
          && segment.observed == Some(ExpectedStopReason(InjectionFor(task, i + 1).value.kind))
        else segment.observed == Some(Stops.TaskComplete))
  }

  lemma SegmentsConform(ep: Setting, i: nat)
    requires ValidRecovery(ep.task) && ep.variant != Current
    requires i < |ExpectedTerminals(ep)| && SegmentGood(ep, i)
    ensures SegmentConforms(ep.task, SegmentRecord(ep, i, Child(ep, i).value), i)
  {
    InjectionFixesOutcome(ep.task, i + 1);
  }

  lemma ProbesConform(ep: Setting, st: Loop)
    requires ValidRecovery(ep.task) && ep.variant != Current
    requires GoodUpTo(ep, |ExpectedTerminals(ep)|)
    requires st == CleanState(ep, |ExpectedTerminals(ep)|)
    requires CompletedProbeDue(ep, st) ==> ep.world.completedProbe.Ok?
    requires GatePassed(st.analyses)
    ensures Modes(AllProbes(ep, st)) ==
            Requested(ep.task.recovery.value.refusalModes, WorkspaceMismatch)
            + Requested(ep.task.recovery.value.refusalModes, CompletedSession)
  {
    var n := |ExpectedTerminals(ep)|;
    InjectionFixesOutcome(ep.task, n);
    OneWorkspaceProbe(ep, n);
    CleanEnding(ep, st);
    assert CompletedProbeDue(ep, st) <==> CompletedSession in ep.task.recovery.value.refusalModes;
  }

  lemma SegmentsMean(ep: Setting)
    requires ValidRecovery(ep.task) && ep.variant != Current
    requires GoodUpTo(ep, |ExpectedTerminals(ep)|)
    ensures forall i | 0 <= i < |ExpectedTerminals(ep)| ::
              SegmentConforms(ep.task, RecordsUpTo(ep, |ExpectedTerminals(ep)|)[i], i)
    ensures ChainLinked(ep, |ExpectedTerminals(ep)|)
  {
    var n := |ExpectedTerminals(ep)|;
    forall i | 0 <= i < n ensures SegmentConforms(ep.task, RecordsUpTo(ep, n)[i], i) {
      assert SegmentGood(ep, i);
      RecordAt(ep, n, i);
      SegmentsConform(ep, i);
    }
    forall i | 0 <= i < n ensures AnalysisAt(ep, i).Some? {
      assert SegmentGood(ep, i);
    }
    forall i | 1 <= i < n
      ensures AnalysisAt(ep, i).value.resumedFrom == Some(AnalysisAt(ep, i - 1).value.session)
    {
      assert SegmentGood(ep, i) && LinkGood(ep, i);
    }
  }

  lemma ChecksMean(ep: Setting, st: Loop)
    requires ObjectiveReached(ep, st)
    ensures |Graded(ep, st)| == |ep.task.checks| > 0
    ensures forall i | 0 <= i < |ep.task.checks| :: Graded(ep, st)[i] == CheckResult(ep.task.checks[i], Passed)
  {
    PassingMeansEveryCheckRan(ep.task.checks, ep.world.grade);
  }

  /** The row fields of a passed contract that requires completion. */
  lemma VerdictRead(ep: Setting, st: Loop)
    requires Finish(ep, st).Ok? && Finish(ep, st).value.contractPassed
    requires RequiresCompletion(ep)
    ensures CompletedProbeDue(ep, st) ==> ep.world.completedProbe.Ok?
    ensures ContractVerdict(ep, st) && ObjectiveReached(ep, st)
    ensures var row := Finish(ep, st).value;
            && row.segments == st.segments && row.resumesObserved == st.resumes
            && row.refusalProbes == AllProbes(ep, st) && row.commandChecks == Graded(ep, st)
            && row.objectiveCompleted
            && (st.resumes == ExpectedResumes(ep) ==> row.recoverySucceeded)
  {
  }

  /** All segments ran, ended as injected and form one chain of sessions. */
  ghost predicate ChainMeaning(ep: Setting, row: Outcome)
    requires ValidRecovery(ep.task)
  {
    var count := ep.task.recovery.value.maxSegments;
    && |row.segments| == count
    && (forall i | 0 <= i < count :: SegmentConforms(ep.task, row.segments[i], i))
    && ChainLinked(ep, count)
    && row.resumesObserved == count - 1
  }

  /** Each requested refusal was probed once and rejected, and every configured
      check ran and passed. */
  ghost predicate EndMeaning(ep: Setting, row: Outcome)
    requires ValidRecovery(ep.task)
  {
    && multiset(Modes(row.refusalProbes)) == multiset(ep.task.recovery.value.refusalModes)
    && (forall i | 0 <= i < |row.refusalProbes| :: row.refusalProbes[i].rejected)
    && |row.commandChecks| == |ep.task.checks| > 0
    && (forall i | 0 <= i < |ep.task.checks| :: row.commandChecks[i] == CheckResult(ep.task.checks[i], Passed))
  }

  lemma CleanChainMeans(ep: Setting, st: Loop, row: Outcome)
    requires ValidRecovery(ep.task) && ep.variant != Current
    requires GoodUpTo(ep, |ExpectedTerminals(ep)|)
    requires st == CleanState(ep, |ExpectedTerminals(ep)|)
    requires row.segments == st.segments && row.resumesObserved == st.resumes
    ensures ChainMeaning(ep, row)
    ensures st.resumes == ExpectedResumes(ep)
  {
    ResumesCounted(ep);
    SegmentsMean(ep);
  }

  lemma ResumesCounted(ep: Setting)
    requires ValidRecovery(ep.task) && ep.variant != Current
    ensures |ExpectedTerminals(ep)| == ep.task.recovery.value.maxSegments
    ensures CleanResumes(|ExpectedTerminals(ep)|) == ExpectedResumes(ep) == ep.task.recovery.value.maxSegments - 1
  {
  }

  lemma CleanEndMeans(ep: Setting, st: Loop, row: Outcome)
    requires ValidRecovery(ep.task) && ep.variant != Current
    requires GoodUpTo(ep, |ExpectedTerminals(ep)|)
    requires st == CleanState(ep, |ExpectedTerminals(ep)|)
    requires CompletedProbeDue(ep, st) ==> ep.world.completedProbe.Ok?
    requires ProbesPassed(AllProbes(ep, st)) && ObjectiveReached(ep, st)
    requires row.refusalProbes == AllProbes(ep, st) && row.commandChecks == Graded(ep, st)
    ensures EndMeaning(ep, row)
  {
    ChecksMean(ep, st);
    CleanProbesMean(ep, st);
  }

  lemma ConcludedClean(ep: Setting)
    requires Conclude(ep).Ok? && Conclude(ep).value.contractPassed
    ensures GoodUpTo(ep, |ExpectedTerminals(ep)|)
    ensures Conclude(ep) == Finish(ep, CleanState(ep, |ExpectedTerminals(ep)|))
  {
    ContractPassedExactly(ep);
    CleanConcludes(ep);
  }

  /** For every valid recovery task run under a resumable variant, a passed
      contract means: all segments ran and ended as injected, each later one
      resumed the session before it, the resume count is exact, each requested
      refusal was probed exactly once and rejected, and every configured check
      ran and passed. */
  lemma RecoveryContractMeans(ep: Setting)
    requires ValidRecovery(ep.task) && ep.variant != Current
    requires Conclude(ep).Ok? && Conclude(ep).value.contractPassed
    ensures ChainMeaning(ep, Conclude(ep).value) && EndMeaning(ep, Conclude(ep).value)
    ensures Conclude(ep).value.objectiveCompleted && Conclude(ep).value.recoverySucceeded
  {
    ConcludedClean(ep);
    var st, row := CleanState(ep, |ExpectedTerminals(ep)|), Conclude(ep).value;
    VerdictRead(ep, st);
    CleanChainMeans(ep, st, row);
    CleanEndMeans(ep, st, row);
  }

  lemma CleanProbesMean(ep: Setting, st: Loop)
    requires ValidRecovery(ep.task) && ep.variant != Current
    requires GoodUpTo(ep, |ExpectedTerminals(ep)|)
    requires st == CleanState(ep, |ExpectedTerminals(ep)|)
    requires CompletedProbeDue(ep, st) ==> ep.world.completedProbe.Ok?
    requires GatePassed(st.analyses) && ProbesPassed(AllProbes(ep, st))
    ensures multiset(Modes(AllProbes(ep, st))) == multiset(ep.task.recovery.value.refusalModes)
    ensures forall i | 0 <= i < |AllProbes(ep, st)| :: AllProbes(ep, st)[i].rejected
  {
    ProbesConform(ep, st);
    ModesCounted(ep.task.recovery.value.refusalModes);
    AllAttempted(ep, st);
  }

  lemma AllAttempted(ep: Setting, st: Loop)
    requires GoodUpTo(ep, |ExpectedTerminals(ep)|)
    requires st == CleanState(ep, |ExpectedTerminals(ep)|)
    requires CompletedProbeDue(ep, st) ==> ep.world.completedProbe.Ok?
    ensures forall i | 0 <= i < |AllProbes(ep, st)| :: AllProbes(ep, st)[i].attempted
  {
    WorkspaceAttempted(ep, |ExpectedTerminals(ep)|);
  }

  lemma {:induction false} WorkspaceAttempted(ep: Setting, k: nat)
    requires k <= |ExpectedTerminals(ep)| && GoodUpTo(ep, k)
    ensures forall i | 0 <= i < |WorkspaceProbes(ep, k)| :: WorkspaceProbes(ep, k)[i].attempted
  {
    if k > 0 {
      WorkspaceAttempted(ep, k - 1);
      assert SegmentGood(ep, k - 1);
    }
  }

  // ----- passing runs exist -----------------------------------------------------------------

  /** An injected provider failure, both refusals requested, a resumed second
      segment that completes. */
  function TwoSegmentTask(): Task {
    Task("R01", RecoveryCategory, 8,
         Terminals(Paused, [Paused, Completed], Some(ResumeRejected), Some(ResumeRejected)), None,
         Some(RecoveryContract(4, 2, 1, None, [], [WorkspaceMismatch, CompletedSession],
                               [Injection(1, ProviderFailure)])),
         ["suite"])
  }

  function TwoSegmentRun(digest: string): Setting {
    var first := Analysis("a", None, Some(Stops.ProviderError), [], [], false, 1, [], 0);
    var second := Analysis("b", Some("a"), Some(Stops.TaskComplete), [], [], false, 1, [], 1);
    Setting(TwoSegmentTask(), Recovery, "run", 1, Coordinate(Single, Evidence),
            World(None,
                  [Ok(Process(Some(1), false, None, Retained(digest, Ok(first)))),
                   Ok(Process(Some(0), false, None, Retained(digest, Ok(second))))],
                  [Ok(true)], Ok(true), None, _ => Passed, false, None))
  }

  lemma TwoSegmentTaskValid()
    ensures ValidRecovery(TwoSegmentTask())
  {
    var injections := TwoSegmentTask().recovery.value.injections;
    assert injections[0].segment == 1;
    assert Injected(injections, 1);
  }

  lemma TwoSegmentRunGood(digest: string)
    ensures GoodUpTo(TwoSegmentRun(digest), 2)
  {
    var ep := TwoSegmentRun(digest);
    assert InjectionFor(ep.task, 1) == Some(Injection(1, ProviderFailure));
    assert ep.task.recovery.value.injections[1..] == [];
    assert InjectionFor(ep.task, 2).None?;
    assert SegmentGood(ep, 0);
    assert SegmentGood(ep, 1);
  }

  lemma {:induction false} NoQuestions(analyses: seq<Analysis>)
    requires forall i | 0 <= i < |analyses| :: analyses[i].questions == []
    ensures Questions(analyses) == []
  {
    if analyses != [] {
      NoQuestions(analyses[1..]);
    }
  }

  /** The reading of a passed contract is not empty: there are valid recovery
      tasks and runs of them whose contract passes. */
  lemma PassingRecoveryExists(digest: string) returns (ep: Setting)
    ensures ValidRecovery(ep.task) && ep.variant != Current
    ensures Conclude(ep).Ok? && Conclude(ep).value.contractPassed
  {
    ep := TwoSegmentRun(digest);
    TwoSegmentTaskValid();
    TwoSegmentRunGood(digest);
    assert ProbeDue(ep, 0) && !ProbeDue(ep, 1);
    assert Satisfied(ep) by {
      NoQuestions(AnalysesUpTo(ep, 2));
      assert !ClarificationExpected(ep.task);
    }
    ContractPassedExactly(ep);
  }
}
