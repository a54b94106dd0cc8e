/** What a passed contract says about the trace lines the children wrote: the
    episode's verdict composed with the trace analyser. */
module EpisodeTraces {
  import opened Wrappers
  import opened Corpus
  import opened EvidenceRows
  import opened Traces
  import opened Episode
  import opened EpisodeContract
  import Machine
  import Stops

  /** The lines each child left behind, and what the episode expects of all of
      them but the number of turns. */
  datatype Recording = Recording(lines: seq<seq<Line>>, base: Request, structure: Structure)

  /** A segment under an injection has its own turn budget. */
  function TurnsFor(task: Task, segment: nat): nat {
    if InjectionFor(task, segment).Some? then task.recovery.value.segmentTurns else task.maxTurns
  }

  function RequestAt(ep: Setting, rec: Recording, i: nat): Request {
    rec.base.(maxTurns := TurnsFor(ep.task, i + 1))
  }

  /** Retaining the trace of segment `i` analyses these very lines. */
  method CaptureTrace(ep: Setting, rec: Recording, i: nat, sha256: string) returns (capture: Capture)
    requires i < |rec.lines|
    ensures capture.Retained? && capture.sha256 == sha256
    ensures Analyzed(capture.analysis, rec.lines[i], RequestAt(ep, rec, i), rec.structure)
  {
    var analysis := Analyze(rec.lines[i], RequestAt(ep, rec, i), rec.structure);
    capture := Retained(sha256, analysis);
  }

  /** Every retained analysis is the analyser's verdict on the recorded lines. */
  ghost predicate Recorded(ep: Setting, rec: Recording) {
    && |rec.lines| == |ExpectedTerminals(ep)|
    && forall i | 0 <= i < |rec.lines| && Child(ep, i).Ok? && Child(ep, i).value.capture.Retained? ::
         Analyzed(Child(ep, i).value.capture.analysis, rec.lines[i], RequestAt(ep, rec, i), rec.structure)
  }

  /** Segment `i`, read off its lines alone: a well-formed trace for its own
      request that resumed the trace before it and ended as expected. */
  ghost predicate TraceConforms(ep: Setting, rec: Recording, i: nat)
    requires i < |ExpectedTerminals(ep)| == |rec.lines|
  {
    var lines := rec.lines[i];
    && WellFormed(lines, RequestAt(ep, rec, i), rec.structure)
    && ResumeSource(lines[0])
       == Some(if i > 0 && rec.lines[i - 1] != [] then Some(SessionOf(rec.lines[i - 1][0])) else None)
    && Child(ep, i).Ok?
    && TerminalMatches(ExpectedTerminals(ep)[i], LastEnd(EventsOf(lines)), Child(ep, i).value.exitCode, false)
  }

  lemma GoodSegmentTrace(ep: Setting, rec: Recording, i: nat)
    requires Recorded(ep, rec) && i < |ExpectedTerminals(ep)| && SegmentGood(ep, i)
    ensures AnalysisAt(ep, i).Some?
    ensures WellFormed(rec.lines[i], RequestAt(ep, rec, i), rec.structure)
    ensures var a := AnalysisAt(ep, i).value;
            && a.session == SessionOf(rec.lines[i][0])
            && ResumeSource(rec.lines[i][0]) == Some(a.resumedFrom)
            && Reports(a, EventsOf(rec.lines[i]))
  {
    var p := Child(ep, i).value;
    assert p.capture.Retained? && p.capture.analysis.Ok?;
  }

  lemma GoodRunTrace(ep: Setting, rec: Recording, i: nat)
    requires Recorded(ep, rec) && GoodUpTo(ep, |ExpectedTerminals(ep)|) && i < |ExpectedTerminals(ep)|
    ensures TraceConforms(ep, rec, i)
  {
    assert SegmentGood(ep, i) && LinkGood(ep, i);
    GoodSegmentTrace(ep, rec, i);
    if i > 0 {
      assert SegmentGood(ep, i - 1);
      GoodSegmentTrace(ep, rec, i - 1);
    }
  }

  lemma {:induction false} GateHappened(events: seq<Event>)
    requires GatesPassed(events) > 0
    ensures exists k | 0 <= k < |events| :: events[k].CompletionGate? && events[k].passed
  {
    var n := |events| - 1;
    if !(events[n].CompletionGate? && events[n].passed) {
      GateHappened(events[..n]);
      var k :| 0 <= k < n && events[..n][k].CompletionGate? && events[..n][k].passed;
      assert events[k].CompletionGate? && events[k].passed;
    }
  }

  /** The last trace of a run that had to complete says so itself: a completion
      gate passed and the session ended with the task complete. */
  ghost predicate CompletionTraced(ep: Setting, rec: Recording)
    requires |rec.lines| == |ExpectedTerminals(ep)| > 0
  {
    var events := EventsOf(rec.lines[|rec.lines| - 1]);
    && LastEnd(events) == Some(Stops.TaskComplete)
    && exists k | 0 <= k < |events| :: events[k].CompletionGate? && events[k].passed
  }

  lemma CompletionIsTraced(ep: Setting, rec: Recording)
    requires Recorded(ep, rec) && Satisfied(ep) && RequiresCompletion(ep)
    ensures CompletionTraced(ep, rec)
  {
    LastSegmentCompletes(ep);
    CompletionRead(ep, rec, |ExpectedTerminals(ep)| - 1);
  }

  lemma CompletionRead(ep: Setting, rec: Recording, last: nat)
    requires Recorded(ep, rec) && last == |ExpectedTerminals(ep)| - 1 && SegmentGood(ep, last)
    requires AnalysisAt(ep, last).Some?
    requires AnalysisAt(ep, last).value.completionGatesPassed > 0
    requires AnalysisAt(ep, last).value.terminal == Some(Stops.TaskComplete)
    ensures CompletionTraced(ep, rec)
  {
    GoodSegmentTrace(ep, rec, last);
    ReportsGate(AnalysisAt(ep, last).value, EventsOf(rec.lines[last]));
  }

  lemma LastSegmentCompletes(ep: Setting)
    requires Satisfied(ep) && RequiresCompletion(ep)
    ensures var last := |ExpectedTerminals(ep)| - 1;
            && last >= 0 && SegmentGood(ep, last) && AnalysisAt(ep, last).Some?
            && AnalysisAt(ep, last).value.completionGatesPassed > 0
            && AnalysisAt(ep, last).value.terminal == Some(Stops.TaskComplete)
  {
    var last := |ExpectedTerminals(ep)| - 1;
    assert SegmentGood(ep, last);
    assert SegmentMatches(ep, last, Child(ep, last).value);
  }

  lemma ReportsGate(a: Analysis, events: seq<Event>)
    requires Reports(a, events) && a.completionGatesPassed > 0
    ensures exists k | 0 <= k < |events| :: events[k].CompletionGate? && events[k].passed
  {
    assert Machine.AsU32(GatesPassed(events)) > 0;
    GateHappened(events);
  }

  /** Whenever the contract passed, every segment's own lines are a well-formed
      trace for its request, each later one resumes the session written by the
      one before, each ended as expected, and a completing run shows its gate. */
  lemma PassedContractReadsTraces(ep: Setting, rec: Recording)
    requires Recorded(ep, rec)
    requires Conclude(ep).Ok? && Conclude(ep).value.contractPassed
    ensures forall i | 0 <= i < |ExpectedTerminals(ep)| :: TraceConforms(ep, rec, i)
    ensures RequiresCompletion(ep) ==> CompletionTraced(ep, rec)
  {
    ContractPassedExactly(ep);
    forall i | 0 <= i < |ExpectedTerminals(ep)| ensures TraceConforms(ep, rec, i) {
      GoodRunTrace(ep, rec, i);
    }
    if RequiresCompletion(ep) {
      CompletionIsTraced(ep, rec);
    }
  }
}
