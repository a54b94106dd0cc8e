/** Every verdict of a recorded row, passed or not, told by the row itself and by
    what the children, probes and graders did. */
module EpisodeRows {
  import opened Wrappers
  import opened Corpus
  import opened CommandChecks
  import opened EvidenceRows
  import opened Traces
  import opened Episode
  import opened EpisodeContract
  import opened EpisodeEvidence
  import Machine
  import Stops
  import Text

  // ----- the analyses of a run -----------------------------------------------------------------

  /** The analyses of the first `n` children that could be understood, in order. */
  ghost function Understood(ep: Setting, n: nat): seq<Analysis> {
    if n == 0 then []
    else Understood(ep, n - 1) + if AnalysisAt(ep, n - 1).Some? then [AnalysisAt(ep, n - 1).value] else []
  }

  /** The places at which an analysis resumes the session of the one before. */
  ghost function Links(analyses: seq<Analysis>): set<int> {
    set j | 0 <= j < |analyses| && ResumesBefore(analyses, j)
  }

  ghost predicate ResumesBefore(analyses: seq<Analysis>, j: nat)
    requires j < |analyses|
  {
    j > 0 && analyses[j].resumedFrom == Some(analyses[j - 1].session)
  }

  lemma SameLink(analyses: seq<Analysis>, a: Analysis, j: nat)
    requires j < |analyses|
    ensures ResumesBefore(analyses + [a], j) <==> ResumesBefore(analyses, j)
  {
  }

  lemma LinksSnoc(analyses: seq<Analysis>, a: Analysis)
    ensures |Links(analyses + [a])| == |Links(analyses)| + if Linked(analyses, a) then 1 else 0
  {
    var n := |analyses|;
    forall j | 0 <= j < n ensures ResumesBefore(analyses + [a], j) <==> ResumesBefore(analyses, j) {
      SameLink(analyses, a, j);
    }
    assert ResumesBefore(analyses + [a], n) <==> Linked(analyses, a);
    assert Links(analyses + [a]) == Links(analyses) + if Linked(analyses, a) then {n} else {};
  }

  ghost predicate Follows(ep: Setting, st: Loop) {
    st.analyses == Understood(ep, |st.segments|) && st.resumes == Machine.Capped(|Links(st.analyses)|)
  }

  lemma ObserveFollows(ep: Setting, st: Loop, i: nat, p: Process)
    requires i < |ExpectedTerminals(ep)| && Child(ep, i) == Ok(p) && |st.segments| == i && Follows(ep, st)
    ensures Follows(ep, Observe(ep, st, i, p)) && |Observe(ep, st, i, p).segments| == i + 1
  {
    if AnalysisOf(p).Some? {
      LinksSnoc(st.analyses, AnalysisOf(p).value);
    }
  }

  ghost predicate SameRecord(a: Loop, b: Loop) {
    a.analyses == b.analyses && a.resumes == b.resumes && a.segments == b.segments
  }

  lemma HandOverKeepsRecord(ep: Setting, st: Loop, i: nat, p: Process)
    requires i < |ExpectedTerminals(ep)|
    ensures SameRecord(HandOver(ep, st, i, p), st)
  {
  }

  lemma ProceedKeepsRecord(ep: Setting, seen: Loop, i: nat, p: Process)
    requires i < |ExpectedTerminals(ep)| && Proceed(ep, seen, i, p).Ok?
    ensures SameRecord(Proceed(ep, seen, i, p).value, seen)
  {
    if ProbeNow(ep, seen, i, p) && WorkspaceProbe(ep, i).Ok? {
      HandOverKeepsRecord(ep, WithProbe(seen, WorkspaceProbe(ep, i).value), i, p);
    } else {
      HandOverKeepsRecord(ep, seen, i, p);
    }
  }

  lemma AdvanceFollows(ep: Setting, st: Loop, i: nat)
    requires i < |ExpectedTerminals(ep)| && |st.segments| == i && Follows(ep, st)
    requires Advance(ep, st, i).Ok?
    ensures Follows(ep, Advance(ep, st, i).value)
  {
    var p := Child(ep, i).value;
    ObserveFollows(ep, st, i, p);
    ProceedKeepsRecord(ep, Observe(ep, st, i, p), i, p);
  }

  /** At every point of a run its analyses are those of the recorded children. */
  lemma {:induction false} RunFollows(ep: Setting, k: nat)
    requires k <= |ExpectedTerminals(ep)| && RunTo(ep, k).Ok?
    ensures Follows(ep, RunTo(ep, k).value)
  {
    if k == 0 {
      assert Links([]) == {};
    } else {
      RunFollows(ep, k - 1);
      RunRecords(ep, k - 1);
      var st := RunTo(ep, k - 1).value;
      if !st.stopped {
        RunStep(ep, k, st);
        AdvanceFollows(ep, st, k - 1);
      }
    }
  }

  lemma {:induction false} UnderstoodMembers(ep: Setting, n: nat, a: Analysis)
    ensures a in Understood(ep, n) <==> exists i | 0 <= i < n :: AnalysisAt(ep, i) == Some(a)
  {
    if n > 0 {
      UnderstoodMembers(ep, n - 1, a);
    }
  }

  // ----- the expected sequence -------------------------------------------------------------------

  /** Segment `i` ended as expected, resumed the one before it with the answer
      that was asked for, and left the next one something to answer with. */
  ghost predicate InSequence(ep: Setting, i: nat)
    requires i < |ExpectedTerminals(ep)|
  {
    && Child(ep, i).Ok?
    && var p := Child(ep, i).value;
    && AnalysisOf(p).Some?
    && SegmentMatches(ep, i, p)
    && LinkGood(ep, i)
    && (i + 1 < |ExpectedTerminals(ep)| && ObservedOf(p) == Some(Stops.NeedsInput) ==>
          HasText(FrozenAnswer(ep.task)))
  }

  ghost predicate SequenceUpTo(ep: Setting, k: nat)
    requires k <= |ExpectedTerminals(ep)|
  {
    forall i | 0 <= i < k :: InSequence(ep, i)
  }

  /** The loop state of a run that is still in sequence, as far as it matters. */
  ghost predicate OnTrack(ep: Setting, k: nat, st: Loop) {
    && !st.stopped && st.sequenceMatches && |st.segments| == k
    && st.analyses == Understood(ep, k)
    && st.pendingAnswer == PendingAt(ep, k)
    && (k > 0 ==> st.resumable)
  }

  lemma LastUnderstood(ep: Setting, i: nat)
    requires i > 0 && AnalysisAt(ep, i - 1).Some?
    ensures Understood(ep, i) != []
    ensures Understood(ep, i)[|Understood(ep, i)| - 1] == AnalysisAt(ep, i - 1).value
  {
  }

  /** While in sequence, link issues are exactly bad links. */
  lemma LinksOnTrack(ep: Setting, i: nat)
    requires i < |ExpectedTerminals(ep)| && AnalysisAt(ep, i).Some?
    requires i > 0 ==> AnalysisAt(ep, i - 1).Some?
    ensures LinkIssues(Understood(ep, i), PendingAt(ep, i), AnalysisAt(ep, i).value) == [] <==> LinkGood(ep, i)
  {
    if i > 0 {
      LastUnderstood(ep, i);
    }
  }

  lemma ObserveOnTrack(ep: Setting, st: Loop, i: nat, p: Process)
    requires i < |ExpectedTerminals(ep)| && Child(ep, i) == Ok(p)
    requires OnTrack(ep, i, st) && (i > 0 ==> AnalysisAt(ep, i - 1).Some?)
    ensures var seen := Observe(ep, st, i, p);
            && (seen.sequenceMatches <==> AnalysisOf(p).Some? && SegmentMatches(ep, i, p) && LinkGood(ep, i))
            && seen.analyses == Understood(ep, i + 1) && |seen.segments| == i + 1
            && seen.pendingAnswer == st.pendingAnswer && !seen.stopped
  {
    if AnalysisOf(p).Some? {
      LinksOnTrack(ep, i);
    }
  }

  lemma HandOverOnTrack(ep: Setting, seen: Loop, i: nat, p: Process)
    requires i < |ExpectedTerminals(ep)| && Child(ep, i) == Ok(p) && AnalysisOf(p).Some?
    requires seen.sequenceMatches && SegmentMatches(ep, i, p) && LinkGood(ep, i)
    requires seen.analyses == Understood(ep, i + 1) && |seen.segments| == i + 1
    requires seen.pendingAnswer == PendingAt(ep, i) && !seen.stopped
    ensures InSequence(ep, i) ==> OnTrack(ep, i + 1, HandOver(ep, seen, i, p))
    ensures !InSequence(ep, i) ==> !HandOver(ep, seen, i, p).sequenceMatches
  {
  }

  lemma ProceedOnTrack(ep: Setting, seen: Loop, i: nat, p: Process)
    requires i < |ExpectedTerminals(ep)| && Child(ep, i) == Ok(p) && AnalysisOf(p).Some?
    requires seen.sequenceMatches && SegmentMatches(ep, i, p) && LinkGood(ep, i)
    requires seen.analyses == Understood(ep, i + 1) && |seen.segments| == i + 1
    requires seen.pendingAnswer == PendingAt(ep, i) && !seen.stopped
    requires Proceed(ep, seen, i, p).Ok?
    ensures InSequence(ep, i) ==> OnTrack(ep, i + 1, Proceed(ep, seen, i, p).value)
    ensures !InSequence(ep, i) ==> !Proceed(ep, seen, i, p).value.sequenceMatches
  {
    if ProbeNow(ep, seen, i, p) {
      HandOverOnTrack(ep, WithProbe(seen, WorkspaceProbe(ep, i).value), i, p);
    } else {
      HandOverOnTrack(ep, seen, i, p);
    }
  }

  lemma ProceedOffTrack(ep: Setting, seen: Loop, i: nat, p: Process)
    requires i < |ExpectedTerminals(ep)| && Proceed(ep, seen, i, p).Ok? && !seen.sequenceMatches
    ensures !Proceed(ep, seen, i, p).value.sequenceMatches
  {
  }

  lemma AdvanceOnTrack(ep: Setting, st: Loop, i: nat)
    requires i < |ExpectedTerminals(ep)| && Advance(ep, st, i).Ok?
    requires OnTrack(ep, i, st) && (i > 0 ==> AnalysisAt(ep, i - 1).Some?)
    ensures InSequence(ep, i) ==> OnTrack(ep, i + 1, Advance(ep, st, i).value)
    ensures !InSequence(ep, i) ==> !Advance(ep, st, i).value.sequenceMatches
  {
    var p := Child(ep, i).value;
    var seen := Observe(ep, st, i, p);
    ObserveOnTrack(ep, st, i, p);
    if seen.sequenceMatches {
      ProceedOnTrack(ep, seen, i, p);
    } else {
      ProceedOffTrack(ep, seen, i, p);
    }
  }

  lemma AdvanceOffTrack(ep: Setting, st: Loop, i: nat)
    requires i < |ExpectedTerminals(ep)| && Advance(ep, st, i).Ok? && !st.sequenceMatches
    ensures !Advance(ep, st, i).value.sequenceMatches
  {
    var p := Child(ep, i).value;
    ProceedOffTrack(ep, Observe(ep, st, i, p), i, p);
  }

  /** The state says whether all `k` segments were in sequence. */
  ghost predicate Judged(ep: Setting, k: nat, st: Loop)
    requires k <= |ExpectedTerminals(ep)|
  {
    if SequenceUpTo(ep, k) then OnTrack(ep, k, st) else !st.sequenceMatches
  }

  lemma SequenceSplits(ep: Setting, i: nat)
    requires i < |ExpectedTerminals(ep)|
    ensures SequenceUpTo(ep, i + 1) <==> SequenceUpTo(ep, i) && InSequence(ep, i)
  {
  }

  lemma StepJudged(ep: Setting, i: nat, st: Loop)
    requires i < |ExpectedTerminals(ep)| && Judged(ep, i, st) && Advance(ep, st, i).Ok?
    ensures Judged(ep, i + 1, Advance(ep, st, i).value)
  {
    SequenceSplits(ep, i);
    if SequenceUpTo(ep, i) {
      assert i > 0 ==> InSequence(ep, i - 1);
      AdvanceOnTrack(ep, st, i);
    } else {
      AdvanceOffTrack(ep, st, i);
    }
  }

  lemma StoppedJudged(ep: Setting, i: nat, st: Loop)
    requires i < |ExpectedTerminals(ep)| && Judged(ep, i, st) && st.stopped
    ensures Judged(ep, i + 1, st)
  {
    SequenceSplits(ep, i);
  }

  lemma RunJudges(ep: Setting, i: nat, st: Loop)
    requires i < |ExpectedTerminals(ep)| && RunTo(ep, i) == Ok(st) && Judged(ep, i, st) && RunTo(ep, i + 1).Ok?
    ensures Judged(ep, i + 1, RunTo(ep, i + 1).value)
  {
    if st.stopped {
      StoppedJudged(ep, i, st);
    } else {
      RunStep(ep, i + 1, st);
      StepJudged(ep, i, st);
    }
  }

  /** A run is in sequence exactly when every segment so far was. */
  lemma {:induction false} RunSequence(ep: Setting, k: nat)
    requires k <= |ExpectedTerminals(ep)| && RunTo(ep, k).Ok?
    ensures Judged(ep, k, RunTo(ep, k).value)
  {
    if k > 0 {
      RunSequence(ep, k - 1);
      RunJudges(ep, k - 1, RunTo(ep, k - 1).value);
    }
  }

  // ----- infrastructure ------------------------------------------------------------------------------

  /** The child left nothing to complain about: it was found, understood, ended
      or was killed but not both, did not fail for an uninvited reason, resumed
      what it should have, and left the next one something to answer with. */
  ghost predicate Quiet(ep: Setting, i: nat)
    requires i < |ExpectedTerminals(ep)|
  {
    && Child(ep, i).Ok?
    && var p := Child(ep, i).value;
    && p.discoveryError == None
    && !(p.timedOut && p.exitCode.Some?)
    && AnalysisAt(ep, i).Some?
    && var terminal := AnalysisAt(ep, i).value.terminal;
    && (terminal == None ==> p.timedOut)
    && (terminal == Some(Stops.ProviderError) ==>
          InjectionFor(ep.task, i + 1).Some? && InjectionFor(ep.task, i + 1).value.kind == ProviderFailure)
    && LinkGood(ep, i)
    && (i + 1 < |ExpectedTerminals(ep)| && terminal == Some(Stops.NeedsInput) ==> HasText(FrozenAnswer(ep.task)))
  }

  ghost predicate QuietUpTo(ep: Setting, k: nat)
    requires k <= |ExpectedTerminals(ep)|
  {
    forall i | 0 <= i < k :: Quiet(ep, i)
  }

  /** Issues are recorded exactly when some recorded child was not quiet. */
  ghost predicate Accounted(ep: Setting, st: Loop) {
    && |st.segments| <= |ExpectedTerminals(ep)|
    && (st.issues == [] <==> QuietUpTo(ep, |st.segments|))
    && (!st.stopped ==> st.pendingAnswer == PendingAt(ep, |st.segments|))
    && st.analyses == Understood(ep, |st.segments|)
  }

  lemma QuietSplits(ep: Setting, i: nat)
    requires i < |ExpectedTerminals(ep)|
    ensures QuietUpTo(ep, i + 1) <==> QuietUpTo(ep, i) && Quiet(ep, i)
  {
  }

  /** All of `Quiet` but what is found out when handing over. */
  ghost predicate QuietSoFar(ep: Setting, i: nat, p: Process)
    requires i < |ExpectedTerminals(ep)| && Child(ep, i) == Ok(p)
  {
    && CaptureIssues(p) == []
    && TerminalIssues(InjectionFor(ep.task, i + 1), p) == []
    && AnalysisAt(ep, i).Some? && LinkGood(ep, i)
  }

  lemma QuietInParts(ep: Setting, i: nat, p: Process)
    requires i < |ExpectedTerminals(ep)| && Child(ep, i) == Ok(p)
    ensures Quiet(ep, i) <==>
            && QuietSoFar(ep, i, p)
            && (i + 1 < |ExpectedTerminals(ep)| && ObservedOf(p) == Some(Stops.NeedsInput) ==>
                  HasText(FrozenAnswer(ep.task)))
  {
  }

  lemma ObserveAccounts(ep: Setting, st: Loop, i: nat, p: Process)
    requires i < |ExpectedTerminals(ep)| && Child(ep, i) == Ok(p)
    requires Accounted(ep, st) && |st.segments| == i && !st.stopped
    ensures var seen := Observe(ep, st, i, p);
            && (seen.issues == [] <==> QuietUpTo(ep, i) && QuietSoFar(ep, i, p))
            && seen.analyses == Understood(ep, i + 1) && |seen.segments| == i + 1
            && seen.pendingAnswer == PendingAt(ep, i)
  {
    var seen := Observe(ep, st, i, p);
    if st.issues == [] && AnalysisOf(p).Some? {
      assert i > 0 ==> Quiet(ep, i - 1);
      LinksOnTrack(ep, i);
    } else if AnalysisOf(p).None? {
      assert CaptureIssues(p) != [];
    }
  }

  lemma HandOverAccounts(ep: Setting, seen: Loop, i: nat, p: Process)
    requires i < |ExpectedTerminals(ep)| && Child(ep, i) == Ok(p)
    requires seen.issues == [] <==> QuietUpTo(ep, i) && QuietSoFar(ep, i, p)
    requires seen.analyses == Understood(ep, i + 1) && |seen.segments| == i + 1
    requires seen.pendingAnswer == PendingAt(ep, i)
    ensures Accounted(ep, HandOver(ep, seen, i, p))
  {
    QuietInParts(ep, i, p);
    QuietSplits(ep, i);
    HandOverSays(ep, seen, i, p);
  }

  lemma HandOverSays(ep: Setting, seen: Loop, i: nat, p: Process)
    requires i < |ExpectedTerminals(ep)| && Child(ep, i) == Ok(p) && seen.pendingAnswer == PendingAt(ep, i)
    ensures var next := HandOver(ep, seen, i, p);
            && next.segments == seen.segments && next.analyses == seen.analyses
            && (next.issues == [] <==>
                  && seen.issues == []
                  && (i + 1 < |ExpectedTerminals(ep)| && ObservedOf(p) == Some(Stops.NeedsInput) ==>
                        HasText(FrozenAnswer(ep.task))))
            && (!next.stopped ==> next.pendingAnswer == PendingAt(ep, i + 1))
  {
  }

  lemma ProceedAccounts(ep: Setting, seen: Loop, i: nat, p: Process)
    requires i < |ExpectedTerminals(ep)| && Child(ep, i) == Ok(p)
    requires seen.issues == [] <==> QuietUpTo(ep, i) && QuietSoFar(ep, i, p)
    requires seen.analyses == Understood(ep, i + 1) && |seen.segments| == i + 1
    requires seen.pendingAnswer == PendingAt(ep, i) && Proceed(ep, seen, i, p).Ok?
    ensures Accounted(ep, Proceed(ep, seen, i, p).value)
  {
    if !p.capture.Retained? {
      assert CaptureIssues(p) != [];
      QuietInParts(ep, i, p);
      QuietSplits(ep, i);
    } else if ProbeNow(ep, seen, i, p) {
      HandOverAccounts(ep, WithProbe(seen, WorkspaceProbe(ep, i).value), i, p);
    } else {
      HandOverAccounts(ep, seen, i, p);
    }
  }

  lemma AdvanceAccounts(ep: Setting, i: nat, st: Loop)
    requires i < |ExpectedTerminals(ep)| && Advance(ep, st, i).Ok?
    requires Accounted(ep, st) && |st.segments| == i && !st.stopped
    ensures Accounted(ep, Advance(ep, st, i).value)
  {
    var p := Child(ep, i).value;
    ObserveAccounts(ep, st, i, p);
    ProceedAccounts(ep, Observe(ep, st, i, p), i, p);
  }

  lemma RunAccountsStep(ep: Setting, i: nat, st: Loop)
    requires i < |ExpectedTerminals(ep)| && RunTo(ep, i) == Ok(st) && Accounted(ep, st) && RunTo(ep, i + 1).Ok?
    ensures Accounted(ep, RunTo(ep, i + 1).value)
  {
    if !st.stopped {
      RunRecords(ep, i);
      RunStep(ep, i + 1, st);
      AdvanceAccounts(ep, i, st);
    }
  }

  lemma {:induction false} RunAccounts(ep: Setting, k: nat)
    requires k <= |ExpectedTerminals(ep)| && RunTo(ep, k).Ok?
    ensures Accounted(ep, RunTo(ep, k).value)
  {
    if k > 0 {
      RunAccounts(ep, k - 1);
      RunAccountsStep(ep, k - 1, RunTo(ep, k - 1).value);
    }
  }

  // ----- how far a run goes -----------------------------------------------------------------------------

  /** The run goes on after segment `i`: its trace was retained, it ended as expected,
      and the next segment has what was asked for. */
  ghost predicate GoesOn(ep: Setting, i: nat)
    requires i < |ExpectedTerminals(ep)|
  {
    && Child(ep, i).Ok?
    && var p := Child(ep, i).value;
    && p.capture.Retained?
    && SegmentMatches(ep, i, p)
    && (i + 1 < |ExpectedTerminals(ep)| && ObservedOf(p) == Some(Stops.NeedsInput) ==>
          HasText(FrozenAnswer(ep.task)))
  }

  ghost predicate WentAsFar(ep: Setting, k: nat, st: Loop)
    requires k <= |ExpectedTerminals(ep)|
  {
    && |st.segments| <= k
    && (forall i | 0 <= i < |st.segments| - 1 :: GoesOn(ep, i))
    && (if st.stopped then st.segments != [] && !GoesOn(ep, |st.segments| - 1)
        else |st.segments| == k && (k > 0 ==> GoesOn(ep, k - 1)))
  }

  lemma ProceedGoesOn(ep: Setting, seen: Loop, i: nat, p: Process)
    requires i < |ExpectedTerminals(ep)| && Child(ep, i) == Ok(p) && !seen.stopped && Proceed(ep, seen, i, p).Ok?
    ensures var next := Proceed(ep, seen, i, p).value;
            next.segments == seen.segments && (next.stopped <==> !GoesOn(ep, i))
  {
  }

  lemma AdvanceGoesOn(ep: Setting, i: nat, st: Loop)
    requires i < |ExpectedTerminals(ep)| && WentAsFar(ep, i, st) && !st.stopped && Advance(ep, st, i).Ok?
    ensures WentAsFar(ep, i + 1, Advance(ep, st, i).value)
  {
    var p := Child(ep, i).value;
    ProceedGoesOn(ep, Observe(ep, st, i, p), i, p);
  }

  /** A run ends with its last segment or with the first after which it could not go
      on. */
  lemma {:induction false} RunGoesOn(ep: Setting, k: nat)
    requires k <= |ExpectedTerminals(ep)| && RunTo(ep, k).Ok?
    ensures WentAsFar(ep, k, RunTo(ep, k).value)
  {
    if k > 0 {
      RunGoesOn(ep, k - 1);
      RunGoesOnStep(ep, k - 1, RunTo(ep, k - 1).value);
    }
  }

  lemma RunGoesOnStep(ep: Setting, i: nat, st: Loop)
    requires i < |ExpectedTerminals(ep)| && RunTo(ep, i) == Ok(st) && WentAsFar(ep, i, st) && RunTo(ep, i + 1).Ok?
    ensures WentAsFar(ep, i + 1, RunTo(ep, i + 1).value)
  {
    if !st.stopped {
      RunStep(ep, i + 1, st);
      AdvanceGoesOn(ep, i, st);
    }
  }

  // ----- refusal probes ---------------------------------------------------------------------------------

  /** Segment `i` stopped as it was expected to stop. */
  ghost predicate StopsAt(ep: Setting, i: nat)
    requires i < |ExpectedTerminals(ep)|
  {
    && (ExpectedTerminals(ep)[i] == Paused || ExpectedTerminals(ep)[i] == NeedsInput)
    && Child(ep, i).Ok? && SegmentMatches(ep, i, Child(ep, i).value)
  }

  /** The workspace probe after `k` segments: at the first expected stop, if it was
      requested. */
  ghost predicate WorkspaceProbed(ep: Setting, k: nat, probes: seq<Probe>)
    requires k <= |ExpectedTerminals(ep)|
  {
    if RequestsRefusal(ep, WorkspaceMismatch) && exists i | 0 <= i < k :: StopsAt(ep, i) then
      exists i | 0 <= i < k ::
        && StopsAt(ep, i) && (forall j | 0 <= j < i :: !StopsAt(ep, j))
        && WorkspaceProbe(ep, i).Ok?
        && probes == [Probe(WorkspaceMismatch, true, WorkspaceProbe(ep, i).value)]
    else probes == []
  }

  ghost predicate Probing(ep: Setting, st: Loop) {
    && |st.segments| <= |ExpectedTerminals(ep)|
    && WorkspaceProbed(ep, |st.segments|, st.probes)
    && (st.probed <==> st.probes != [])
  }

  lemma ProbeStep(ep: Setting, i: nat, probes: seq<Probe>)
    requires i < |ExpectedTerminals(ep)| && WorkspaceProbed(ep, i, probes)
    ensures !(RequestsRefusal(ep, WorkspaceMismatch) && StopsAt(ep, i) && probes == []) ==>
              WorkspaceProbed(ep, i + 1, probes)
    ensures RequestsRefusal(ep, WorkspaceMismatch) && StopsAt(ep, i) && probes == [] && WorkspaceProbe(ep, i).Ok? ==>
              WorkspaceProbed(ep, i + 1, [Probe(WorkspaceMismatch, true, WorkspaceProbe(ep, i).value)])
  {
    if RequestsRefusal(ep, WorkspaceMismatch) && exists j | 0 <= j < i :: StopsAt(ep, j) {
      var j :| 0 <= j < i && StopsAt(ep, j) && (forall l | 0 <= l < j :: !StopsAt(ep, l))
        && WorkspaceProbe(ep, j).Ok? && probes == [Probe(WorkspaceMismatch, true, WorkspaceProbe(ep, j).value)];
      assert j < i + 1;
    }
  }

  lemma HandOverKeepsProbes(ep: Setting, st: Loop, i: nat, p: Process)
    requires i < |ExpectedTerminals(ep)|
    ensures HandOver(ep, st, i, p).probes == st.probes && HandOver(ep, st, i, p).probed == st.probed
    ensures HandOver(ep, st, i, p).segments == st.segments
  {
  }

  lemma ProceedProbes(ep: Setting, seen: Loop, i: nat, p: Process)
    requires i < |ExpectedTerminals(ep)| && Child(ep, i) == Ok(p) && |seen.segments| == i + 1
    requires WorkspaceProbed(ep, i, seen.probes) && (seen.probed <==> seen.probes != [])
    requires Proceed(ep, seen, i, p).Ok?
    ensures Probing(ep, Proceed(ep, seen, i, p).value)
  {
    ProbeStep(ep, i, seen.probes);
    if p.capture.Retained? && ProbeNow(ep, seen, i, p) {
      var probed := WithProbe(seen, WorkspaceProbe(ep, i).value);
      HandOverKeepsProbes(ep, probed, i, p);
      assert probed.probes == [Probe(WorkspaceMismatch, true, WorkspaceProbe(ep, i).value)];
    } else {
      HandOverKeepsProbes(ep, seen, i, p);
    }
  }

  lemma AdvanceProbes(ep: Setting, i: nat, st: Loop)
    requires i < |ExpectedTerminals(ep)| && Advance(ep, st, i).Ok? && |st.segments| == i && Probing(ep, st)
    ensures Probing(ep, Advance(ep, st, i).value)
  {
    var p := Child(ep, i).value;
    ProceedProbes(ep, Observe(ep, st, i, p), i, p);
  }

  lemma RunProbesStep(ep: Setting, i: nat, st: Loop)
    requires i < |ExpectedTerminals(ep)| && RunTo(ep, i) == Ok(st) && Probing(ep, st) && RunTo(ep, i + 1).Ok?
    ensures Probing(ep, RunTo(ep, i + 1).value)
  {
    if !st.stopped {
      RunRecords(ep, i);
      RunStep(ep, i + 1, st);
      AdvanceProbes(ep, i, st);
    }
  }

  lemma {:induction false} RunProbes(ep: Setting, k: nat)
    requires k <= |ExpectedTerminals(ep)| && RunTo(ep, k).Ok?
    ensures Probing(ep, RunTo(ep, k).value)
  {
    if k > 0 {
      RunProbes(ep, k - 1);
      RunProbesStep(ep, k - 1, RunTo(ep, k - 1).value);
    }
  }

  // ----- the row ---------------------------------------------------------------------------------------------

  /** Which terminals a stop may have, spelled out. */
  lemma MatchesExactly(
    expected: TerminalOutcome, observed: Option<Stops.StopReason>, exitCode: Option<int>, timedOut: bool)
    ensures TerminalMatches(expected, observed, exitCode, timedOut) <==>
            && !timedOut
            && (match expected
                case Completed => exitCode == Some(0) && observed == Some(Stops.TaskComplete)
                case NeedsInput => exitCode.Some? && exitCode != Some(0) && observed == Some(Stops.NeedsInput)
                case Paused =>
                  && exitCode.Some? && exitCode != Some(0) && observed.Some?
                  && observed.value in {
                       Stops.MaxTurns, Stops.RepetitionGuard, Stops.NoProgress, Stops.RepeatedFailure,
                       Stops.Oscillation, Stops.ProviderError, Stops.EmptyCompletion, Stops.TruncatedAction,
                       Stops.Interrupted, Stops.HookFailed
                     }
                case ResumeRejected => false)
  {
  }

  /** An injected segment matches only with the very stop its injection produces. */
  lemma InjectedMatchesExactly(ep: Setting, i: nat, p: Process)
    requires i < |ExpectedTerminals(ep)|
    ensures SegmentMatches(ep, i, p) <==>
            && TerminalMatches(ExpectedTerminals(ep)[i], ObservedOf(p), p.exitCode, p.timedOut)
            && (match InjectionFor(ep.task, i + 1)
                case None => true
                case Some(Injection(_, ProviderFailure)) => ObservedOf(p) == Some(Stops.ProviderError)
                case Some(Injection(_, BudgetExhaustion)) => ObservedOf(p) == Some(Stops.MaxTurns)
                case Some(Injection(_, ClarificationPause)) => ObservedOf(p) == Some(Stops.NeedsInput))
  {
  }

  /** A recorded segment repeats what its child did. */
  ghost predicate SegmentSays(ep: Setting, i: nat, segment: Segment)
    requires i < |ExpectedTerminals(ep)|
  {
    && Child(ep, i).Ok?
    && var p := Child(ep, i).value;
    && segment.number == i + 1
    && segment.expected == ExpectedTerminals(ep)[i]
    && segment.exitCode == p.exitCode && segment.timedOut == p.timedOut
    && segment.observed == (if AnalysisAt(ep, i).Some? then AnalysisAt(ep, i).value.terminal else None)
    && segment.structureValidated == AnalysisAt(ep, i).Some?
    && (match p.capture
        case Retained(sha256, _) =>
          segment.tracePath == Some(RetainedTracePath(ep, i + 1)) && segment.traceSha256 == Some(sha256)
        case _ => segment.tracePath == None && segment.traceSha256 == None)
  }

  /** The recorded segments are all there were, or end with the first after which
      the run could not go on. */
  ghost predicate LengthMeans(ep: Setting, row: Outcome) {
    var n := |row.segments|;
    && n <= |ExpectedTerminals(ep)|
    && (forall i | 0 <= i < n - 1 :: GoesOn(ep, i))
    && (n < |ExpectedTerminals(ep)| ==> n > 0 && !GoesOn(ep, n - 1))
  }

  ghost predicate AnyTimedOut(row: Outcome) {
    exists i | 0 <= i < |row.segments| :: row.segments[i].timedOut
  }

  /** The episode had to complete. */
  predicate MustComplete(ep: Setting) {
    ExpectedTerminals(ep) != [] && ExpectedTerminals(ep)[|ExpectedTerminals(ep)| - 1] == Completed
  }

  /** The last recorded child ended cleanly with the task complete, and a
      completion gate passed in it. */
  ghost predicate EndedWell(ep: Setting, row: Outcome) {
    && row.segments != []
    && var last := |row.segments| - 1;
    && row.segments[last].observed == Some(Stops.TaskComplete)
    && row.segments[last].exitCode == Some(0)
    && !row.segments[last].timedOut
    && AnalysisAt(ep, last).Some? && AnalysisAt(ep, last).value.completionGatesPassed > 0
  }

  /** The objective: the episode had to complete, nothing timed out, it ended well
      and every configured check ran and passed. */
  ghost predicate ObjectiveMeans(ep: Setting, row: Outcome) {
    && MustComplete(ep)
    && !AnyTimedOut(row)
    && EndedWell(ep, row)
    && |row.commandChecks| == |ep.task.checks| > 0
    && (forall i | 0 <= i < |row.commandChecks| :: row.commandChecks[i].status == Passed)
  }

  /** Checks were graded up to the first that did not pass, or not at all. */
  ghost predicate ChecksMeanWhat(ep: Setting, row: Outcome) {
    if MustComplete(ep) && !AnyTimedOut(row) && ep.world.gradingError == None then
      StopsAtFirstFailure(ep.task.checks, ep.world.grade, 0, row.commandChecks)
    else row.commandChecks == []
  }

  /** Some understood child of the run asked this. */
  ghost predicate Asked(ep: Setting, row: Outcome, question: string) {
    exists i | 0 <= i < |row.segments| :: AnalysisAt(ep, i).Some? && question in AnalysisAt(ep, i).value.questions
  }

  /** A term questions are judged by: the clarification contract has the say, and the
      recovery contract only where there is none. */
  ghost predicate IsTerm(task: Task, term: string) {
    || (task.clarification.Some? && term in task.clarification.value.questionTerms)
    || (task.clarification == None && task.recovery.Some? && term in task.recovery.value.questionTerms)
  }

  ghost predicate ClarificationMeans(ep: Setting, row: Outcome) {
    && (row.clarificationExpected <==>
          || (ep.task.clarification.Some? && ep.task.clarification.value.required)
          || (ep.task.recovery.Some?
              && exists i | 0 <= i < |ep.task.recovery.value.injections| ::
                   ep.task.recovery.value.injections[i].kind == ClarificationPause))
    && (row.clarificationObserved <==> exists question :: Asked(ep, row, question))
    && (row.unnecessaryClarification <==> row.clarificationObserved && !row.clarificationExpected)
    && (row.clarificationCorrect <==>
          && row.clarificationExpected && row.clarificationObserved
          && (forall i | 0 <= i < |row.segments| && AnalysisAt(ep, i).Some? ::
                !AnalysisAt(ep, i).value.mutationBeforeQuestion)
          && exists question, term ::
               && Asked(ep, row, question) && IsTerm(ep.task, term)
               && Text.Contains(Text.Lower(question), Text.Lower(term)))
  }

  ghost predicate ResumesMean(ep: Setting, row: Outcome) {
    && row.resumesExpected ==
       (if ep.variant == Current || ExpectedTerminals(ep) == [] then 0
        else Machine.AsU32(|ExpectedTerminals(ep)| - 1))
    && row.resumesObserved == Machine.Capped(|Links(Understood(ep, |row.segments|))|)
  }

  /** The workspace probe, then the completed-session probe if the run deserved
      it. */
  ghost predicate ProbesMean(ep: Setting, row: Outcome) {
    exists early :: ProbesSplit(ep, row, early)
  }

  ghost predicate ProbesSplit(ep: Setting, row: Outcome, early: seq<Probe>) {
    && |row.segments| <= |ExpectedTerminals(ep)|
    && WorkspaceProbed(ep, |row.segments|, early)
    && (if RequestsRefusal(ep, CompletedSession) && SequenceUpTo(ep, |ExpectedTerminals(ep)|) && EndedWell(ep, row)
        then ep.world.completedProbe.Ok?
             && row.refusalProbes == early + [Probe(CompletedSession, true, ep.world.completedProbe.value)]
        else row.refusalProbes == early)
  }

  ghost predicate RecoveryMeans(ep: Setting, row: Outcome) {
    row.recoverySucceeded <==>
      && row.resumesObserved == row.resumesExpected
      && SequenceUpTo(ep, |ExpectedTerminals(ep)|)
      && (forall i | 0 <= i < |row.refusalProbes| :: row.refusalProbes[i].rejected)
      && (MustComplete(ep) ==> row.objectiveCompleted)
  }

  ghost predicate InfrastructureMeans(ep: Setting, row: Outcome) {
    && |row.segments| <= |ExpectedTerminals(ep)|
    && (row.infrastructureError == None <==>
          && QuietUpTo(ep, |row.segments|)
          && (!AnyTimedOut(row) ==>
                !ep.world.deadlineExceeded && (MustComplete(ep) ==> ep.world.gradingError == None))
          && (forall i | 0 <= i < |row.commandChecks| :: row.commandChecks[i].status != InfrastructureError))
  }

  // Each verdict from the final loop state.

  /** The row as the final step fills it in. */
  ghost predicate FilledFrom(ep: Setting, st: Loop, row: Outcome) {
    && (CompletedProbeDue(ep, st) ==> ep.world.completedProbe.Ok?)
    && row.segments == st.segments
    && row.finalTerminal == (if st.segments == [] then None else st.segments[|st.segments| - 1].observed)
    && row.commandChecks == Graded(ep, st)
    && row.objectiveCompleted == ObjectiveReached(ep, st)
    && (row.infrastructureError == None <==> st.issues == [] && GradingIssues(ep, st) == [])
    && row.clarificationExpected == ClarificationExpected(ep.task)
    && row.clarificationObserved == (Questions(st.analyses) != [])
    && row.clarificationCorrect == ClarificationCorrect(ep.task, st.analyses)
    && row.unnecessaryClarification == (row.clarificationObserved && !row.clarificationExpected)
    && row.resumesExpected == ExpectedResumes(ep) && row.resumesObserved == st.resumes
    && row.refusalProbes == AllProbes(ep, st)
    && (row.recoverySucceeded <==>
          && row.resumesObserved == row.resumesExpected && st.sequenceMatches && ProbesPassed(row.refusalProbes)
          && (RequiresCompletion(ep) ==> row.objectiveCompleted))
  }

  lemma FinishFills(ep: Setting, st: Loop, row: Outcome)
    requires Finish(ep, st) == Ok(row)
    ensures FilledFrom(ep, st, row)
  {
  }

  ghost predicate FinalState(ep: Setting, st: Loop, row: Outcome) {
    && FilledFrom(ep, st, row)
    && SegmentsFaithful(ep, st.segments)
    && Follows(ep, st)
    && Judged(ep, |ExpectedTerminals(ep)|, st)
    && Accounted(ep, st)
    && Probing(ep, st)
    && WentAsFar(ep, |ExpectedTerminals(ep)|, st)
  }

  lemma FinalStateOf(ep: Setting) returns (st: Loop)
    requires Conclude(ep).Ok?
    ensures FinalState(ep, st, Conclude(ep).value)
  {
    var n := |ExpectedTerminals(ep)|;
    st := RunTo(ep, n).value;
    FinishFills(ep, st, Conclude(ep).value);
    RunRecords(ep, n);
    RunFollows(ep, n);
    RunSequence(ep, n);
    RunAccounts(ep, n);
    RunProbes(ep, n);
    RunGoesOn(ep, n);
  }

  lemma SegmentsSay(ep: Setting, st: Loop, row: Outcome)
    requires FinalState(ep, st, row)
    ensures row.segments == st.segments && |row.segments| <= |ExpectedTerminals(ep)|
    ensures forall i | 0 <= i < |row.segments| :: SegmentSays(ep, i, row.segments[i])
    ensures row.finalTerminal == if row.segments == [] then None else row.segments[|row.segments| - 1].observed
  {
    RecordsSay(ep, st.segments);
  }

  lemma RecordsSay(ep: Setting, segments: seq<Segment>)
    requires SegmentsFaithful(ep, segments)
    ensures |segments| <= |ExpectedTerminals(ep)|
    ensures forall i | 0 <= i < |segments| :: SegmentSays(ep, i, segments[i])
  {
    forall i | 0 <= i < |segments| ensures SegmentSays(ep, i, segments[i]) {
      RecordSays(ep, i, Child(ep, i).value);
    }
  }

  lemma RecordSays(ep: Setting, i: nat, p: Process)
    requires i < |ExpectedTerminals(ep)| && Child(ep, i) == Ok(p)
    ensures SegmentSays(ep, i, SegmentRecord(ep, i, p))
  {
  }

  lemma TimeoutsAgree(st: Loop, row: Outcome)
    requires row.segments == st.segments
    ensures TimedOut(st.segments) <==> AnyTimedOut(row)
  {
  }

  lemma EndingAgrees(ep: Setting, st: Loop, row: Outcome)
    requires FinalState(ep, st, row)
    ensures EndedCompleted(st) && GatePassed(st.analyses) <==> EndedWell(ep, row)
  {
    SegmentsSay(ep, st, row);
    LastAgrees(ep, st, row);
  }

  lemma LastAgrees(ep: Setting, st: Loop, row: Outcome)
    requires row.segments == st.segments && st.analyses == Understood(ep, |row.segments|)
    requires |row.segments| <= |ExpectedTerminals(ep)|
    requires forall i | 0 <= i < |row.segments| :: SegmentSays(ep, i, row.segments[i])
    ensures EndedCompleted(st) && GatePassed(st.analyses) <==> EndedWell(ep, row)
  {
    var n := |row.segments|;
    if n > 0 {
      assert SegmentSays(ep, n - 1, row.segments[n - 1]);
      if AnalysisAt(ep, n - 1).Some? {
        LastUnderstood(ep, n);
      }
    }
  }

  lemma ChecksSay(ep: Setting, st: Loop, row: Outcome)
    requires row.segments == st.segments && row.commandChecks == Graded(ep, st)
    ensures ChecksMeanWhat(ep, row)
  {
    TimeoutsAgree(st, row);
    ResultsFromShape(ep.task.checks, ep.world.grade, 0);
  }

  lemma ObjectiveSays(ep: Setting, st: Loop, row: Outcome)
    requires FinalState(ep, st, row)
    ensures row.objectiveCompleted <==> ObjectiveMeans(ep, row)
  {
    SegmentsSay(ep, st, row);
    TimeoutsAgree(st, row);
    EndingAgrees(ep, st, row);
    ChecksSay(ep, st, row);
    PassedChecksAreAll(ep, row);
  }

  /** If all recorded checks passed, and there are any, all configured ones ran. */
  lemma PassedChecksAreAll(ep: Setting, row: Outcome)
    requires ChecksMeanWhat(ep, row)
    ensures row.commandChecks != [] && AllPassed(row.commandChecks) ==>
              |row.commandChecks| == |ep.task.checks| > 0
  {
    if row.commandChecks != [] && AllPassed(row.commandChecks) {
      var last := |row.commandChecks| - 1;
      assert row.commandChecks[last].status == Passed;
    }
  }

  lemma {:induction false} QuestionMembers(analyses: seq<Analysis>, question: string)
    ensures question in Questions(analyses) <==> exists i | 0 <= i < |analyses| :: question in analyses[i].questions
  {
    if analyses != [] {
      QuestionMembers(analyses[1..], question);
      if i :| 0 <= i < |analyses| - 1 && question in analyses[1..][i].questions {
        assert question in analyses[i + 1].questions;
      }
      if i :| 0 <= i < |analyses| && question in analyses[i].questions {
        assert i > 0 ==> question in analyses[1..][i - 1].questions;
      }
    }
  }

  lemma AskedExactly(ep: Setting, row: Outcome, question: string)
    ensures question in Questions(Understood(ep, |row.segments|)) <==> Asked(ep, row, question)
  {
    var analyses := Understood(ep, |row.segments|);
    QuestionMembers(analyses, question);
    if i :| 0 <= i < |analyses| && question in analyses[i].questions {
      UnderstoodMembers(ep, |row.segments|, analyses[i]);
    }
    if i :| 0 <= i < |row.segments| && AnalysisAt(ep, i).Some? && question in AnalysisAt(ep, i).value.questions {
      var a := AnalysisAt(ep, i).value;
      UnderstoodMembers(ep, |row.segments|, a);
      assert a in analyses;
      var j :| 0 <= j < |analyses| && analyses[j] == a;
      assert question in analyses[j].questions;
    }
  }

  lemma ObservedExactly(ep: Setting, row: Outcome)
    ensures Questions(Understood(ep, |row.segments|)) != [] <==> exists question :: Asked(ep, row, question)
  {
    var questions := Questions(Understood(ep, |row.segments|));
    if questions != [] {
      AskedExactly(ep, row, questions[0]);
    }
    if question :| Asked(ep, row, question) {
      AskedExactly(ep, row, question);
    }
  }

  lemma MutationsExactly(ep: Setting, row: Outcome)
    ensures var analyses := Understood(ep, |row.segments|);
            (forall i | 0 <= i < |analyses| :: !analyses[i].mutationBeforeQuestion)
            <==> forall i | 0 <= i < |row.segments| && AnalysisAt(ep, i).Some? ::
                   !AnalysisAt(ep, i).value.mutationBeforeQuestion
  {
    var analyses := Understood(ep, |row.segments|);
    forall i | 0 <= i < |analyses|
      ensures exists j | 0 <= j < |row.segments| :: AnalysisAt(ep, j) == Some(analyses[i])
    {
      UnderstoodMembers(ep, |row.segments|, analyses[i]);
    }
    forall j | 0 <= j < |row.segments| && AnalysisAt(ep, j).Some?
      ensures AnalysisAt(ep, j).value in analyses
    {
      UnderstoodMembers(ep, |row.segments|, AnalysisAt(ep, j).value);
    }
  }

  ghost predicate TermAsked(ep: Setting, row: Outcome, terms: seq<string>) {
    exists question, term ::
      Asked(ep, row, question) && term in terms && Text.Contains(Text.Lower(question), Text.Lower(term))
  }

  lemma TermsFound(ep: Setting, row: Outcome, questions: seq<string>, terms: seq<string>)
    requires forall question :: question in questions <==> Asked(ep, row, question)
    ensures QuestionMatchesTerms(questions, terms) <==> TermAsked(ep, row, terms)
  {
    if QuestionMatchesTerms(questions, terms) {
      var t, q :| 0 <= t < |terms| && 0 <= q < |questions|
        && Text.Contains(Text.Lower(questions[q]), Text.Lower(terms[t]));
      assert questions[q] in questions && terms[t] in terms;
    }
    if TermAsked(ep, row, terms) {
      var question, term :| Asked(ep, row, question) && term in terms
        && Text.Contains(Text.Lower(question), Text.Lower(term));
      var q :| 0 <= q < |questions| && questions[q] == question;
      var t :| 0 <= t < |terms| && terms[t] == term;
    }
  }

  lemma TermsExactly(ep: Setting, row: Outcome, terms: seq<string>)
    ensures QuestionMatchesTerms(Questions(Understood(ep, |row.segments|)), terms) <==> TermAsked(ep, row, terms)
  {
    var questions := Questions(Understood(ep, |row.segments|));
    forall question ensures question in questions <==> Asked(ep, row, question) {
      AskedExactly(ep, row, question);
    }
    TermsFound(ep, row, questions, terms);
  }

  lemma ClarificationSays(ep: Setting, st: Loop, row: Outcome)
    requires FinalState(ep, st, row)
    ensures ClarificationMeans(ep, row)
  {
    SegmentsSay(ep, st, row);
    ObservedExactly(ep, row);
    MutationsExactly(ep, row);
    TermsExactly(ep, row, QuestionTerms(ep.task));
    TermsApply(ep, row);
  }

  lemma TermsApply(ep: Setting, row: Outcome)
    ensures TermAsked(ep, row, QuestionTerms(ep.task)) <==>
            exists question, term ::
              Asked(ep, row, question) && IsTerm(ep.task, term) && Text.Contains(Text.Lower(question), Text.Lower(term))
  {
    assert forall term :: term in QuestionTerms(ep.task) <==> IsTerm(ep.task, term);
  }

  lemma ProbesSay(ep: Setting, st: Loop, row: Outcome)
    requires FinalState(ep, st, row)
    ensures ProbesMean(ep, row)
  {
    SegmentsSay(ep, st, row);
    EndingAgrees(ep, st, row);
    var n := |ExpectedTerminals(ep)|;
    assert st.sequenceMatches <==> SequenceUpTo(ep, n);
    assert ProbesSplit(ep, row, st.probes);
  }

  lemma AllAttemptedHere(ep: Setting, row: Outcome)
    requires ProbesMean(ep, row)
    ensures forall i | 0 <= i < |row.refusalProbes| :: row.refusalProbes[i].attempted
  {
  }

  lemma RecoverySays(ep: Setting, st: Loop, row: Outcome)
    requires FilledFrom(ep, st, row) && Judged(ep, |ExpectedTerminals(ep)|, st) && ProbesMean(ep, row)
    ensures RecoveryMeans(ep, row)
  {
    AllAttemptedHere(ep, row);
    assert st.sequenceMatches <==> SequenceUpTo(ep, |ExpectedTerminals(ep)|);
  }

  lemma ResumesSay(ep: Setting, st: Loop, row: Outcome)
    requires FilledFrom(ep, st, row) && Follows(ep, st)
    ensures ResumesMean(ep, row)
  {
  }

  lemma GradingExactly(ep: Setting, st: Loop, row: Outcome)
    requires row.segments == st.segments && row.commandChecks == Graded(ep, st)
    ensures GradingIssues(ep, st) == [] <==>
            && (!AnyTimedOut(row) ==>
                  !ep.world.deadlineExceeded && (MustComplete(ep) ==> ep.world.gradingError == None))
            && (forall i | 0 <= i < |row.commandChecks| :: row.commandChecks[i].status != InfrastructureError)
  {
    TimeoutsAgree(st, row);
    if AnyInfrastructureError(row.commandChecks) {
      var i :| 0 <= i < |row.commandChecks| && row.commandChecks[i].status == InfrastructureError;
    }
  }

  lemma InfrastructureSays(ep: Setting, st: Loop, row: Outcome)
    requires FilledFrom(ep, st, row) && Accounted(ep, st)
    ensures InfrastructureMeans(ep, row)
  {
    GradingExactly(ep, st, row);
  }

  /** Every recorded row, passed or not, says exactly what happened. */
  ghost predicate RowSays(ep: Setting, row: Outcome) {
    && LengthMeans(ep, row)
    && (forall i | 0 <= i < |row.segments| :: SegmentSays(ep, i, row.segments[i]))
    && row.finalTerminal == (if row.segments == [] then None else row.segments[|row.segments| - 1].observed)
    && ChecksMeanWhat(ep, row)
    && (row.objectiveCompleted <==> ObjectiveMeans(ep, row))
    && ClarificationMeans(ep, row)
    && ResumesMean(ep, row)
    && ProbesMean(ep, row)
    && RecoveryMeans(ep, row)
    && InfrastructureMeans(ep, row)
  }

  lemma LengthSays(ep: Setting, st: Loop, row: Outcome)
    requires row.segments == st.segments && WentAsFar(ep, |ExpectedTerminals(ep)|, st)
    ensures LengthMeans(ep, row)
  {
  }

  lemma RowMeans(ep: Setting)
    requires Conclude(ep).Ok?
    ensures RowSays(ep, Conclude(ep).value)
  {
    var st := FinalStateOf(ep);
    var row := Conclude(ep).value;
    SegmentsSay(ep, st, row);
    LengthSays(ep, st, row);
    ChecksSay(ep, st, row);
    ObjectiveSays(ep, st, row);
    ClarificationSays(ep, st, row);
    ProbesSay(ep, st, row);
    ResumesSay(ep, st, row);
    RecoverySays(ep, st, row);
    InfrastructureSays(ep, st, row);
  }

  /** In variant `Current` an episode is one segment, never resumed and never
      probed. */
  lemma CurrentRunsOnce(ep: Setting)
    requires ep.variant == Current && Conclude(ep).Ok?
    ensures var row := Conclude(ep).value;
            && |row.segments| == 1 && row.segments[0].expected == ep.task.terminal.current
            && row.resumesExpected == row.resumesObserved == 0
            && row.refusalProbes == []
  {
    RowMeans(ep);
    var row := Conclude(ep).value;
    CurrentShape(ep, row);
    CurrentResumes(ep, row);
    ProbesRequested(ep, row);
  }

  lemma CurrentShape(ep: Setting, row: Outcome)
    requires ep.variant == Current && LengthMeans(ep, row)
    requires forall i | 0 <= i < |row.segments| :: SegmentSays(ep, i, row.segments[i])
    ensures |row.segments| == 1 && row.segments[0].expected == ep.task.terminal.current
  {
  }

  lemma CurrentResumes(ep: Setting, row: Outcome)
    requires ep.variant == Current && ResumesMean(ep, row) && |row.segments| == 1
    ensures row.resumesExpected == row.resumesObserved == 0
  {
    assert Links(Understood(ep, 1)) == {};
  }

  /** Requested by the recovery contract of a resumable variant. */
  ghost predicate Requested(ep: Setting, mode: RefusalMode) {
    ep.variant != Current && ep.task.recovery.Some? && mode in ep.task.recovery.value.refusalModes
  }

  ghost predicate OnlyRequested(ep: Setting, probes: seq<Probe>) {
    && (forall i | 0 <= i < |probes| :: probes[i].attempted && Requested(ep, probes[i].mode))
    && (forall i, j | 0 <= i < j < |probes| :: probes[i].mode != probes[j].mode)
  }

  lemma ProbesRequested(ep: Setting, row: Outcome)
    requires ProbesMean(ep, row)
    ensures OnlyRequested(ep, row.refusalProbes)
  {
    var early :| ProbesSplit(ep, row, early);
    EarlyRequested(ep, |row.segments|, early);
  }

  lemma EarlyRequested(ep: Setting, k: nat, probes: seq<Probe>)
    requires k <= |ExpectedTerminals(ep)| && WorkspaceProbed(ep, k, probes)
    ensures OnlyRequested(ep, probes) && |probes| <= 1
    ensures probes != [] ==> probes[0].mode == WorkspaceMismatch
  {
  }

  /** In a resumable variant the segments expect the resumable terminals in turn,
      and only what the contract requests is probed, once. */
  lemma ResumableRunsInTurn(ep: Setting)
    requires ep.variant != Current && Conclude(ep).Ok?
    ensures var row := Conclude(ep).value;
            && |row.segments| <= |ep.task.terminal.resumable|
            && (forall i | 0 <= i < |row.segments| :: row.segments[i].expected == ep.task.terminal.resumable[i])
            && OnlyRequested(ep, row.refusalProbes)
  {
    RowMeans(ep);
    var row := Conclude(ep).value;
    ResumableShape(ep, row);
    ProbesRequested(ep, row);
  }

  lemma ResumableShape(ep: Setting, row: Outcome)
    requires ep.variant != Current && LengthMeans(ep, row)
    requires forall i | 0 <= i < |row.segments| :: SegmentSays(ep, i, row.segments[i])
    ensures |row.segments| <= |ep.task.terminal.resumable|
    ensures forall i | 0 <= i < |row.segments| :: row.segments[i].expected == ep.task.terminal.resumable[i]
  {
  }

  /** The runner: start-up, the segment loop, then probes, grading and verdicts.
      Its row says exactly what happened, its contract verdict that the whole run
      was as the frozen task demands, and it never fails to record such a run. */
  method RunEpisode(ep: Setting) returns (row: Result<Outcome, string>)
    ensures row == Conclude(ep)
    ensures row.Ok? ==> RowSays(ep, row.value)
    ensures row.Ok? ==> (row.value.contractPassed <==> Satisfied(ep))
    ensures Satisfied(ep) && ep.world.opening.None? && ep.world.closing.None? ==> row.Ok?
  {
    ContractPassedExactly(ep);
    if Conclude(ep).Ok? {
      RowMeans(ep);
    }
    if ep.world.opening.Some? {
      return Err(ep.world.opening.value);
    }
    var loop := RunSegments(ep);
    if loop.Err? {
      return Err(loop.error);
    }
    row := Finish(ep, loop.value);
  }
}
