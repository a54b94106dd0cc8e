/** One autonomy episode: a chain of child processes, each resuming the trace
    of the one before, followed by refusal probes and grading
    (`run_episode` in `ferric-cli/src/autonomy_cmd.rs`). */
module Episode {
  import opened Wrappers
  import opened Corpus
  import opened CommandChecks
  import opened EvidenceRows
  import opened Traces
  import Decimal
  import Machine
  import Stops
  import Text

  /** What became of the trace file a child left behind. */
  datatype Capture =
    | NoTrace
    | NotRetained(error: string)
    | Retained(sha256: string, analysis: Result<Analysis, string>)

  datatype Process = Process(
    exitCode: Option<int>, timedOut: bool, discoveryError: Option<string>, capture: Capture)

  /** Everything outside the runner: children, clocks and the file system. The
      theorems hold for every world. */
  datatype World = World(
    opening: Option<string>,
    segments: seq<Result<Process, string>>,
    workspaceProbes: seq<Result<bool, string>>,
    completedProbe: Result<bool, string>,
    gradingError: Option<string>,
    grade: Grader,
    deadlineExceeded: bool,
    closing: Option<string>)

  datatype Setting = Setting(
    task: Task, variant: Variant, runId: string, trial: nat, coordinate: Coordinate, world: World)

  /** The child of the segment with this index; one the world does not
      describe cannot be spawned. */
  function Child(ep: Setting, i: nat): Result<Process, string> {
    if i < |ep.world.segments| then ep.world.segments[i] else Err("cannot spawn query segment")
  }

  function WorkspaceProbe(ep: Setting, i: nat): Result<bool, string> {
    if i < |ep.world.workspaceProbes| then ep.world.workspaceProbes[i] else Err("cannot spawn probe")
  }

  // ----- contract lookups --------------------------------------------------------

  function ExpectedTerminals(ep: Setting): seq<TerminalOutcome> {
    if ep.variant == Current then [ep.task.terminal.current] else ep.task.terminal.resumable
  }

  predicate RequestsRefusal(ep: Setting, mode: RefusalMode) {
    ep.variant != Current && ep.task.recovery.Some? && mode in ep.task.recovery.value.refusalModes
  }

  /** The frozen answer to a clarification question. */
  function FrozenAnswer(task: Task): Option<string> {
    if task.clarification.Some? && task.clarification.value.answer.Some? then task.clarification.value.answer
    else if task.recovery.Some? then task.recovery.value.answer
    else None
  }

  predicate IsStop(outcome: TerminalOutcome) {
    outcome == Paused || outcome == NeedsInput
  }

  predicate TerminalMatches(
    expected: TerminalOutcome, observed: Option<Stops.StopReason>, exitCode: Option<int>, timedOut: bool)
  {
    && !timedOut
    && observed.Some?
    && exitCode.Some?
    && match expected
       case Completed => exitCode.value == 0 && observed.value == Stops.TaskComplete
       case NeedsInput => exitCode.value != 0 && observed.value == Stops.NeedsInput
       case Paused => exitCode.value != 0 && Stops.IsPause(observed.value)
       case ResumeRejected => false
  }

  predicate InjectionMatches(injection: Option<Injection>, observed: Option<Stops.StopReason>) {
    injection.Some? ==> observed == Some(ExpectedStopReason(injection.value.kind))
  }

  predicate AnswerRecorded(analysis: Analysis, answer: string) {
    exists i | 0 <= i < |analysis.resumePrompts| :: Text.Contains(analysis.resumePrompts[i], Text.Trim(answer))
  }

  predicate QuestionMatchesTerms(questions: seq<string>, terms: seq<string>) {
    exists t, q | 0 <= t < |terms| && 0 <= q < |questions| ::
      Text.Contains(Text.Lower(questions[q]), Text.Lower(terms[t]))
  }

  // ----- the segment loop ----------------------------------------------------------

  datatype Loop = Loop(
    segments: seq<Segment>, analyses: seq<Analysis>, resumable: bool, pendingAnswer: Option<string>,
    issues: seq<string>, sequenceMatches: bool, resumes: nat, probes: seq<Probe>, probed: bool,
    stopped: bool)

  const INITIAL := Loop([], [], false, None, [], true, 0, [], false, false)

  function AnalysisOf(p: Process): Option<Analysis> {
    if p.capture.Retained? && p.capture.analysis.Ok? then Some(p.capture.analysis.value) else None
  }

  function ObservedOf(p: Process): Option<Stops.StopReason> {
    if AnalysisOf(p).Some? then AnalysisOf(p).value.terminal else None
  }

  predicate SegmentMatches(ep: Setting, i: nat, p: Process)
    requires i < |ExpectedTerminals(ep)|
  {
    && TerminalMatches(ExpectedTerminals(ep)[i], ObservedOf(p), p.exitCode, p.timedOut)
    && InjectionMatches(InjectionFor(ep.task, i + 1), ObservedOf(p))
  }

  function RetainedTraceName(ep: Setting, segment: nat): string {
    Text.Join(["trial", Decimal.Padded(ep.trial, 3), ep.task.id, VariantLabel(ep.variant),
               ArmLabel(ep.coordinate.arm), PolicyLabel(ep.coordinate.policy),
               "s" + Decimal.Padded(segment, 2)], "-") + ".jsonl"
  }

  function RetainedTracePath(ep: Setting, segment: nat): string {
    Text.Join(["traces", ep.runId, RetainedTraceName(ep, segment)], "/")
  }

  function SegmentRecord(ep: Setting, i: nat, p: Process): Segment
    requires i < |ExpectedTerminals(ep)|
  {
    Segment(i + 1, ExpectedTerminals(ep)[i], ObservedOf(p), p.exitCode, p.timedOut,
            if p.capture.Retained? then Some(RetainedTracePath(ep, i + 1)) else None,
            if p.capture.Retained? then Some(p.capture.sha256) else None,
            AnalysisOf(p).Some?)
  }

  function CaptureIssues(p: Process): seq<string> {
    (if p.discoveryError.Some? then [p.discoveryError.value] else [])
    + (if p.timedOut && p.exitCode.Some? then ["both timeout and an exit code"] else [])
    + (match p.capture
       case NoTrace => ["no retained trace"]
       case NotRetained(error) => [error]
       case Retained(_, analysis) => if analysis.Err? then [analysis.error] else [])
  }

  function TerminalIssues(injection: Option<Injection>, p: Process): seq<string> {
    (if AnalysisOf(p).Some? && ObservedOf(p).None? && !p.timedOut then ["no SessionEnd"] else [])
    + (if ObservedOf(p) == Some(Stops.ProviderError)
          && !(injection.Some? && injection.value.kind == ProviderFailure)
       then ["unexpected provider_error"] else [])
  }

  function LinkIssues(analyses: seq<Analysis>, supplied: Option<string>, a: Analysis): seq<string> {
    if analyses == [] then
      if a.resumedFrom.Some? then ["initial segment claims a resumed session"] else []
    else
      (if Linked(analyses, a) then [] else ["no link to the prior trace session"])
      + (if supplied.Some? && !AnswerRecorded(a, supplied.value) then ["answer not recorded"] else [])
  }

  predicate Linked(analyses: seq<Analysis>, a: Analysis) {
    analyses != [] && a.resumedFrom == Some(analyses[|analyses| - 1].session)
  }

  /** Record the segment and, if its trace was understood, link it. */
  function Observe(ep: Setting, st: Loop, i: nat, p: Process): Loop
    requires i < |ExpectedTerminals(ep)|
  {
    var a := AnalysisOf(p);
    var links := if a.Some? then LinkIssues(st.analyses, st.pendingAnswer, a.value) else [];
    st.(segments := st.segments + [SegmentRecord(ep, i, p)],
        analyses := if a.Some? then st.analyses + [a.value] else st.analyses,
        issues := st.issues + CaptureIssues(p) + TerminalIssues(InjectionFor(ep.task, i + 1), p) + links,
        sequenceMatches := st.sequenceMatches && SegmentMatches(ep, i, p) && links == [],
        resumes := if a.Some? && Linked(st.analyses, a.value) then Machine.SatAdd(st.resumes, 1) else st.resumes)
  }

  predicate ProbeNow(ep: Setting, st: Loop, i: nat, p: Process)
    requires i < |ExpectedTerminals(ep)|
  {
    && RequestsRefusal(ep, WorkspaceMismatch)
    && SegmentMatches(ep, i, p)
    && IsStop(ExpectedTerminals(ep)[i])
    && !st.probed
  }

  /** Hand the retained trace and any answer to the next segment. */
  function HandOver(ep: Setting, st: Loop, i: nat, p: Process): Loop
    requires i < |ExpectedTerminals(ep)|
  {
    var asked := ObservedOf(p) == Some(Stops.NeedsInput);
    var answer := if asked then FrozenAnswer(ep.task) else None;
    if i + 1 < |ExpectedTerminals(ep)| then
      if asked && !HasText(answer) then
        st.(sequenceMatches := false, issues := st.issues + ["no frozen answer"], stopped := true)
      else
        st.(resumable := true, pendingAnswer := answer, stopped := !SegmentMatches(ep, i, p))
    else
      st.(resumable := true, stopped := !SegmentMatches(ep, i, p))
  }

  function WithProbe(st: Loop, rejected: bool): Loop {
    st.(probes := st.probes + [Probe(WorkspaceMismatch, true, rejected)], probed := true)
  }

  /** The rest of an iteration, once the segment has been recorded. */
  function Proceed(ep: Setting, seen: Loop, i: nat, p: Process): Result<Loop, string>
    requires i < |ExpectedTerminals(ep)|
  {
    if !p.capture.Retained? then Ok(seen.(stopped := true))
    else if ProbeNow(ep, seen, i, p) then
      match WorkspaceProbe(ep, i)
      case Err(error) => Err(error)
      case Ok(rejected) => Ok(HandOver(ep, WithProbe(seen, rejected), i, p))
    else Ok(HandOver(ep, seen, i, p))
  }

  /** One iteration of the segment loop. */
  function Advance(ep: Setting, st: Loop, i: nat): Result<Loop, string>
    requires i < |ExpectedTerminals(ep)|
  {
    match Child(ep, i)
    case Err(error) => Err(error)
    case Ok(p) => Proceed(ep, Observe(ep, st, i, p), i, p)
  }

  /** The loop state after at most `k` iterations. */
  function RunTo(ep: Setting, k: nat): Result<Loop, string>
    requires k <= |ExpectedTerminals(ep)|
  {
    if k == 0 then Ok(INITIAL)
    else
      match RunTo(ep, k - 1)
      case Err(error) => Err(error)
      case Ok(st) => if st.stopped then Ok(st) else Advance(ep, st, k - 1)
  }

  lemma RunStep(ep: Setting, k: nat, st: Loop)
    requires 0 < k <= |ExpectedTerminals(ep)| && RunTo(ep, k - 1) == Ok(st) && !st.stopped
    ensures RunTo(ep, k) == Advance(ep, st, k - 1)
  {
  }

  // ----- verdicts ----------------------------------------------------------------------

  function Last<T>(s: seq<T>): Option<T> {
    if s == [] then None else Some(s[|s| - 1])
  }

  predicate EndedCompleted(st: Loop) {
    && st.segments != []
    && var last := st.segments[|st.segments| - 1];
    && last.observed == Some(Stops.TaskComplete)
    && last.exitCode == Some(0)
    && !last.timedOut
  }

  predicate GatePassed(analyses: seq<Analysis>) {
    analyses != [] && analyses[|analyses| - 1].completionGatesPassed > 0
  }

  predicate CompletedProbeDue(ep: Setting, st: Loop) {
    && RequestsRefusal(ep, CompletedSession)
    && st.sequenceMatches
    && EndedCompleted(st)
    && GatePassed(st.analyses)
    && st.resumable
  }

  predicate TimedOut(segments: seq<Segment>) {
    exists i | 0 <= i < |segments| :: segments[i].timedOut
  }

  predicate RequiresCompletion(ep: Setting) {
    Last(ExpectedTerminals(ep)) == Some(Completed)
  }

  function Graded(ep: Setting, st: Loop): seq<CheckResult> {
    if RequiresCompletion(ep) && !TimedOut(st.segments) && ep.world.gradingError.None?
    then ResultsFrom(ep.task.checks, ep.world.grade, 0)
    else []
  }

  function GradingIssues(ep: Setting, st: Loop): seq<string> {
    (if RequiresCompletion(ep) && !TimedOut(st.segments) && ep.world.gradingError.Some?
     then [ep.world.gradingError.value] else [])
    + (if !TimedOut(st.segments) && ep.world.deadlineExceeded then ["episode deadline"] else [])
    + (if AnyInfrastructureError(Graded(ep, st)) then ["command-check infrastructure"] else [])
  }

  function Questions(analyses: seq<Analysis>): seq<string> {
    if analyses == [] then [] else analyses[0].questions + Questions(analyses[1..])
  }

  predicate ClarificationExpected(task: Task) {
    || (task.clarification.Some? && task.clarification.value.required)
    || (task.recovery.Some? && exists i | 0 <= i < |task.recovery.value.injections| ::
          task.recovery.value.injections[i].kind == ClarificationPause)
  }

  function QuestionTerms(task: Task): seq<string> {
    if task.clarification.Some? then task.clarification.value.questionTerms
    else if task.recovery.Some? then task.recovery.value.questionTerms
    else []
  }

  predicate ClarificationCorrect(task: Task, analyses: seq<Analysis>) {
    && ClarificationExpected(task)
    && Questions(analyses) != []
    && (forall i | 0 <= i < |analyses| :: !analyses[i].mutationBeforeQuestion)
    && QuestionMatchesTerms(Questions(analyses), QuestionTerms(task))
  }

  predicate ProbesPassed(probes: seq<Probe>) {
    forall i | 0 <= i < |probes| :: probes[i].attempted ==> probes[i].rejected
  }

  function AllProbes(ep: Setting, st: Loop): seq<Probe>
    requires CompletedProbeDue(ep, st) ==> ep.world.completedProbe.Ok?
  {
    st.probes
    + if CompletedProbeDue(ep, st) then [Probe(CompletedSession, true, ep.world.completedProbe.value)] else []
  }

  function AllIssues(ep: Setting, st: Loop): seq<string> {
    st.issues + GradingIssues(ep, st)
  }

  predicate ObjectiveReached(ep: Setting, st: Loop) {
    && !TimedOut(st.segments)
    && EndedCompleted(st)
    && RequiresCompletion(ep)
    && Graded(ep, st) != []
    && AllPassed(Graded(ep, st))
    && GatePassed(st.analyses)
  }

  predicate ClarificationHonoured(task: Task, analyses: seq<Analysis>) {
    && (ClarificationExpected(task) ==> ClarificationCorrect(task, analyses))
    && (Questions(analyses) != [] ==> ClarificationExpected(task))
  }

  predicate ContractVerdict(ep: Setting, st: Loop)
    requires CompletedProbeDue(ep, st) ==> ep.world.completedProbe.Ok?
  {
    && !TimedOut(st.segments)
    && st.sequenceMatches
    && ProbesPassed(AllProbes(ep, st))
    && ClarificationHonoured(ep.task, st.analyses)
    && (RequiresCompletion(ep) ==> ObjectiveReached(ep, st))
    && AllIssues(ep, st) == []
  }

  function ExpectedResumes(ep: Setting): nat {
    if ep.variant == Current then 0 else Machine.AsU32(Machine.SatSub(|ExpectedTerminals(ep)|, 1))
  }

  /** Probes, grading and the verdict fields of the row. */
  function Finish(ep: Setting, st: Loop): Result<Outcome, string> {
    if CompletedProbeDue(ep, st) && ep.world.completedProbe.Err? then Err(ep.world.completedProbe.error)
    else if ep.world.closing.Some? then Err(ep.world.closing.value)
    else
      var issues := AllIssues(ep, st);
      var expected := ClarificationExpected(ep.task);
      var observed := Questions(st.analyses) != [];
      Ok(Outcome(
           ContractVerdict(ep, st),
           ObjectiveReached(ep, st),
           if issues == [] then None else Some(Text.Join(issues, "; ")),
           if st.segments == [] then None else st.segments[|st.segments| - 1].observed,
           st.segments, expected, observed, ClarificationCorrect(ep.task, st.analyses),
           observed && !expected, ExpectedResumes(ep), st.resumes,
           && st.resumes == ExpectedResumes(ep)
           && st.sequenceMatches
           && ProbesPassed(AllProbes(ep, st))
           && (RequiresCompletion(ep) ==> ObjectiveReached(ep, st)),
           AllProbes(ep, st), Graded(ep, st)))
  }

  function Conclude(ep: Setting): Result<Outcome, string> {
    if ep.world.opening.Some? then Err(ep.world.opening.value)
    else
      match RunTo(ep, |ExpectedTerminals(ep)|)
      case Err(error) => Err(error)
      case Ok(st) => Finish(ep, st)
  }

  lemma {:induction false} StoppedStays(ep: Setting, k: nat, m: nat)
    requires k <= m <= |ExpectedTerminals(ep)|
    requires RunTo(ep, k).Err? || RunTo(ep, k).value.stopped
    ensures RunTo(ep, m) == RunTo(ep, k)
  {
    if k < m {
      StoppedStays(ep, k, m - 1);
    }
  }

  /** The segment loop, left early when a segment goes wrong. */
  method RunSegments(ep: Setting) returns (r: Result<Loop, string>)
    ensures r == RunTo(ep, |ExpectedTerminals(ep)|)
  {
    var count := |ExpectedTerminals(ep)|;
    var st := INITIAL;
    for index := 0 to count
      invariant RunTo(ep, index) == Ok(st) && !st.stopped
    {
      var next := Advance(ep, st, index);
      if next.Err? || next.value.stopped {
        StoppedStays(ep, index + 1, count);
        return next;
      }
      st := next.value;
    }
    return Ok(st);
  }
}
