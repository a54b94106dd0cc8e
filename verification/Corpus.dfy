/** Why a child session ended (`ferric-loop/src/outcome.rs`). A reason that the
    loop does not know is kept as text. */
module Stops {
  datatype StopReason =
    | FinalText | TaskComplete | PlanSubmitted | MaxTurns | RepetitionGuard | NoProgress
    | RepeatedFailure | Oscillation | ProviderError | EmptyCompletion | TruncatedAction
    | Interrupted | HookFailed | NeedsInput | Unknown(text: string)

  predicate IsSuccess(reason: StopReason) {
    reason.FinalText? || reason.TaskComplete? || reason.PlanSubmitted?
  }

  /** A resumable stop: a known operational failure, but not a pause for input. */
  predicate IsPause(reason: StopReason) {
    !reason.Unknown? && !IsSuccess(reason) && reason != NeedsInput
  }
}

/** The frozen autonomy corpus: tasks, their contracts and the validation that
    every loaded suite passes (`ferric-bench/src/autonomy.rs`). */
module Corpus {
  import opened Machine
  import opened Wrappers
  import Stops
  import Text

  datatype Variant = Current | Recovery | RepositoryBrief

  function VariantLabel(v: Variant): string {
    match v
    case Current => "current"
    case Recovery => "recovery"
    case RepositoryBrief => "repository_brief"
  }

  datatype TerminalOutcome = Completed | NeedsInput | Paused | ResumeRejected

  datatype RefusalMode = WorkspaceMismatch | CompletedSession

  datatype InjectionKind = ProviderFailure | BudgetExhaustion | ClarificationPause

  /** The exact trace stop reason an injection must produce. */
  function ExpectedStopReason(kind: InjectionKind): Stops.StopReason {
    match kind
    case ProviderFailure => Stops.ProviderError
    case BudgetExhaustion => Stops.MaxTurns
    case ClarificationPause => Stops.NeedsInput
  }

  /** The segment outcome an injection must be declared with. */
  function InjectedOutcome(kind: InjectionKind): TerminalOutcome {
    if kind == ClarificationPause then NeedsInput else Paused
  }

  datatype Injection = Injection(segment: nat, kind: InjectionKind)

  datatype ClarificationContract = ClarificationContract(
    required: bool, answer: Option<string>, questionTerms: seq<string>)

  datatype RecoveryContract = RecoveryContract(
    segmentTurns: u32, maxSegments: u32, expectedResumeCount: u32, answer: Option<string>,
    questionTerms: seq<string>, refusalModes: seq<RefusalMode>, injections: seq<Injection>)

  datatype Terminals = Terminals(
    current: TerminalOutcome, resumable: seq<TerminalOutcome>,
    workspaceMismatch: Option<TerminalOutcome>, completedSessionResume: Option<TerminalOutcome>)

  datatype Category = Ambiguity | RecoveryCategory | LongHorizon

  datatype Task = Task(
    id: string, category: Category, maxTurns: nat, terminal: Terminals,
    clarification: Option<ClarificationContract>, recovery: Option<RecoveryContract>,
    checks: seq<string>)

  predicate NonBlank(s: string) {
    Text.Trim(s) != ""
  }

  predicate HasText(answer: Option<string>) {
    answer.Some? && NonBlank(answer.value)
  }

  /** The first injection registered for a one-based segment. */
  function FindInjection(injections: seq<Injection>, segment: nat): Option<Injection> {
    if injections == [] then None
    else if injections[0].segment == segment then Some(injections[0])
    else FindInjection(injections[1..], segment)
  }

  lemma {:induction false} FindInjectionFinds(injections: seq<Injection>, segment: nat)
    ensures var found := FindInjection(injections, segment);
            && (found.Some? ==> found.value in injections && found.value.segment == segment)
            && (found.None? ==> forall i | 0 <= i < |injections| :: injections[i].segment != segment)
  {
    if injections != [] {
      FindInjectionFinds(injections[1..], segment);
    }
  }

  function InjectionFor(task: Task, segment: nat): Option<Injection> {
    if task.recovery.None? then None else FindInjection(task.recovery.value.injections, segment)
  }

  // ----- what a valid recovery contract means -------------------------------

  /** The injections hit each segment before the last one exactly once. */
  ghost predicate CoversNonFinalSegments(injections: seq<Injection>, maxSegments: nat) {
    && (forall i | 0 <= i < |injections| :: 1 <= injections[i].segment < maxSegments)
    && (forall i, j | 0 <= i < j < |injections| :: injections[i].segment != injections[j].segment)
    && (forall s | 1 <= s < maxSegments :: Injected(injections, s))
  }

  ghost predicate Injected(injections: seq<Injection>, segment: nat) {
    exists i | 0 <= i < |injections| :: injections[i].segment == segment
  }

  ghost predicate AsksForInput(injections: seq<Injection>) {
    exists i | 0 <= i < |injections| :: injections[i].kind == ClarificationPause
  }

  predicate RefusalAgrees(mode: RefusalMode, outcome: Option<TerminalOutcome>, modes: seq<RefusalMode>) {
    outcome == if mode in modes then Some(ResumeRejected) else None
  }

  /** Every non-final outcome is fixed by its own injection. */
  ghost predicate InjectionsSound(injections: seq<Injection>, outcomes: seq<TerminalOutcome>) {
    && CoversNonFinalSegments(injections, |outcomes|)
    && forall i | 0 <= i < |injections| ::
         outcomes[injections[i].segment - 1] == InjectedOutcome(injections[i].kind)
  }

  ghost predicate ValidRecovery(task: Task) {
    && task.clarification.None?
    && task.recovery.Some?
    && var contract := task.recovery.value;
       var outcomes := task.terminal.resumable;
    && 1 <= contract.segmentTurns <= 255
    && contract.segmentTurns <= task.maxTurns
    && 2 <= contract.maxSegments == |outcomes|
    && contract.expectedResumeCount == contract.maxSegments - 1
    && outcomes[|outcomes| - 1] == Completed
    && InjectionsSound(contract.injections, outcomes)
    && (AsksForInput(contract.injections) <==> HasText(contract.answer))
    && (AsksForInput(contract.injections) <==> contract.questionTerms != [])
    && (forall i | 0 <= i < |contract.questionTerms| :: NonBlank(contract.questionTerms[i]))
    && task.terminal.current == outcomes[0]
    && (forall i, j | 0 <= i < j < |contract.refusalModes| ::
          contract.refusalModes[i] != contract.refusalModes[j])
    && RefusalAgrees(WorkspaceMismatch, task.terminal.workspaceMismatch, contract.refusalModes)
    && RefusalAgrees(CompletedSession, task.terminal.completedSessionResume, contract.refusalModes)
  }

  // ----- counting ------------------------------------------------------------

  /** The segments before the last one of `m` segments. */
  ghost function Upto(m: nat): (segments: set<nat>)
    requires m >= 1
    ensures forall s: nat :: s in segments <==> 1 <= s < m
    ensures |segments| == m - 1
  {
    if m == 1 then {} else Upto(m - 1) + {m - 1}
  }

  ghost function SegmentsOf(injections: seq<Injection>): set<nat> {
    set i | 0 <= i < |injections| :: injections[i].segment
  }

  lemma {:induction false} SegmentsOfSize(injections: seq<Injection>)
    requires forall i, j | 0 <= i < j < |injections| :: injections[i].segment != injections[j].segment
    ensures |SegmentsOf(injections)| == |injections|
  {
    if injections == [] {
      assert SegmentsOf(injections) == {};
    } else {
      var last := |injections| - 1;
      var front := injections[..last];
      SegmentsOfSize(front);
      assert SegmentsOf(injections) == SegmentsOf(front) + {injections[last].segment};
    }
  }

  lemma SameSizeMeansSame(small: set<nat>, large: set<nat>)
    requires small <= large
    ensures |small| == |large| <==> small == large
  {
    assert large == small + (large - small);
    assert |large| == |small| + |large - small|;
  }

  /** Distinct in-range injections reach every non-final segment exactly when
      there are as many of them as non-final segments. */
  lemma CountingMeansCovering(injections: seq<Injection>, maxSegments: nat)
    requires maxSegments >= 1
    requires forall i | 0 <= i < |injections| :: 1 <= injections[i].segment < maxSegments
    requires forall i, j | 0 <= i < j < |injections| :: injections[i].segment != injections[j].segment
    ensures |injections| == maxSegments - 1 <==> CoversNonFinalSegments(injections, maxSegments)
  {
    SegmentsOfSize(injections);
    HitsCover(injections, maxSegments);
    SameSizeMeansSame(SegmentsOf(injections), Upto(maxSegments));
  }

  lemma HitsCover(injections: seq<Injection>, maxSegments: nat)
    requires maxSegments >= 1
    requires forall i | 0 <= i < |injections| :: 1 <= injections[i].segment < maxSegments
    ensures SegmentsOf(injections) <= Upto(maxSegments)
    ensures SegmentsOf(injections) == Upto(maxSegments) <==> forall s | 1 <= s < maxSegments :: Injected(injections, s)
  {
    var hit := SegmentsOf(injections);
    forall s: nat ensures s in hit <==> Injected(injections, s) {
    }
    if forall s | 1 <= s < maxSegments :: Injected(injections, s) {
      forall s | s in Upto(maxSegments) ensures s in hit {
        assert Injected(injections, s);
      }
    }
  }

  lemma SoundExcludesCompletion(injections: seq<Injection>, outcomes: seq<TerminalOutcome>)
    requires InjectionsSound(injections, outcomes)
    ensures forall k | 0 <= k < |outcomes| - 1 :: outcomes[k] != Completed
  {
    forall k | 0 <= k < |outcomes| - 1 ensures outcomes[k] != Completed {
      assert Injected(injections, k + 1);
    }
  }

  // ----- the validator ---------------------------------------------------------

  predicate HasRepeatedMode(modes: seq<RefusalMode>) {
    exists i, j :: 0 <= i < j < |modes| && modes[i] == modes[j]
  }

  method ValidateRefusal(mode: RefusalMode, outcome: Option<TerminalOutcome>, modes: seq<RefusalMode>)
    returns (ok: bool)
    ensures ok <==> RefusalAgrees(mode, outcome, modes)
  {
    if mode in modes {
      ok := outcome == Some(ResumeRejected);
    } else {
      ok := outcome.None?;
    }
  }

  ghost predicate StopInRange(injection: Injection, outcomes: seq<TerminalOutcome>) {
    && 1 <= injection.segment < |outcomes|
    && outcomes[injection.segment - 1] == InjectedOutcome(injection.kind)
  }

  ghost predicate DistinctStops(injections: seq<Injection>, outcomes: seq<TerminalOutcome>) {
    && (forall i | 0 <= i < |injections| :: StopInRange(injections[i], outcomes))
    && (forall i, j | 0 <= i < j < |injections| :: injections[i].segment != injections[j].segment)
  }

  /** The loop of `validate_recovery_task` over the injections. */
  method ScanStops(injections: seq<Injection>, outcomes: seq<TerminalOutcome>)
    returns (r: Result<bool, string>)
    ensures r.Ok? <==> DistinctStops(injections, outcomes)
    ensures r.Ok? ==> (r.value <==> AsksForInput(injections))
  {
    var segments: set<nat> := {};
    var needsAnswer := false;
    for n := 0 to |injections|
      invariant DistinctStops(injections[..n], outcomes)
      invariant segments == SegmentsOf(injections[..n])
      invariant needsAnswer <==> AsksForInput(injections[..n])
    {
      var injection := injections[n];
      assert injections[..n + 1] == injections[..n] + [injection];
      if injection.segment == 0 || injection.segment >= |outcomes| {
        assert !StopInRange(injections[n], outcomes);
        return Err("injection must precede the final segment");
      }
      if injection.segment in segments {
        return Err("repeated injection segment");
      }
      segments := segments + {injection.segment};
      var expected := Paused;
      if injection.kind == ClarificationPause {
        needsAnswer := true;
        expected := NeedsInput;
      }
      if outcomes[injection.segment - 1] != expected {
        assert !StopInRange(injections[n], outcomes);
        return Err("outcome does not match its injection");
      }
      assert StopInRange(injection, outcomes);
    }
    assert injections[..|injections|] == injections;
    return Ok(needsAnswer);
  }

  lemma DistinctStopsSound(injections: seq<Injection>, outcomes: seq<TerminalOutcome>)
    requires |outcomes| >= 1
    ensures DistinctStops(injections, outcomes) && |injections| == |outcomes| - 1
            <==> InjectionsSound(injections, outcomes)
  {
    if DistinctStops(injections, outcomes) {
      assert forall i | 0 <= i < |injections| :: StopInRange(injections[i], outcomes);
      CountingMeansCovering(injections, |outcomes|);
    }
    if InjectionsSound(injections, outcomes) {
      CountingMeansCovering(injections, |outcomes|);
    }
  }

  method ValidateStops(injections: seq<Injection>, outcomes: seq<TerminalOutcome>)
    returns (r: Result<bool, string>)
    requires |outcomes| >= 2
    ensures r.Ok? <==> InjectionsSound(injections, outcomes)
    ensures r.Ok? ==> (r.value <==> AsksForInput(injections))
  {
    DistinctStopsSound(injections, outcomes);
    if exists k :: 0 <= k < |outcomes| - 1 && outcomes[k] == Completed {
      if InjectionsSound(injections, outcomes) {
        SoundExcludesCompletion(injections, outcomes);
      }
      return Err("only the last segment may complete");
    }
    if |injections| != |outcomes| - 1 {
      return Err("one injection per expected resume");
    }
    r := ScanStops(injections, outcomes);
  }

  /** The validator accepts exactly the recovery tasks whose contract is sound. */
  method ValidateRecoveryTask(task: Task) returns (verdict: Result<(), string>)
    ensures verdict.Ok? <==> ValidRecovery(task)
  {
    if task.clarification.Some? { return Err("answers belong to recovery metadata"); }
    if task.recovery.None? { return Err("missing recovery metadata"); }
    var contract := task.recovery.value;
    var outcomes := task.terminal.resumable;
    if contract.segmentTurns == 0 || contract.segmentTurns > 255
       || contract.segmentTurns > task.maxTurns || contract.maxSegments < 2 {
      return Err("segment_turns or max_segments out of range");
    }
    if contract.maxSegments != |outcomes| { return Err("max_segments differs from outcomes"); }
    if contract.expectedResumeCount != contract.maxSegments - 1 { return Err("expected_resume_count"); }
    if outcomes[|outcomes| - 1] != Completed { return Err("outcomes must end in a completed segment"); }
    var stops := ValidateStops(contract.injections, outcomes);
    if stops.Err? { return Err(stops.error); }
    var needsAnswer := stops.value;

    if needsAnswer != HasText(contract.answer) { return Err("answer and clarification_pause"); }
    var termsValid := forall i | 0 <= i < |contract.questionTerms| :: NonBlank(contract.questionTerms[i]);
    if needsAnswer != (contract.questionTerms != []) || !termsValid { return Err("question terms"); }
    if task.terminal.current != outcomes[0] { return Err("current outcome"); }
    if HasRepeatedMode(contract.refusalModes) { return Err("repeated refusal mode"); }
    var workspace := ValidateRefusal(WorkspaceMismatch, task.terminal.workspaceMismatch, contract.refusalModes);
    if !workspace { return Err("workspace mismatch refusal"); }
    var completed := ValidateRefusal(CompletedSession, task.terminal.completedSessionResume, contract.refusalModes);
    if !completed { return Err("completed session refusal"); }
    return Ok(());
  }

  /** Each non-final segment of a valid recovery task is fixed by one
      injection; the last segment has none and must complete. */
  lemma InjectionFixesOutcome(task: Task, segment: nat)
    requires ValidRecovery(task)
    requires 1 <= segment <= |task.terminal.resumable|
    ensures segment < |task.terminal.resumable| ==>
              && InjectionFor(task, segment).Some?
              && task.terminal.resumable[segment - 1] == InjectedOutcome(InjectionFor(task, segment).value.kind)
    ensures segment == |task.terminal.resumable| ==>
              InjectionFor(task, segment).None? && task.terminal.resumable[segment - 1] == Completed
  {
    var injections := task.recovery.value.injections;
    if segment < |task.terminal.resumable| {
      assert Injected(injections, segment);
    }
    FindInjectionFinds(injections, segment);
    var found := InjectionFor(task, segment);
    if found.Some? {
      var i :| 0 <= i < |injections| && injections[i] == found.value;
    }
  }

  // ----- the other two categories ----------------------------------------------

  predicate NoRefusals(task: Task) {
    task.terminal.workspaceMismatch.None? && task.terminal.completedSessionResume.None?
  }

  predicate ValidAmbiguity(task: Task) {
    && task.recovery.None?
    && task.clarification.Some?
    && var contract := task.clarification.value;
    && (if contract.required then
          && HasText(contract.answer)
          && contract.questionTerms != []
          && (forall i | 0 <= i < |contract.questionTerms| :: NonBlank(contract.questionTerms[i]))
          && task.terminal.current == NeedsInput
          && task.terminal.resumable == [NeedsInput, Completed]
        else
          && contract.answer.None?
          && contract.questionTerms == []
          && task.terminal.current == Completed
          && task.terminal.resumable == [Completed])
    && NoRefusals(task)
  }

  predicate ValidLongHorizon(task: Task) {
    && task.clarification.None?
    && task.recovery.None?
    && task.terminal.current == Completed
    && task.terminal.resumable == [Completed]
    && NoRefusals(task)
  }

  ghost predicate ValidTask(task: Task) {
    match task.category
    case Ambiguity => ValidAmbiguity(task)
    case RecoveryCategory => ValidRecovery(task)
    case LongHorizon => ValidLongHorizon(task)
  }
}
