/** The one-pass analyser of a retained child trace
    (`analyze_trace_bytes` in `ferric-cli/src/autonomy_cmd.rs`). */
module Traces {
  import opened Wrappers
  import Machine
  import Stops
  import opened Selecting
  import opened Counting

  const SCHEMA_VERSION: nat := 1

  datatype Event =
    | SessionStart(workspace: string, resumedFrom: Option<string>)
    | PolicySelected(protocol: string, policy: string, maxTurns: nat)
    | ResumePrompt(user: string)
    | TurnStart(turn: nat)
    | PromptAssembled
    | ConstraintApplied
    | HistoryCompacted
    | TurnCommitted
    | ToolCall(name: string, question: Option<string>)
    | WorkspaceMutation
    | CompletionGate(passed: bool)
    | SessionEnd(reason: Stops.StopReason)
    | Other

  /** A non-blank line of the trace file. */
  datatype Line =
    | Malformed
    | Parsed(version: nat, session: string, sequence: nat, event: Event)

  /** What the episode asked of the child. `canonical` resolves paths that
      exist on disk. */
  datatype Request = Request(
    workspace: string, protocol: string, policy: string, maxTurns: nat, canonical: map<string, string>)

  /** The structural trace grammar, which lives in another crate: whether the
      events seen so far are admissible, and whether they may end here. */
  datatype Structure = Structure(admits: seq<Event> -> bool, mayEnd: seq<Event> -> bool)

  datatype Analysis = Analysis(
    session: string, resumedFrom: Option<string>, terminal: Option<Stops.StopReason>,
    questions: seq<string>, resumePrompts: seq<string>, mutationBeforeQuestion: bool,
    turns: nat, toolTurns: seq<nat>, completionGatesPassed: nat)

  // ----- a declarative reading ------------------------------------------------------

  predicate IsQuestion(event: Event) {
    event.ToolCall? && event.name == "request_user_input" && event.question.Some?
  }

  /** Events on the request side of a turn, before the model responds. */
  predicate IsRequestSide(event: Event) {
    event.PromptAssembled? || event.ConstraintApplied? || event.HistoryCompacted?
  }

  /** Some turn was started and nothing but request-side events follow it. */
  ghost predicate OpenRequest(events: seq<Event>) {
    exists t | 0 <= t < |events| ::
      events[t].TurnStart? && forall j | t < j < |events| :: IsRequestSide(events[j])
  }

  ghost predicate MutatedBeforeAsking(events: seq<Event>) {
    exists i, j | 0 <= i < j < |events| :: events[i].WorkspaceMutation? && IsQuestion(events[j])
  }

  function TurnStarts(events: seq<Event>): nat {
    if events == [] then 0
    else TurnStarts(events[..|events| - 1]) + if events[|events| - 1].TurnStart? then 1 else 0
  }

  function GatesPassed(events: seq<Event>): nat {
    if events == [] then 0
    else
      var last := events[|events| - 1];
      GatesPassed(events[..|events| - 1]) + if last.CompletionGate? && last.passed then 1 else 0
  }

  function QuestionsOf(events: seq<Event>): seq<string> {
    if events == [] then []
    else
      var last := events[|events| - 1];
      QuestionsOf(events[..|events| - 1]) + if IsQuestion(last) then [last.question.value] else []
  }

  function PromptsOf(events: seq<Event>): seq<string> {
    if events == [] then []
    else
      var last := events[|events| - 1];
      PromptsOf(events[..|events| - 1]) + if last.ResumePrompt? then [last.user] else []
  }

  /** The reason of the last session end, if any. */
  function LastEnd(events: seq<Event>): Option<Stops.StopReason> {
    if events == [] then None
    else if events[|events| - 1].SessionEnd? then Some(events[|events| - 1].reason)
    else LastEnd(events[..|events| - 1])
  }

  /** The number of the turn under way, zero before the first. */
  function TurnNow(events: seq<Event>): nat {
    if events == [] then 0
    else if events[|events| - 1].TurnStart? then events[|events| - 1].turn
    else TurnNow(events[..|events| - 1])
  }

  function ToolTurnsOf(events: seq<Event>): seq<nat> {
    if events == [] then []
    else
      var front := events[..|events| - 1];
      ToolTurnsOf(front) + if events[|events| - 1].ToolCall? then [TurnNow(front)] else []
  }

  function EventOf(line: Line): Event {
    if line.Parsed? then line.event else Other
  }

  function SessionOf(line: Line): string {
    if line.Parsed? then line.session else ""
  }

  function EventsOf(lines: seq<Line>): (events: seq<Event>)
    ensures |events| == |lines|
  {
    seq(|lines|, i requires 0 <= i < |lines| => EventOf(lines[i]))
  }

  predicate PolicyAgrees(event: Event, request: Request)
    requires event.PolicySelected?
  {
    event.protocol == request.protocol && event.maxTurns == request.maxTurns && event.policy == request.policy
  }

  predicate WorkspaceAgrees(event: Event, request: Request)
    requires event.SessionStart?
  {
    event.workspace in request.canonical && request.canonical[event.workspace] == request.workspace
  }

  ghost predicate AllParsed(lines: seq<Line>) {
    forall i | 0 <= i < |lines| :: lines[i].Parsed?
  }

  /** A well-formed trace: one session with contiguous sequence numbers from
      zero; it opens with its only session start, in the right workspace, then
      its only policy, as requested; and the grammar admits every prefix. */
  ghost predicate WellFormed(lines: seq<Line>, request: Request, structure: Structure) {
    && |lines| >= 2
    && AllParsed(lines)
    && (forall i | 0 <= i < |lines| :: lines[i].version == SCHEMA_VERSION)
    && (forall i | 0 <= i < |lines| :: lines[i].sequence == i)
    && (forall i | 0 <= i < |lines| :: lines[i].session == lines[0].session)
    && lines[0].event.SessionStart?
    && lines[0].event.workspace in request.canonical
    && request.canonical[lines[0].event.workspace] == request.workspace
    && lines[1].event == PolicySelected(request.protocol, request.policy, request.maxTurns)
    && (forall i | 2 <= i < |lines| :: !lines[i].event.SessionStart? && !lines[i].event.PolicySelected?)
    && (forall k | 1 <= k <= |lines| :: structure.admits(EventsOf(lines)[..k]))
    && structure.mayEnd(EventsOf(lines))
  }

  // ----- the fold -------------------------------------------------------------------

  /** The analyser's running variables. `tail` is the turn still open at the
      end: whether only request-side events have followed its start. */
  datatype Tally = Tally(
    terminal: Option<Stops.StopReason>, questions: seq<string>, prompts: seq<string>,
    sawMutation: bool, mutatedFirst: bool, turns: nat, turn: Option<nat>, toolTurns: seq<nat>,
    gates: nat, tail: Option<bool>)

  function ObserveTail(tail: Option<bool>, event: Event): Option<bool> {
    if event.TurnStart? then Some(true)
    else if IsRequestSide(event) then tail
    else if event.TurnCommitted? || event.SessionEnd? then None
    else if tail.Some? then Some(false)
    else None
  }

  /** The effect of one event on the running variables. */
  function Count(t: Tally, event: Event): Tally {
    Tally(if event.SessionEnd? then Some(event.reason) else t.terminal,
          if IsQuestion(event) then t.questions + [event.question.value] else t.questions,
          if event.ResumePrompt? then t.prompts + [event.user] else t.prompts,
          t.sawMutation || event.WorkspaceMutation?,
          t.mutatedFirst || (IsQuestion(event) && t.sawMutation),
          if event.TurnStart? then Machine.SatAdd(t.turns, 1) else t.turns,
          if event.TurnStart? then Some(event.turn) else t.turn,
          if event.ToolCall? then t.toolTurns + [if t.turn.Some? then t.turn.value else 0] else t.toolTurns,
          if event.CompletionGate? && event.passed then Machine.AsU32(t.gates + 1) else t.gates,
          ObserveTail(t.tail, event))
  }

  const EMPTY := Tally(None, [], [], false, false, 0, None, [], 0, None)

  /** Counting the events one after the other. */
  function Fold(events: seq<Event>): Tally {
    if events == [] then EMPTY else Count(Fold(events[..|events| - 1]), events[|events| - 1])
  }

  ghost predicate SawMutation(events: seq<Event>) {
    exists i | 0 <= i < |events| :: events[i].WorkspaceMutation?
  }

  /** The tally says about the events what the declarative reading says. */
  ghost predicate Describes(t: Tally, events: seq<Event>) {
    DescribesLists(t, events) && DescribesCounters(t, events) && DescribesFlags(t, events)
  }

  ghost predicate DescribesLists(t: Tally, events: seq<Event>) {
    && t.terminal == LastEnd(events)
    && t.questions == QuestionsOf(events)
    && t.prompts == PromptsOf(events)
    && TurnNow(events) == (if t.turn.Some? then t.turn.value else 0)
    && t.toolTurns == ToolTurnsOf(events)
  }

  ghost predicate DescribesCounters(t: Tally, events: seq<Event>) {
    && t.turns == Machine.Capped(TurnStarts(events))
    && t.gates == Machine.AsU32(GatesPassed(events))
  }

  ghost predicate DescribesFlags(t: Tally, events: seq<Event>) {
    && (t.sawMutation <==> SawMutation(events))
    && (t.mutatedFirst <==> MutatedBeforeAsking(events))
    && (t.tail == Some(true) <==> OpenRequest(events))
  }

  lemma MutationExtends(events: seq<Event>, event: Event)
    ensures SawMutation(events + [event]) <==> SawMutation(events) || event.WorkspaceMutation?
    ensures MutatedBeforeAsking(events + [event])
            <==> MutatedBeforeAsking(events) || (IsQuestion(event) && SawMutation(events))
  {
    var all, n := events + [event], |events|;
    assert all[n] == event;
    assert forall i | 0 <= i < n :: all[i] == events[i];
    if IsQuestion(event) && SawMutation(events) {
      var i :| 0 <= i < n && events[i].WorkspaceMutation?;
      assert all[i].WorkspaceMutation? && IsQuestion(all[n]);
    }
    if MutatedBeforeAsking(events) {
      var i, j :| 0 <= i < j < n && events[i].WorkspaceMutation? && IsQuestion(events[j]);
      assert all[i].WorkspaceMutation? && IsQuestion(all[j]);
    }
    if SawMutation(events) {
      var i :| 0 <= i < n && events[i].WorkspaceMutation?;
      assert all[i].WorkspaceMutation?;
    }
  }

  lemma RequestExtends(events: seq<Event>, event: Event)
    ensures OpenRequest(events + [event])
            <==> event.TurnStart? || (IsRequestSide(event) && OpenRequest(events))
  {
    var all, n := events + [event], |events|;
    assert all[n] == event;
    if event.TurnStart? {
      assert all[n].TurnStart?;
    }
    if IsRequestSide(event) && OpenRequest(events) {
      var t :| 0 <= t < n && events[t].TurnStart? && forall j | t < j < n :: IsRequestSide(events[j]);
      assert all[t].TurnStart? && forall j | t < j < |all| :: IsRequestSide(all[j]);
    }
    if OpenRequest(all) && !event.TurnStart? {
      var t :| 0 <= t < |all| && all[t].TurnStart? && forall j | t < j < |all| :: IsRequestSide(all[j]);
      assert t < n && events[t] == all[t];
      assert IsRequestSide(all[n]);
      assert forall j | t < j < n :: events[j] == all[j];
    }
  }

  lemma ListsExtend(events: seq<Event>, event: Event)
    ensures var all := events + [event];
            && LastEnd(all) == (if event.SessionEnd? then Some(event.reason) else LastEnd(events))
            && QuestionsOf(all) == QuestionsOf(events) + (if IsQuestion(event) then [event.question.value] else [])
            && PromptsOf(all) == PromptsOf(events) + (if event.ResumePrompt? then [event.user] else [])
            && TurnNow(all) == (if event.TurnStart? then event.turn else TurnNow(events))
            && ToolTurnsOf(all) == ToolTurnsOf(events) + (if event.ToolCall? then [TurnNow(events)] else [])
  {
    assert (events + [event])[..|events|] == events;
  }

  lemma CountersExtend(events: seq<Event>, event: Event)
    ensures var all := events + [event];
            && TurnStarts(all) == TurnStarts(events) + (if event.TurnStart? then 1 else 0)
            && GatesPassed(all) == GatesPassed(events) + (if event.CompletionGate? && event.passed then 1 else 0)
  {
    assert (events + [event])[..|events|] == events;
  }

  lemma CountDescribes(t: Tally, events: seq<Event>, event: Event)
    requires Describes(t, events)
    ensures Describes(Count(t, event), events + [event])
  {
    ListsDescribed(t, events, event);
    CountersDescribed(t, events, event);
    FlagsDescribed(t, events, event);
  }

  lemma ListsDescribed(t: Tally, events: seq<Event>, event: Event)
    requires DescribesLists(t, events)
    ensures DescribesLists(Count(t, event), events + [event])
  {
    ListsExtend(events, event);
  }

  lemma CountersDescribed(t: Tally, events: seq<Event>, event: Event)
    requires DescribesCounters(t, events)
    ensures DescribesCounters(Count(t, event), events + [event])
  {
    CountersExtend(events, event);
    Machine.WrapsOn(GatesPassed(events));
  }

  lemma FlagsDescribed(t: Tally, events: seq<Event>, event: Event)
    requires DescribesFlags(t, events)
    ensures DescribesFlags(Count(t, event), events + [event])
  {
    MutationExtends(events, event);
    RequestExtends(events, event);
  }

  lemma {:induction false} FoldDescribes(events: seq<Event>)
    ensures Describes(Fold(events), events)
  {
    if events != [] {
      var front, last := events[..|events| - 1], events[|events| - 1];
      FoldDescribes(front);
      CountDescribes(Fold(front), front, last);
      assert front + [last] == events;
    }
  }

  /** One line accepted in its place, given the lines before it. */
  ghost predicate LineAccepted(lines: seq<Line>, i: nat, request: Request, structure: Structure)
    requires i < |lines|
  {
    var line, event := lines[i], EventOf(lines[i]);
    && line.Parsed?
    && line.version == SCHEMA_VERSION
    && line.sequence == i
    && SessionOf(line) == SessionOf(lines[0])
    && structure.admits(EventsOf(lines)[..i + 1])
    && (event.SessionStart? ==> i == 0 && WorkspaceAgrees(event, request))
    && (event.PolicySelected? ==>
          i == 1 && EventOf(lines[0]).SessionStart? && PolicyAgrees(event, request))
    && (event.TurnStart? ==> i >= 2 && EventOf(lines[1]).PolicySelected?)
  }

  ghost predicate AcceptedUpTo(lines: seq<Line>, n: nat, request: Request, structure: Structure) {
    n <= |lines| && forall i | 0 <= i < n :: LineAccepted(lines, i, request, structure)
  }

  lemma AcceptedMeansWellFormed(lines: seq<Line>, request: Request, structure: Structure)
    ensures WellFormed(lines, request, structure) <==>
            && |lines| >= 2
            && AcceptedUpTo(lines, |lines|, request, structure)
            && EventOf(lines[0]).SessionStart? && EventOf(lines[1]).PolicySelected?
            && structure.mayEnd(EventsOf(lines))
  {
    if |lines| >= 2 && AcceptedUpTo(lines, |lines|, request, structure)
       && EventOf(lines[0]).SessionStart? && EventOf(lines[1]).PolicySelected? {
      assert LineAccepted(lines, 0, request, structure) && LineAccepted(lines, 1, request, structure);
      forall k | 1 <= k <= |lines| ensures structure.admits(EventsOf(lines)[..k]) {
        assert LineAccepted(lines, k - 1, request, structure);
      }
      forall i | 0 <= i < |lines|
        ensures lines[i].Parsed? && lines[i].version == SCHEMA_VERSION && lines[i].sequence == i
        ensures SessionOf(lines[i]) == SessionOf(lines[0])
        ensures i >= 2 ==> !EventOf(lines[i]).SessionStart? && !EventOf(lines[i]).PolicySelected?
      {
        assert LineAccepted(lines, i, request, structure);
      }
    }
    if WellFormed(lines, request, structure) {
      forall i | 0 <= i < |lines| ensures LineAccepted(lines, i, request, structure) {
        assert structure.admits(EventsOf(lines)[..i + 1]);
      }
    }
  }

  /** The checks of one loop iteration. */
  method CheckLine(lines: seq<Line>, n: nat, session: Option<string>, sawStart: bool, sawPolicy: bool,
                   request: Request, structure: Structure)
    returns (ok: bool)
    requires n < |lines| && AcceptedUpTo(lines, n, request, structure)
    requires session == if n == 0 then None else Some(SessionOf(lines[0]))
    requires sawStart <==> n >= 1 && EventOf(lines[0]).SessionStart?
    requires sawPolicy <==> n >= 2 && EventOf(lines[1]).PolicySelected?
    ensures ok <==> LineAccepted(lines, n, request, structure)
  {
    var line := lines[n];
    if line.Malformed? || line.version != SCHEMA_VERSION { return false; }
    if session.Some? && session.value != line.session { return false; }
    if line.sequence != n { return false; }
    if !structure.admits(EventsOf(lines)[..n + 1]) { return false; }
    match line.event {
      case SessionStart(_, _) =>
        return !sawStart && line.sequence == 0 && WorkspaceAgrees(line.event, request);
      case PolicySelected(_, _, _) =>
        return sawStart && !sawPolicy && line.sequence == 1 && PolicyAgrees(line.event, request);
      case TurnStart(_) =>
        return sawPolicy;
      case _ =>
        return true;
    }
  }

  lemma FoldStep(lines: seq<Line>, n: nat)
    requires n < |lines|
    ensures Fold(EventsOf(lines)[..n + 1]) == Count(Fold(EventsOf(lines)[..n]), EventOf(lines[n]))
  {
    assert EventsOf(lines)[..n + 1][..n] == EventsOf(lines)[..n];
  }

  lemma AcceptOneMore(lines: seq<Line>, n: nat, request: Request, structure: Structure)
    requires n < |lines| && AcceptedUpTo(lines, n, request, structure)
    ensures AcceptedUpTo(lines, n + 1, request, structure) <==> LineAccepted(lines, n, request, structure)
    ensures AcceptedUpTo(lines, |lines|, request, structure) ==> LineAccepted(lines, n, request, structure)
  {
  }

  lemma FlagsAdvance(lines: seq<Line>, n: nat, request: Request, structure: Structure)
    requires n < |lines| && LineAccepted(lines, n, request, structure)
    ensures EventOf(lines[n]).SessionStart? ==> n == 0
    ensures EventOf(lines[n]).PolicySelected? ==> n == 1
  {
  }

  /** The scan over the lines: all of them, unless one is rejected. */
  method Scan(lines: seq<Line>, request: Request, structure: Structure)
    returns (ok: bool, tally: Tally, sawStart: bool, sawPolicy: bool)
    ensures ok <==> AcceptedUpTo(lines, |lines|, request, structure)
    ensures ok ==> (sawStart <==> |lines| >= 1 && EventOf(lines[0]).SessionStart?)
    ensures ok ==> (sawPolicy <==> |lines| >= 2 && EventOf(lines[1]).PolicySelected?)
    ensures ok ==> tally == Fold(EventsOf(lines))
  {
    tally := EMPTY;
    var session: Option<string> := None;
    sawStart, sawPolicy := false, false;
    for n := 0 to |lines|
      invariant AcceptedUpTo(lines, n, request, structure)
      invariant session == if n == 0 then None else Some(SessionOf(lines[0]))
      invariant sawStart <==> n >= 1 && EventOf(lines[0]).SessionStart?
      invariant sawPolicy <==> n >= 2 && EventOf(lines[1]).PolicySelected?
      invariant tally == Fold(EventsOf(lines)[..n])
    {
      AcceptOneMore(lines, n, request, structure);
      ok := CheckLine(lines, n, session, sawStart, sawPolicy, request, structure);
      if !ok {
        return;
      }
      FlagsAdvance(lines, n, request, structure);
      var event := EventOf(lines[n]);
      session := if session.None? then Some(SessionOf(lines[n])) else session;
      sawStart := sawStart || event.SessionStart?;
      sawPolicy := sawPolicy || event.PolicySelected?;
      FoldStep(lines, n);
      tally := Count(tally, event);
    }
    assert EventsOf(lines)[..|lines|] == EventsOf(lines);
    ok := true;
  }

  /** The analysis says of the events what the declarative reading says; an
      interrupted request is not counted as a turn. The turn counter saturates;
      the gate counter wraps, as `+=` does without overflow checks. */
  ghost predicate Reports(a: Analysis, events: seq<Event>) {
    && a.terminal == LastEnd(events)
    && a.questions == QuestionsOf(events)
    && a.resumePrompts == PromptsOf(events)
    && (a.mutationBeforeQuestion <==> MutatedBeforeAsking(events))
    && a.toolTurns == ToolTurnsOf(events)
    && a.completionGatesPassed == Machine.AsU32(GatesPassed(events))
    && a.turns == Machine.Capped(TurnStarts(events)) - (if OpenRequest(events) then 1 else 0)
  }

  // The same report, told by the positions of the events.

  function QuestionIn(event: Event): Option<string> {
    if event.ToolCall? && event.name == "request_user_input" then event.question else None
  }

  function PromptIn(event: Event): Option<string> {
    if event.ResumePrompt? then Some(event.user) else None
  }

  /** The reason of the session end after which none follows. */
  ghost predicate EndsWith(events: seq<Event>, terminal: Option<Stops.StopReason>) {
    match terminal
    case None => forall k | 0 <= k < |events| :: !events[k].SessionEnd?
    case Some(reason) =>
      exists k | 0 <= k < |events| ::
        events[k] == SessionEnd(reason) && forall j | k < j < |events| :: !events[j].SessionEnd?
  }

  /** The number of the last turn started, zero before the first. */
  ghost predicate InTurn(events: seq<Event>, turn: nat) {
    if exists k | 0 <= k < |events| :: events[k].TurnStart? then
      exists k | 0 <= k < |events| ::
        events[k] == TurnStart(turn) && forall j | k < j < |events| :: !events[j].TurnStart?
    else turn == 0
  }

  ghost function ToolCalls(events: seq<Event>): set<int> {
    Indices(events, (event: Event) => event.ToolCall?)
  }

  /** Each tool call in its place, with the turn it was made in. */
  ghost predicate ToolTurnsRead(events: seq<Event>, turns: seq<nat>) {
    && |turns| == |ToolCalls(events)|
    && forall i | 0 <= i < |events| && events[i].ToolCall? ::
         |ToolCalls(events[..i])| < |turns| && InTurn(events[..i], turns[|ToolCalls(events[..i])|])
  }

  /** After the last turn start come only request-side events. */
  ghost predicate LeftOpen(events: seq<Event>) {
    exists t | 0 <= t < |events| ::
      events[t].TurnStart? && forall j | t < j < |events| ::
        events[j].PromptAssembled? || events[j].ConstraintApplied? || events[j].HistoryCompacted?
  }

  ghost predicate Reads(a: Analysis, events: seq<Event>) {
    && EndsWith(events, a.terminal)
    && Selects(events, QuestionIn, a.questions)
    && Selects(events, PromptIn, a.resumePrompts)
    && (a.mutationBeforeQuestion <==>
          exists i, j | 0 <= i < j < |events| :: events[i].WorkspaceMutation? && QuestionIn(events[j]).Some?)
    && ToolTurnsRead(events, a.toolTurns)
    && a.completionGatesPassed ==
       Machine.AsU32(|Indices(events, (event: Event) => event.CompletionGate? && event.passed)|)
    && a.turns ==
       Machine.Capped(|Indices(events, (event: Event) => event.TurnStart?)|) - (if LeftOpen(events) then 1 else 0)
  }

  lemma {:induction false} EndRead(events: seq<Event>)
    ensures EndsWith(events, LastEnd(events))
  {
    if events != [] {
      var n := |events| - 1;
      if !events[n].SessionEnd? {
        EndRead(events[..n]);
        if LastEnd(events).Some? {
          var k :| 0 <= k < n && events[..n][k] == SessionEnd(LastEnd(events).value)
            && forall j | k < j < n :: !events[..n][j].SessionEnd?;
          assert events[k] == SessionEnd(LastEnd(events).value);
          assert forall j | k < j < |events| :: !events[j].SessionEnd?;
        } else {
          assert forall k | 0 <= k < n :: !events[..n][k].SessionEnd?;
        }
      }
    }
  }

  lemma {:induction false} TurnRead(events: seq<Event>)
    ensures InTurn(events, TurnNow(events))
  {
    if events != [] {
      var n := |events| - 1;
      if events[n].TurnStart? {
        assert events[n] == TurnStart(TurnNow(events));
      } else {
        TurnRead(events[..n]);
        if k :| 0 <= k < |events| && events[k].TurnStart? {
          assert events[..n][k].TurnStart?;
          var l :| 0 <= l < n && events[..n][l] == TurnStart(TurnNow(events))
            && forall j | l < j < n :: !events[..n][j].TurnStart?;
          assert events[l] == TurnStart(TurnNow(events)) && forall j | l < j < |events| :: !events[j].TurnStart?;
        } else {
          assert forall k | 0 <= k < n :: !events[..n][k].TurnStart?;
        }
      }
    }
  }

  lemma {:induction false} QuestionsSelected(events: seq<Event>)
    ensures QuestionsOf(events) == Select(events, QuestionIn)
  {
    if events != [] {
      QuestionsSelected(events[..|events| - 1]);
    }
  }

  lemma {:induction false} PromptsSelected(events: seq<Event>)
    ensures PromptsOf(events) == Select(events, PromptIn)
  {
    if events != [] {
      PromptsSelected(events[..|events| - 1]);
    }
  }

  lemma {:induction false} StartsCounted(events: seq<Event>)
    ensures TurnStarts(events) == |Indices(events, (event: Event) => event.TurnStart?)|
  {
    if events != [] {
      StartsCounted(events[..|events| - 1]);
      IndicesSnoc(events, (event: Event) => event.TurnStart?);
    }
  }

  lemma {:induction false} GatesCounted(events: seq<Event>)
    ensures GatesPassed(events) == |Indices(events, (event: Event) => event.CompletionGate? && event.passed)|
  {
    if events != [] {
      GatesCounted(events[..|events| - 1]);
      IndicesSnoc(events, (event: Event) => event.CompletionGate? && event.passed);
    }
  }

  lemma {:induction false} ToolTurnsCounted(events: seq<Event>)
    ensures |ToolTurnsOf(events)| == |ToolCalls(events)|
  {
    if events != [] {
      ToolTurnsCounted(events[..|events| - 1]);
      IndicesSnoc(events, (event: Event) => event.ToolCall?);
    }
  }

  lemma {:induction false} ToolTurnAt(events: seq<Event>, i: nat)
    requires i < |events| && events[i].ToolCall?
    ensures |ToolCalls(events[..i])| < |ToolTurnsOf(events)|
    ensures ToolTurnsOf(events)[|ToolCalls(events[..i])|] == TurnNow(events[..i])
  {
    var n := |events| - 1;
    ToolTurnsCounted(events[..n]);
    if i < n {
      ToolTurnAt(events[..n], i);
      assert events[..n][..i] == events[..i];
    }
  }

  lemma ToolTurnsAreRead(events: seq<Event>)
    ensures ToolTurnsRead(events, ToolTurnsOf(events))
  {
    ToolTurnsCounted(events);
    forall i | 0 <= i < |events| && events[i].ToolCall?
      ensures |ToolCalls(events[..i])| < |ToolTurnsOf(events)|
      ensures InTurn(events[..i], ToolTurnsOf(events)[|ToolCalls(events[..i])|])
    {
      ToolTurnAt(events, i);
      TurnRead(events[..i]);
    }
  }

  lemma OpenRead(events: seq<Event>)
    ensures OpenRequest(events) <==> LeftOpen(events)
  {
    if OpenRequest(events) {
      var t :| 0 <= t < |events| && events[t].TurnStart? && forall j | t < j < |events| :: IsRequestSide(events[j]);
      forall j | t < j < |events|
        ensures events[j].PromptAssembled? || events[j].ConstraintApplied? || events[j].HistoryCompacted?
      {
        assert IsRequestSide(events[j]);
      }
    }
    if LeftOpen(events) {
      var t :| 0 <= t < |events| && events[t].TurnStart? && forall j | t < j < |events| ::
        events[j].PromptAssembled? || events[j].ConstraintApplied? || events[j].HistoryCompacted?;
      assert forall j | t < j < |events| :: IsRequestSide(events[j]);
    }
  }

  lemma MutationRead(events: seq<Event>)
    ensures MutatedBeforeAsking(events) <==>
            exists i, j | 0 <= i < j < |events| :: events[i].WorkspaceMutation? && QuestionIn(events[j]).Some?
  {
    assert forall j | 0 <= j < |events| :: IsQuestion(events[j]) <==> QuestionIn(events[j]).Some?;
  }

  /** A report that says what the recursive reading says is right position by
      position. */
  lemma ReportsRead(events: seq<Event>)
    ensures forall a: Analysis | Reports(a, events) :: Reads(a, events)
  {
    EndRead(events);
    QuestionsSelected(events);
    SelectSelects(events, QuestionIn);
    PromptsSelected(events);
    SelectSelects(events, PromptIn);
    MutationRead(events);
    ToolTurnsAreRead(events);
    GatesCounted(events);
    StartsCounted(events);
    OpenRead(events);
  }

  /** The verdict on a trace: accepted exactly when well-formed, and then a
      report of what it says. */
  ghost predicate Analyzed(r: Result<Analysis, string>, lines: seq<Line>, request: Request, structure: Structure) {
    && (r.Ok? <==> WellFormed(lines, request, structure))
    && (r.Ok? ==>
          && r.value.session == SessionOf(lines[0])
          && Some(r.value.resumedFrom) == ResumeSource(lines[0])
          && Reports(r.value, EventsOf(lines)))
  }

  /** Accepts exactly the well-formed traces, and reports what they say. */
  method Analyze(lines: seq<Line>, request: Request, structure: Structure)
    returns (r: Result<Analysis, string>)
    ensures Analyzed(r, lines, request, structure)
    ensures r.Ok? ==> Reads(r.value, EventsOf(lines))
  {
    AcceptedMeansWellFormed(lines, request, structure);
    var ok, tally, sawStart, sawPolicy := Scan(lines, request, structure);
    if !ok {
      return Err("trace line rejected");
    }
    if !structure.mayEnd(EventsOf(lines)) {
      return Err("structure incomplete");
    }
    if !sawStart || !sawPolicy {
      return Err("missing session_start or policy_selected");
    }
    FoldDescribes(EventsOf(lines));
    ReportsRead(EventsOf(lines));
    if tally.tail == Some(true) {
      OpenRequestStarted(EventsOf(lines));
    }
    var turns := if tally.tail == Some(true) then Machine.SatSub(tally.turns, 1) else tally.turns;
    return Ok(Analysis(SessionOf(lines[0]), EventOf(lines[0]).resumedFrom, tally.terminal, tally.questions,
                       tally.prompts, tally.mutatedFirst, turns, tally.toolTurns, tally.gates));
  }

  /** The session a trace says it resumed, if it has a session start. */
  function ResumeSource(line: Line): Option<Option<string>> {
    if EventOf(line).SessionStart? then Some(EventOf(line).resumedFrom) else None
  }

  lemma {:induction false} OpenRequestStarted(events: seq<Event>)
    requires OpenRequest(events)
    ensures TurnStarts(events) >= 1
  {
    var n := |events| - 1;
    assert events == events[..n] + [events[n]];
    RequestExtends(events[..n], events[n]);
    if !events[n].TurnStart? {
      OpenRequestStarted(events[..n]);
    }
  }
}
