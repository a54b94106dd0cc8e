/** When a call succeeds: a retainer that is given its turns and whose names
    nobody else takes succeeds exactly when what it publishes can be read back. */
module RetentionProgress {
  import opened Wrappers
  import opened AttemptNames
  import opened Framing
  import opened Retention
  import opened RetentionSafety

  /** The sidecar can be encoded, reads back as itself, and its enforced
      duration is the one its controls resolve to. */
  predicate Publishable(tools: Tools, job: Job) {
    var document := Published(tools, job);
    && tools.encode(document).Some?
    && tools.decode(tools.encode(document).value + NEWLINE) == Some(document)
    && tools.resolve(job.evidence.controls, job.evidence.baseTimeout) == Some(job.evidence.enforced)
  }

  function SidecarLength(tools: Tools, job: Job): nat {
    match tools.encode(Published(tools, job))
    case None => 0
    case Some(encoded) => |encoded| + 1
  }

  /** An upper bound on the turns a call still needs. */
  function Remaining(tools: Tools, job: Job, phase: Phase): int {
    match phase
    case Starting => |job.source| + SidecarLength(tools, job) + 7
    case TraceCreated => |job.source| + SidecarLength(tools, job) + 6
    case Copying(copied) => |job.source| - copied + SidecarLength(tools, job) + 5
    case Hashed(_) => SidecarLength(tools, job) + 4
    case Writing(_, _, written) => SidecarLength(tools, job) - written + 3
    case SidecarRead(_, _) => 2
    case DigestChecked(_, _) => 1
    case Succeeded(_) => 0
    case Failed => 0
  }

  /** The names the call still has to create are free. */
  predicate Clear(job: Job, files: Files, phase: Phase) {
    match phase
    case Starting => TracePath(job.identity) !in files && SidecarPath(job.identity) !in files
    case TraceCreated => SidecarPath(job.identity) !in files
    case SidecarRead(document, found) => found == document
    case DigestChecked(document, found) => found == document
    case Failed => false
    case _ => true
  }

  lemma EarlyStepProgresses(tools: Tools, job: Job, files: Files, phase: Phase, chunk: nat)
    requires phase.Starting? || phase.TraceCreated? || phase.Copying? || phase.Hashed?
    requires Valid(job.identity) && Publishable(tools, job)
    requires Consistent(tools, job, files, phase) && Clear(job, files, phase)
    ensures var (after, next) := Act(tools, job, files, phase, chunk);
      && Clear(job, after, next)
      && Remaining(tools, job, next) <= Remaining(tools, job, phase) - (if chunk > 0 then 1 else 0)
  {
    TraceIsNotSidecar(job.identity, job.identity);
  }

  lemma LateStepProgresses(tools: Tools, job: Job, files: Files, phase: Phase, chunk: nat)
    requires phase.Writing? || phase.SidecarRead? || phase.DigestChecked?
    requires Valid(job.identity) && Publishable(tools, job)
    requires Consistent(tools, job, files, phase) && Clear(job, files, phase)
    ensures var (after, next) := Act(tools, job, files, phase, chunk);
      && Clear(job, after, next)
      && Remaining(tools, job, next) <= Remaining(tools, job, phase) - (if chunk > 0 then 1 else 0)
  {
    if phase.Writing? && phase.written == |phase.content| {
      assert phase.content[..phase.written] == phase.content;
    }
  }

  predicate Turn(action: Action, i: nat) {
    action.Advance? && action.who == i && action.chunk > 0
  }

  /** How often retainer `i` is given a turn. */
  function Turns(actions: seq<Action>, i: nat): nat {
    if actions == [] then 0
    else Turns(actions[..|actions| - 1], i) + (if Turn(actions[|actions| - 1], i) then 1 else 0)
  }

  /** Nothing breaks the call off or creates one of its names. */
  predicate Harmless(job: Job, i: nat, action: Action) {
    match action
    case Advance(_, _) => true
    case Break(who) => who != i
    case Intrude(path, _) => path != TracePath(job.identity) && path != SidecarPath(job.identity)
  }

  predicate AloneInIdentity(jobs: seq<Job>, i: nat) {
    i < |jobs| && forall j | 0 <= j < |jobs| && j != i :: jobs[j].identity != jobs[i].identity
  }

  /** Another call creates only names of its own. */
  lemma CreatesOwnNames(tools: Tools, job: Job, files: Files, phase: Phase, chunk: nat)
    requires Consistent(tools, job, files, phase)
    ensures
      var after := Act(tools, job, files, phase, chunk).0;
      forall p | p in after && p !in files ::
        Valid(job.identity) && (p == TracePath(job.identity) || p == SidecarPath(job.identity))
  {
  }

  lemma OthersKeepClear(tools: Tools, jobs: seq<Job>, initial: Files, s: System, i: nat, action: Action)
    requires Invariant(tools, jobs, initial, s) && AloneInIdentity(jobs, i)
    requires Valid(jobs[i].identity) && Harmless(jobs[i], i, action)
    requires !(action.Advance? && action.who == i)
    requires Clear(jobs[i], s.files, s.phases[i])
    ensures
      var t := Next(tools, jobs, s, action);
      t.phases[i] == s.phases[i] && Clear(jobs[i], t.files, t.phases[i])
  {
    if action.Advance? && action.who < |jobs| {
      var other := jobs[action.who];
      CreatesOwnNames(tools, other, s.files, s.phases[action.who], action.chunk);
      if Valid(other.identity) {
        NamesIdentifyAttempts(other.identity, jobs[i].identity);
      }
    }
  }

  lemma OwnTurn(tools: Tools, jobs: seq<Job>, initial: Files, s: System, i: nat, chunk: nat)
    requires Invariant(tools, jobs, initial, s) && i < |jobs|
    requires Valid(jobs[i].identity) && Publishable(tools, jobs[i])
    requires Clear(jobs[i], s.files, s.phases[i])
    ensures
      var t := Next(tools, jobs, s, Advance(i, chunk));
      && Clear(jobs[i], t.files, t.phases[i])
      && (s.phases[i].Succeeded? ==> t.phases[i].Succeeded?)
      && (!s.phases[i].Succeeded? ==>
            Remaining(tools, jobs[i], t.phases[i])
            <= Remaining(tools, jobs[i], s.phases[i]) - (if chunk > 0 then 1 else 0))
  {
    var phase := s.phases[i];
    assert Consistent(tools, jobs[i], s.files, phase);
    if phase.Writing? || phase.SidecarRead? || phase.DigestChecked? {
      LateStepProgresses(tools, jobs[i], s.files, phase, chunk);
    } else if !phase.Succeeded? {
      EarlyStepProgresses(tools, jobs[i], s.files, phase, chunk);
    }
  }

  ghost predicate Undisturbed(tools: Tools, jobs: seq<Job>, initial: Files, i: nat, actions: seq<Action>) {
    && AloneInIdentity(jobs, i)
    && Valid(jobs[i].identity)
    && TracePath(jobs[i].identity) !in initial && SidecarPath(jobs[i].identity) !in initial
    && forall k | 0 <= k < |actions| :: Harmless(jobs[i], i, actions[k])
  }

  lemma {:induction false} RunProgresses(tools: Tools, jobs: seq<Job>, initial: Files, i: nat, actions: seq<Action>)
    requires Undisturbed(tools, jobs, initial, i, actions) && Publishable(tools, jobs[i])
    ensures
      var s := Run(tools, jobs, Start(initial, jobs), actions);
      && Clear(jobs[i], s.files, s.phases[i])
      && (s.phases[i].Succeeded?
          || Remaining(tools, jobs[i], s.phases[i])
             <= Remaining(tools, jobs[i], Starting) - Turns(actions, i))
    decreases |actions|
  {
    if actions != [] {
      var front, action := actions[..|actions| - 1], actions[|actions| - 1];
      RunProgresses(tools, jobs, initial, i, front);
      Reached(tools, jobs, initial, front);
      var s := Run(tools, jobs, Start(initial, jobs), front);
      if action.Advance? && action.who == i {
        OwnTurn(tools, jobs, initial, s, i, action.chunk);
      } else {
        OthersKeepClear(tools, jobs, initial, s, i, action);
      }
    }
  }

  lemma UnfinishedNeedsTurns(tools: Tools, job: Job, files: Files, phase: Phase)
    requires Consistent(tools, job, files, phase) && Clear(job, files, phase) && !phase.Succeeded?
    ensures Remaining(tools, job, phase) > 0
  {
  }

  /** Distinct identities never get in each other's way: whatever the others
      do, a retainer alone in its identity never fails, and given its turns in
      any interleaving it succeeds. */
  lemma UndisturbedSucceeds(tools: Tools, jobs: seq<Job>, initial: Files, i: nat, actions: seq<Action>)
    requires Undisturbed(tools, jobs, initial, i, actions) && Publishable(tools, jobs[i])
    ensures
      var phase := Run(tools, jobs, Start(initial, jobs), actions).phases[i];
      && !phase.Failed?
      && (Turns(actions, i) >= |jobs[i].source| + SidecarLength(tools, jobs[i]) + 7 ==>
            phase == Succeeded(Published(tools, jobs[i])))
  {
    RunProgresses(tools, jobs, initial, i, actions);
    Reached(tools, jobs, initial, actions);
    var s := Run(tools, jobs, Start(initial, jobs), actions);
    assert Consistent(tools, jobs[i], s.files, s.phases[i]);
    if !s.phases[i].Succeeded? {
      UnfinishedNeedsTurns(tools, jobs[i], s.files, s.phases[i]);
    }
  }

  /** Only a publishable job under a valid identity ever succeeds. */
  lemma OnlyPublishableSucceeds(tools: Tools, jobs: seq<Job>, initial: Files, i: nat, actions: seq<Action>)
    requires i < |jobs|
    requires Run(tools, jobs, Start(initial, jobs), actions).phases[i].Succeeded?
    ensures Valid(jobs[i].identity) && Publishable(tools, jobs[i])
  {
    Reached(tools, jobs, initial, actions);
    var s := Run(tools, jobs, Start(initial, jobs), actions);
    assert Consistent(tools, jobs[i], s.files, s.phases[i]);
  }
}
