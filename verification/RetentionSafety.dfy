/** What every interleaving of retainers keeps: nothing that existed is ever
    changed, one success per identity, and a success verifies for good. */
module RetentionSafety {
  import opened Wrappers
  import opened AttemptNames
  import opened Framing
  import opened Retention

  /** The names a call has created and still relies on. */
  function Owned(job: Job, phase: Phase): set<string> {
    match phase
    case Starting => {}
    case Failed => {}
    case TraceCreated => {TracePath(job.identity)}
    case _ => {TracePath(job.identity), SidecarPath(job.identity)}
  }

  predicate Holds(files: Files, path: string, content: Bytes) {
    path in files && files[path] == content
  }

  /** The document a job publishes, fixed by its source bytes alone. */
  function Published(tools: Tools, job: Job): Sidecar {
    DocumentOf(job, tools.sha256(job.source), Observed(tools.records(job.source)))
  }

  /** The published document, field by field: everything the caller handed in,
      and what the source bytes themselves say. */
  ghost predicate SpeaksFor(tools: Tools, job: Job, document: Sidecar) {
    var trace, digest := TracePath(job.identity), tools.sha256(job.source);
    && document.schemaVersion == 1
    && document.identity == job.identity
    && document.tracePath == trace
    && document.traceSha256 == digest
    && document.evidence.controls == job.evidence.controls
    && document.evidence.baseTimeout == job.evidence.baseTimeout
    && document.evidence.enforced == job.evidence.enforced
    && document.evidence.termination == job.evidence.termination
    && document.evidence.retained == Some(Reference(job.identity, trace, SidecarPath(job.identity), digest))
    && Observes(tools.records(job.source), document.evidence.trace)
  }

  lemma PublishedSpeaks(tools: Tools, job: Job)
    ensures SpeaksFor(tools, job, Published(tools, job))
  {
    ObservedReads(tools.records(job.source));
  }

  predicate Encodes(tools: Tools, document: Sidecar, content: Bytes) {
    tools.encode(document).Some? && content == tools.encode(document).value + NEWLINE
  }

  /** The files hold what the call believes it has written. */
  ghost predicate Consistent(tools: Tools, job: Job, files: Files, phase: Phase) {
    var trace, sidecar := TracePath(job.identity), SidecarPath(job.identity);
    var reference := ReferenceOf(job, tools.sha256(job.source));
    match phase
    case Starting => true
    case Failed => true
    case TraceCreated => Valid(job.identity) && Holds(files, trace, [])
    case Copying(copied) =>
      Valid(job.identity) && copied <= |job.source|
      && Holds(files, trace, job.source[..copied]) && Holds(files, sidecar, [])
    case Hashed(digest) =>
      Valid(job.identity) && digest == tools.sha256(job.source)
      && Holds(files, trace, job.source) && Holds(files, sidecar, [])
    case Writing(document, content, written) =>
      Valid(job.identity) && document == Published(tools, job) && Encodes(tools, document, content)
      && written <= |content|
      && Holds(files, trace, job.source) && Holds(files, sidecar, content[..written])
    case SidecarRead(document, found) =>
      Valid(job.identity) && document == Published(tools, job)
      && Holds(files, trace, job.source)
      && sidecar in files && Encodes(tools, document, files[sidecar])
      && CheckSidecar(tools, reference, Read(files, sidecar)) == Ok(found)
    case DigestChecked(document, found) =>
      Valid(job.identity) && document == Published(tools, job)
      && Holds(files, trace, job.source)
      && sidecar in files && Encodes(tools, document, files[sidecar])
      && CheckSidecar(tools, reference, Read(files, sidecar)) == Ok(found)
    case Succeeded(found) =>
      Valid(job.identity) && found == Published(tools, job)
      && Holds(files, trace, job.source)
      && sidecar in files && Encodes(tools, found, files[sidecar])
      && Verify(tools, files, reference) == Ok(found)
  }

  // ----- one step ------------------------------------------------------------------------------

  lemma PatchAppends(content: Bytes, data: Bytes)
    ensures Patch(content, |content|, data) == content + data
  {
  }

  lemma WriteContinues(files: Files, path: string, whole: Bytes, done: nat, end: nat)
    requires done <= end <= |whole| && Holds(files, path, whole[..done])
    ensures Holds(WriteAt(files, path, done, whole[done..end]), path, whole[..end])
  {
    PatchAppends(whole[..done], whole[done..end]);
    assert whole[..done] + whole[done..end] == whole[..end];
  }

  /** Files change only where the moving call owns them or creates them. */
  ghost predicate Local(before: Files, after: Files, owned: set<string>) {
    forall p | p in before :: p in after && (p !in owned ==> after[p] == before[p])
  }

  lemma CreatingStep(tools: Tools, job: Job, files: Files, phase: Phase, chunk: nat)
    requires phase.Starting? || phase.TraceCreated?
    requires Consistent(tools, job, files, phase)
    ensures var (after, next) := Act(tools, job, files, phase, chunk);
      && Consistent(tools, job, after, next)
      && Local(files, after, {})
      && (forall p | p in Owned(job, next) :: p in after && (p in Owned(job, phase) || p !in files))
  {
    TraceIsNotSidecar(job.identity, job.identity);
  }

  lemma CopyingStep(tools: Tools, job: Job, files: Files, phase: Phase, chunk: nat)
    requires phase.Copying? || phase.Hashed?
    requires Consistent(tools, job, files, phase)
    ensures var (after, next) := Act(tools, job, files, phase, chunk);
      && Consistent(tools, job, after, next)
      && Local(files, after, Owned(job, phase))
      && Owned(job, next) <= Owned(job, phase)
  {
    TraceIsNotSidecar(job.identity, job.identity);
    if phase.Copying? {
      if phase.copied < |job.source| {
        var end := ChunkEnd(phase.copied, |job.source|, chunk);
        WriteContinues(files, TracePath(job.identity), job.source, phase.copied, end);
      } else {
        assert job.source[..phase.copied] == job.source;
      }
    }
  }

  lemma WritingStep(tools: Tools, job: Job, files: Files, phase: Phase, chunk: nat)
    requires phase.Writing?
    requires Consistent(tools, job, files, phase)
    ensures var (after, next) := Act(tools, job, files, phase, chunk);
      && Consistent(tools, job, after, next)
      && Local(files, after, Owned(job, phase))
      && Owned(job, next) <= Owned(job, phase)
  {
    TraceIsNotSidecar(job.identity, job.identity);
    if phase.written < |phase.content| {
      var end := ChunkEnd(phase.written, |phase.content|, chunk);
      WriteContinues(files, SidecarPath(job.identity), phase.content, phase.written, end);
    } else {
      assert phase.content[..phase.written] == phase.content;
    }
  }

  lemma VerifyingStep(tools: Tools, job: Job, files: Files, phase: Phase, chunk: nat)
    requires phase.SidecarRead? || phase.DigestChecked? || phase.Succeeded? || phase.Failed?
    requires Consistent(tools, job, files, phase)
    ensures var (after, next) := Act(tools, job, files, phase, chunk);
      && after == files
      && Consistent(tools, job, after, next)
      && Owned(job, next) <= Owned(job, phase)
  {
  }

  /** One call keeps its own view consistent and touches nothing it did not
      create. */
  lemma StepIsLocal(tools: Tools, job: Job, files: Files, phase: Phase, chunk: nat)
    requires Consistent(tools, job, files, phase)
    requires forall p | p in Owned(job, phase) :: p in files
    ensures var (after, next) := Act(tools, job, files, phase, chunk);
      && Consistent(tools, job, after, next)
      && Local(files, after, Owned(job, phase))
      && (forall p | p in Owned(job, next) :: p in after && (p in Owned(job, phase) || p !in files))
  {
    match phase {
      case Starting => CreatingStep(tools, job, files, phase, chunk);
      case TraceCreated => CreatingStep(tools, job, files, phase, chunk);
      case Copying(_) => CopyingStep(tools, job, files, phase, chunk);
      case Hashed(_) => CopyingStep(tools, job, files, phase, chunk);
      case Writing(_, _, _) => WritingStep(tools, job, files, phase, chunk);
      case _ => VerifyingStep(tools, job, files, phase, chunk);
    }
  }

  /** A call's view survives every change outside the names it owns. */
  lemma ViewSurvives(tools: Tools, job: Job, before: Files, after: Files, phase: Phase)
    requires Consistent(tools, job, before, phase)
    requires forall p | p in Owned(job, phase) :: p in before && p in after && after[p] == before[p]
    ensures Consistent(tools, job, after, phase)
  {
    var trace, sidecar := TracePath(job.identity), SidecarPath(job.identity);
    if !phase.Starting? && !phase.Failed? {
      assert trace in Owned(job, phase);
      if !phase.TraceCreated? {
        assert sidecar in Owned(job, phase);
      }
    }
  }

  // ----- every run -----------------------------------------------------------------------------

  ghost predicate Untouched(initial: Files, files: Files) {
    forall p | p in initial :: p in files && files[p] == initial[p]
  }

  ghost predicate OwnsNew(initial: Files, job: Job, files: Files, phase: Phase) {
    forall p | p in Owned(job, phase) :: p in files && p !in initial
  }

  ghost predicate Invariant(tools: Tools, jobs: seq<Job>, initial: Files, s: System) {
    && |s.phases| == |jobs|
    && Untouched(initial, s.files)
    && (forall i | 0 <= i < |jobs| :: Consistent(tools, jobs[i], s.files, s.phases[i]))
    && (forall i | 0 <= i < |jobs| :: OwnsNew(initial, jobs[i], s.files, s.phases[i]))
    && (forall i, j | 0 <= i < j < |jobs| :: Owned(jobs[i], s.phases[i]) !! Owned(jobs[j], s.phases[j]))
  }

  lemma AdvanceKeepsInvariant(tools: Tools, jobs: seq<Job>, initial: Files, s: System, who: nat, chunk: nat)
    requires Invariant(tools, jobs, initial, s) && who < |jobs|
    ensures Invariant(tools, jobs, initial, Next(tools, jobs, s, Advance(who, chunk)))
  {
    var job, phase := jobs[who], s.phases[who];
    var (after, next) := Act(tools, job, s.files, phase, chunk);
    assert OwnsNew(initial, job, s.files, phase);
    StepIsLocal(tools, job, s.files, phase, chunk);
    var t := Next(tools, jobs, s, Advance(who, chunk));
    forall i | 0 <= i < |jobs|
      ensures Consistent(tools, jobs[i], t.files, t.phases[i]) && OwnsNew(initial, jobs[i], t.files, t.phases[i])
    {
      assert OwnsNew(initial, jobs[i], s.files, s.phases[i]);
      if i != who {
        assert Owned(jobs[i], s.phases[i]) !! Owned(job, phase);
        ViewSurvives(tools, jobs[i], s.files, after, s.phases[i]);
      }
    }
    forall i, j | 0 <= i < j < |jobs| ensures Owned(jobs[i], t.phases[i]) !! Owned(jobs[j], t.phases[j]) {
      assert Owned(jobs[i], s.phases[i]) !! Owned(jobs[j], s.phases[j]);
      assert OwnsNew(initial, jobs[i], s.files, s.phases[i]) && OwnsNew(initial, jobs[j], s.files, s.phases[j]);
    }
  }

  lemma OtherActionsKeepInvariant(tools: Tools, jobs: seq<Job>, initial: Files, s: System, action: Action)
    requires Invariant(tools, jobs, initial, s) && !action.Advance?
    ensures Invariant(tools, jobs, initial, Next(tools, jobs, s, action))
  {
    var t := Next(tools, jobs, s, action);
    forall i | 0 <= i < |jobs|
      ensures Consistent(tools, jobs[i], t.files, t.phases[i]) && OwnsNew(initial, jobs[i], t.files, t.phases[i])
      ensures Owned(jobs[i], t.phases[i]) <= Owned(jobs[i], s.phases[i])
    {
      assert OwnsNew(initial, jobs[i], s.files, s.phases[i]);
      if t.phases[i] == s.phases[i] {
        ViewSurvives(tools, jobs[i], s.files, t.files, s.phases[i]);
      }
    }
    forall i, j | 0 <= i < j < |jobs| ensures Owned(jobs[i], t.phases[i]) !! Owned(jobs[j], t.phases[j]) {
      assert Owned(jobs[i], s.phases[i]) !! Owned(jobs[j], s.phases[j]);
    }
  }

  lemma ActionKeepsInvariant(tools: Tools, jobs: seq<Job>, initial: Files, s: System, action: Action)
    requires Invariant(tools, jobs, initial, s)
    ensures Invariant(tools, jobs, initial, Next(tools, jobs, s, action))
  {
    match action {
      case Advance(who, chunk) =>
        if who < |jobs| {
          AdvanceKeepsInvariant(tools, jobs, initial, s, who, chunk);
        }
      case _ => OtherActionsKeepInvariant(tools, jobs, initial, s, action);
    }
  }

  lemma {:induction false} RunKeepsInvariant(
    tools: Tools, jobs: seq<Job>, initial: Files, s: System, actions: seq<Action>)
    requires Invariant(tools, jobs, initial, s)
    ensures Invariant(tools, jobs, initial, Run(tools, jobs, s, actions))
    decreases |actions|
  {
    if actions != [] {
      var front := actions[..|actions| - 1];
      RunKeepsInvariant(tools, jobs, initial, s, front);
      ActionKeepsInvariant(tools, jobs, initial, Run(tools, jobs, s, front), actions[|actions| - 1]);
    }
  }

  lemma Reached(tools: Tools, jobs: seq<Job>, initial: Files, actions: seq<Action>)
    ensures Invariant(tools, jobs, initial, Run(tools, jobs, Start(initial, jobs), actions))
  {
    RunKeepsInvariant(tools, jobs, initial, Start(initial, jobs), actions);
  }

  /** However the retainers interleave, break off or are intruded upon, no file
      that existed before is ever changed or removed. */
  lemma NothingOverwritten(tools: Tools, jobs: seq<Job>, initial: Files, actions: seq<Action>)
    ensures
      var s := Run(tools, jobs, Start(initial, jobs), actions);
      forall p | p in initial :: p in s.files && s.files[p] == initial[p]
  {
    Reached(tools, jobs, initial, actions);
  }

  /** At most one call per identity succeeds, in every run. */
  lemma OneSuccessPerIdentity(tools: Tools, jobs: seq<Job>, initial: Files, actions: seq<Action>, i: nat, j: nat)
    requires i < |jobs| && j < |jobs|
    requires
      var s := Run(tools, jobs, Start(initial, jobs), actions);
      s.phases[i].Succeeded? && s.phases[j].Succeeded?
    requires jobs[i].identity == jobs[j].identity
    ensures i == j
  {
    Reached(tools, jobs, initial, actions);
    var s := Run(tools, jobs, Start(initial, jobs), actions);
    assert TracePath(jobs[i].identity) in Owned(jobs[i], s.phases[i]) * Owned(jobs[j], s.phases[j]);
  }

  /** A success is never lost, whatever happens next. */
  lemma {:induction false} SuccessIsFinal(tools: Tools, jobs: seq<Job>, s: System, i: nat, more: seq<Action>)
    requires |s.phases| == |jobs| && i < |jobs| && s.phases[i].Succeeded?
    ensures Run(tools, jobs, s, more).phases[i] == s.phases[i]
    decreases |more|
  {
    if more != [] {
      SuccessIsFinal(tools, jobs, s, i, more[..|more| - 1]);
    }
  }

  /** A success published exactly the source bytes and the document they fix,
      and it verifies in the state it was reached in and in every later one. */
  lemma SuccessKeepsVerifying(
    tools: Tools, jobs: seq<Job>, initial: Files, actions: seq<Action>, more: seq<Action>, i: nat)
    requires i < |jobs|
    requires Run(tools, jobs, Start(initial, jobs), actions).phases[i].Succeeded?
    ensures
      var job := jobs[i];
      var s := Run(tools, jobs, Start(initial, jobs), actions);
      var later := Run(tools, jobs, s, more);
      var document := Published(tools, job);
      && SidecarPath(job.identity) in later.files
      && SpeaksFor(tools, job, document)
      && later.phases[i] == s.phases[i] == Succeeded(document)
      && Verify(tools, later.files, ReferenceOf(job, tools.sha256(job.source))) == Ok(document)
      && Holds(later.files, TracePath(job.identity), job.source)
      && Encodes(tools, document, later.files[SidecarPath(job.identity)])
      && TracePath(job.identity) !in initial && SidecarPath(job.identity) !in initial
  {
    var s := Run(tools, jobs, Start(initial, jobs), actions);
    PublishedSpeaks(tools, jobs[i]);
    Reached(tools, jobs, initial, actions);
    RunKeepsInvariant(tools, jobs, initial, s, more);
    SuccessIsFinal(tools, jobs, s, i, more);
    assert Consistent(tools, jobs[i], s.files, s.phases[i]);
    var later := Run(tools, jobs, s, more);
    assert Consistent(tools, jobs[i], later.files, later.phases[i]);
    assert OwnsNew(initial, jobs[i], later.files, later.phases[i]);
    assert TracePath(jobs[i].identity) in Owned(jobs[i], later.phases[i]);
    assert SidecarPath(jobs[i].identity) in Owned(jobs[i], later.phases[i]);
  }
}
