/** The retention call as the program runs it, statement by statement, each
    statement one step of the protocol. */
module ResultsDirectory {
  import opened Wrappers
  import opened AttemptNames
  import opened Framing
  import opened Retention
  import opened RetentionSafety
  import opened RetentionProgress

  const COPY_CHUNK: nat := 8192

  /** The points at which the file system may refuse. */
  datatype Operation =
    | OpenSource
    | MakeFolder
    | CreateTrace
    | CreateSidecar
    | Copy(copied: nat)
    | SyncTrace
    | ReadTrace
    | WriteDocument
    | WriteNewline
    | SyncSidecar
    | Reread

  type Faults = Operation -> bool

  ghost predicate Healthy(faults: Faults) {
    forall operation :: !faults(operation)
  }

  /** The phase a finished call is in. */
  function Ended(result: Option<Sidecar>): Phase {
    match result
    case None => Failed
    case Some(document) => Succeeded(document)
  }

  // ----- one call as a run of the protocol ---------------------------------------------------

  predicate Own(action: Action) {
    (action.Advance? || action.Break?) && action.who == 0
  }

  /** The call was not broken off. */
  predicate Unbroken(actions: seq<Action>) {
    forall k | 0 <= k < |actions| :: actions[k].Advance? && actions[k].who == 0
  }

  lemma RunSnoc(tools: Tools, job: Job, initial: Files, actions: seq<Action>, action: Action)
    ensures
      var s := Run(tools, [job], Start(initial, [job]), actions);
      Run(tools, [job], Start(initial, [job]), actions + [action]) == Next(tools, [job], s, action)
  {
    var all := actions + [action];
    assert all[..|all| - 1] == actions;
  }

  /** Running `actions` alone brings the call to `phase` over `files`. */
  ghost predicate At(tools: Tools, job: Job, initial: Files, actions: seq<Action>, files: Files, phase: Phase) {
    && (forall k | 0 <= k < |actions| :: Own(actions[k]))
    && Run(tools, [job], Start(initial, [job]), actions) == System(files, [phase])
  }

  lemma Move(tools: Tools, job: Job, initial: Files, actions: seq<Action>, files: Files, phase: Phase, chunk: nat)
    requires At(tools, job, initial, actions, files, phase)
    ensures
      var (after, next) := Act(tools, job, files, phase, chunk);
      && At(tools, job, initial, actions + [Advance(0, chunk)], after, next)
      && Consistent(tools, job, after, next)
    ensures Unbroken(actions) ==> Unbroken(actions + [Advance(0, chunk)])
  {
    var all := actions + [Advance(0, chunk)];
    RunSnoc(tools, job, initial, actions, Advance(0, chunk));
    var (after, next) := Act(tools, job, files, phase, chunk);
    assert [phase][0 := next] == [next];
    Reached(tools, [job], initial, all);
    var s := Run(tools, [job], Start(initial, [job]), all);
    assert Consistent(tools, [job][0], s.files, s.phases[0]);
  }

  /** A call that the file system refuses is over. */
  lemma Halt(tools: Tools, job: Job, initial: Files, actions: seq<Action>, files: Files, phase: Phase)
    requires At(tools, job, initial, actions, files, phase) && !phase.Succeeded?
    ensures At(tools, job, initial, actions + [Break(0)], files, Failed)
  {
    RunSnoc(tools, job, initial, actions, Break(0));
    assert [phase][0 := Failed] == [Failed];
  }

  /** What one call is worth when the file system does not refuse: the published
      document exactly when the identity is valid, both names were free and the
      document reads back. */
  function Retained(tools: Tools, initial: Files, job: Job): Option<Sidecar> {
    if Valid(job.identity) && TracePath(job.identity) !in initial && SidecarPath(job.identity) !in initial
       && Publishable(tools, job)
    then Some(Published(tools, job)) else None
  }

  /** However the call ended, a returned document is the one it should publish;
      and if it was not broken off, it returned what it is worth. */
  lemma Concluded(tools: Tools, job: Job, initial: Files, actions: seq<Action>, files: Files, result: Option<Sidecar>)
    requires At(tools, job, initial, actions, files, Ended(result))
    ensures result.Some? || Unbroken(actions) ==> result == Retained(tools, initial, job)
    ensures Untouched(initial, files)
    ensures result.Some? ==>
      && Verify(tools, files, ReferenceOf(job, tools.sha256(job.source))) == Ok(result.value)
      && Holds(files, TracePath(job.identity), job.source)
  {
    var jobs := [job];
    var s := Run(tools, jobs, Start(initial, jobs), actions);
    assert jobs[0] == job && s.phases[0] == Ended(result);
    Reached(tools, jobs, initial, actions);
    if result.Some? {
      OnlyPublishableSucceeds(tools, jobs, initial, 0, actions);
      SuccessKeepsVerifying(tools, jobs, initial, actions, [], 0);
    } else if Unbroken(actions) && Retained(tools, initial, job).Some? {
      assert Undisturbed(tools, jobs, initial, 0, actions);
      UndisturbedSucceeds(tools, jobs, initial, 0, actions);
    }
  }

  /** The call has written this much of its sidecar, and the files show it. */
  ghost predicate WritingAt(tools: Tools, job: Job, initial: Files, actions: seq<Action>, files: Files,
                            document: Sidecar, content: Bytes, written: nat)
  {
    && At(tools, job, initial, actions, files, Writing(document, content, written))
    && Consistent(tools, job, files, Writing(document, content, written))
  }

  lemma MoveTo(tools: Tools, job: Job, initial: Files, actions: seq<Action>, files: Files, phase: Phase, chunk: nat,
               after: Files, next: Phase)
    requires At(tools, job, initial, actions, files, phase) && Act(tools, job, files, phase, chunk) == (after, next)
    ensures At(tools, job, initial, actions + [Advance(0, chunk)], after, next) && Consistent(tools, job, after, next)
    ensures Unbroken(actions) ==> Unbroken(actions + [Advance(0, chunk)])
  {
    Move(tools, job, initial, actions, files, phase, chunk);
  }

  lemma ActWrites(tools: Tools, job: Job, files: Files, document: Sidecar, content: Bytes, written: nat, end: nat)
    requires written < end <= |content|
    ensures Act(tools, job, files, Writing(document, content, written), end - written)
            == (WriteAt(files, SidecarPath(job.identity), written, content[written..end]),
                Writing(document, content, end))
  {
    assert ChunkEnd(written, |content|, end - written) == end;
  }

  lemma WriteMoves(tools: Tools, job: Job, initial: Files, actions: seq<Action>, files: Files,
                   document: Sidecar, content: Bytes, written: nat, end: nat)
    requires written < end <= |content|
    requires At(tools, job, initial, actions, files, Writing(document, content, written))
    ensures
      var after := WriteAt(files, SidecarPath(job.identity), written, content[written..end]);
      WritingAt(tools, job, initial, actions + [Advance(0, end - written)], after, document, content, end)
    ensures Unbroken(actions) ==> Unbroken(actions + [Advance(0, end - written)])
  {
    var after := WriteAt(files, SidecarPath(job.identity), written, content[written..end]);
    ActWrites(tools, job, files, document, content, written, end);
    MoveTo(tools, job, initial, actions, files, Writing(document, content, written), end - written,
           after, Writing(document, content, end));
  }

  /** A directory of retained artifacts. */
  class Directory {
    var files: Files

    constructor (initial: Files)
      ensures files == initial
    {
      files := initial;
    }

    /** Exclusive creation: an existing name is an error and stays as it is. */
    method CreateNew(path: string) returns (created: bool)
      modifies this
      ensures created <==> path !in old(files)
      ensures files == if created then old(files)[path := []] else old(files)
    {
      created := path !in files;
      if created {
        files := files[path := []];
      }
    }

    /** Verification yields a document exactly when the files attest it. */
    method VerifyBudgetTrace(tools: Tools, reference: Reference) returns (result: Result<Sidecar, Refusal>)
      ensures result == Verify(tools, files, reference)
      ensures forall document :: result == Ok(document) <==> Attests(tools, files, reference, document)
    {
      forall document
        ensures Verify(tools, files, reference) == Ok(document) <==> Attests(tools, files, reference, document)
      {
        VerifyAttests(tools, files, reference, document);
      }
      if !Valid(reference.identity) {
        return Err(InvalidIdentity);
      }
      if reference.tracePath != TracePath(reference.identity)
         || reference.sidecarPath != SidecarPath(reference.identity) {
        return Err(PathsMismatch);
      }
      result := CheckSidecar(tools, reference, Read(files, reference.sidecarPath));
      if result.Err? {
        return;
      }
      var trace := Read(files, reference.tracePath);
      var refusal := CheckDigest(tools, reference, trace);
      if refusal.None? {
        refusal := CheckObservation(tools, result.value, trace);
      }
      if refusal.Some? {
        result := Err(refusal.value);
      }
    }

    /** Both names are created before either is written. */
    method Reserve(tools: Tools, job: Job, faults: Faults) returns (reserved: bool, ghost actions: seq<Action>)
      modifies this
      ensures At(tools, job, old(files), actions, files, if reserved then Copying(0) else Failed)
      ensures Consistent(tools, job, files, if reserved then Copying(0) else Failed)
      ensures Healthy(faults) ==> Unbroken(actions)
    {
      ghost var initial := files;
      actions := [];
      assert At(tools, job, initial, actions, files, Starting);
      if Valid(job.identity) && (faults(OpenSource) || faults(MakeFolder) || faults(CreateTrace)) {
        Halt(tools, job, initial, actions, files, Starting);
        return false, actions + [Break(0)];
      }
      Move(tools, job, initial, actions, files, Starting, 1);
      actions := actions + [Advance(0, 1)];
      if !Valid(job.identity) {
        assert Act(tools, job, files, Starting, 1) == (files, Failed);
        return false, actions;
      }
      reserved := CreateNew(TracePath(job.identity));
      if reserved {
        if faults(CreateSidecar) {
          Halt(tools, job, initial, actions, files, TraceCreated);
          return false, actions + [Break(0)];
        }
        Move(tools, job, initial, actions, files, TraceCreated, 1);
        actions := actions + [Advance(0, 1)];
        reserved := CreateNew(SidecarPath(job.identity));
      }
    }

    /** `io::copy` into the newly created trace. */
    method CopyTrace(tools: Tools, job: Job, faults: Faults, ghost initial: Files, ghost before: seq<Action>)
      returns (copied: nat, ghost actions: seq<Action>)
      requires At(tools, job, initial, before, files, Copying(0)) && Consistent(tools, job, files, Copying(0))
      modifies this
      ensures copied <= |job.source|
      ensures At(tools, job, initial, actions, files, Copying(copied))
      ensures files == old(files)[TracePath(job.identity) := job.source[..copied]]
      ensures Healthy(faults) ==> copied == |job.source|
      ensures Unbroken(before) ==> Unbroken(actions)
    {
      actions := before;
      var trace := TracePath(job.identity);
      copied := 0;
      assert files == files[trace := job.source[..0]];
      while copied < |job.source|
        invariant copied <= |job.source|
        invariant At(tools, job, initial, actions, files, Copying(copied))
        invariant files == old(files)[trace := job.source[..copied]]
        invariant Unbroken(before) ==> Unbroken(actions)
      {
        if faults(Copy(copied)) {
          return;
        }
        var end := ChunkEnd(copied, |job.source|, COPY_CHUNK);
        Move(tools, job, initial, actions, files, Copying(copied), COPY_CHUNK);
        WriteContinues(files, trace, job.source, copied, end);
        files := WriteAt(files, trace, copied, job.source[copied..end]);
        copied := end;
        actions := actions + [Advance(0, COPY_CHUNK)];
      }
    }

    /** One write through the sidecar handle, up to `end`. */
    method WriteSidecar(tools: Tools, job: Job, ghost document: Sidecar, content: Bytes, written: nat, end: nat,
                        ghost initial: Files, ghost before: seq<Action>)
      returns (ghost actions: seq<Action>)
      requires WritingAt(tools, job, initial, before, files, document, content, written)
      requires written <= end <= |content|
      modifies this
      ensures WritingAt(tools, job, initial, actions, files, document, content, end)
      ensures Unbroken(before) ==> Unbroken(actions)
    {
      actions := before;
      if written < end {
        WriteMoves(tools, job, initial, actions, files, document, content, written, end);
        actions := actions + [Advance(0, end - written)];
        files := WriteAt(files, SidecarPath(job.identity), written, content[written..end]);
      }
    }

    /** The document, then the newline. */
    method WriteAll(tools: Tools, job: Job, faults: Faults, ghost document: Sidecar, content: Bytes, length: nat,
                    ghost initial: Files, ghost before: seq<Action>)
      returns (complete: bool, ghost actions: seq<Action>)
      requires length <= |content| && WritingAt(tools, job, initial, before, files, document, content, 0)
      modifies this
      ensures complete ==> WritingAt(tools, job, initial, actions, files, document, content, |content|)
      ensures !complete ==> At(tools, job, initial, actions, files, Failed)
      ensures Healthy(faults) ==> complete
      ensures complete && Unbroken(before) ==> Unbroken(actions)
    {
      actions := before;
      if faults(WriteDocument) {
        Halt(tools, job, initial, actions, files, Writing(document, content, 0));
        return false, actions + [Break(0)];
      }
      actions := WriteSidecar(tools, job, document, content, 0, length, initial, actions);
      if faults(WriteNewline) {
        Halt(tools, job, initial, actions, files, Writing(document, content, length));
        return false, actions + [Break(0)];
      }
      actions := WriteSidecar(tools, job, document, content, length, |content|, initial, actions);
      complete := true;
    }

    /** Write the sidecar, then read it back. */
    method Publish(tools: Tools, job: Job, faults: Faults, document: Sidecar, encoded: Bytes,
                   ghost initial: Files, ghost before: seq<Action>)
      returns (result: Option<Sidecar>, ghost actions: seq<Action>)
      requires WritingAt(tools, job, initial, before, files, document, encoded + NEWLINE, 0)
      modifies this
      ensures At(tools, job, initial, actions, files, Ended(result))
      ensures Healthy(faults) && Unbroken(before) ==> Unbroken(actions)
    {
      var content := encoded + NEWLINE;
      var complete;
      complete, actions := WriteAll(tools, job, faults, document, content, |encoded|, initial, before);
      if !complete {
        return None, actions;
      }
      if faults(SyncSidecar) || faults(Reread) {
        Halt(tools, job, initial, actions, files, Writing(document, content, |content|));
        return None, actions + [Break(0)];
      }
      result := ReadBack(tools, job, document, ReferenceOf(job, document.traceSha256));
      actions := Verified(tools, job, document, content, files, initial, actions, result);
    }

    method ReadBack(tools: Tools, job: Job, document: Sidecar, reference: Reference) returns (result: Option<Sidecar>)
      ensures result == if Verify(tools, files, reference) == Ok(document) then Some(document) else None
    {
      var verified := VerifyBudgetTrace(tools, reference);
      result := if verified.Ok? && verified.value == document then Some(verified.value) else None;
    }

    /** The protocol call, from validation to the verified read-back, with a file
        system that may refuse anywhere. Whatever happens, files that existed are
        untouched and a returned document is the published one; and when nothing
        is refused the call returns exactly what it is worth. */
    method Retain(tools: Tools, job: Job, faults: Faults) returns (result: Option<Sidecar>)
      modifies this
      ensures result.Some? || Healthy(faults) ==> result == Retained(tools, old(files), job)
      ensures Untouched(old(files), files)
      ensures result.Some? ==>
        && Verify(tools, files, ReferenceOf(job, tools.sha256(job.source))) == Ok(result.value)
        && Holds(files, TracePath(job.identity), job.source)
    {
      ghost var initial := files;
      ghost var actions;
      var reserved;
      reserved, actions := Reserve(tools, job, faults);
      if reserved {
        result, actions := Fill(tools, job, faults, initial, actions);
      } else {
        result := None;
      }
      Concluded(tools, job, initial, actions, files, result);
    }

    /** Copy, then digest, observe and publish. */
    method Fill(tools: Tools, job: Job, faults: Faults, ghost initial: Files, ghost before: seq<Action>)
      returns (result: Option<Sidecar>, ghost actions: seq<Action>)
      requires At(tools, job, initial, before, files, Copying(0)) && Consistent(tools, job, files, Copying(0))
      modifies this
      ensures At(tools, job, initial, actions, files, Ended(result))
      ensures Healthy(faults) && Unbroken(before) ==> Unbroken(actions)
    {
      var copied;
      copied, actions := CopyTrace(tools, job, faults, initial, before);
      if copied < |job.source| || faults(SyncTrace) || faults(ReadTrace) {
        Halt(tools, job, initial, actions, files, Copying(copied));
        return None, actions + [Break(0)];
      }
      assert job.source[..copied] == job.source;
      result, actions := Describe(tools, job, faults, initial, actions);
    }

    method Describe(tools: Tools, job: Job, faults: Faults, ghost initial: Files, ghost before: seq<Action>)
      returns (result: Option<Sidecar>, ghost actions: seq<Action>)
      requires At(tools, job, initial, before, files, Copying(|job.source|))
      requires TracePath(job.identity) in files && files[TracePath(job.identity)] == job.source
      modifies this
      ensures At(tools, job, initial, actions, files, Ended(result))
      ensures Healthy(faults) && Unbroken(before) ==> Unbroken(actions)
    {
      var trace := TracePath(job.identity);
      Move(tools, job, initial, before, files, Copying(|job.source|), 1);
      actions := before + [Advance(0, 1)];
      var digest := tools.sha256(files[trace]);
      var observation := ObserveTrace(tools.records(files[trace]));
      var document := DocumentOf(job, digest, observation);
      Move(tools, job, initial, actions, files, Hashed(digest), 1);
      actions := actions + [Advance(0, 1)];
      match tools.encode(document) {
        case None => result := None;
        case Some(encoded) => result, actions := Publish(tools, job, faults, document, encoded, initial, actions);
      }
    }
  }

  /** The read-back runs through the last three steps of the protocol. */
  ghost method Verified(tools: Tools, job: Job, document: Sidecar, content: Bytes, files: Files,
                        initial: Files, before: seq<Action>, result: Option<Sidecar>)
    returns (actions: seq<Action>)
    requires At(tools, job, initial, before, files, Writing(document, content, |content|))
    requires Consistent(tools, job, files, Writing(document, content, |content|))
    requires
      var reference := ReferenceOf(job, document.traceSha256);
      result == if Verify(tools, files, reference) == Ok(document) then Some(document) else None
    ensures At(tools, job, initial, actions, files, Ended(result))
    ensures Unbroken(before) ==> Unbroken(actions)
  {
    var reference := ReferenceOf(job, document.traceSha256);
    Move(tools, job, initial, before, files, Writing(document, content, |content|), 1);
    actions := before + [Advance(0, 1)];
    var found := CheckSidecar(tools, reference, Read(files, SidecarPath(job.identity)));
    if found.Err? {
      return;
    }
    Move(tools, job, initial, actions, files, SidecarRead(document, found.value), 1);
    actions := actions + [Advance(0, 1)];
    if CheckDigest(tools, reference, Read(files, TracePath(job.identity))).Some? {
      return;
    }
    Move(tools, job, initial, actions, files, DigestChecked(document, found.value), 1);
    actions := actions + [Advance(0, 1)];
  }
}
