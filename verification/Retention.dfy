/** The no-clobber retention protocol: two names are reserved with create-new,
    written, then read back. Many retainers take steps in any order over one
    file map (`retain_with_hooks`, `create_new`, `verify_budget_trace`). */
module Retention {
  import opened Wrappers
  import opened AttemptNames
  import opened Framing
  import opened BudgetControls
  import opened Selecting

  type Bytes = seq<byte>

  type Files = map<string, Bytes>

  const NEWLINE: Bytes := [10]

  const SIDECAR_VERSION: nat := 1

  datatype Reference = Reference(identity: Identity, tracePath: string, sidecarPath: string, traceSha256: string)

  datatype Duration = Duration(secs: nat, nanos: nat)

  datatype Termination = Exited(exitCode: Option<int>) | ExecutionTimeout

  datatype Budget = Budget(turn: nat, requested: nat, effective: nat, declaredCtx: nat)

  datatype TraceState = Missing | Readable | Malformed(error: string)

  datatype Observation = Observation(state: TraceState, budgets: Option<seq<Budget>>, terminal: Option<string>)

  datatype Evidence = Evidence(
    controls: Controls,
    baseTimeout: nat,
    enforced: Duration,
    termination: Termination,
    trace: Observation,
    retained: Option<Reference>)

  datatype Sidecar = Sidecar(
    schemaVersion: nat,
    identity: Identity,
    tracePath: string,
    traceSha256: string,
    evidence: Evidence)

  /** What the trace reader yields for one line. */
  datatype Record = Unreadable(error: string) | MainBudget(budget: Budget) | End(reason: string) | Garbled | Other

  /** The foreign functions: digest, trace reader, JSON codec and the checked
      timeout resolver. */
  datatype Tools = Tools(
    sha256: Bytes -> string,
    records: Bytes -> seq<Record>,
    encode: Sidecar -> Option<Bytes>,
    decode: Bytes -> Option<Sidecar>,
    resolve: (Controls, nat) -> Option<Duration>)

  // ----- observing a trace -----------------------------------------------------------------

  predicate Bad(record: Record) {
    record.Unreadable? || record.Garbled?
  }

  function MalformedBy(record: Record): Observation {
    Observation(
      Malformed(if record.Unreadable? then record.error else "malformed known budget or terminal event"),
      None, None)
  }

  function Budgets(records: seq<Record>): seq<Budget> {
    if records == [] then []
    else
      var rest := Budgets(records[..|records| - 1]);
      var last := records[|records| - 1];
      if last.MainBudget? then rest + [last.budget] else rest
  }

  function Terminal(records: seq<Record>): Option<string> {
    if records == [] then None
    else
      var last := records[|records| - 1];
      if last.End? then Some(last.reason) else Terminal(records[..|records| - 1])
  }

  /** The first bad line decides; otherwise every budget in order and the last
      session end. */
  function Observed(records: seq<Record>): Observation {
    if exists k | 0 <= k < |records| :: Bad(records[k]) then MalformedBy(FirstBad(records))
    else
      var budgets := Budgets(records);
      Observation(Readable, if budgets == [] then None else Some(budgets), Terminal(records))
  }

  function FirstBad(records: seq<Record>): (bad: Record)
    requires exists k | 0 <= k < |records| :: Bad(records[k])
    ensures exists k | 0 <= k < |records| ::
      bad == records[k] && Bad(bad) && forall i | 0 <= i < k :: !Bad(records[i])
  {
    if Bad(records[0]) then records[0] else FirstBad(records[1..])
  }

  lemma {:induction false} FirstBadAt(records: seq<Record>, k: nat)
    requires k < |records| && Bad(records[k]) && forall i | 0 <= i < k :: !Bad(records[i])
    ensures FirstBad(records) == records[k]
  {
    if k > 0 {
      FirstBadAt(records[1..], k - 1);
    }
  }

  function BudgetIn(record: Record): Option<Budget> {
    if record.MainBudget? then Some(record.budget) else None
  }

  ghost predicate NoneBad(records: seq<Record>) {
    forall k | 0 <= k < |records| :: !records[k].Unreadable? && !records[k].Garbled?
  }

  /** Some line is the first bad one, and it alone is reported. */
  ghost predicate ReportsFirstBad(records: seq<Record>, o: Observation) {
    exists k | 0 <= k < |records| ::
      && NoneBad(records[..k])
      && (match records[k]
          case Unreadable(error) => o == Observation(Malformed(error), None, None)
          case Garbled => o == Observation(Malformed("malformed known budget or terminal event"), None, None)
          case _ => false)
  }

  /** The reason of the session end after which none follows. */
  ghost predicate LastTerminal(records: seq<Record>, terminal: Option<string>) {
    match terminal
    case None => forall k | 0 <= k < |records| :: !records[k].End?
    case Some(reason) =>
      exists k | 0 <= k < |records| :: records[k] == End(reason) && forall j | k < j < |records| :: !records[j].End?
  }

  /** What an observation says about the lines, position by position. */
  ghost predicate Observes(records: seq<Record>, o: Observation) {
    if NoneBad(records) then
      && o.state == Readable
      && (o.budgets.None? <==> forall k | 0 <= k < |records| :: !records[k].MainBudget?)
      && (o.budgets.Some? ==> Selects(records, BudgetIn, o.budgets.value))
      && LastTerminal(records, o.terminal)
    else ReportsFirstBad(records, o)
  }

  lemma {:induction false} BudgetsAreSelected(records: seq<Record>)
    ensures Budgets(records) == Select(records, BudgetIn)
  {
    if records != [] {
      BudgetsAreSelected(records[..|records| - 1]);
    }
  }

  lemma BudgetsPresent(records: seq<Record>)
    ensures Selects(records, BudgetIn, Budgets(records))
    ensures Budgets(records) == [] <==> forall k | 0 <= k < |records| :: !records[k].MainBudget?
  {
    BudgetsAreSelected(records);
    SelectSelects(records, BudgetIn);
    if k :| 0 <= k < |records| && records[k].MainBudget? {
      SelectAt(records, BudgetIn, k);
    } else {
      assert Hits(records, BudgetIn) == {};
    }
  }

  lemma {:induction false} TerminalIsLast(records: seq<Record>)
    ensures LastTerminal(records, Terminal(records))
  {
    if records != [] {
      var n := |records| - 1;
      if !records[n].End? {
        TerminalIsLast(records[..n]);
        if Terminal(records).Some? {
          var k :| 0 <= k < n && records[..n][k] == End(Terminal(records).value)
            && forall j | k < j < n :: !records[..n][j].End?;
          assert records[k] == End(Terminal(records).value) && forall j | k < j < |records| :: !records[j].End?;
        } else {
          assert forall k | 0 <= k < n :: !records[..n][k].End?;
        }
      }
    }
  }

  /** The observation is determined by where the lines stand. */
  lemma ObservedReads(records: seq<Record>)
    ensures Observes(records, Observed(records))
  {
    if NoneBad(records) {
      BudgetsPresent(records);
      TerminalIsLast(records);
    } else {
      BadReported(records);
    }
  }

  lemma BadReported(records: seq<Record>)
    requires !NoneBad(records)
    ensures ReportsFirstBad(records, Observed(records))
  {
    assert exists k | 0 <= k < |records| :: Bad(records[k]);
    var k :| 0 <= k < |records| && FirstBad(records) == records[k] && Bad(records[k])
      && forall i | 0 <= i < k :: !Bad(records[i]);
    assert NoneBad(records[..k]);
  }

  /** The first bad line decides; otherwise every budget in its place and the
      last session end. */
  method ObserveTrace(records: seq<Record>) returns (observation: Observation)
    ensures observation == Observed(records)
    ensures Observes(records, observation)
  {
    ObservedReads(records);
    observation := CollectRecords(records);
  }

  /** The loop over the lines. */
  method CollectRecords(records: seq<Record>) returns (observation: Observation)
    ensures observation == Observed(records)
  {
    var budgets: seq<Budget> := [];
    var terminal := None;
    for k := 0 to |records|
      invariant forall i | 0 <= i < k :: !Bad(records[i])
      invariant budgets == Budgets(records[..k]) && terminal == Terminal(records[..k])
    {
      var record := records[k];
      assert records[..k + 1] == records[..k] + [record];
      match record {
        case Unreadable(_) => FirstBadAt(records, k); return MalformedBy(record);
        case Garbled => FirstBadAt(records, k); return MalformedBy(record);
        case MainBudget(budget) => budgets := budgets + [budget];
        case End(reason) => terminal := Some(reason);
        case Other =>
      }
    }
    assert records[..|records|] == records;
    return Observation(Readable, if budgets == [] then None else Some(budgets), terminal);
  }

  // ----- verification: one reading of the sidecar, two of the trace --------------------------

  datatype Refusal =
    InvalidIdentity | PathsMismatch | Unopenable | Undecodable | ReferenceMismatch | DigestMismatch
    | ObservationMismatch | Unresolvable | DurationMismatch

  function Read(files: Files, path: string): Option<Bytes> {
    if path in files then Some(files[path]) else None
  }

  function CheckSidecar(tools: Tools, reference: Reference, content: Option<Bytes>): Result<Sidecar, Refusal> {
    if !Valid(reference.identity) then Err(InvalidIdentity)
    else if reference.tracePath != TracePath(reference.identity) then Err(PathsMismatch)
    else if reference.sidecarPath != SidecarPath(reference.identity) then Err(PathsMismatch)
    else if content.None? then Err(Unopenable)
    else
      match tools.decode(content.value)
      case None => Err(Undecodable)
      case Some(document) =>
        if document.schemaVersion == SIDECAR_VERSION && document.identity == reference.identity
           && document.tracePath == reference.tracePath && document.traceSha256 == reference.traceSha256
           && document.evidence.retained == Some(reference)
        then Ok(document) else Err(ReferenceMismatch)
  }

  function CheckDigest(tools: Tools, reference: Reference, trace: Option<Bytes>): Option<Refusal> {
    if trace.None? then Some(Unopenable)
    else if tools.sha256(trace.value) != reference.traceSha256 then Some(DigestMismatch)
    else None
  }

  function CheckObservation(tools: Tools, document: Sidecar, trace: Option<Bytes>): Option<Refusal> {
    if trace.None? then Some(Unopenable)
    else if Observed(tools.records(trace.value)) != document.evidence.trace then Some(ObservationMismatch)
    else
      match tools.resolve(document.evidence.controls, document.evidence.baseTimeout)
      case None => Some(Unresolvable)
      case Some(duration) => if duration == document.evidence.enforced then None else Some(DurationMismatch)
  }

  /** `verify_budget_trace` against one state of the files. */
  function Verify(tools: Tools, files: Files, reference: Reference): Result<Sidecar, Refusal> {
    match CheckSidecar(tools, reference, Read(files, SidecarPath(reference.identity)))
    case Err(refusal) => Err(refusal)
    case Ok(document) =>
      var trace := Read(files, TracePath(reference.identity));
      match CheckDigest(tools, reference, trace)
      case Some(refusal) => Err(refusal)
      case None =>
        match CheckObservation(tools, document, trace)
        case Some(refusal) => Err(refusal)
        case None => Ok(document)
  }

  /** What a verified pair of files amounts to: the sidecar decodes to a document
      of this version that names this very reference, the trace has the digest
      and the observations it records, and its controls resolve to the duration
      it says was enforced. */
  ghost predicate Attests(tools: Tools, files: Files, reference: Reference, document: Sidecar) {
    var trace, sidecar := TracePath(reference.identity), SidecarPath(reference.identity);
    && Valid(reference.identity) && reference.tracePath == trace && reference.sidecarPath == sidecar
    && sidecar in files && tools.decode(files[sidecar]) == Some(document)
    && document.schemaVersion == SIDECAR_VERSION
    && document.evidence.retained == Some(reference)
    && document.identity == reference.identity
    && document.tracePath == trace
    && document.traceSha256 == reference.traceSha256
    && trace in files && tools.sha256(files[trace]) == reference.traceSha256
    && Observed(tools.records(files[trace])) == document.evidence.trace
    && tools.resolve(document.evidence.controls, document.evidence.baseTimeout) == Some(document.evidence.enforced)
  }

  /** Verification yields a document exactly when the files attest it. */
  lemma VerifyAttests(tools: Tools, files: Files, reference: Reference, document: Sidecar)
    ensures Verify(tools, files, reference) == Ok(document) <==> Attests(tools, files, reference, document)
  {
    var content := Read(files, SidecarPath(reference.identity));
    var trace := Read(files, TracePath(reference.identity));
    if Verify(tools, files, reference) == Ok(document) {
      assert CheckSidecar(tools, reference, content) == Ok(document);
      assert CheckDigest(tools, reference, trace).None?;
      assert CheckObservation(tools, document, trace).None?;
    }
    if Attests(tools, files, reference, document) {
      assert CheckSidecar(tools, reference, content) == Ok(document);
    }
  }

  // ----- one retainer -------------------------------------------------------------------------

  /** One call: what to retain and under which identity. */
  datatype Job = Job(identity: Identity, source: Bytes, evidence: Evidence)

  /** Where a call stands. Every constructor is a point at which other
      retainers may run, or at which the call may break off. */
  datatype Phase =
    | Starting
    | TraceCreated
    | Copying(copied: nat)
    | Hashed(digest: string)
    | Writing(document: Sidecar, content: Bytes, written: nat)
    | SidecarRead(document: Sidecar, found: Sidecar)
    | DigestChecked(document: Sidecar, found: Sidecar)
    | Succeeded(found: Sidecar)
    | Failed

  function ReferenceOf(job: Job, digest: string): Reference {
    Reference(job.identity, TracePath(job.identity), SidecarPath(job.identity), digest)
  }

  function DocumentOf(job: Job, digest: string, observation: Observation): Sidecar {
    Sidecar(SIDECAR_VERSION, job.identity, TracePath(job.identity), digest,
            job.evidence.(trace := observation, retained := Some(ReferenceOf(job, digest))))
  }

  /** A write through a handle at `offset`, whatever the file holds by then. */
  function Patch(content: Bytes, offset: nat, data: Bytes): Bytes {
    var end := offset + |data|;
    seq(if |content| < end then end else |content|,
        i requires 0 <= i => if offset <= i < end then data[i - offset] else if i < |content| then content[i] else 0)
  }

  function WriteAt(files: Files, path: string, offset: nat, data: Bytes): Files {
    if path in files then files[path := Patch(files[path], offset, data)] else files
  }

  /** The end of the next chunk a write may cover; a chunk may be any size. */
  function ChunkEnd(done: nat, total: nat, chunk: nat): (end: nat)
    requires done <= total
    ensures done <= end <= total
  {
    if total - done <= chunk then total else done + chunk
  }

  /** The next step of a call in the present files. */
  function Act(tools: Tools, job: Job, files: Files, phase: Phase, chunk: nat): (Files, Phase) {
    var trace, sidecar := TracePath(job.identity), SidecarPath(job.identity);
    match phase
    case Starting =>
      if !Valid(job.identity) || trace in files then (files, Failed)
      else (files[trace := []], TraceCreated)
    case TraceCreated =>
      if sidecar in files then (files, Failed)
      else (files[sidecar := []], Copying(0))
    case Copying(copied) =>
      if copied < |job.source| then
        var end := ChunkEnd(copied, |job.source|, chunk);
        (WriteAt(files, trace, copied, job.source[copied..end]), Copying(end))
      else if trace in files then (files, Hashed(tools.sha256(files[trace])))
      else (files, Failed)
    case Hashed(digest) =>
      if trace !in files then (files, Failed)
      else
        var document := DocumentOf(job, digest, Observed(tools.records(files[trace])));
        (match tools.encode(document)
         case None => (files, Failed)
         case Some(encoded) => (files, Writing(document, encoded + NEWLINE, 0)))
    case Writing(document, content, written) =>
      if written < |content| then
        var end := ChunkEnd(written, |content|, chunk);
        (WriteAt(files, sidecar, written, content[written..end]), Writing(document, content, end))
      else
        (match CheckSidecar(tools, ReferenceOf(job, document.traceSha256), Read(files, sidecar))
         case Err(_) => (files, Failed)
         case Ok(found) => (files, SidecarRead(document, found)))
    case SidecarRead(document, found) =>
      if CheckDigest(tools, ReferenceOf(job, document.traceSha256), Read(files, trace)).Some?
      then (files, Failed) else (files, DigestChecked(document, found))
    case DigestChecked(document, found) =>
      if CheckObservation(tools, found, Read(files, trace)).Some? || found != document
      then (files, Failed) else (files, Succeeded(found))
    case Succeeded(_) => (files, phase)
    case Failed => (files, phase)
  }

  // ----- any number of retainers ---------------------------------------------------------------

  datatype System = System(files: Files, phases: seq<Phase>)

  /** A retainer moves, a retainer breaks off where it stands, or a foreign
      process creates a file that did not exist. */
  datatype Action = Advance(who: nat, chunk: nat) | Break(who: nat) | Intrude(path: string, content: Bytes)

  function Next(tools: Tools, jobs: seq<Job>, s: System, action: Action): (r: System)
    requires |s.phases| == |jobs|
    ensures |r.phases| == |jobs|
  {
    match action
    case Advance(who, chunk) =>
      if who >= |jobs| then s
      else
        var (files, phase) := Act(tools, jobs[who], s.files, s.phases[who], chunk);
        System(files, s.phases[who := phase])
    case Break(who) =>
      if who >= |jobs| || s.phases[who].Succeeded? then s
      else s.(phases := s.phases[who := Failed])
    case Intrude(path, content) =>
      if path in s.files then s else s.(files := s.files[path := content])
  }

  function Run(tools: Tools, jobs: seq<Job>, s: System, actions: seq<Action>): (r: System)
    requires |s.phases| == |jobs|
    ensures |r.phases| == |jobs|
    decreases |actions|
  {
    if actions == [] then s
    else Next(tools, jobs, Run(tools, jobs, s, actions[..|actions| - 1]), actions[|actions| - 1])
  }

  function Start(initial: Files, jobs: seq<Job>): (s: System)
    ensures |s.phases| == |jobs|
  {
    System(initial, seq(|jobs|, _ => Starting))
  }
}
