/** The store of model profiles: a list in one file that must behave like a map
    keyed by model and protocol (`ferric-bench/src/calibrate.rs`,
    `publish_calibration` in `ferric-cli/src/bench_cmd.rs`). */
module ProfileStore {
  import opened Wrappers
  import opened BudgetControls
  import opened Ladder
  import opened Calibration
  import Machine

  type Key = (string, string)

  datatype Profile = Profile(
    model: string, protocol: string, paramsB: real, measuredLevel: Option<u8>, calibratedRing: Option<u8>,
    evidence: Option<Evidence>)

  function KeyOf(p: Profile): Key {
    (p.model, p.protocol)
  }

  // ----- the list as a map -------------------------------------------------------------

  /** The first record with the key. */
  function Find(records: seq<Profile>, key: Key): Option<Profile> {
    if records == [] then None
    else if KeyOf(records[0]) == key then Some(records[0])
    else Find(records[1..], key)
  }

  function Keys(records: seq<Profile>): set<Key> {
    set i | 0 <= i < |records| :: KeyOf(records[i])
  }

  lemma {:induction false} FindExactly(records: seq<Profile>, key: Key)
    ensures Find(records, key).Some? <==> key in Keys(records)
    ensures Find(records, key).Some? ==> KeyOf(Find(records, key).value) == key
  {
    if records != [] {
      FindExactly(records[1..], key);
      assert Keys(records) == Keys(records[1..]) + {KeyOf(records[0])} by {
        forall k | k in Keys(records[1..]) ensures k in Keys(records) {
          var i :| 0 <= i < |records[1..]| && KeyOf(records[1..][i]) == k;
          assert records[i + 1] == records[1..][i];
        }
        forall k | k in Keys(records) ensures k in Keys(records[1..]) + {KeyOf(records[0])} {
          var i :| 0 <= i < |records| && KeyOf(records[i]) == k;
          assert i > 0 ==> records[1..][i - 1] == records[i];
        }
        assert KeyOf(records[0]) in Keys(records);
      }
    }
  }

  ghost function AsMap(records: seq<Profile>): map<Key, Profile> {
    map key | key in Keys(records) && Find(records, key).Some? :: Find(records, key).value
  }

  lemma AsMapFinds(records: seq<Profile>, key: Key)
    ensures Lookup(AsMap(records), key) == Find(records, key)
  {
    FindExactly(records, key);
  }

  ghost function Lookup(m: map<Key, Profile>, key: Key): Option<Profile> {
    if key in m then Some(m[key]) else None
  }

  function Retained(records: seq<Profile>, key: Key): seq<Profile> {
    if records == [] then []
    else (if KeyOf(records[0]) == key then [] else [records[0]]) + Retained(records[1..], key)
  }

  lemma {:induction false} RetainedFinds(records: seq<Profile>, key: Key, record: Profile, other: Key)
    requires KeyOf(record) == key
    ensures Find(Retained(records, key) + [record], other)
            == if other == key then Some(record) else Find(records, other)
  {
    var list := Retained(records, key) + [record];
    if records == [] {
      assert list == [record];
    } else {
      RetainedFinds(records[1..], key, record, other);
      if KeyOf(records[0]) != key {
        assert list[1..] == Retained(records[1..], key) + [record];
      } else {
        assert list == Retained(records[1..], key) + [record];
      }
    }
  }

  /** Retain-then-push on the list is an update of the map. */
  lemma WriteIsUpdate(records: seq<Profile>, record: Profile)
    ensures AsMap(Retained(records, KeyOf(record)) + [record]) == AsMap(records)[KeyOf(record) := record]
  {
    var list := Retained(records, KeyOf(record)) + [record];
    var written, updated := AsMap(list), AsMap(records)[KeyOf(record) := record];
    forall k: Key ensures Lookup(written, k) == Lookup(updated, k) {
      AsMapFinds(list, k);
      AsMapFinds(records, k);
      RetainedFinds(records, KeyOf(record), record, k);
    }
    forall k: Key ensures k in written <==> k in updated {
      assert Lookup(written, k) == Lookup(updated, k);
    }
    forall k: Key | k in written ensures written[k] == updated[k] {
      assert Lookup(written, k) == Lookup(updated, k);
    }
  }

  // ----- operations on the map -------------------------------------------------------------

  datatype Operation =
    | WriteProfile(record: Profile)
    | WriteRing(model: string, protocol: string, paramsB: real, ring: u8)
    | Publish(model: string, protocol: string, paramsB: real, evidence: Evidence)

  function RingRecord(existing: Option<Profile>, model: string, protocol: string, paramsB: real, ring: u8): Profile {
    var base := if existing.Some? then existing.value else Profile(model, protocol, paramsB, None, None, None);
    base.(calibratedRing := Some(ring))
  }

  predicate Publishes(e: Evidence) {
    !IsDiagnostic(e) && Calibrate(e).Some?
  }

  function PublishedRecord(model: string, protocol: string, paramsB: real, e: Evidence): Profile
    requires Publishes(e)
  {
    Profile(model, protocol, paramsB, Calibrate(e).value, None, Some(e))
  }

  // What the records say, without naming how they are built.

  /** The end of the run of levels that starts at 0. */
  ghost predicate EndsRun(levels: seq<u8>, measured: Option<u8>) {
    match measured
    case None => 0 !in levels
    case Some(top) => (forall l: u8 | l <= top :: l in levels) && (top == 255 || top + 1 !in levels)
  }

  /** A published record: this model, protocol and size, no ring yet, the level
      its own evidence qualifies, and that evidence. */
  ghost predicate IsPublished(record: Profile, model: string, protocol: string, paramsB: real, e: Evidence) {
    && record.model == model && record.protocol == protocol && record.paramsB == paramsB
    && record.calibratedRing == None
    && record.evidence == Some(e)
    && EndsRun(e.qualifiedLevels, record.measuredLevel)
  }

  lemma PublishedRecordSays(model: string, protocol: string, paramsB: real, e: Evidence)
    requires Publishes(e)
    ensures IsPublished(PublishedRecord(model, protocol, paramsB, e), model, protocol, paramsB, e)
  {
    PrefixFromExactly(e.qualifiedLevels, 0);
  }

  /** A record after a ring write: the ring is set, and the rest is as it was, or
      blank if there was no record. */
  ghost predicate HasRing(record: Profile, existing: Option<Profile>, key: Key, paramsB: real, ring: u8) {
    && record.calibratedRing == Some(ring)
    && (match existing
        case None =>
          && (record.model, record.protocol) == key && record.paramsB == paramsB
          && record.measuredLevel == None && record.evidence == None
        case Some(before) =>
          && record.model == before.model && record.protocol == before.protocol && record.paramsB == before.paramsB
          && record.measuredLevel == before.measuredLevel && record.evidence == before.evidence)
  }

  /** What evidence must say to be published, item by item. */
  ghost predicate Credible(e: Evidence) {
    && e.eligible && e.fullLadder && e.complete && e.infrastructureClean
    && !e.diagnostic
    && (e.controls.Some? ==>
          forall i | 0 <= i < |e.controls.value| ::
            e.controls.value[i].timeoutScale == 1.0 && e.controls.value[i].maxOutputTokens == None)
    && EndsRun(e.qualifiedLevels, e.measuredLevel)
    && 1 <= e.trials <= 100 && 0.0 < e.minPassRate <= 1.0
    && IsLeast(e.requiredPasses, e.trials, e.minPassRate)
    && (forall i, j | 0 <= i < j < |e.qualifiedLevels| :: e.qualifiedLevels[i] != e.qualifiedLevels[j])
    && (forall i | 0 <= i < |e.qualifiedLevels| :: e.qualifiedLevels[i] <= 6)
    && e.runId != "" && e.summaryFile == "summary-" + e.runId + ".json"
  }

  lemma EndsRunOnce(levels: seq<u8>, a: Option<u8>, b: Option<u8>)
    requires EndsRun(levels, a) && EndsRun(levels, b)
    ensures a == b
  {
  }

  function Share(passes: nat, trials: nat): real
    requires trials > 0
  {
    passes as real / trials as real
  }

  /** `least` of `trials` passes, and no fewer, reach the rate. */
  ghost predicate IsLeast(least: nat, trials: nat, rate: real)
    requires trials > 0
  {
    && least <= trials
    && forall passes: nat | passes <= trials :: passes >= least <==> Share(passes, trials) >= rate
  }

  lemma RequiredIsLeast(trials: Machine.u32, rate: real)
    requires 0 < trials <= 100 && 0.0 < rate <= 1.0
    ensures IsLeast(RequiredPasses(trials, rate), trials, rate)
  {
    var least := RequiredPasses(trials, rate);
    forall passes: nat | passes <= trials ensures passes >= least <==> Share(passes, trials) >= rate {
      RequiredPassesIsLeast(trials, rate, passes);
    }
    RequiredPassesIsLeast(trials, rate, trials);
    WholeShare(trials as real);
  }

  lemma WholeShare(x: real)
    requires x > 0.0
    ensures x / x == 1.0
  {
  }

  lemma LeastOnce(a: nat, b: nat, trials: nat, rate: real)
    requires trials > 0 && IsLeast(a, trials, rate) && IsLeast(b, trials, rate)
    ensures a == b
  {
    assert Share(a, trials) >= rate && Share(b, trials) >= rate;
  }

  lemma UnchangedBudgets(e: Evidence)
    ensures !IsDiagnostic(e) <==>
            && !e.diagnostic
            && (e.controls.Some? ==>
                  forall i | 0 <= i < |e.controls.value| ::
                    e.controls.value[i].timeoutScale == 1.0 && e.controls.value[i].maxOutputTokens == None)
  {
    if e.controls.Some? {
      var list := e.controls.value;
      if !AnyDiagnostic(list) {
        forall i | 0 <= i < |list| ensures list[i].timeoutScale == 1.0 && list[i].maxOutputTokens == None {
          assert !DiagnosticControls(list[i]);
        }
      }
    }
  }

  lemma NumbersExactly(e: Evidence)
    ensures NumbersValid(e) <==>
            && 1 <= e.trials <= 100 && 0.0 < e.minPassRate <= 1.0
            && IsLeast(e.requiredPasses, e.trials, e.minPassRate)
            && (forall i, j | 0 <= i < j < |e.qualifiedLevels| :: e.qualifiedLevels[i] != e.qualifiedLevels[j])
            && (forall i | 0 <= i < |e.qualifiedLevels| :: e.qualifiedLevels[i] <= 6)
  {
    if 1 <= e.trials <= 100 && 0.0 < e.minPassRate <= 1.0 {
      RequiredIsLeast(e.trials, e.minPassRate);
      if IsLeast(e.requiredPasses, e.trials, e.minPassRate) {
        LeastOnce(e.requiredPasses, RequiredPasses(e.trials, e.minPassRate), e.trials, e.minPassRate);
      }
    }
  }

  lemma LevelExactly(e: Evidence)
    ensures e.measuredLevel == LongestPrefix(e.qualifiedLevels) <==> EndsRun(e.qualifiedLevels, e.measuredLevel)
  {
    PrefixFromExactly(e.qualifiedLevels, 0);
    if EndsRun(e.qualifiedLevels, e.measuredLevel) {
      EndsRunOnce(e.qualifiedLevels, e.measuredLevel, LongestPrefix(e.qualifiedLevels));
    }
  }

  /** Evidence is published exactly when it is credible. */
  lemma PublishesExactly(e: Evidence)
    ensures Publishes(e) <==> Credible(e)
  {
    UnchangedBudgets(e);
    NumbersExactly(e);
    LevelExactly(e);
  }

  ghost function Apply(m: map<Key, Profile>, op: Operation): map<Key, Profile> {
    match op
    case WriteProfile(record) => m[KeyOf(record) := record]
    case WriteRing(model, protocol, paramsB, ring) =>
      m[(model, protocol) := RingRecord(Lookup(m, (model, protocol)), model, protocol, paramsB, ring)]
    case Publish(model, protocol, paramsB, evidence) =>
      if Publishes(evidence) then m[(model, protocol) := PublishedRecord(model, protocol, paramsB, evidence)] else m
  }

  ghost function ApplyAll(m: map<Key, Profile>, ops: seq<Operation>): map<Key, Profile> {
    if ops == [] then m else Apply(ApplyAll(m, ops[..|ops| - 1]), ops[|ops| - 1])
  }

  /** Stored under their own keys. */
  ghost predicate WellKeyed(m: map<Key, Profile>) {
    forall k | k in m :: KeyOf(m[k]) == k
  }

  lemma AsMapWellKeyed(records: seq<Profile>)
    ensures WellKeyed(AsMap(records))
  {
    forall k | k in AsMap(records) ensures KeyOf(AsMap(records)[k]) == k {
      FindExactly(records, k);
    }
  }

  // ----- the store itself --------------------------------------------------------------------

  datatype Publication = Diagnostic | Ineligible | Published(record: Profile)

  class Store {
    /** The parsed file; `None` when it is absent or unreadable. */
    var disk: Option<seq<Profile>>

    ghost function Contents(): map<Key, Profile>
      reads this
    {
      AsMap(if disk.Some? then disk.value else [])
    }

    method ReadProfile(model: string, protocol: string) returns (found: Option<Profile>)
      ensures found == Lookup(Contents(), (model, protocol))
    {
      AsMapFinds(if disk.Some? then disk.value else [], (model, protocol));
      found := if disk.Some? then Find(disk.value, (model, protocol)) else None;
    }

    method Write(record: Profile)
      modifies this
      ensures Contents() == Apply(old(Contents()), WriteProfile(record))
      ensures Lookup(Contents(), (record.model, record.protocol)) == Some(record)
      ensures forall key: Key | key != (record.model, record.protocol) ::
                Lookup(Contents(), key) == Lookup(old(Contents()), key)
    {
      var records := if disk.Some? then disk.value else [];
      WriteIsUpdate(records, record);
      disk := Some(Retained(records, KeyOf(record)) + [record]);
    }

    method WriteCalibratedRing(model: string, protocol: string, paramsB: real, ring: u8)
      modifies this
      ensures Contents() == Apply(old(Contents()), WriteRing(model, protocol, paramsB, ring))
      ensures var key := (model, protocol);
              && Lookup(Contents(), key).Some?
              && HasRing(Lookup(Contents(), key).value, Lookup(old(Contents()), key), key, paramsB, ring)
    {
      var existing := ReadProfile(model, protocol);
      AsMapWellKeyed(if disk.Some? then disk.value else []);
      var record := RingRecord(existing, model, protocol, paramsB, ring);
      assert KeyOf(record) == (model, protocol);
      Write(record);
    }

    method PublishCalibration(model: string, protocol: string, paramsB: real, evidence: Evidence)
      returns (outcome: Publication)
      modifies this
      ensures Contents() == Apply(old(Contents()), Publish(model, protocol, paramsB, evidence))
      ensures outcome.Published? <==> Publishes(evidence)
      ensures !outcome.Published? ==> disk == old(disk)
      ensures outcome.Diagnostic? <==> IsDiagnostic(evidence)
      ensures outcome.Published? <==> Credible(evidence)
      ensures outcome.Published? ==>
                && Lookup(Contents(), (model, protocol)) == Some(outcome.record)
                && IsPublished(outcome.record, model, protocol, paramsB, evidence)
    {
      PublishesExactly(evidence);
      if IsDiagnostic(evidence) {
        return Publication.Diagnostic;
      }
      if Calibrate(evidence).None? {
        return Ineligible;
      }
      var record := PublishedRecord(model, protocol, paramsB, evidence);
      PublishedRecordSays(model, protocol, paramsB, evidence);
      Write(record);
      return Published(record);
    }

    /** Any history of calls refines the same history on the map. */
    method Replay(ops: seq<Operation>)
      modifies this
      ensures Contents() == ApplyAll(old(Contents()), ops)
    {
      for n := 0 to |ops|
        invariant Contents() == ApplyAll(old(Contents()), ops[..n])
      {
        assert ops[..n + 1][..n] == ops[..n];
        match ops[n] {
          case WriteProfile(record) => Write(record);
          case WriteRing(model, protocol, paramsB, ring) => WriteCalibratedRing(model, protocol, paramsB, ring);
          case Publish(model, protocol, paramsB, evidence) =>
            var _ := PublishCalibration(model, protocol, paramsB, evidence);
        }
      }
      assert ops[..|ops|] == ops;
    }
  }

  // ----- what every history guarantees --------------------------------------------------------

  predicate Touches(op: Operation, key: Key) {
    match op
    case WriteProfile(record) => KeyOf(record) == key
    case WriteRing(model, protocol, _, _) => (model, protocol) == key
    case Publish(model, protocol, _, evidence) => (model, protocol) == key && Publishes(evidence)
  }

  /** A read returns what the last touching operation left; operations on other
      keys never show. */
  lemma {:induction false} LastTouchWins(m: map<Key, Profile>, op: Operation, later: seq<Operation>, key: Key)
    requires forall i | 0 <= i < |later| :: !Touches(later[i], key)
    ensures Lookup(ApplyAll(m, [op] + later), key) == Lookup(Apply(m, op), key)
    ensures !Touches(op, key) ==> Lookup(ApplyAll(m, [op] + later), key) == Lookup(m, key)
  {
    var ops := [op] + later;
    if later == [] {
      assert ops[..0] == [];
    } else {
      var n := |later| - 1;
      LastTouchWins(m, op, later[..n], key);
      assert ops[..|ops| - 1] == [op] + later[..n];
      assert !Touches(later[n], key);
    }
  }

  lemma PublishedIsRead(
    m: map<Key, Profile>, e: Evidence, model: string, protocol: string, paramsB: real)
    requires Publishes(e)
    ensures var found := Lookup(Apply(m, Publish(model, protocol, paramsB, e)), (model, protocol));
            && found.Some? && IsPublished(found.value, model, protocol, paramsB, e)
            && found.value.measuredLevel == Calibrate(e).value
  {
    PublishedRecordSays(model, protocol, paramsB, e);
  }

  /** The level the rows of a results file earned. */
  ghost predicate IsEarnedLevel(spec: LadderSpec, rows: seq<LadderRow>, level: Option<u8>)
    requires spec.trials > 0
  {
    match level
    case None => !Earned(spec, rows, 0)
    case Some(top) => top <= 6 && (forall l: u8 | l <= top :: Earned(spec, rows, l)) && !Earned(spec, rows, top + 1)
  }

  /** From the results file to the reader: when a summary is published, a read of
      its key finds a record whose level is the one the rows earned. */
  lemma PublishedLevelIsRead(
    m: map<Key, Profile>, spec: LadderSpec, rows: seq<LadderRow>, issues: seq<string>,
    model: string, protocol: string, paramsB: real)
    requires SpecValid(spec) && |Ladder.RunRows(spec.runId, rows)| <= Machine.U32_MAX
    requires Publishes(Summarize(spec, rows, issues))
    ensures var found := Lookup(Apply(m, Publish(model, protocol, paramsB, Summarize(spec, rows, issues))),
                                (model, protocol));
            found.Some? && IsEarnedLevel(spec, rows, found.value.measuredLevel)
  {
    PublishedIsRead(m, Summarize(spec, rows, issues), model, protocol, paramsB);
    SummaryLevelEarned(spec, rows, issues);
  }

  lemma SummaryLevelEarned(spec: LadderSpec, rows: seq<LadderRow>, issues: seq<string>)
    requires SpecValid(spec) && |Ladder.RunRows(spec.runId, rows)| <= Machine.U32_MAX
    requires Calibrate(Summarize(spec, rows, issues)).Some?
    ensures IsEarnedLevel(spec, rows, Calibrate(Summarize(spec, rows, issues)).value)
  {
    PublishedLevelMeans(spec, rows, issues);
  }

  predicate IsRing(op: Operation) {
    op.WriteRing?
  }

  /** Ring writes, however many and on whatever keys, never change a measured
      level or its evidence. */
  lemma {:induction false} RingsKeepLevels(m: map<Key, Profile>, ops: seq<Operation>, key: Key)
    requires forall i | 0 <= i < |ops| :: IsRing(ops[i])
    requires key in m
    ensures var after := ApplyAll(m, ops);
            key in after && after[key].measuredLevel == m[key].measuredLevel && after[key].evidence == m[key].evidence
  {
    if ops != [] {
      RingsKeepLevels(m, ops[..|ops| - 1], key);
      assert IsRing(ops[|ops| - 1]);
    }
  }

  /** Evidence after a sequence of recordings. */
  function RecordAll(e: Evidence, batches: seq<seq<Controls>>): Evidence {
    if batches == [] then e else RecordControls(RecordAll(e, batches[..|batches| - 1]), batches[|batches| - 1])
  }

  lemma {:induction false} DiagnosisNeverForgotten(e: Evidence, batches: seq<seq<Controls>>)
    ensures IsDiagnostic(RecordAll(e, batches))
            <==> IsDiagnostic(e) || exists i | 0 <= i < |batches| :: AnyDiagnostic(batches[i])
  {
    if batches != [] {
      var n := |batches| - 1;
      DiagnosisNeverForgotten(e, batches[..n]);
      RecordControlsSticky(RecordAll(e, batches[..n]), batches[n]);
      assert forall i | 0 <= i < n :: batches[..n][i] == batches[i];
    }
  }

  /** Evidence that ever recorded a modified budget never changes the store,
      whatever is recorded afterwards. */
  lemma DiagnosticNeverPublishes(m: map<Key, Profile>, e: Evidence, batches: seq<seq<Controls>>, k: nat,
                                 model: string, protocol: string, paramsB: real)
    requires k < |batches| && AnyDiagnostic(batches[k])
    ensures Apply(m, Publish(model, protocol, paramsB, RecordAll(e, batches))) == m
  {
    DiagnosisNeverForgotten(e, batches);
  }
}
