/** The schedule meets the summary: a paired schedule whose every episode leaves
    its row fills the matrix the summary expects and pairs it up. */
module ScheduledRuns {
  import opened Wrappers
  import opened Counting
  import opened Machine
  import opened Corpus
  import opened EvidenceRows
  import opened PairedSummary
  import opened PairedRuns
  import opened Schedule
  import Provenance

  const CONTROL := Coordinate(Control, Legacy)

  const CANDIDATE := Coordinate(Candidate, Evidence)

  function Labels(variants: seq<Variant>): (r: seq<string>)
    ensures |r| == |variants|
  {
    seq(|variants|, i requires 0 <= i < |variants| => VariantLabel(variants[i]))
  }

  /** The summary is asked for the matrix the schedule runs. */
  predicate Asks(spec: RunSpec, plan: Plan) {
    && spec.trials == plan.trials > 0
    && spec.tasks == plan.tasks
    && spec.variants == Labels(plan.variants)
    && spec.coordinates == [CONTROL, CANDIDATE]
  }

  predicate SoundPlan(plan: Plan) {
    plan.paired && Runnable(plan) && NamesDistinct(plan)
  }

  function Slots(plan: Plan): seq<Slot>
    requires Runnable(plan)
  {
    TrialsUpTo(plan, plan.trials)
  }

  /** Every scheduled episode left its row. */
  ghost predicate AllStamped(plan: Plan, slots: seq<Slot>, rows: seq<Row>) {
    |rows| == |slots| && forall i | 0 <= i < |slots| :: Stamped(rows[i], plan, slots[i])
  }

  // ----- visits and slots ---------------------------------------------------------------------

  lemma {:induction false} VisitFound(slots: seq<Slot>, t: nat, v: nat, n: nat, c: nat)
    requires Visits(slots, t, v, n, c) > 0
    ensures exists i | 0 <= i < |slots| :: IsVisit(slots[i], t, v, n, c)
  {
    if !IsVisit(slots[0], t, v, n, c) {
      VisitFound(slots[1..], t, v, n, c);
      var i :| 0 <= i < |slots| - 1 && IsVisit(slots[1..][i], t, v, n, c);
      assert IsVisit(slots[i + 1], t, v, n, c);
    }
  }

  lemma {:induction false} SlotCounts(slots: seq<Slot>, i: nat)
    requires i < |slots|
    ensures Visits(slots, slots[i].task, slots[i].variant, slots[i].trial, slots[i].coordinate) > 0
  {
    if i > 0 {
      SlotCounts(slots[1..], i - 1);
    }
  }

  lemma SlotWithinTrials(plan: Plan, i: nat)
    requires SoundPlan(plan) && i < |Slots(plan)|
    ensures Labelled(plan, Slots(plan)[i]) && 1 <= Slots(plan)[i].trial <= plan.trials
  {
    var slot := Slots(plan)[i];
    ScheduleLabelled(plan, plan.trials);
    assert Labelled(plan, slot);
    SlotCounts(Slots(plan), i);
    VisitedExactlyOnce(plan, plan.trials, slot.task, slot.variant, slot.trial, slot.coordinate);
  }

  // ----- the keys -------------------------------------------------------------------------------

  function KeyAt(plan: Plan, t: nat, v: nat, n: nat, c: nat): Key
    requires t < |plan.tasks| && v < |plan.variants|
  {
    (((plan.tasks[t], VariantLabel(plan.variants[v])), n), if c == 0 then CONTROL else CANDIDATE)
  }

  lemma StampedKey(plan: Plan, slot: Slot, row: Row, t: nat, v: nat, n: nat, c: nat)
    requires NamesDistinct(plan) && Labelled(plan, slot) && Stamped(row, plan, slot)
    requires t < |plan.tasks| && v < |plan.variants| && c < 2
    ensures KeyOf(row) == KeyAt(plan, t, v, n, c) <==> IsVisit(slot, t, v, n, c)
  {
    if KeyOf(row) == KeyAt(plan, t, v, n, c) {
      LabelsDiffer(plan.variants[slot.variant], plan.variants[v]);
    }
  }

  lemma KeysSnoc(rows: seq<Row>, key: Key)
    requires rows != []
    ensures
      var k := |rows| - 1;
      multiset(KeysOf(rows))[key] == multiset(KeysOf(rows[..k]))[key] + if KeyOf(rows[k]) == key then 1 else 0
  {
    var k := |rows| - 1;
    assert KeysOf(rows) == KeysOf(rows[..k]) + [KeyOf(rows[k])];
  }

  lemma {:induction false} KeyMultiplicity(
    plan: Plan, slots: seq<Slot>, rows: seq<Row>, t: nat, v: nat, n: nat, c: nat)
    requires NamesDistinct(plan) && AllLabelled(plan, slots) && AllStamped(plan, slots, rows)
    requires t < |plan.tasks| && v < |plan.variants| && c < 2
    ensures multiset(KeysOf(rows))[KeyAt(plan, t, v, n, c)] == Visits(slots, t, v, n, c)
  {
    if slots != [] {
      var k := |slots| - 1;
      KeyMultiplicity(plan, slots[..k], rows[..k], t, v, n, c);
      KeysSnoc(rows, KeyAt(plan, t, v, n, c));
      VisitsExtend(slots, t, v, n, c);
      assert Stamped(rows[k], plan, slots[k]);
      StampedKey(plan, slots[k], rows[k], t, v, n, c);
    }
  }

  lemma KeyIsExpected(plan: Plan, spec: RunSpec, t: nat, v: nat, n: nat, c: nat)
    requires Asks(spec, plan) && t < |plan.tasks| && v < |plan.variants| && 1 <= n <= plan.trials && c < 2
    ensures KeyAt(plan, t, v, n, c) in ExpectedKeys(spec)
  {
    assert spec.tasks[t] == plan.tasks[t];
    assert spec.variants[v] == VariantLabel(plan.variants[v]);
    assert spec.coordinates[c] == if c == 0 then CONTROL else CANDIDATE;
  }

  lemma ExpectedKeyAt(plan: Plan, spec: RunSpec, key: Key) returns (t: nat, v: nat, n: nat, c: nat)
    requires Asks(spec, plan) && key in ExpectedKeys(spec)
    ensures t < |plan.tasks| && v < |plan.variants| && 1 <= n <= plan.trials && c < 2
    ensures key == KeyAt(plan, t, v, n, c)
  {
    var (((task, variant), trial), coordinate) := key;
    assert task in Elements(spec.tasks) && variant in Elements(spec.variants);
    assert trial in TrialNumbers(spec.trials) && coordinate in Elements(spec.coordinates);
    t :| 0 <= t < |plan.tasks| && plan.tasks[t] == task;
    v :| 0 <= v < |plan.variants| && spec.variants[v] == variant;
    n := trial;
    c :| 0 <= c < 2 && spec.coordinates[c] == coordinate;
  }

  /** The rows of a completed schedule carry every expected coordinate exactly
      once and no other. */
  lemma ScheduledKeys(plan: Plan, spec: RunSpec, rows: seq<Row>)
    requires SoundPlan(plan) && Asks(spec, plan) && AllStamped(plan, Slots(plan), rows)
    ensures multiset(KeysOf(rows)) == multiset(ExpectedKeys(spec))
  {
    var slots := Slots(plan);
    var keys := KeysOf(rows);
    ScheduleLabelled(plan, plan.trials);
    forall key: Key ensures multiset(keys)[key] == multiset(ExpectedKeys(spec))[key] {
      if key in ExpectedKeys(spec) {
        var t, v, n, c := ExpectedKeyAt(plan, spec, key);
        KeyMultiplicity(plan, slots, rows, t, v, n, c);
        VisitedExactlyOnce(plan, plan.trials, t, v, n, c);
      } else if key in keys {
        var i :| 0 <= i < |keys| && keys[i] == key;
        ScheduledKeyExpected(plan, spec, rows, i);
      }
    }
  }

  lemma ScheduledKeyExpected(plan: Plan, spec: RunSpec, rows: seq<Row>, i: nat)
    requires SoundPlan(plan) && Asks(spec, plan) && AllStamped(plan, Slots(plan), rows) && i < |rows|
    ensures KeysOf(rows)[i] in ExpectedKeys(spec)
  {
    var slot := Slots(plan)[i];
    SlotWithinTrials(plan, i);
    assert Stamped(rows[i], plan, slot);
    StampedKey(plan, slot, rows[i], slot.task, slot.variant, slot.trial, slot.coordinate);
    KeyIsExpected(plan, spec, slot.task, slot.variant, slot.trial, slot.coordinate);
  }

  // ----- the pairs ------------------------------------------------------------------------------

  /** The two rows of a cell ran under equal circumstances. */
  ghost predicate Comparable(rows: seq<Row>) {
    forall i, j | 0 <= i < |rows| && 0 <= j < |rows|
      && IsControl(rows[i]) && IsCandidate(rows[j]) && rows[i].evaluation.pairId == rows[j].evaluation.pairId ::
        CircumstancesAgree(rows[i].evaluation, rows[j].evaluation)
  }

  lemma {:induction false} GroupHolds(rows: seq<Row>, id: string, i: nat)
    requires i < |rows| && HasPairId(rows[i], id)
    ensures rows[i] in GroupOf(rows, id)
  {
    var n := |rows| - 1;
    if i < n {
      GroupHolds(rows[..n], id, i);
    }
  }

  lemma {:induction false} FindRowSucceeds(rows: seq<Row>, wanted: Row -> bool, row: Row)
    requires row in rows && wanted(row)
    ensures FindRow(rows, wanted).Some?
  {
    if !wanted(rows[0]) {
      FindRowSucceeds(rows[1..], wanted, row);
    }
  }

  /** The arm that runs at coordinate `c` left a row in the group of its cell. */
  lemma ArmInGroup(plan: Plan, rows: seq<Row>, t: nat, v: nat, n: nat, c: nat) returns (row: Row)
    requires SoundPlan(plan) && AllStamped(plan, Slots(plan), rows)
    requires t < |plan.tasks| && v < |plan.variants| && 1 <= n <= plan.trials && c < 2
    ensures row in GroupOf(rows, PairId(n, plan.tasks[t], VariantLabel(plan.variants[v])))
    ensures if c == 0 then IsControl(row) else IsCandidate(row)
  {
    var slots := Slots(plan);
    VisitedExactlyOnce(plan, plan.trials, t, v, n, c);
    VisitFound(slots, t, v, n, c);
    var i :| 0 <= i < |slots| && IsVisit(slots[i], t, v, n, c);
    SlotWithinTrials(plan, i);
    assert Stamped(rows[i], plan, slots[i]);
    GroupHolds(rows, PairId(n, plan.tasks[t], VariantLabel(plan.variants[v])), i);
    row := rows[i];
  }

  /** Every member of a cell's group came from a slot of that cell. */
  lemma MemberSlot(plan: Plan, rows: seq<Row>, row: Row, t: nat, v: nat, n: nat) returns (i: nat)
    requires SoundPlan(plan) && AllStamped(plan, Slots(plan), rows)
    requires t < |plan.tasks| && v < |plan.variants|
    requires row in GroupOf(rows, PairId(n, plan.tasks[t], VariantLabel(plan.variants[v])))
    ensures i < |rows| && rows[i] == row && Labelled(plan, Slots(plan)[i]) && Stamped(row, plan, Slots(plan)[i])
    ensures Slots(plan)[i].task == t && Slots(plan)[i].variant == v && Slots(plan)[i].trial == n
  {
    GroupWithin(rows, PairId(n, plan.tasks[t], VariantLabel(plan.variants[v])));
    i :| 0 <= i < |rows| && rows[i] == row;
    SlotWithinTrials(plan, i);
    assert Stamped(rows[i], plan, Slots(plan)[i]);
    SlotOwnsId(plan, Slots(plan)[i], t, v, n);
  }

  lemma CellPairsUp(plan: Plan, rows: seq<Row>, t: nat, v: nat, n: nat)
    requires SoundPlan(plan) && AllStamped(plan, Slots(plan), rows) && Comparable(rows)
    requires t < |plan.tasks| && v < |plan.variants| && 1 <= n <= plan.trials
    ensures PairedRows(GroupOf(rows, PairId(n, plan.tasks[t], VariantLabel(plan.variants[v])))).Some?
  {
    var group := GroupOf(rows, PairId(n, plan.tasks[t], VariantLabel(plan.variants[v])));
    ScheduledGroupsAreWhole(plan, rows, t, v, n);
    var x := ArmInGroup(plan, rows, t, v, n, 0);
    var y := ArmInGroup(plan, rows, t, v, n, 1);
    FindRowSucceeds(group, IsControl, x);
    FindRowSucceeds(group, IsCandidate, y);
    FindRowFinds(group, IsControl);
    FindRowFinds(group, IsCandidate);
    var control, candidate := FindRow(group, IsControl).value, FindRow(group, IsCandidate).value;
    var i := MemberSlot(plan, rows, control, t, v, n);
    var j := MemberSlot(plan, rows, candidate, t, v, n);
    ScheduledPairAgrees(plan, Slots(plan)[i], Slots(plan)[j], control, candidate);
    assert CircumstancesAgree(rows[i].evaluation, rows[j].evaluation);
  }

  lemma ScheduledMetadata(plan: Plan, rows: seq<Row>)
    requires SoundPlan(plan) && AllStamped(plan, Slots(plan), rows) && Comparable(rows)
    ensures MetadataMatches(rows, 2)
  {
    var slots := Slots(plan);
    forall i | 0 <= i < |rows| ensures rows[i].evaluation.pairId.Some? {
      SlotWithinTrials(plan, i);
      assert Stamped(rows[i], plan, slots[i]);
    }
    forall id | id in PairIds(rows) ensures PairedRows(GroupOf(rows, id)).Some? {
      var i :| 0 <= i < |rows| && rows[i].evaluation.pairId == Some(id);
      SlotWithinTrials(plan, i);
      assert Stamped(rows[i], plan, slots[i]);
      CellPairsUp(plan, rows, slots[i].task, slots[i].variant, slots[i].trial);
    }
  }

  // ----- the summary ------------------------------------------------------------------------------

  lemma PlanDimensions(plan: Plan, spec: RunSpec)
    requires SoundPlan(plan) && Asks(spec, plan)
    ensures DimensionsUnique(spec)
  {
    DistinctExactly(spec.tasks);
    forall i, j | 0 <= i < j < |spec.variants| ensures spec.variants[i] != spec.variants[j] {
      if VariantLabel(plan.variants[i]) == VariantLabel(plan.variants[j]) {
        LabelsDiffer(plan.variants[i], plan.variants[j]);
      }
    }
    DistinctExactly(spec.variants);
    DistinctExactly(spec.coordinates);
  }

  /** A completed paired schedule meets every clause of completeness that counts
      or pairs rows: the number of rows, the set of coordinates, the metadata
      and the dimensions. */
  lemma ScheduledRunFillsMatrix(plan: Plan, spec: RunSpec, rows: seq<Row>)
    requires SoundPlan(plan) && Asks(spec, plan) && MatrixFits(spec)
    requires AllStamped(plan, Slots(plan), rows) && Comparable(rows)
    ensures AsU32(|rows|) == ExpectedRows(spec) && Elements(KeysOf(rows)) == ExpectedKeys(spec)
    ensures MetadataMatches(rows, AsU32(|spec.coordinates|)) && DimensionsUnique(spec)
  {
    ScheduledKeys(plan, spec, rows);
    PlanDimensions(plan, spec);
    FilledCounts(spec, rows);
    ScheduledMetadata(plan, rows);
    assert AsU32(|spec.coordinates|) == 2;
  }

  /** So the summary calls the run complete as soon as each row meets its own
      contract and the provenance is consistent. */
  lemma ScheduledRunComplete(plan: Plan, spec: RunSpec, rows: seq<Row>, serverOk: ServerCheck)
    requires SoundPlan(plan) && Asks(spec, plan) && MatrixFits(spec)
    requires AllStamped(plan, Slots(plan), rows) && Comparable(rows)
    requires RunRows(spec, rows) == rows && CategoriesAgree(spec) && Provenance.Consistent(rows)
    requires forall i | 0 <= i < |rows| :: RowContract(spec, rows[i], serverOk)
    ensures Complete(spec, rows, serverOk)
  {
    ScheduledRunFillsMatrix(plan, spec, rows);
  }
}
