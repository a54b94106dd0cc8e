/** What a complete, clean paired run guarantees, and what the paired
    statistics conserve whether or not the run is complete. */
module PairedRuns {
  import opened Wrappers
  import opened Counting
  import opened Machine
  import opened EvidenceRows
  import opened PairedSummary
  import opened Selecting
  import Ordering
  import Provenance
  import Corpus
  import Stops
  import Text

  ghost function TrialNumbers(n: nat): (trials: set<nat>)
    ensures forall t: nat :: t in trials <==> 1 <= t <= n
    ensures |trials| == n
  {
    if n == 0 then {} else TrialNumbers(n - 1) + {n}
  }

  // ----- the expected matrix ------------------------------------------------------------

  /** What the driver asked for. */
  datatype RunSpec = RunSpec(
    runId: string, suiteId: string, suiteSchemaVersion: nat, suiteSha256: string, trials: u32,
    tasks: seq<string>, categories: map<string, string>, variants: seq<string>,
    coordinates: seq<Coordinate>)

  /** Task, variant, trial and coordinate of a row. */
  type Key = (((string, string), nat), Coordinate)

  function KeyOf(row: Row): Key {
    (((row.taskId, row.variant), row.trial), Coordinate(row.arm, row.policy))
  }

  function KeysOf(rows: seq<Row>): seq<Key> {
    seq(|rows|, i requires 0 <= i < |rows| => KeyOf(rows[i]))
  }

  ghost function ExpectedKeys(spec: RunSpec): set<Key> {
    Product(Product(Product(Elements(spec.tasks), Elements(spec.variants)), TrialNumbers(spec.trials)),
            Elements(spec.coordinates))
  }

  function ExpectedRows(spec: RunSpec): nat {
    SatMul(SatMul(SatMul(spec.trials, AsU32(|spec.tasks|)), AsU32(|spec.variants|)), AsU32(|spec.coordinates|))
  }

  ghost predicate DimensionsUnique(spec: RunSpec) {
    && spec.trials > 0
    && spec.tasks != [] && spec.variants != [] && spec.coordinates != []
    && |Elements(spec.tasks)| == |spec.tasks|
    && |Elements(spec.variants)| == |spec.variants|
    && |Elements(spec.coordinates)| == |spec.coordinates|
  }

  /** The size of the matrix fits the 32-bit counters. */
  predicate MatrixFits(spec: RunSpec) {
    spec.trials * |spec.tasks| * |spec.variants| * |spec.coordinates| <= U32_MAX
  }

  /** Multiplying by a length that fits neither truncates nor saturates. */
  lemma ExactFactor(a: nat, length: nat)
    requires a >= 1 && a * length <= U32_MAX
    ensures SatMul(a, AsU32(length)) == a * length
  {
    Grows(length, a);
  }

  lemma Grows(a: nat, b: nat)
    requires b >= 1
    ensures a <= a * b && a * b == b * a
  {
  }

  lemma NoSaturation(n: u32, t: nat, v: nat, c: nat)
    requires n >= 1 && t >= 1 && v >= 1 && c >= 1
    requires n * t * v * c <= U32_MAX
    ensures SatMul(SatMul(n, AsU32(t)), AsU32(v)) == n * t * v
    ensures SatMul(SatMul(SatMul(n, AsU32(t)), AsU32(v)), AsU32(c)) == n * t * v * c
  {
    var nt := n * t;
    var ntv := nt * v;
    Grows(ntv, c);
    Grows(nt, v);
    ExactFactor(n, t);
    ExactFactor(nt, v);
    ExactFactor(ntv, c);
  }

  lemma KeysCounted(spec: RunSpec)
    ensures |ExpectedKeys(spec)| ==
            |Elements(spec.tasks)| * |Elements(spec.variants)| * spec.trials * |Elements(spec.coordinates)|
  {
    var tasks, variants := Elements(spec.tasks), Elements(spec.variants);
    ProductSize(tasks, variants);
    ProductSize(Product(tasks, variants), TrialNumbers(spec.trials));
    ProductSize(Product(Product(tasks, variants), TrialNumbers(spec.trials)), Elements(spec.coordinates));
  }

  lemma MatrixSize(spec: RunSpec)
    requires DimensionsUnique(spec) && MatrixFits(spec)
    ensures ExpectedRows(spec) == spec.trials * |spec.tasks| * |spec.variants| * |spec.coordinates|
    ensures |ExpectedKeys(spec)| == ExpectedRows(spec)
  {
    var n, t, v, c := spec.trials, |spec.tasks|, |spec.variants|, |spec.coordinates|;
    NoSaturation(n, t, v, c);
    KeysCounted(spec);
    Reorder(n, t, v, c);
  }

  lemma Reorder(n: nat, t: nat, v: nat, c: nat)
    ensures t * v * n * c == n * t * v * c
  {
    assert t * v * n == n * t * v;
  }

  /** Counting rows and comparing coordinate sets is the same as every expected
      coordinate occurring exactly once and no other occurring. */
  lemma MatrixFilledExactly(spec: RunSpec, rows: seq<Row>)
    requires DimensionsUnique(spec) && MatrixFits(spec) && |rows| <= U32_MAX
    ensures AsU32(|rows|) == ExpectedRows(spec) && Elements(KeysOf(rows)) == ExpectedKeys(spec)
            <==> multiset(KeysOf(rows)) == multiset(ExpectedKeys(spec))
  {
    MatrixSize(spec);
    ElementsSize(KeysOf(rows));
    var keys := KeysOf(rows);
    if multiset(keys) == multiset(ExpectedKeys(spec)) {
      assert |multiset(keys)| == |keys| == |ExpectedKeys(spec)|;
      forall k ensures k in Elements(keys) <==> k in ExpectedKeys(spec) {
        assert k in Elements(keys) <==> k in keys;
        assert k in keys <==> k in multiset(keys);
      }
      assert Elements(keys) == ExpectedKeys(spec);
    }
  }

  // ----- groups partition the rows -------------------------------------------------------

  function GroupsOf(rows: seq<Row>, ids: seq<string>): seq<Row> {
    if ids == [] then [] else GroupsOf(rows, ids[..|ids| - 1]) + GroupOf(rows, ids[|ids| - 1])
  }

  function WithIdIn(rows: seq<Row>, ids: set<string>): seq<Row> {
    if rows == [] then []
    else
      var last := rows[|rows| - 1];
      WithIdIn(rows[..|rows| - 1], ids)
      + if last.evaluation.pairId.Some? && last.evaluation.pairId.value in ids then [last] else []
  }

  lemma {:induction false} OneMoreId(rows: seq<Row>, ids: set<string>, id: string)
    requires id !in ids
    ensures multiset(WithIdIn(rows, ids + {id})) == multiset(WithIdIn(rows, ids)) + multiset(GroupOf(rows, id))
  {
    if rows != [] {
      OneMoreId(rows[..|rows| - 1], ids, id);
    }
  }

  lemma {:induction false} GroupsPartition(rows: seq<Row>, ids: seq<string>)
    requires Distinct(ids)
    ensures multiset(GroupsOf(rows, ids)) == multiset(WithIdIn(rows, Elements(ids)))
  {
    if ids == [] {
      NoIdsNoRows(rows);
      assert Elements(ids) == {};
    } else {
      var n := |ids| - 1;
      GroupsPartition(rows, ids[..n]);
      assert Elements(ids) == Elements(ids[..n]) + {ids[n]};
      assert ids[n] !in Elements(ids[..n]);
      OneMoreId(rows, Elements(ids[..n]), ids[n]);
    }
  }

  lemma {:induction false} NoIdsNoRows(rows: seq<Row>)
    ensures WithIdIn(rows, {}) == []
  {
    if rows != [] {
      NoIdsNoRows(rows[..|rows| - 1]);
    }
  }

  lemma {:induction false} AllIdsAllRows(rows: seq<Row>, ids: set<string>)
    requires forall i | 0 <= i < |rows| ::
               rows[i].evaluation.pairId.Some? && rows[i].evaluation.pairId.value in ids
    ensures WithIdIn(rows, ids) == rows
  {
    if rows != [] {
      var n := |rows| - 1;
      AllIdsAllRows(rows[..n], ids);
      assert rows == rows[..n] + [rows[n]];
    }
  }

  lemma {:induction false} GroupWithin(rows: seq<Row>, id: string)
    ensures forall i | 0 <= i < |GroupOf(rows, id)| ::
              GroupOf(rows, id)[i] in rows && HasPairId(GroupOf(rows, id)[i], id)
  {
    if rows != [] {
      var n := |rows| - 1;
      GroupWithin(rows[..n], id);
      assert rows == rows[..n] + [rows[n]];
    }
  }

  // ----- facts about every eligible pair ---------------------------------------------------

  function Flatten(pairs: seq<Pair>): seq<Row> {
    if pairs == [] then []
    else Flatten(pairs[..|pairs| - 1]) + [pairs[|pairs| - 1].control, pairs[|pairs| - 1].candidate]
  }

  ghost predicate SoundPair(pair: Pair, rows: seq<Row>, serverOk: ServerCheck) {
    && pair.control in rows && pair.candidate in rows
    && IsControl(pair.control) && IsCandidate(pair.candidate)
    && LabelsAgree(pair.control, pair.candidate)
    && PairScoreable(pair, serverOk)
  }

  ghost function IdOf(pair: Pair): Option<string> {
    pair.control.evaluation.pairId
  }

  lemma EligibleInSound(rows: seq<Row>, id: string, serverOk: ServerCheck)
    ensures var found := EligibleIn(GroupOf(rows, id), serverOk);
            |found| <= 1 && (|found| == 1 ==> SoundPair(found[0], rows, serverOk) && IdOf(found[0]) == Some(id))
  {
    var group := GroupOf(rows, id);
    if EligibleIn(group, serverOk) != [] {
      var pair := PairedRows(group).value;
      PairedRowsUsesGroup(group);
      GroupWithin(rows, id);
      assert pair.control in multiset(group) && pair.candidate in multiset(group);
      assert pair.control in group && pair.candidate in group;
    }
  }

  ghost predicate AllSound(pairs: seq<Pair>, rows: seq<Row>, serverOk: ServerCheck) {
    forall k | 0 <= k < |pairs| :: SoundPair(pairs[k], rows, serverOk)
  }

  ghost predicate IdsAmong(pairs: seq<Pair>, ids: seq<string>) {
    forall k | 0 <= k < |pairs| :: IdOf(pairs[k]).Some? && IdOf(pairs[k]).value in ids
  }

  ghost predicate IdsDiffer(pairs: seq<Pair>) {
    forall j, k | 0 <= j < k < |pairs| :: IdOf(pairs[j]) != IdOf(pairs[k])
  }

  lemma AppendSound(
    pairs: seq<Pair>, found: seq<Pair>, rows: seq<Row>, ids: seq<string>, id: string, serverOk: ServerCheck)
    requires AllSound(pairs, rows, serverOk) && IdsAmong(pairs, ids) && IdsDiffer(pairs) && id !in ids
    requires |found| <= 1
    requires |found| == 1 ==> SoundPair(found[0], rows, serverOk) && IdOf(found[0]) == Some(id)
    ensures AllSound(pairs + found, rows, serverOk)
    ensures IdsAmong(pairs + found, ids + [id]) && IdsDiffer(pairs + found)
  {
    var all := pairs + found;
    forall k | 0 <= k < |all|
      ensures SoundPair(all[k], rows, serverOk)
      ensures IdOf(all[k]).Some? && IdOf(all[k]).value in ids + [id]
      ensures k < |pairs| ==> IdOf(all[k]).value in ids
      ensures k >= |pairs| ==> IdOf(all[k]).value == id
    {
      assert all[k] == if k < |pairs| then pairs[k] else found[0];
    }
    forall j, k | 0 <= j < k < |all| ensures IdOf(all[j]) != IdOf(all[k]) {
      if k < |pairs| {
        assert IdOf(pairs[j]) != IdOf(pairs[k]);
      }
    }
  }

  /** Eligible pairs are sound, and no two of them carry the same id. */
  lemma {:induction false} EligibleSound(rows: seq<Row>, ids: seq<string>, serverOk: ServerCheck)
    requires Distinct(ids)
    ensures AllSound(EligibleAmong(rows, ids, serverOk), rows, serverOk)
    ensures IdsAmong(EligibleAmong(rows, ids, serverOk), ids)
    ensures IdsDiffer(EligibleAmong(rows, ids, serverOk))
  {
    if ids != [] {
      var n := |ids| - 1;
      EligibleSound(rows, ids[..n], serverOk);
      EligibleInSound(rows, ids[n], serverOk);
      assert ids == ids[..n] + [ids[n]] && ids[n] !in ids[..n];
      var pairs, found := EligibleAmong(rows, ids[..n], serverOk), EligibleIn(GroupOf(rows, ids[n]), serverOk);
      assert EligibleAmong(rows, ids, serverOk) == pairs + found;
      AppendSound(pairs, found, rows, ids[..n], ids[n], serverOk);
    }
  }

  lemma PairsSound(rows: seq<Row>, serverOk: ServerCheck)
    ensures AllSound(EligiblePairs(rows, serverOk), rows, serverOk)
    ensures IdsDiffer(EligiblePairs(rows, serverOk))
  {
    var ids := Ordering.Sorted(PairIds(rows));
    Ordering.AscendingDistinct(ids);
    EligibleSound(rows, ids, serverOk);
  }

  lemma SoundPairsDiffer(pairs: seq<Pair>, rows: seq<Row>, serverOk: ServerCheck)
    requires AllSound(pairs, rows, serverOk) && IdsDiffer(pairs)
    ensures forall j, k | 0 <= j < k < |pairs| :: !SameCell(pairs[j], pairs[k])
  {
    forall j, k | 0 <= j < k < |pairs| ensures !SameCell(pairs[j], pairs[k]) {
      assert IdOf(pairs[j]) != IdOf(pairs[k]);
      assert SoundPair(pairs[j], rows, serverOk) && SoundPair(pairs[k], rows, serverOk);
    }
  }

  /** For every row set: eligible pairs are sound, and no two of them share
      task, variant and trial, so no outcome can overwrite another's. */
  lemma EligiblePairsDistinct(rows: seq<Row>, serverOk: ServerCheck)
    ensures AllSound(EligiblePairs(rows, serverOk), rows, serverOk)
    ensures forall pair | pair in EligiblePairs(rows, serverOk) :: FairPair(pair.control, pair.candidate)
    ensures var pairs := EligiblePairs(rows, serverOk);
            forall j, k | 0 <= j < k < |pairs| :: !SameCell(pairs[j], pairs[k])
  {
    PairsSound(rows, serverOk);
    SoundPairsDiffer(EligiblePairs(rows, serverOk), rows, serverOk);
    AllFair(rows, serverOk);
  }

  lemma AllFair(rows: seq<Row>, serverOk: ServerCheck)
    ensures forall pair | pair in EligiblePairs(rows, serverOk) :: FairPair(pair.control, pair.candidate)
  {
    forall pair | pair in EligiblePairs(rows, serverOk) ensures FairPair(pair.control, pair.candidate) {
      EligibleExactly(rows, serverOk, pair);
    }
  }

  ghost predicate SameCell(p: Pair, q: Pair) {
    && p.candidate.taskId == q.candidate.taskId
    && p.candidate.variant == q.candidate.variant
    && p.candidate.trial == q.candidate.trial
  }

  // ----- completeness --------------------------------------------------------------------------

  function RunRows(spec: RunSpec, rows: seq<Row>): seq<Row> {
    if rows == [] then []
    else
      var last := rows[|rows| - 1];
      RunRows(spec, rows[..|rows| - 1]) + if last.runId == spec.runId then [last] else []
  }

  predicate SchemaAgrees(spec: RunSpec, row: Row) {
    if row.schemaVersion == SCHEMA_VERSION then
      && row.evaluation.arm == row.arm
      && row.evaluation.policy == row.policy
      && row.evaluation.binarySha256 == row.provenance.binary.sha256
      && row.evaluation.corpusSha256 == Some(spec.suiteSha256)
      && row.evaluation.modelSha256 == row.provenance.model.sha256
      && row.evaluation.temperature == Some("0.0")
    else
      && row.schemaVersion == 1
      && AsU32(|spec.coordinates|) == 1
      && row.arm == Single && row.policy == Legacy
      && row.evaluation == NO_EVALUATION
  }

  predicate RowContract(spec: RunSpec, row: Row, serverOk: ServerCheck) {
    && SchemaAgrees(spec, row)
    && row.suiteId == spec.suiteId
    && row.suiteSchemaVersion == spec.suiteSchemaVersion
    && row.suiteSha256 == spec.suiteSha256
    && row.taskId in spec.categories && spec.categories[row.taskId] == row.category
    && row.provenance.variant == row.variant
    && (StrictCoordinate(row) ==> StrictRow(row, serverOk))
  }

  ghost predicate CategoriesAgree(spec: RunSpec) {
    |spec.categories| == |Elements(spec.tasks)| && spec.categories.Keys <= Elements(spec.tasks)
  }

  predicate MetadataMatches(rows: seq<Row>, coordinateCount: nat) {
    if coordinateCount == 1 then
      forall i | 0 <= i < |rows| ::
        && rows[i].evaluation.pairId.None?
        && rows[i].evaluation.pairSlot.None?
        && rows[i].evaluation.pairOrder.None?
    else
      && coordinateCount == 2
      && (forall i | 0 <= i < |rows| :: rows[i].evaluation.pairId.Some?)
      && (forall id | id in PairIds(rows) :: PairedRows(GroupOf(rows, id)).Some?)
  }

  ghost predicate Complete(spec: RunSpec, rows: seq<Row>, serverOk: ServerCheck) {
    var run := RunRows(spec, rows);
    && AsU32(|run|) == ExpectedRows(spec)
    && Elements(KeysOf(run)) == ExpectedKeys(spec)
    && CategoriesAgree(spec)
    && (forall i | 0 <= i < |run| :: RowContract(spec, run[i], serverOk))
    && Provenance.Consistent(run)
    && MetadataMatches(run, AsU32(|spec.coordinates|))
    && DimensionsUnique(spec)
  }

  ghost predicate Clean(spec: RunSpec, rows: seq<Row>, issues: seq<string>, serverOk: ServerCheck) {
    issues == [] && forall i | 0 <= i < |RunRows(spec, rows)| :: Scoreable(RunRows(spec, rows)[i], serverOk)
  }

  /** `summarize_paired_objective` is told to expect this many pairs. */
  ghost function ExpectedPairs(spec: RunSpec): nat {
    SatMul(SatMul(spec.trials, AsU32(|Elements(spec.tasks)|)), AsU32(|Elements(spec.variants)|))
  }

  /** If every group pairs up and every row is scoreable, the pairs use up the
      groups: one pair per id, and the same rows. */
  lemma {:induction false} PairsUseUpGroups(rows: seq<Row>, ids: seq<string>, serverOk: ServerCheck)
    requires forall i | 0 <= i < |rows| :: Scoreable(rows[i], serverOk)
    requires forall k | 0 <= k < |ids| :: PairedRows(GroupOf(rows, ids[k])).Some?
    ensures |EligibleAmong(rows, ids, serverOk)| == |ids|
    ensures |GroupsOf(rows, ids)| == 2 * |ids|
    ensures multiset(Flatten(EligibleAmong(rows, ids, serverOk))) == multiset(GroupsOf(rows, ids))
  {
    if ids != [] {
      var n := |ids| - 1;
      PairsUseUpGroups(rows, ids[..n], serverOk);
      OnePairPerGroup(rows, ids[n], serverOk);
      var before := EligibleAmong(rows, ids[..n], serverOk);
      var pair := PairedRows(GroupOf(rows, ids[n])).value;
      assert EligibleAmong(rows, ids, serverOk) == before + [pair];
      assert (before + [pair])[..|before|] == before;
    }
  }

  lemma OnePairPerGroup(rows: seq<Row>, id: string, serverOk: ServerCheck)
    requires forall i | 0 <= i < |rows| :: Scoreable(rows[i], serverOk)
    requires PairedRows(GroupOf(rows, id)).Some?
    ensures var pair := PairedRows(GroupOf(rows, id)).value;
            && EligibleIn(GroupOf(rows, id), serverOk) == [pair]
            && multiset([pair.control, pair.candidate]) == multiset(GroupOf(rows, id))
            && |GroupOf(rows, id)| == 2
  {
    var group := GroupOf(rows, id);
    var pair := PairedRows(group).value;
    PairedRowsUsesGroup(group);
    GroupWithin(rows, id);
    assert pair.control in multiset(group) && pair.candidate in multiset(group);
    assert pair.control in rows && pair.candidate in rows;
  }

  ghost predicate InPair(row: Row, pair: Pair) {
    row == pair.control || row == pair.candidate
  }

  /** The index of the only pair that holds the row. */
  ghost predicate OnlyIn(row: Row, pairs: seq<Pair>, k: nat) {
    && k < |pairs| && InPair(row, pairs[k])
    && forall j | 0 <= j < |pairs| && InPair(row, pairs[j]) :: j == k
  }

  ghost predicate Owned(row: Row, pairs: seq<Pair>) {
    exists k :: OnlyIn(row, pairs, k)
  }

  lemma {:induction false} FlattenHolds(pairs: seq<Pair>, row: Row)
    requires row in Flatten(pairs)
    ensures exists k | 0 <= k < |pairs| :: InPair(row, pairs[k])
  {
    var n := |pairs| - 1;
    if row in Flatten(pairs[..n]) {
      FlattenHolds(pairs[..n], row);
      var k :| 0 <= k < n && InPair(row, pairs[..n][k]);
      assert InPair(row, pairs[k]);
    } else {
      assert InPair(row, pairs[n]);
    }
  }

  lemma OwnedByOnePair(pairs: seq<Pair>, rows: seq<Row>, serverOk: ServerCheck, row: Row)
    requires AllSound(pairs, rows, serverOk) && IdsDiffer(pairs)
    requires row in Flatten(pairs)
    ensures Owned(row, pairs)
  {
    FlattenHolds(pairs, row);
    var k :| 0 <= k < |pairs| && InPair(row, pairs[k]);
    forall j | 0 <= j < |pairs| && InPair(row, pairs[j]) ensures j == k {
      assert SoundPair(pairs[j], rows, serverOk) && SoundPair(pairs[k], rows, serverOk);
      assert IdOf(pairs[j]) == row.evaluation.pairId == IdOf(pairs[k]);
    }
    assert OnlyIn(row, pairs, k);
  }

  /** With every row labelled, every group paired and every row scoreable, the
      pairs use up the run. */
  lemma PairingFor(run: seq<Row>, ids: seq<string>, serverOk: ServerCheck)
    requires Distinct(ids)
    requires forall i | 0 <= i < |run| :: LabelledBy(run[i], ids)
    requires forall i | 0 <= i < |run| :: Scoreable(run[i], serverOk)
    requires forall k | 0 <= k < |ids| :: PairedRows(GroupOf(run, ids[k])).Some?
    ensures multiset(Flatten(EligibleAmong(run, ids, serverOk))) == multiset(run)
    ensures |run| == 2 * |EligibleAmong(run, ids, serverOk)|
  {
    PairsUseUpGroups(run, ids, serverOk);
    GroupsPartition(run, ids);
    forall i | 0 <= i < |run|
      ensures run[i].evaluation.pairId.Some? && run[i].evaluation.pairId.value in Elements(ids)
    {
      assert LabelledBy(run[i], ids);
    }
    AllIdsAllRows(run, Elements(ids));
    assert |multiset(GroupsOf(run, ids))| == |multiset(run)|;
  }

  ghost predicate LabelledBy(row: Row, ids: seq<string>) {
    row.evaluation.pairId.Some? && row.evaluation.pairId.value in ids
  }

  lemma CleanPairing(run: seq<Row>, serverOk: ServerCheck)
    requires MetadataMatches(run, 2)
    requires forall i | 0 <= i < |run| :: Scoreable(run[i], serverOk)
    ensures multiset(Flatten(EligiblePairs(run, serverOk))) == multiset(run)
    ensures |run| == 2 * |EligiblePairs(run, serverOk)|
  {
    var ids := Ordering.Sorted(PairIds(run));
    Ordering.AscendingDistinct(ids);
    forall i | 0 <= i < |run| ensures LabelledBy(run[i], ids) {
      assert run[i].evaluation.pairId.value in PairIds(run);
    }
    forall k | 0 <= k < |ids| ensures PairedRows(GroupOf(run, ids[k])).Some? {
      assert ids[k] in PairIds(run);
    }
    PairingFor(run, ids, serverOk);
  }

  /** The pairs are a permutation of the run, row by row in exactly one pair. */
  ghost predicate ExactCover(run: seq<Row>, pairs: seq<Pair>) {
    && multiset(Flatten(pairs)) == multiset(run)
    && forall i | 0 <= i < |run| :: Owned(run[i], pairs)
  }

  lemma RowOwned(run: seq<Row>, pairs: seq<Pair>, serverOk: ServerCheck, i: nat)
    requires multiset(Flatten(pairs)) == multiset(run) && i < |run|
    requires AllSound(pairs, run, serverOk) && IdsDiffer(pairs)
    ensures Owned(run[i], pairs)
  {
    assert run[i] in multiset(run);
    OwnedByOnePair(pairs, run, serverOk, run[i]);
  }

  lemma RunOwned(run: seq<Row>, pairs: seq<Pair>, serverOk: ServerCheck)
    requires multiset(Flatten(pairs)) == multiset(run)
    requires AllSound(pairs, run, serverOk) && IdsDiffer(pairs)
    ensures ExactCover(run, pairs)
  {
    forall i | 0 <= i < |run| ensures Owned(run[i], pairs) {
      RowOwned(run, pairs, serverOk, i);
    }
  }

  lemma CleanRunCovered(run: seq<Row>, serverOk: ServerCheck)
    requires MetadataMatches(run, 2)
    requires forall i | 0 <= i < |run| :: Scoreable(run[i], serverOk)
    ensures ExactCover(run, EligiblePairs(run, serverOk))
    ensures |run| == 2 * |EligiblePairs(run, serverOk)|
  {
    CleanPairing(run, serverOk);
    PairsSound(run, serverOk);
    RunOwned(run, EligiblePairs(run, serverOk), serverOk);
  }

  // ----- a paired run is no larger than its matrix ---------------------------------------------

  /** Task, variant and trial of a pair. */
  type Cell = ((string, string), nat)

  ghost function ExpectedCells(spec: RunSpec): set<Cell> {
    Product(Product(Elements(spec.tasks), Elements(spec.variants)), TrialNumbers(spec.trials))
  }

  function CellId(cell: Cell): string {
    PairId(cell.1, cell.0.0, cell.0.1)
  }

  lemma {:induction false} GroupsOfTwo(rows: seq<Row>, ids: seq<string>)
    requires forall k | 0 <= k < |ids| :: |GroupOf(rows, ids[k])| == 2
    ensures |GroupsOf(rows, ids)| == 2 * |ids|
  {
    if ids != [] {
      GroupsOfTwo(rows, ids[..|ids| - 1]);
    }
  }

  lemma RowsOfGroups(run: seq<Row>, ids: seq<string>)
    requires Distinct(ids)
    requires forall i | 0 <= i < |run| :: LabelledBy(run[i], ids)
    requires forall k | 0 <= k < |ids| :: |GroupOf(run, ids[k])| == 2
    ensures |run| == 2 * |ids|
  {
    GroupsOfTwo(run, ids);
    GroupsPartition(run, ids);
    forall i | 0 <= i < |run|
      ensures run[i].evaluation.pairId.Some? && run[i].evaluation.pairId.value in Elements(ids)
    {
      assert LabelledBy(run[i], ids);
    }
    AllIdsAllRows(run, Elements(ids));
    assert |multiset(GroupsOf(run, ids))| == |multiset(run)|;
  }

  /** Paired metadata puts exactly two rows under every id. */
  lemma TwoRowsPerId(run: seq<Row>)
    requires MetadataMatches(run, 2)
    ensures |run| == 2 * |PairIds(run)|
  {
    var ids := Ordering.Sorted(PairIds(run));
    Ordering.AscendingDistinct(ids);
    forall i | 0 <= i < |run| ensures LabelledBy(run[i], ids) {
      assert run[i].evaluation.pairId.value in PairIds(run);
    }
    forall k | 0 <= k < |ids| ensures |GroupOf(run, ids[k])| == 2 {
      assert ids[k] in PairIds(run);
      PairedRowsUsesGroup(GroupOf(run, ids[k]));
    }
    RowsOfGroups(run, ids);
  }

  /** An id that pairs up is the id of an expected cell. */
  lemma IdOfExpectedCell(spec: RunSpec, run: seq<Row>, id: string)
    requires Elements(KeysOf(run)) == ExpectedKeys(spec) && PairedRows(GroupOf(run, id)).Some?
    ensures id in Image(ExpectedCells(spec), CellId)
  {
    var group := GroupOf(run, id);
    var control := PairedRows(group).value.control;
    PairedRowsUsesGroup(group);
    GroupWithin(run, id);
    assert control in multiset(group);
    assert control in run && HasPairId(control, id);
    var i :| 0 <= i < |run| && run[i] == control;
    assert KeysOf(run)[i] == KeyOf(control);
    assert KeyOf(control) in Elements(KeysOf(run));
    var cell: Cell := ((control.taskId, control.variant), control.trial);
    assert cell in ExpectedCells(spec);
    assert id == CellId(cell);
  }

  lemma CellsCounted(spec: RunSpec)
    requires DimensionsUnique(spec)
    ensures |ExpectedCells(spec)| == spec.trials * |spec.tasks| * |spec.variants|
  {
    ProductSize(Elements(spec.tasks), Elements(spec.variants));
    ProductSize(Product(Elements(spec.tasks), Elements(spec.variants)), TrialNumbers(spec.trials));
    Rotated(|spec.tasks|, |spec.variants|, spec.trials);
  }

  lemma Rotated(t: nat, v: nat, n: nat)
    ensures t * v * n == n * t * v
  {
  }

  /** The rows of a paired run cannot wrap a 32-bit counter that holds the
      matrix: there are at most two per expected cell. */
  lemma RunFits(spec: RunSpec, run: seq<Row>)
    requires DimensionsUnique(spec) && MatrixFits(spec) && |spec.coordinates| == 2
    requires Elements(KeysOf(run)) == ExpectedKeys(spec) && MetadataMatches(run, 2)
    ensures |run| <= U32_MAX
  {
    TwoRowsPerId(run);
    forall id | id in PairIds(run) ensures id in Image(ExpectedCells(spec), CellId) {
      IdOfExpectedCell(spec, run, id);
    }
    SubsetSize(PairIds(run), Image(ExpectedCells(spec), CellId));
    ImageSize(ExpectedCells(spec), CellId);
    CellsCounted(spec);
  }

  /** In every complete two-coordinate run, clean or not, each expected
      coordinate occurs exactly once and no other occurs. */
  lemma CompletePairedRun(spec: RunSpec, rows: seq<Row>, serverOk: ServerCheck)
    requires |spec.coordinates| == 2 && MatrixFits(spec) && Complete(spec, rows, serverOk)
    ensures |RunRows(spec, rows)| <= U32_MAX
    ensures multiset(KeysOf(RunRows(spec, rows))) == multiset(ExpectedKeys(spec))
  {
    var run := RunRows(spec, rows);
    RunFits(spec, run);
    MatrixFilledExactly(spec, run);
  }

  /** A complete and clean two-coordinate run: every expected coordinate occurs
      exactly once; the eligible pairs are all the expected pairs; the scored
      rows are a permutation of the run's rows; and every row belongs to
      exactly one pair. */
  lemma CompleteCleanRun(spec: RunSpec, rows: seq<Row>, issues: seq<string>, serverOk: ServerCheck)
    requires |spec.coordinates| == 2 && MatrixFits(spec)
    requires Complete(spec, rows, serverOk) && Clean(spec, rows, issues, serverOk)
    ensures var run := RunRows(spec, rows);
            && multiset(KeysOf(run)) == multiset(ExpectedKeys(spec))
            && ExactCover(run, EligiblePairs(run, serverOk))
            && (forall pair | pair in EligiblePairs(run, serverOk) :: FairPair(pair.control, pair.candidate))
            && |EligiblePairs(run, serverOk)| == ExpectedPairs(spec) == spec.trials * |spec.tasks| * |spec.variants|
  {
    CompletePairedRun(spec, rows, serverOk);
    CleanMatrix(spec, RunRows(spec, rows), serverOk);
  }

  lemma CleanMatrix(spec: RunSpec, run: seq<Row>, serverOk: ServerCheck)
    requires DimensionsUnique(spec) && |spec.coordinates| == 2 && MatrixFits(spec)
    requires |run| <= U32_MAX && AsU32(|run|) == ExpectedRows(spec) && MetadataMatches(run, 2)
    requires forall i | 0 <= i < |run| :: Scoreable(run[i], serverOk)
    ensures var pairs := EligiblePairs(run, serverOk);
            && ExactCover(run, pairs)
            && (forall pair | pair in pairs :: FairPair(pair.control, pair.candidate))
            && |pairs| == ExpectedPairs(spec) == spec.trials * |spec.tasks| * |spec.variants|
  {
    AllFair(run, serverOk);
    CleanRunCovered(run, serverOk);
    PairsCounted(spec, |run|, |EligiblePairs(run, serverOk)|);
  }

  lemma PairsCounted(spec: RunSpec, rowCount: nat, pairCount: nat)
    requires DimensionsUnique(spec) && |spec.coordinates| == 2 && MatrixFits(spec)
    requires rowCount <= U32_MAX && AsU32(rowCount) == ExpectedRows(spec) && rowCount == 2 * pairCount
    ensures pairCount == ExpectedPairs(spec) == spec.trials * |spec.tasks| * |spec.variants|
  {
    MatrixSize(spec);
    NoSaturation(spec.trials, |spec.tasks|, |spec.variants|, 2);
  }

  // ----- completeness, row by row ------------------------------------------------------------------

  function OfRun(runId: string): Row -> Option<Row> {
    (row: Row) => if row.runId == runId then Some(row) else None
  }

  lemma {:induction false} RunRowsAreSelected(spec: RunSpec, rows: seq<Row>)
    ensures RunRows(spec, rows) == Select(rows, OfRun(spec.runId))
  {
    if rows != [] {
      RunRowsAreSelected(spec, rows[..|rows| - 1]);
    }
  }

  /** The run's rows are exactly those carrying its id, in file order. */
  lemma RunRowsSelected(spec: RunSpec, rows: seq<Row>)
    ensures Selects(rows, OfRun(spec.runId), RunRows(spec, rows))
  {
    RunRowsAreSelected(spec, rows);
    SelectSelects(rows, OfRun(spec.runId));
  }

  /** A run is clean exactly when nothing was reported and each of its rows counts. */
  lemma CleanExactly(spec: RunSpec, rows: seq<Row>, issues: seq<string>, serverOk: ServerCheck)
    ensures Clean(spec, rows, issues, serverOk) <==>
            issues == [] && forall i | 0 <= i < |rows| && rows[i].runId == spec.runId :: Counts(rows[i], serverOk)
  {
    var run := RunRows(spec, rows);
    forall row ensures row in run <==> row in rows && row.runId == spec.runId {
      RunRowsMembers(spec, rows, row);
    }
    forall row: Row ensures Scoreable(row, serverOk) <==> Counts(row, serverOk) {
      ScoreableCounts(row, serverOk);
    }
  }

  lemma {:induction false} RunRowsMembers(spec: RunSpec, rows: seq<Row>, row: Row)
    ensures row in RunRows(spec, rows) <==> row in rows && row.runId == spec.runId
  {
    if rows != [] {
      RunRowsMembers(spec, rows[..|rows| - 1], row);
    }
  }

  /** The row belongs to the suite that was asked for, says so consistently, and
      carries strict evidence where its coordinate demands it. */
  ghost predicate RowInOrder(spec: RunSpec, row: Row, serverOk: ServerCheck) {
    && row.schemaVersion == 2
    && row.suiteId == spec.suiteId
    && row.suiteSchemaVersion == spec.suiteSchemaVersion
    && row.suiteSha256 == spec.suiteSha256
    && row.taskId in spec.categories && row.category == spec.categories[row.taskId]
    && row.provenance.variant == row.variant
    && row.evaluation.arm == row.arm && row.evaluation.policy == row.policy
    && row.evaluation.binarySha256 == row.provenance.binary.sha256
    && row.evaluation.modelSha256 == row.provenance.model.sha256
    && row.evaluation.corpusSha256 == Some(spec.suiteSha256)
    && row.evaluation.temperature == Some("0.0")
    && (row.arm != Single || row.policy == Evidence ==>
          && StrictEvidence(row.outcome)
          && ValidSha256(row.evaluation.workspaceSha256) && ValidSha256(row.evaluation.treeSha256)
          && ValidSha256(row.evaluation.binarySha256)
          && ValidSha256(row.evaluation.corpusSha256)
          && ValidSha256(row.evaluation.modelSha256)
          && row.evaluation.server.Some? && serverOk(row.evaluation.server.value, row))
  }

  lemma RowContractExactly(spec: RunSpec, row: Row, serverOk: ServerCheck)
    requires |spec.coordinates| == 2
    ensures RowContract(spec, row, serverOk) <==> RowInOrder(spec, row, serverOk)
  {
  }

  /** A row of another schema is in order only in a one-coordinate run: it is a
      plain legacy row of the first schema, of that suite, without metadata. */
  lemma OldRowExactly(spec: RunSpec, row: Row, serverOk: ServerCheck)
    requires row.schemaVersion != 2
    ensures RowContract(spec, row, serverOk) <==>
            && AsU32(|spec.coordinates|) == 1
            && row.schemaVersion == 1
            && row.arm == Single && row.policy == Legacy
            && row.evaluation == NO_EVALUATION
            && row.suiteId == spec.suiteId && row.suiteSchemaVersion == spec.suiteSchemaVersion
            && row.suiteSha256 == spec.suiteSha256
            && row.taskId in spec.categories && row.category == spec.categories[row.taskId]
            && row.provenance.variant == row.variant
  {
  }

  /** Two rows of a run come from the same model, protocol and interpreter; two of
      the same arm and policy from the same build and circumstances as well. */
  ghost predicate SameOrigin(a: Row, b: Row) {
    && a.provenance.model == b.provenance.model
    && a.provenance.protocol == b.provenance.protocol
    && a.provenance.pythonBin == b.provenance.pythonBin
    && (a.arm == b.arm && a.policy == b.policy ==>
          && a.provenance.version == b.provenance.version
          && a.provenance.commit == b.provenance.commit
          && a.provenance.binary == b.provenance.binary
          && a.evaluation.arm == b.evaluation.arm
          && a.evaluation.policy == b.evaluation.policy
          && a.evaluation.binarySha256 == b.evaluation.binarySha256
          && a.evaluation.corpusSha256 == b.evaluation.corpusSha256
          && a.evaluation.modelSha256 == b.evaluation.modelSha256
          && a.evaluation.temperature == b.evaluation.temperature
          && a.evaluation.server == b.evaluation.server)
  }

  lemma OriginExactly(a: Row, b: Row)
    ensures Provenance.SameBackground(a, b) && Provenance.SameSource(a, b) <==> SameOrigin(a, b)
  {
  }

  lemma ConsistentExactly(rows: seq<Row>)
    ensures Provenance.Consistent(rows) <==>
            forall i, j | 0 <= i < |rows| && 0 <= j < |rows| :: SameOrigin(rows[i], rows[j])
  {
    forall i, j | 0 <= i < |rows| && 0 <= j < |rows|
      ensures SameOrigin(rows[i], rows[j]) <==>
              Provenance.SameBackground(rows[i], rows[j]) && Provenance.SameSource(rows[i], rows[j])
    {
      OriginExactly(rows[i], rows[j]);
    }
  }

  /** The row has exactly one partner, and the two make a fair pair. */
  ghost predicate Partnered(rows: seq<Row>, i: nat)
    requires i < |rows|
  {
    exists pair, j, k :: AreThePair(rows, pair, j, k) && FairPair(pair.control, pair.candidate) && (i == j || i == k)
  }

  lemma PartnerFromGroup(rows: seq<Row>, i: nat)
    requires MetadataMatches(rows, 2) && i < |rows|
    ensures Partnered(rows, i)
  {
    var id := rows[i].evaluation.pairId.value;
    assert id in PairIds(rows);
    var pair := PairedRows(GroupOf(rows, id)).value;
    PairedRowsExactly(GroupOf(rows, id), pair);
    var j, k := TwoPlaces(rows, id);
    OnlyTwoGroup(rows, id, j, k);
    assert AreThePair(rows, pair, j, k);
  }

  lemma GroupFromPartner(rows: seq<Row>, i: nat)
    requires i < |rows| && Partnered(rows, i)
    ensures rows[i].evaluation.pairId.Some?
    ensures PairedRows(GroupOf(rows, rows[i].evaluation.pairId.value)).Some?
  {
    var pair, j: nat, k: nat :|
      AreThePair(rows, pair, j, k) && FairPair(pair.control, pair.candidate) && (i == j || i == k);
    var id := pair.control.evaluation.pairId.value;
    OnlyTwoGroup(rows, id, j, k);
    PairedRowsExactly(GroupOf(rows, id), pair);
  }

  /** Paired metadata is in order exactly when every row has its one partner. */
  lemma MetadataExactly(rows: seq<Row>)
    ensures MetadataMatches(rows, 2) <==> forall i | 0 <= i < |rows| :: Partnered(rows, i)
  {
    if MetadataMatches(rows, 2) {
      forall i | 0 <= i < |rows| ensures Partnered(rows, i) {
        PartnerFromGroup(rows, i);
      }
    }
    if forall i | 0 <= i < |rows| :: Partnered(rows, i) {
      forall i | 0 <= i < |rows| ensures rows[i].evaluation.pairId.Some? {
        GroupFromPartner(rows, i);
      }
      forall id | id in PairIds(rows) ensures PairedRows(GroupOf(rows, id)).Some? {
        var i :| 0 <= i < |rows| && rows[i].evaluation.pairId == Some(id);
        GroupFromPartner(rows, i);
      }
    }
  }

  /** What a two-coordinate run must look like to be complete, without counters:
      unique dimensions, a category for each task, every expected coordinate
      exactly once, every row in order, one origin, and a partner for each row. */
  ghost predicate InOrder(spec: RunSpec, run: seq<Row>, serverOk: ServerCheck) {
    && spec.trials > 0
    && spec.tasks != [] && Distinct(spec.tasks)
    && spec.variants != [] && Distinct(spec.variants)
    && Distinct(spec.coordinates)
    && spec.categories.Keys == Elements(spec.tasks)
    && multiset(KeysOf(run)) == multiset(ExpectedKeys(spec))
    && (forall i | 0 <= i < |run| :: RowInOrder(spec, run[i], serverOk))
    && (forall i, j | 0 <= i < |run| && 0 <= j < |run| :: SameOrigin(run[i], run[j]))
    && (forall i | 0 <= i < |run| :: Partnered(run, i))
  }

  lemma {:induction false} DistinctExactly<T>(s: seq<T>)
    ensures |Elements(s)| == |s| <==> Distinct(s)
  {
    if s == [] {
      assert Elements(s) == {};
    } else {
      var n := |s| - 1;
      var front := s[..n];
      DistinctExactly(front);
      ElementsSize(front);
      assert Elements(s) == Elements(front) + {s[n]};
      if s[n] in Elements(front) {
        assert Elements(s) == Elements(front);
      } else if Distinct(front) {
        assert Distinct(s);
      }
    }
  }

  lemma CategoriesExactly(spec: RunSpec)
    ensures CategoriesAgree(spec) <==> spec.categories.Keys == Elements(spec.tasks)
  {
    assert |spec.categories| == |spec.categories.Keys|;
    if CategoriesAgree(spec) {
      assert Elements(spec.tasks) == spec.categories.Keys + (Elements(spec.tasks) - spec.categories.Keys);
    }
  }

  lemma DimensionsExactly(spec: RunSpec)
    requires |spec.coordinates| == 2
    ensures DimensionsUnique(spec) <==>
            && spec.trials > 0 && spec.tasks != [] && Distinct(spec.tasks)
            && spec.variants != [] && Distinct(spec.variants) && Distinct(spec.coordinates)
  {
    DistinctExactly(spec.tasks);
    DistinctExactly(spec.variants);
    DistinctExactly(spec.coordinates);
  }

  lemma ContractsExactly(spec: RunSpec, run: seq<Row>, serverOk: ServerCheck)
    requires |spec.coordinates| == 2
    ensures (forall i | 0 <= i < |run| :: RowContract(spec, run[i], serverOk))
            <==> forall i | 0 <= i < |run| :: RowInOrder(spec, run[i], serverOk)
  {
    forall i | 0 <= i < |run| ensures RowContract(spec, run[i], serverOk) <==> RowInOrder(spec, run[i], serverOk) {
      RowContractExactly(spec, run[i], serverOk);
    }
  }

  lemma CompleteIsInOrder(spec: RunSpec, rows: seq<Row>, run: seq<Row>, serverOk: ServerCheck)
    requires |spec.coordinates| == 2 && MatrixFits(spec) && run == RunRows(spec, rows)
    requires Complete(spec, rows, serverOk)
    ensures InOrder(spec, run, serverOk)
  {
    assert multiset(KeysOf(run)) == multiset(ExpectedKeys(spec)) by {
      CompletePairedRun(spec, rows, serverOk);
    }
    assert forall i | 0 <= i < |run| :: Partnered(run, i) by {
      assert AsU32(|spec.coordinates|) == 2;
      MetadataExactly(run);
    }
    assert forall i | 0 <= i < |run| :: RowInOrder(spec, run[i], serverOk) by {
      ContractsExactly(spec, run, serverOk);
    }
    assert forall i, j | 0 <= i < |run| && 0 <= j < |run| :: SameOrigin(run[i], run[j]) by {
      ConsistentExactly(run);
    }
    DimensionsExactly(spec);
    CategoriesExactly(spec);
  }

  lemma InOrderIsComplete(spec: RunSpec, rows: seq<Row>, run: seq<Row>, serverOk: ServerCheck)
    requires |spec.coordinates| == 2 && MatrixFits(spec) && run == RunRows(spec, rows)
    requires InOrder(spec, run, serverOk)
    ensures Complete(spec, rows, serverOk)
  {
    DimensionsExactly(spec);
    CategoriesExactly(spec);
    ConsistentExactly(run);
    MetadataExactly(run);
    ContractsExactly(spec, run, serverOk);
    FilledCounts(spec, run);
    assert AsU32(|spec.coordinates|) == 2;
  }

  /** The judgement of completeness is exactly that the run is in order. */
  lemma CompleteRunExactly(spec: RunSpec, rows: seq<Row>, serverOk: ServerCheck)
    requires |spec.coordinates| == 2 && MatrixFits(spec)
    ensures Complete(spec, rows, serverOk) <==> InOrder(spec, RunRows(spec, rows), serverOk)
  {
    if Complete(spec, rows, serverOk) {
      CompleteIsInOrder(spec, rows, RunRows(spec, rows), serverOk);
    } else if InOrder(spec, RunRows(spec, rows), serverOk) {
      InOrderIsComplete(spec, rows, RunRows(spec, rows), serverOk);
    }
  }

  lemma FilledCounts(spec: RunSpec, run: seq<Row>)
    requires DimensionsUnique(spec) && MatrixFits(spec) && multiset(KeysOf(run)) == multiset(ExpectedKeys(spec))
    ensures AsU32(|run|) == ExpectedRows(spec) && Elements(KeysOf(run)) == ExpectedKeys(spec)
  {
    MatrixSize(spec);
    assert |multiset(KeysOf(run))| == |run| && |multiset(ExpectedKeys(spec))| == |ExpectedKeys(spec)|;
    MatrixFilledExactly(spec, run);
  }

  // ----- complete and clean runs exist -----------------------------------------------------------

  /** Two digests, a task and a variant from which the smallest paired run is
      made: one trial of one task. */
  datatype Sample = Sample(digest: string, other: string, task: string, variant: string)

  predicate SampleValid(x: Sample) {
    IsSha256Hex(x.digest) && IsSha256Hex(x.other) && x.digest != x.other
  }

  predicate AnyServer(server: ManagedServer, row: Row) {
    true
  }

  function SampleOutcome(x: Sample): Outcome {
    Outcome(true, true, None, Some(Stops.TaskComplete),
            [Segment(1, Corpus.Completed, Some(Stops.TaskComplete), Some(0), false, Some("t"), Some(x.digest), true)],
            false, false, false, false, 0, 0, false, [], [])
  }

  function SampleRow(x: Sample, arm: Arm, policy: Policy, slot: nat, own: string): Row {
    Row(SCHEMA_VERSION, "r", "s", 1, x.digest, x.task, "c", x.variant, arm, policy, 1, SampleOutcome(x),
        RunProvenance("v", None, BinaryProvenance("b", None, Some(own)),
                      ModelProvenance("k", None, None, 1.0, 1, Some(x.digest)), "p", x.variant, "py"),
        Evaluation(arm, policy, Some(PairId(1, x.task, x.variant)), Some(slot), Some(ControlCandidate), Some(own),
                   Some(x.digest), Some(own), Some(x.digest), Some(x.digest), Some("0.0"),
                   Some(ManagedServer("e", "u", [], Some(x.digest)))))
  }

  function SampleRows(x: Sample): seq<Row> {
    [SampleRow(x, Control, Legacy, 1, x.digest), SampleRow(x, Candidate, Evidence, 2, x.other)]
  }

  function SampleSpec(x: Sample): RunSpec {
    RunSpec("r", "s", 1, x.digest, 1, [x.task], map[x.task := "c"], [x.variant],
            [Coordinate(Control, Legacy), Coordinate(Candidate, Evidence)])
  }

  lemma SampleOutcomeStrict(x: Sample)
    requires SampleValid(x)
    ensures StrictEvidence(SampleOutcome(x))
  {
    Text.SplitSlashPlain("t");
    assert ValidTracePath("t");
    assert SegmentRetained(SampleOutcome(x).segments[0], 0);
  }

  lemma SampleRowCounts(x: Sample, arm: Arm, policy: Policy, slot: nat, own: string)
    requires SampleValid(x) && IsSha256Hex(own)
    ensures
      var row := SampleRow(x, arm, policy, slot, own);
      RowContract(SampleSpec(x), row, AnyServer) && Scoreable(row, AnyServer)
  {
    SampleOutcomeStrict(x);
  }

  lemma TwoOfOneRun(spec: RunSpec, a: Row, b: Row)
    requires a.runId == spec.runId && b.runId == spec.runId
    ensures RunRows(spec, [a, b]) == [a, b]
  {
    assert [a, b][..1] == [a] && [a][..0] == [];
    assert RunRows(spec, [a]) == [a];
  }

  lemma TwoOfOneGroup(id: string, a: Row, b: Row)
    requires HasPairId(a, id) && HasPairId(b, id)
    ensures PairIds([a, b]) == {id} && GroupOf([a, b], id) == [a, b]
  {
    assert [a, b][..1] == [a] && [a][..0] == [];
    assert GroupOf([a], id) == [a];
    assert [a, b][0].evaluation.pairId == Some(id);
  }

  lemma SamplePairs(x: Sample)
    requires SampleValid(x)
    ensures PairedRows(SampleRows(x)).Some?
  {
    var rows := SampleRows(x);
    var control, candidate := rows[0], rows[1];
    assert rows[1..] == [candidate];
    assert FindRow(rows, IsControl) == Some(control);
    assert FindRow(rows, IsCandidate) == Some(candidate);
    assert LabelsAgree(control, candidate);
    assert CircumstancesAgree(control.evaluation, candidate.evaluation);
  }

  lemma SampleMatrix(x: Sample)
    ensures Elements(KeysOf(SampleRows(x))) == ExpectedKeys(SampleSpec(x))
    ensures DimensionsUnique(SampleSpec(x)) && CategoriesAgree(SampleSpec(x))
  {
    var rows, spec := SampleRows(x), SampleSpec(x);
    var cell := ((x.task, x.variant), 1);
    var control, candidate := Coordinate(Control, Legacy), Coordinate(Candidate, Evidence);
    assert KeysOf(rows)[0] == (cell, control) && KeysOf(rows)[1] == (cell, candidate);
    assert Elements(KeysOf(rows)) == {(cell, control), (cell, candidate)};
    assert spec.tasks[0] == x.task && Elements(spec.tasks) == {x.task};
    assert spec.variants[0] == x.variant && Elements(spec.variants) == {x.variant};
    assert spec.coordinates[0] == control && spec.coordinates[1] == candidate;
    assert Elements(spec.coordinates) == {control, candidate};
    assert TrialNumbers(1) == {1};
  }

  lemma SampleMetadata(x: Sample)
    requires SampleValid(x)
    ensures MetadataMatches(SampleRows(x), 2)
  {
    var rows := SampleRows(x);
    TwoOfOneGroup(PairId(1, x.task, x.variant), rows[0], rows[1]);
    SamplePairs(x);
  }

  lemma SampleConsistent(x: Sample)
    ensures Provenance.Consistent(SampleRows(x))
  {
    var rows := SampleRows(x);
    forall i, j | 0 <= i < 2 && 0 <= j < 2
      ensures Provenance.SameBackground(rows[i], rows[j]) && Provenance.SameSource(rows[i], rows[j])
    {
    }
  }

  lemma SampleContracts(x: Sample)
    requires SampleValid(x)
    ensures forall i | 0 <= i < 2 ::
      RowContract(SampleSpec(x), SampleRows(x)[i], AnyServer) && Scoreable(SampleRows(x)[i], AnyServer)
  {
    SampleRowCounts(x, Control, Legacy, 1, x.digest);
    SampleRowCounts(x, Candidate, Evidence, 2, x.other);
  }

  lemma SmallestMatrix(spec: RunSpec)
    requires spec.trials == 1 && |spec.tasks| == 1 && |spec.variants| == 1 && |spec.coordinates| == 2
    ensures ExpectedRows(spec) == 2 && AsU32(2) == 2
  {
  }

  lemma Assembled(spec: RunSpec, rows: seq<Row>, run: seq<Row>, serverOk: ServerCheck)
    requires RunRows(spec, rows) == run && |run| == 2 && ExpectedRows(spec) == 2 && |spec.coordinates| == 2
    requires Elements(KeysOf(run)) == ExpectedKeys(spec) && DimensionsUnique(spec) && CategoriesAgree(spec)
    requires MetadataMatches(run, 2) && Provenance.Consistent(run)
    requires forall i | 0 <= i < 2 :: RowContract(spec, run[i], serverOk)
    ensures Complete(spec, rows, serverOk)
  {
    assert AsU32(|run|) == 2 && AsU32(|spec.coordinates|) == 2;
  }

  /** The premises of a complete and clean run can be met. */
  lemma CompleteCleanRunExists(x: Sample)
    requires SampleValid(x)
    ensures Complete(SampleSpec(x), SampleRows(x), AnyServer) && Clean(SampleSpec(x), SampleRows(x), [], AnyServer)
  {
    TwoOfOneRun(SampleSpec(x), SampleRows(x)[0], SampleRows(x)[1]);
    SampleMatrix(x);
    SampleMetadata(x);
    SampleConsistent(x);
    SampleContracts(x);
    SmallestMatrix(SampleSpec(x));
    Assembled(SampleSpec(x), SampleRows(x), SampleRows(x), AnyServer);
  }
}
