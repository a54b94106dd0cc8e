/** The rotated, counterbalanced order in which episodes are run
    (`run_autonomy` and `episode_coordinate_order` in
    `ferric-cli/src/autonomy_cmd.rs`). */
module Schedule {
  import opened Wrappers
  import opened Corpus
  import opened EvidenceRows
  import opened PairedSummary
  import opened Counting
  import opened Selecting
  import Decimal
  import Text

  // ----- rotations --------------------------------------------------------------------

  /** The item visited at a position of a rotated pass. */
  function Rotate(position: nat, offset: nat, n: nat): (item: nat)
    requires n > 0
    ensures item < n
  {
    (position + offset % n) % n
  }

  /** The only position at which a rotated pass visits an item. */
  function PositionOf(item: nat, offset: nat, n: nat): (position: nat)
    requires n > 0
    ensures position < n
  {
    (item + n - offset % n) % n
  }

  /** A rotated pass over `n` items visits each of them exactly once. */
  lemma RotationVisitsOnce(position: nat, item: nat, offset: nat, n: nat)
    requires position < n && item < n
    ensures Rotate(position, offset, n) == item <==> position == PositionOf(item, offset, n)
  {
    var shift := offset % n;
    WrapOnce(position + shift, n);
    WrapOnce(item + n - shift, n);
  }

  lemma WrapOnce(k: nat, n: nat)
    requires n > 0 && k < 2 * n
    ensures k % n == if k < n then k else k - n
  {
    var q := k / n;
    assert k == n * q + k % n;
    assert q == 0 || q == 1;
  }

  // ----- the order within a pair --------------------------------------------------------

  /** Sum of the UTF-8 bytes of one character. */
  function CharBytes(c: char): nat {
    var n := c as int;
    if n < 0x80 then n
    else if n < 0x800 then (0xC0 + n / 0x40) + (0x80 + n % 0x40)
    else if n < 0x10000 then (0xE0 + n / 0x1000) + (0x80 + n / 0x40 % 0x40) + (0x80 + n % 0x40)
    else (0xF0 + n / 0x40000) + (0x80 + n / 0x1000 % 0x40) + (0x80 + n / 0x40 % 0x40) + (0x80 + n % 0x40)
  }

  function ByteSum(s: string): nat {
    if s == "" then 0 else CharBytes(s[0]) + ByteSum(s[1..])
  }

  /** Whether the control arm runs first. */
  predicate ControlFirst(task: string, variant: Variant, trial: nat) {
    (trial + ByteSum(task) + ByteSum(VariantLabel(variant))) % 2 == 0
  }

  function OrderLabel(task: string, variant: Variant, trial: nat): PairOrder {
    if ControlFirst(task, variant, trial) then ControlCandidate else CandidateControl
  }

  /** How often the control arm runs first in `count` consecutive trials. */
  function ControlFirsts(task: string, variant: Variant, from: nat, count: nat): nat {
    if count == 0 then 0
    else
      ControlFirsts(task, variant, from, count - 1)
      + if ControlFirst(task, variant, from + count - 1) then 1 else 0
  }

  /** Over any stretch of consecutive trials the two orders of a pair differ in
      number by at most one. */
  lemma {:induction false} OrdersBalanced(task: string, variant: Variant, from: nat, count: nat)
    ensures var first := ControlFirsts(task, variant, from, count);
            -1 <= 2 * first - count <= 1
    ensures count % 2 == 0 ==> 2 * ControlFirsts(task, variant, from, count) == count
  {
    if count >= 2 {
      OrdersBalanced(task, variant, from, count - 2);
      OrdersAlternate(task, variant, from + count - 2);
    }
  }

  lemma OrdersAlternate(task: string, variant: Variant, trial: nat)
    ensures ControlFirst(task, variant, trial) != ControlFirst(task, variant, trial + 1)
  {
    var base := trial + ByteSum(task) + ByteSum(VariantLabel(variant));
    assert trial + 1 + ByteSum(task) + ByteSum(VariantLabel(variant)) == base + 1;
  }

  lemma {:induction false} ByteSumSnoc(s: string, c: char)
    ensures ByteSum(s + [c]) == ByteSum(s) + CharBytes(c)
  {
    if s == "" {
      assert s + [c] == [c] && [c][1..] == "";
    } else {
      assert (s + [c])[1..] == s[1..] + [c];
      ByteSumSnoc(s[1..], c);
    }
  }

  /** Each byte of a task's name counts: one more character keeps or flips the
      order by the parity of its bytes. */
  lemma NameDecidesOrder(task: string, c: char, variant: Variant, trial: nat)
    ensures ControlFirst(task + [c], variant, trial) == (ControlFirst(task, variant, trial) == (CharBytes(c) % 2 == 0))
    ensures c < '\U{80}' ==> CharBytes(c) == c as int
  {
    ByteSumSnoc(task, c);
  }

  lemma CurrentSum()
    ensures ByteSum("current") % 2 == 1
  {
    SumOf7('c', 'u', 'r', 'r', 'e', 'n', 't');
    assert "current" == ['c', 'u', 'r', 'r', 'e', 'n', 't'];
  }

  lemma RecoverySum()
    ensures ByteSum("recovery") % 2 == 1
  {
    SumOf7('r', 'e', 'c', 'o', 'v', 'e', 'r');
    assert "recover" == ['r', 'e', 'c', 'o', 'v', 'e', 'r'];
    ByteSumSnoc("recover", 'y');
    assert "recover" + ['y'] == "recovery";
  }

  lemma BriefStart()
    ensures ByteSum("reposit") == 774
  {
    SumOf7('r', 'e', 'p', 'o', 's', 'i', 't');
    assert "reposit" == ['r', 'e', 'p', 'o', 's', 'i', 't'];
  }

  lemma BriefMiddle()
    ensures ByteSum("ory_bri") == 758
  {
    SumOf7('o', 'r', 'y', '_', 'b', 'r', 'i');
    assert "ory_bri" == ['o', 'r', 'y', '_', 'b', 'r', 'i'];
  }

  lemma Spelled(start: string, middle: string, e: char, f: char)
    ensures ByteSum(start + middle + [e] + [f]) == ByteSum(start) + ByteSum(middle) + CharBytes(e) + CharBytes(f)
  {
    ByteSumConcat(start, middle);
    ByteSumSnoc(start + middle, e);
    ByteSumSnoc(start + middle + [e], f);
  }

  lemma BriefSpelling()
    ensures VariantLabel(RepositoryBrief) == "reposit" + "ory_bri" + ['e'] + ['f']
  {
  }

  lemma SumSpelled(name: string, start: string, middle: string)
    requires name == start + middle + ['e'] + ['f'] && ByteSum(start) == 774 && ByteSum(middle) == 758
    ensures ByteSum(name) % 2 == 1
  {
    Spelled(start, middle, 'e', 'f');
    assert CharBytes('e') == 101 && CharBytes('f') == 102;
  }

  lemma BriefSum(name: string)
    requires name == VariantLabel(RepositoryBrief)
    ensures ByteSum(name) % 2 == 1
  {
    BriefStart();
    BriefMiddle();
    BriefSpelling();
    SumSpelled(name, "reposit", "ory_bri");
  }

  lemma LabelSum(v: Variant)
    ensures ByteSum(VariantLabel(v)) % 2 == 1
  {
    match v {
      case Current => CurrentSum();
      case Recovery => RecoverySum();
      case RepositoryBrief => BriefSum(VariantLabel(v));
    }
  }

  lemma {:induction false} ByteSumConcat(a: string, b: string)
    ensures ByteSum(a + b) == ByteSum(a) + ByteSum(b)
  {
    if a == "" {
      assert a + b == b;
    } else {
      assert (a + b)[1..] == a[1..] + b;
      ByteSumConcat(a[1..], b);
    }
  }

  lemma SumOf7(a: char, b: char, c: char, d: char, e: char, f: char, g: char)
    ensures ByteSum([a, b, c, d, e, f, g])
            == CharBytes(a) + CharBytes(b) + CharBytes(c) + CharBytes(d) + CharBytes(e) + CharBytes(f) + CharBytes(g)
  {
    ByteSumConcat([a, b, c], [d, e, f, g]);
    ByteSumConcat([d, e], [f, g]);
    assert [a, b, c] + [d, e, f, g] == [a, b, c, d, e, f, g] && [d, e] + [f, g] == [d, e, f, g];
    ByteSumSnoc([a, b], c);
    ByteSumSnoc([a], b);
    ByteSumSnoc([], a);
    ByteSumSnoc([d], e);
    ByteSumSnoc([], d);
    ByteSumSnoc([f], g);
    ByteSumSnoc([], f);
    assert [] + [a] == [a] && [a] + [b] == [a, b] && [a, b] + [c] == [a, b, c];
    assert [] + [d] == [d] && [d] + [e] == [d, e] && [] + [f] == [f] && [f] + [g] == [f, g];
  }

  lemma {:induction false} AsciiParity(s: string)
    requires forall i | 0 <= i < |s| :: s[i] < '\U{80}'
    ensures ByteSum(s) % 2 == |Indices(s, (c: char) => c as int % 2 == 1)| % 2
  {
    if s != "" {
      var n := |s| - 1;
      AsciiParity(s[..n]);
      IndicesSnoc(s, (c: char) => c as int % 2 == 1);
      assert s == s[..n] + [s[n]];
      ByteSumSnoc(s[..n], s[n]);
      assert CharBytes(s[n]) == s[n] as int;
      ParityAdds(ByteSum(s[..n]), s[n] as int);
    }
  }

  lemma ParityAdds(a: nat, b: nat)
    ensures (a + b) % 2 == if b % 2 == 1 then 1 - a % 2 else a % 2
  {
  }

  /** The order of an ASCII-named task, without sums: control goes first exactly
      when the trial number and the number of odd characters have different
      parity. All three variant labels have odd sums, so the variant never
      matters. */
  lemma OrderExactly(task: string, variant: Variant, trial: nat)
    requires forall i | 0 <= i < |task| :: task[i] < '\U{80}'
    ensures ControlFirst(task, variant, trial) <==>
            (trial + |Indices(task, (c: char) => c as int % 2 == 1)|) % 2 == 1
  {
    AsciiParity(task);
    LabelSum(variant);
  }

  lemma VariantNeverMatters(task: string, v: Variant, w: Variant, trial: nat)
    ensures ControlFirst(task, v, trial) == ControlFirst(task, w, trial)
  {
    LabelSum(v);
    LabelSum(w);
  }

  // ----- the schedule -----------------------------------------------------------------------

  datatype Plan = Plan(tasks: seq<string>, variants: seq<Variant>, trials: nat, paired: bool)

  /** One episode to run. Coordinate 0 is the control (or only) arm. */
  datatype Slot = Slot(
    task: nat, variant: nat, trial: nat, coordinate: nat, pairId: Option<string>, pairSlot: Option<nat>,
    order: Option<PairOrder>)

  predicate Runnable(plan: Plan) {
    plan.tasks != [] && plan.variants != []
  }

  function Coordinates(plan: Plan): nat {
    if plan.paired then 2 else 1
  }

  /** The episodes of one task, variant and trial. */
  function CellSlots(plan: Plan, task: nat, variant: nat, trial: nat): seq<Slot>
    requires task < |plan.tasks| && variant < |plan.variants|
  {
    if plan.paired then
      var name, v := plan.tasks[task], plan.variants[variant];
      var id, order := Some(PairId(trial, name, VariantLabel(v))), Some(OrderLabel(name, v, trial));
      var first := if ControlFirst(name, v, trial) then 0 else 1;
      [Slot(task, variant, trial, first, id, Some(1), order), Slot(task, variant, trial, 1 - first, id, Some(2), order)]
    else [Slot(task, variant, trial, 0, None, None, None)]
  }

  function VariantsUpTo(plan: Plan, task: nat, offset: nat, trial: nat, m: nat): seq<Slot>
    requires Runnable(plan) && task < |plan.tasks|
  {
    if m == 0 then []
    else
      VariantsUpTo(plan, task, offset, trial, m - 1)
      + CellSlots(plan, task, Rotate(m - 1, offset, |plan.variants|), trial)
  }

  function PositionsUpTo(plan: Plan, trial: nat, m: nat): seq<Slot>
    requires Runnable(plan) && trial >= 1
  {
    if m == 0 then []
    else
      PositionsUpTo(plan, trial, m - 1)
      + VariantsUpTo(plan, Rotate(m - 1, trial - 1, |plan.tasks|), trial - 1 + m - 1, trial, |plan.variants|)
  }

  function TrialsUpTo(plan: Plan, n: nat): seq<Slot>
    requires Runnable(plan)
  {
    if n == 0 then [] else TrialsUpTo(plan, n - 1) + PositionsUpTo(plan, n, |plan.tasks|)
  }

  /** The innermost loop: all variants of one task and trial. */
  method VariantPass(plan: Plan, task: nat, offset: nat, trial: nat) returns (slots: seq<Slot>)
    requires Runnable(plan) && task < |plan.tasks|
    ensures slots == VariantsUpTo(plan, task, offset, trial, |plan.variants|)
  {
    slots := [];
    for position := 0 to |plan.variants|
      invariant slots == VariantsUpTo(plan, task, offset, trial, position)
    {
      slots := slots + CellSlots(plan, task, Rotate(position, offset, |plan.variants|), trial);
    }
  }

  /** The loops of the driver over trials and task positions. */
  method BuildSchedule(plan: Plan) returns (slots: seq<Slot>)
    requires Runnable(plan)
    ensures slots == TrialsUpTo(plan, plan.trials)
  {
    slots := [];
    for done := 0 to plan.trials
      invariant slots == TrialsUpTo(plan, done)
    {
      var trial := done + 1;
      var round: seq<Slot> := [];
      for position := 0 to |plan.tasks|
        invariant round == PositionsUpTo(plan, trial, position)
      {
        var task := Rotate(position, trial - 1, |plan.tasks|);
        var pass := VariantPass(plan, task, trial - 1 + position, trial);
        round := round + pass;
      }
      slots := slots + round;
    }
  }

  // ----- what stands where ------------------------------------------------------------------------

  /** The slots of the variant at place `vp` of the task at place `position`: the
      task moves on by one each trial, the variant by one for each trial and
      place. */
  function CellBlock(plan: Plan, trial: nat, position: nat): nat -> seq<Slot>
    requires Runnable(plan) && trial >= 1
  {
    (vp: nat) =>
      CellSlots(plan, (position + (trial - 1) % |plan.tasks|) % |plan.tasks|,
                (vp + (trial - 1 + position) % |plan.variants|) % |plan.variants|, trial)
  }

  function TaskBlock(plan: Plan, trial: nat): nat -> seq<Slot>
    requires Runnable(plan) && trial >= 1
  {
    (position: nat) => Blocks(|plan.variants|, CellBlock(plan, trial, position))
  }

  function TrialBlock(plan: Plan): nat -> seq<Slot>
    requires Runnable(plan)
  {
    (done: nat) => Blocks(|plan.tasks|, TaskBlock(plan, done + 1))
  }

  lemma {:induction false} VariantsInBlocks(plan: Plan, trial: nat, position: nat, m: nat)
    requires Runnable(plan) && trial >= 1
    ensures VariantsUpTo(plan, Rotate(position, trial - 1, |plan.tasks|), trial - 1 + position, trial, m)
            == Blocks(m, CellBlock(plan, trial, position))
  {
    if m > 0 {
      VariantsInBlocks(plan, trial, position, m - 1);
    }
  }

  lemma {:induction false} PositionsInBlocks(plan: Plan, trial: nat, m: nat)
    requires Runnable(plan) && trial >= 1
    ensures PositionsUpTo(plan, trial, m) == Blocks(m, TaskBlock(plan, trial))
  {
    if m > 0 {
      PositionsInBlocks(plan, trial, m - 1);
      VariantsInBlocks(plan, trial, m - 1, |plan.variants|);
    }
  }

  /** The schedule in blocks: trial by trial, within a trial task by task, within
      a task variant by variant, within a variant arm by arm. */
  lemma {:induction false} ScheduleInBlocks(plan: Plan, n: nat)
    requires Runnable(plan)
    ensures TrialsUpTo(plan, n) == Blocks(n, TrialBlock(plan))
  {
    if n > 0 {
      ScheduleInBlocks(plan, n - 1);
      PositionsInBlocks(plan, n, |plan.tasks|);
    }
  }

  /** Within a cell: control first or candidate first, in slots 1 and 2, under one
      id and order label; or the only arm, without labels. */
  lemma CellInOrder(plan: Plan, task: nat, variant: nat, trial: nat)
    requires task < |plan.tasks| && variant < |plan.variants|
    ensures
      var slots := CellSlots(plan, task, variant, trial);
      var name, v := plan.tasks[task], plan.variants[variant];
      var id := Some(PairId(trial, name, VariantLabel(v)));
      && |slots| == (if plan.paired then 2 else 1)
      && (forall c | 0 <= c < |slots| ::
            slots[c].task == task && slots[c].variant == variant && slots[c].trial == trial)
      && (if !plan.paired then
            slots[0].coordinate == 0 && slots[0].pairId == None
            && slots[0].pairSlot == None && slots[0].order == None
          else
            && slots[0].pairId == slots[1].pairId == id
            && slots[0].pairSlot == Some(1) && slots[1].pairSlot == Some(2)
            && (if ControlFirst(name, v, trial) then
                  slots[0].coordinate == 0 && slots[1].coordinate == 1
                  && slots[0].order == slots[1].order == Some(ControlCandidate)
                else
                  slots[0].coordinate == 1 && slots[1].coordinate == 0
                  && slots[0].order == slots[1].order == Some(CandidateControl)))
  {
  }

  // ----- every cell exactly once ----------------------------------------------------------------

  predicate IsVisit(slot: Slot, task: nat, variant: nat, trial: nat, coordinate: nat) {
    slot.task == task && slot.variant == variant && slot.trial == trial && slot.coordinate == coordinate
  }

  function Visits(slots: seq<Slot>, task: nat, variant: nat, trial: nat, coordinate: nat): nat {
    if slots == [] then 0
    else
      (if IsVisit(slots[0], task, variant, trial, coordinate) then 1 else 0)
      + Visits(slots[1..], task, variant, trial, coordinate)
  }

  lemma {:induction false} VisitsConcat(
    a: seq<Slot>, b: seq<Slot>, task: nat, variant: nat, trial: nat, coordinate: nat)
    ensures Visits(a + b, task, variant, trial, coordinate)
            == Visits(a, task, variant, trial, coordinate) + Visits(b, task, variant, trial, coordinate)
  {
    if a == [] {
      assert a + b == b;
    } else {
      assert (a + b)[1..] == a[1..] + b;
      VisitsConcat(a[1..], b, task, variant, trial, coordinate);
    }
  }

  lemma OneVisit(slot: Slot, t: nat, v: nat, n: nat, c: nat)
    ensures Visits([slot], t, v, n, c) == if IsVisit(slot, t, v, n, c) then 1 else 0
  {
    assert [slot][1..] == [];
  }

  lemma TwoVisits(first: Slot, second: Slot, t: nat, v: nat, n: nat, c: nat)
    ensures Visits([first, second], t, v, n, c)
            == (if IsVisit(first, t, v, n, c) then 1 else 0) + (if IsVisit(second, t, v, n, c) then 1 else 0)
  {
    assert [first, second][1..] == [second];
    OneVisit(second, t, v, n, c);
  }

  lemma CellVisits(plan: Plan, task: nat, variant: nat, trial: nat, t: nat, v: nat, n: nat, c: nat)
    requires task < |plan.tasks| && variant < |plan.variants| && c < Coordinates(plan)
    ensures Visits(CellSlots(plan, task, variant, trial), t, v, n, c)
            == if t == task && v == variant && n == trial then 1 else 0
  {
    var slots := CellSlots(plan, task, variant, trial);
    if plan.paired {
      TwoVisits(slots[0], slots[1], t, v, n, c);
      assert slots == [slots[0], slots[1]];
    } else {
      OneVisit(slots[0], t, v, n, c);
      assert slots == [slots[0]];
    }
  }

  lemma {:induction false} VariantVisits(
    plan: Plan, task: nat, offset: nat, trial: nat, m: nat, t: nat, v: nat, n: nat, c: nat)
    requires Runnable(plan) && task < |plan.tasks| && m <= |plan.variants|
    requires v < |plan.variants| && c < Coordinates(plan)
    ensures Visits(VariantsUpTo(plan, task, offset, trial, m), t, v, n, c)
            == if t == task && n == trial && PositionOf(v, offset, |plan.variants|) < m then 1 else 0
  {
    if m > 0 {
      VariantVisits(plan, task, offset, trial, m - 1, t, v, n, c);
      var item := Rotate(m - 1, offset, |plan.variants|);
      VisitsConcat(VariantsUpTo(plan, task, offset, trial, m - 1), CellSlots(plan, task, item, trial), t, v, n, c);
      CellVisits(plan, task, item, trial, t, v, n, c);
      RotationVisitsOnce(m - 1, v, offset, |plan.variants|);
    }
  }

  lemma {:induction false} PositionVisits(plan: Plan, trial: nat, m: nat, t: nat, v: nat, n: nat, c: nat)
    requires Runnable(plan) && trial >= 1 && m <= |plan.tasks|
    requires t < |plan.tasks| && v < |plan.variants| && c < Coordinates(plan)
    ensures Visits(PositionsUpTo(plan, trial, m), t, v, n, c)
            == if n == trial && PositionOf(t, trial - 1, |plan.tasks|) < m then 1 else 0
  {
    if m > 0 {
      PositionVisits(plan, trial, m - 1, t, v, n, c);
      var task := Rotate(m - 1, trial - 1, |plan.tasks|);
      var offset := trial - 1 + m - 1;
      VisitsConcat(PositionsUpTo(plan, trial, m - 1),
                   VariantsUpTo(plan, task, offset, trial, |plan.variants|), t, v, n, c);
      VariantVisits(plan, task, offset, trial, |plan.variants|, t, v, n, c);
      RotationVisitsOnce(m - 1, t, trial - 1, |plan.tasks|);
    }
  }

  /** The schedule runs every task, variant, trial and coordinate exactly once,
      and nothing outside the requested trials. */
  lemma {:induction false} VisitedExactlyOnce(plan: Plan, trials: nat, t: nat, v: nat, n: nat, c: nat)
    requires Runnable(plan)
    requires t < |plan.tasks| && v < |plan.variants| && c < Coordinates(plan)
    ensures Visits(TrialsUpTo(plan, trials), t, v, n, c) == if 1 <= n <= trials then 1 else 0
  {
    if trials > 0 {
      VisitedExactlyOnce(plan, trials - 1, t, v, n, c);
      VisitsConcat(TrialsUpTo(plan, trials - 1), PositionsUpTo(plan, trials, |plan.tasks|), t, v, n, c);
      PositionVisits(plan, trials, |plan.tasks|, t, v, n, c);
    }
  }

  // ----- pair labels ----------------------------------------------------------------------------

  lemma {:induction false} SplitFirstDash(a: string, x: string, b: string, y: string)
    requires '-' !in a && '-' !in b
    requires a + "-" + x == b + "-" + y
    ensures a == b && x == y
  {
    var s, t := a + "-" + x, b + "-" + y;
    if a == "" || b == "" {
      assert s[0] == t[0];
      assert a == "" && b == "";
      assert s[1..] == x && t[1..] == y;
    } else {
      assert s[0] == a[0] && t[0] == b[0];
      assert s[1..] == a[1..] + "-" + x && t[1..] == b[1..] + "-" + y;
      SplitFirstDash(a[1..], x, b[1..], y);
      assert a == [a[0]] + a[1..] && b == [b[0]] + b[1..];
    }
  }

  lemma {:induction false} SplitLastDash(x: string, a: string, y: string, b: string)
    requires '-' !in a && '-' !in b
    requires x + "-" + a == y + "-" + b
    ensures x == y && a == b
  {
    var s, t := x + "-" + a, y + "-" + b;
    var n := |s| - 1;
    if a == "" || b == "" {
      assert s[n] == t[n];
      assert a == "" && b == "";
      assert s[..n] == x && t[..n] == y;
    } else {
      var i, j := |a| - 1, |b| - 1;
      assert s[n] == a[i] && t[n] == b[j];
      assert s[..n] == x + "-" + a[..i] && t[..n] == y + "-" + b[..j];
      SplitLastDash(x, a[..i], y, b[..j]);
      assert a == a[..i] + [a[i]] && b == b[..j] + [b[j]];
    }
  }

  lemma LabelsHaveNoDash(v: Variant)
    ensures '-' !in VariantLabel(v)
  {
  }

  lemma LabelsDiffer(v: Variant, w: Variant)
    requires VariantLabel(v) == VariantLabel(w)
    ensures v == w
  {
    assert |VariantLabel(Current)| == 7 && |VariantLabel(Recovery)| == 8 && |VariantLabel(RepositoryBrief)| == 16;
  }

  lemma PairIdSpelledOut(trial: nat, task: string, name: string)
    ensures PairId(trial, task, name) == "trial" + "-" + (Decimal.Padded(trial, 3) + "-" + (task + "-" + name))
  {
    var parts := ["trial", Decimal.Padded(trial, 3), task, name];
    assert parts[1..] == [Decimal.Padded(trial, 3), task, name];
    assert parts[1..][1..] == [task, name];
    assert parts[1..][1..][1..] == [name];
    assert Text.Join([name], "-") == name;
    assert Text.Join(parts[1..][1..], "-") == task + "-" + name;
    assert Text.Join(parts[1..], "-") == Decimal.Padded(trial, 3) + "-" + (task + "-" + name);
  }

  /** Pair ids identify trial, task and variant, whatever the task is called. */
  lemma PairIdInjective(m: nat, task: string, v: Variant, n: nat, other: string, w: Variant)
    requires PairId(m, task, VariantLabel(v)) == PairId(n, other, VariantLabel(w))
    ensures m == n && task == other && v == w
  {
    PairIdSpelledOut(m, task, VariantLabel(v));
    PairIdSpelledOut(n, other, VariantLabel(w));
    var p, q := Decimal.Padded(m, 3), Decimal.Padded(n, 3);
    var x, y := task + "-" + VariantLabel(v), other + "-" + VariantLabel(w);
    SplitFirstDash("trial", p + "-" + x, "trial", q + "-" + y);
    Decimal.PaddedDigits(m, 3);
    Decimal.PaddedDigits(n, 3);
    SplitFirstDash(p, x, q, y);
    Decimal.PaddedInjective(m, n, 3);
    LabelsHaveNoDash(v);
    LabelsHaveNoDash(w);
    SplitLastDash(task, VariantLabel(v), other, VariantLabel(w));
    LabelsDiffer(v, w);
  }

  /** The row of a scheduled episode carries the slot's coordinates and labels. */
  predicate Stamped(row: Row, plan: Plan, slot: Slot) {
    && slot.task < |plan.tasks| && slot.variant < |plan.variants|
    && row.taskId == plan.tasks[slot.task]
    && row.variant == VariantLabel(plan.variants[slot.variant])
    && row.trial == slot.trial
    && row.evaluation.pairId == slot.pairId
    && row.evaluation.pairSlot == slot.pairSlot
    && row.evaluation.pairOrder == slot.order
    && (slot.coordinate == 0 ==> IsControl(row))
    && (slot.coordinate == 1 ==> IsCandidate(row))
  }

  // ----- groups of a completed schedule ----------------------------------------------------------

  /** A slot of a paired plan is labelled after its own cell. */
  predicate Labelled(plan: Plan, slot: Slot) {
    && slot.task < |plan.tasks| && slot.variant < |plan.variants| && slot.coordinate < 2
    && var name, v := plan.tasks[slot.task], plan.variants[slot.variant];
    && slot.pairId == Some(PairId(slot.trial, name, VariantLabel(v)))
    && slot.order == Some(OrderLabel(name, v, slot.trial))
    && slot.pairSlot == Some(if ControlFirst(name, v, slot.trial) then slot.coordinate + 1 else 2 - slot.coordinate)
  }

  /** A control row and a candidate row of the same cell carry the labels the
      summary demands of a pair, whichever of them ran first. */
  lemma ScheduledPairAgrees(plan: Plan, x: Slot, y: Slot, control: Row, candidate: Row)
    requires Labelled(plan, x) && Labelled(plan, y)
    requires x.task == y.task && x.variant == y.variant && x.trial == y.trial
    requires Stamped(control, plan, x) && Stamped(candidate, plan, y) && IsControl(control) && IsCandidate(candidate)
    ensures LabelsAgree(control, candidate)
  {
    assert x.coordinate == 0 && y.coordinate == 1;
  }

  predicate AllLabelled(plan: Plan, slots: seq<Slot>) {
    forall i | 0 <= i < |slots| :: Labelled(plan, slots[i])
  }

  ghost function IsLabelled(plan: Plan): Slot -> bool {
    (slot: Slot) => Labelled(plan, slot)
  }

  lemma CellLabelled(plan: Plan, task: nat, variant: nat, trial: nat)
    requires plan.paired && task < |plan.tasks| && variant < |plan.variants|
    ensures All(CellSlots(plan, task, variant, trial), IsLabelled(plan))
  {
  }

  lemma TaskLabelled(plan: Plan, trial: nat, position: nat)
    requires plan.paired && Runnable(plan) && trial >= 1
    ensures All(TaskBlock(plan, trial)(position), IsLabelled(plan))
  {
    forall vp: nat | vp < |plan.variants| ensures All(CellBlock(plan, trial, position)(vp), IsLabelled(plan)) {
      CellLabelled(plan, (position + (trial - 1) % |plan.tasks|) % |plan.tasks|,
                   (vp + (trial - 1 + position) % |plan.variants|) % |plan.variants|, trial);
    }
    AllBlocks(|plan.variants|, CellBlock(plan, trial, position), IsLabelled(plan));
  }

  lemma TrialLabelled(plan: Plan, done: nat)
    requires plan.paired && Runnable(plan)
    ensures All(TrialBlock(plan)(done), IsLabelled(plan))
  {
    var block := TaskBlock(plan, done + 1);
    forall position: nat | position < |plan.tasks| ensures All(block(position), IsLabelled(plan)) {
      TaskLabelled(plan, done + 1, position);
    }
    AllBlocks(|plan.tasks|, block, IsLabelled(plan));
  }

  lemma ScheduleLabelled(plan: Plan, trials: nat)
    requires plan.paired && Runnable(plan)
    ensures AllLabelled(plan, TrialsUpTo(plan, trials))
  {
    forall done: nat | done < trials ensures All(TrialBlock(plan)(done), IsLabelled(plan)) {
      TrialLabelled(plan, done);
    }
    AllBlocks(trials, TrialBlock(plan), IsLabelled(plan));
    ScheduleInBlocks(plan, trials);
    AllMeansLabelled(plan, TrialsUpTo(plan, trials));
  }

  lemma AllMeansLabelled(plan: Plan, slots: seq<Slot>)
    requires All(slots, IsLabelled(plan))
    ensures AllLabelled(plan, slots)
  {
    forall i | 0 <= i < |slots| ensures Labelled(plan, slots[i]) {
      assert IsLabelled(plan)(slots[i]);
    }
  }

  predicate NamesDistinct(plan: Plan) {
    && (forall i, j | 0 <= i < j < |plan.tasks| :: plan.tasks[i] != plan.tasks[j])
    && (forall i, j | 0 <= i < j < |plan.variants| :: plan.variants[i] != plan.variants[j])
  }

  lemma SlotOwnsId(plan: Plan, slot: Slot, t: nat, v: nat, n: nat)
    requires NamesDistinct(plan) && Labelled(plan, slot) && t < |plan.tasks| && v < |plan.variants|
    ensures slot.pairId == Some(PairId(n, plan.tasks[t], VariantLabel(plan.variants[v])))
            <==> IsVisit(slot, t, v, n, 0) || IsVisit(slot, t, v, n, 1)
  {
    if slot.pairId == Some(PairId(n, plan.tasks[t], VariantLabel(plan.variants[v]))) {
      PairIdInjective(slot.trial, plan.tasks[slot.task], plan.variants[slot.variant],
                      n, plan.tasks[t], plan.variants[v]);
    }
  }

  /** Rows recorded slot by slot: a pair's group is as large as its visits. */
  lemma {:induction false} GroupIsVisits(plan: Plan, slots: seq<Slot>, rows: seq<Row>, t: nat, v: nat, n: nat)
    requires NamesDistinct(plan) && AllLabelled(plan, slots) && t < |plan.tasks| && v < |plan.variants|
    requires |rows| == |slots| && forall i | 0 <= i < |slots| :: Stamped(rows[i], plan, slots[i])
    ensures |GroupOf(rows, PairId(n, plan.tasks[t], VariantLabel(plan.variants[v])))|
            == Visits(slots, t, v, n, 0) + Visits(slots, t, v, n, 1)
  {
    if slots != [] {
      var k := |slots| - 1;
      GroupIsVisits(plan, slots[..k], rows[..k], t, v, n);
      VisitsExtend(slots, t, v, n, 0);
      VisitsExtend(slots, t, v, n, 1);
      assert Stamped(rows[k], plan, slots[k]);
      RowJoinsGroup(plan, slots[k], rows[k], t, v, n);
    }
  }

  lemma VisitsExtend(slots: seq<Slot>, t: nat, v: nat, n: nat, c: nat)
    requires slots != []
    ensures
      var k := |slots| - 1;
      Visits(slots, t, v, n, c) == Visits(slots[..k], t, v, n, c) + if IsVisit(slots[k], t, v, n, c) then 1 else 0
  {
    var k := |slots| - 1;
    assert slots == slots[..k] + [slots[k]];
    VisitsConcat(slots[..k], [slots[k]], t, v, n, c);
    OneVisit(slots[k], t, v, n, c);
  }

  lemma RowJoinsGroup(plan: Plan, slot: Slot, row: Row, t: nat, v: nat, n: nat)
    requires NamesDistinct(plan) && Labelled(plan, slot) && t < |plan.tasks| && v < |plan.variants|
    requires Stamped(row, plan, slot)
    ensures (if HasPairId(row, PairId(n, plan.tasks[t], VariantLabel(plan.variants[v]))) then 1 else 0)
            == (if IsVisit(slot, t, v, n, 0) then 1 else 0) + (if IsVisit(slot, t, v, n, 1) then 1 else 0)
  {
    SlotOwnsId(plan, slot, t, v, n);
  }

  /** When every scheduled episode of a paired plan leaves its row, each pair
      id groups exactly two rows. */
  lemma ScheduledGroupsAreWhole(plan: Plan, rows: seq<Row>, t: nat, v: nat, n: nat)
    requires plan.paired && Runnable(plan) && NamesDistinct(plan)
    requires t < |plan.tasks| && v < |plan.variants| && 1 <= n <= plan.trials
    requires var slots := TrialsUpTo(plan, plan.trials);
             |rows| == |slots| && forall i | 0 <= i < |slots| :: Stamped(rows[i], plan, slots[i])
    ensures |GroupOf(rows, PairId(n, plan.tasks[t], VariantLabel(plan.variants[v])))| == 2
  {
    ScheduleLabelled(plan, plan.trials);
    GroupIsVisits(plan, TrialsUpTo(plan, plan.trials), rows, t, v, n);
    VisitedExactlyOnce(plan, plan.trials, t, v, n, 0);
    VisitedExactlyOnce(plan, plan.trials, t, v, n, 1);
  }
}
