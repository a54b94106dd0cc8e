/** Retained traces of one run never share a name: the name tells trial, task,
    variant, arm, policy and segment (`retain_autonomy_trace`). */
module RetainedNames {
  import opened Wrappers
  import opened Corpus
  import opened EvidenceRows
  import opened Episode
  import opened Schedule
  import Decimal
  import Text

  predicate Dashless(s: string) {
    '-' !in s
  }

  lemma DigitsDashless(n: nat, width: nat)
    ensures Dashless(Decimal.Padded(n, width))
  {
    Decimal.PaddedDigits(n, width);
    assert forall i | 0 <= i < |Decimal.Padded(n, width)| :: Decimal.Padded(n, width)[i] != '-';
  }

  lemma ArmDashless(arm: Arm)
    ensures Dashless(ArmLabel(arm))
  {
  }

  lemma PolicyDashless(policy: Policy)
    ensures Dashless(PolicyLabel(policy))
  {
  }

  lemma ArmLabelsDiffer(a: Arm, b: Arm)
    requires ArmLabel(a) == ArmLabel(b)
    ensures a == b
  {
    assert |ArmLabel(Single)| == 6 && |ArmLabel(Control)| == 7 && |ArmLabel(Candidate)| == 9;
  }

  lemma PolicyLabelsDiffer(a: Policy, b: Policy)
    requires PolicyLabel(a) == PolicyLabel(b)
    ensures a == b
  {
    assert |PolicyLabel(Legacy)| == 6 && |PolicyLabel(Evidence)| == 8 && |PolicyLabel(EvidencePlanner)| == 16;
  }

  /** The name without its suffix, grouped from the left. */
  function Grouped(trial: string, task: string, variant: string, arm: string, policy: string, segment: string): string {
    "trial" + "-" + (trial + "-" + (task + "-" + variant + "-" + arm + "-" + policy + "-" + segment))
  }

  lemma JoinTwo(a: string, rest: seq<string>)
    requires rest != []
    ensures Text.Join([a] + rest, "-") == a + "-" + Text.Join(rest, "-")
  {
    assert ([a] + rest)[1..] == rest;
  }

  lemma JoinSeven(a: string, b: string, c: string, d: string, e: string, f: string, g: string)
    ensures Text.Join([a, b, c, d, e, f, g], "-")
            == a + "-" + (b + "-" + (c + "-" + (d + "-" + (e + "-" + (f + "-" + g)))))
  {
    assert [a, b, c, d, e, f, g] == [a] + [b, c, d, e, f, g];
    assert [b, c, d, e, f, g] == [b] + [c, d, e, f, g];
    assert [c, d, e, f, g] == [c] + [d, e, f, g];
    assert [d, e, f, g] == [d] + [e, f, g];
    assert [e, f, g] == [e] + [f, g];
    assert [f, g] == [f] + [g];
    JoinTwo(f, [g]);
    JoinTwo(e, [f, g]);
    JoinTwo(d, [e, f, g]);
    JoinTwo(c, [d, e, f, g]);
    JoinTwo(b, [c, d, e, f, g]);
    JoinTwo(a, [b, c, d, e, f, g]);
  }

  lemma Regrouped(c: string, d: string, e: string, f: string, g: string)
    ensures c + "-" + (d + "-" + (e + "-" + (f + "-" + g))) == c + "-" + d + "-" + e + "-" + f + "-" + g
  {
  }

  function NameOf(ep: Setting, segment: nat): string {
    Grouped(Decimal.Padded(ep.trial, 3), ep.task.id, VariantLabel(ep.variant), ArmLabel(ep.coordinate.arm),
            PolicyLabel(ep.coordinate.policy), "s" + Decimal.Padded(segment, 2))
  }

  lemma NameSpelledOut(ep: Setting, segment: nat)
    ensures RetainedTraceName(ep, segment) == NameOf(ep, segment) + ".jsonl"
  {
    var b, c, d := Decimal.Padded(ep.trial, 3), ep.task.id, VariantLabel(ep.variant);
    var e, f, g := ArmLabel(ep.coordinate.arm), PolicyLabel(ep.coordinate.policy), "s" + Decimal.Padded(segment, 2);
    JoinSeven("trial", b, c, d, e, f, g);
    Regrouped(c, d, e, f, g);
  }

  /** Peeling a grouped name: the trial from the front, the rest from the back. */
  lemma GroupedInjective(
    b: string, c: string, d: string, e: string, f: string, g: string,
    b': string, c': string, d': string, e': string, f': string, g': string)
    requires Dashless(b) && Dashless(d) && Dashless(e) && Dashless(f) && Dashless(g)
    requires Dashless(b') && Dashless(d') && Dashless(e') && Dashless(f') && Dashless(g')
    requires Grouped(b, c, d, e, f, g) == Grouped(b', c', d', e', f', g')
    ensures b == b' && c == c' && d == d' && e == e' && f == f' && g == g'
  {
    var x, x' := c + "-" + d + "-" + e + "-" + f + "-" + g, c' + "-" + d' + "-" + e' + "-" + f' + "-" + g';
    SplitFirstDash("trial", b + "-" + x, "trial", b' + "-" + x');
    SplitFirstDash(b, x, b', x');
    SplitLastDash(c + "-" + d + "-" + e + "-" + f, g, c' + "-" + d' + "-" + e' + "-" + f', g');
    SplitLastDash(c + "-" + d + "-" + e, f, c' + "-" + d' + "-" + e', f');
    SplitLastDash(c + "-" + d, e, c' + "-" + d', e');
    SplitLastDash(c, d, c', d');
  }

  lemma PartsDashless(ep: Setting, segment: nat)
    ensures Dashless(Decimal.Padded(ep.trial, 3)) && Dashless(VariantLabel(ep.variant))
    ensures Dashless(ArmLabel(ep.coordinate.arm)) && Dashless(PolicyLabel(ep.coordinate.policy))
    ensures Dashless("s" + Decimal.Padded(segment, 2))
  {
    DigitsDashless(ep.trial, 3);
    DigitsDashless(segment, 2);
    LabelsHaveNoDash(ep.variant);
    ArmDashless(ep.coordinate.arm);
    PolicyDashless(ep.coordinate.policy);
  }

  /** Whatever the task is called, two retained traces with the same name belong to
      the same trial, task, variant, arm, policy and segment. */
  lemma RetainedNamesDistinct(a: Setting, m: nat, b: Setting, n: nat)
    requires RetainedTraceName(a, m) == RetainedTraceName(b, n)
    ensures a.trial == b.trial && a.task.id == b.task.id && a.variant == b.variant
    ensures a.coordinate == b.coordinate && m == n
  {
    NameSpelledOut(a, m);
    NameSpelledOut(b, n);
    SuffixCancels(NameOf(a, m), NameOf(b, n), ".jsonl");
    PartsDashless(a, m);
    PartsDashless(b, n);
    GroupedInjective(
      Decimal.Padded(a.trial, 3), a.task.id, VariantLabel(a.variant), ArmLabel(a.coordinate.arm),
      PolicyLabel(a.coordinate.policy), "s" + Decimal.Padded(m, 2),
      Decimal.Padded(b.trial, 3), b.task.id, VariantLabel(b.variant), ArmLabel(b.coordinate.arm),
      PolicyLabel(b.coordinate.policy), "s" + Decimal.Padded(n, 2));
    Decimal.PaddedInjective(a.trial, b.trial, 3);
    LabelsDiffer(a.variant, b.variant);
    ArmLabelsDiffer(a.coordinate.arm, b.coordinate.arm);
    PolicyLabelsDiffer(a.coordinate.policy, b.coordinate.policy);
    PrefixCancels("s", Decimal.Padded(m, 2), Decimal.Padded(n, 2));
    Decimal.PaddedInjective(m, n, 2);
  }

  lemma SuffixCancels(x: string, y: string, suffix: string)
    requires x + suffix == y + suffix
    ensures x == y
  {
    assert |x| == |y|;
    assert x == (x + suffix)[..|x|] && y == (y + suffix)[..|y|];
  }

  lemma PrefixCancels(prefix: string, x: string, y: string)
    requires prefix + x == prefix + y
    ensures x == y
  {
    assert x == (prefix + x)[|prefix|..] && y == (prefix + y)[|prefix|..];
  }
}
