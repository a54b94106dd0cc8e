/** Interval and quantile estimates over exact real numbers
    (`Wilson95::from_counts` and `percentile` in `ferric-bench/src/summary.rs`). */
module Statistics {

  // ----- the Wilson interval --------------------------------------------------------------

  const Z: real := 1.959963984540054

  datatype Interval = Interval(lower: real, upper: real)

  function Clamp(x: real): real {
    if x < 0.0 then 0.0 else if x > 1.0 then 1.0 else x
  }

  /** Under the root of the margin, per sample. */
  function Spread(passes: nat, samples: nat): real
    requires samples > 0
  {
    var n := samples as real;
    var p := passes as real / n;
    (p * (1.0 - p) + Z * Z / (4.0 * n)) / n
  }

  /** The non-negative square root of the spread. */
  predicate IsRoot(root: real, x: real) {
    root >= 0.0 && root * root == x
  }

  function Unclamped(passes: nat, samples: nat, root: real): Interval
    requires samples > 0
  {
    var n := samples as real;
    var p := passes as real / n;
    var denominator := 1.0 + Z * Z / n;
    var center := p + Z * Z / (2.0 * n);
    Interval((center - Z * root) / denominator, (center + Z * root) / denominator)
  }

  function Wilson(passes: nat, samples: nat, root: real): Interval {
    if samples == 0 then Interval(0.0, 1.0)
    else
      var raw := Unclamped(passes, samples, root);
      Interval(Clamp(raw.lower), Clamp(raw.upper))
  }

  lemma ProductNonNegative(a: real, b: real)
    requires a >= 0.0 && b >= 0.0
    ensures a * b >= 0.0
  {
  }

  lemma ProductMonotone(a: real, b: real, c: real)
    requires a <= b && c >= 0.0
    ensures a * c <= b * c
  {
    ProductNonNegative(b - a, c);
    assert (b - a) * c == b * c - a * c;
  }

  lemma ProductGrows(a: real, b: real, c: real)
    requires a < b && c > 0.0
    ensures a * c < b * c
  {
  }

  lemma SquareGrows(a: real, b: real)
    requires a > b >= 0.0
    ensures a * a > b * b
  {
    ProductMonotone(b, a, b);
    ProductGrows(b, a, a);
    calc {
      b * b;
    <= a * b;
    == b * a;
    < a * a;
    }
  }

  lemma SquareOrder(a: real, b: real)
    requires b >= 0.0 && a * a <= b * b
    ensures -b <= a <= b
  {
    if a > b {
      SquareGrows(a, b);
    }
    if -a > b {
      SquareGrows(-a, b);
    }
  }

  lemma SquareExpands(p: real, w: real)
    ensures (p + w / 2.0) * (p + w / 2.0) == w * (p * (1.0 - p)) + w * w / 4.0 + p * p * (1.0 + w)
  {
    assert (p + w / 2.0) * (p + w / 2.0) == p * p + p * w + w * w / 4.0;
    assert w * (p * (1.0 - p)) == p * w - p * p * w;
    assert p * p * (1.0 + w) == p * p + p * p * w;
  }

  lemma DeviationExpands(p: real, w: real)
    ensures (w / 2.0 - p * w) * (w / 2.0 - p * w) == w * w / 4.0 - w * w * (p * (1.0 - p))
  {
    var d := 0.5 - p;
    assert w / 2.0 - p * w == w * d;
    assert d * d == 0.25 - p * (1.0 - p);
    assert (w * d) * (w * d) == (w * w) * (d * d);
    assert (w * w) * (0.25 - p * (1.0 - p)) == w * w / 4.0 - w * w * (p * (1.0 - p));
  }

  /** The margin never exceeds the centre of the interval. */
  lemma MarginBelowCentre(p: real, w: real, m: real)
    requires 0.0 <= p <= 1.0 && w >= 0.0 && m >= 0.0
    requires m * m == w * (p * (1.0 - p)) + w * w / 4.0
    ensures m <= p + w / 2.0
  {
    SquareExpands(p, w);
    ProductNonNegative(p, p);
    ProductNonNegative(p * p, 1.0 + w);
    SquareOrder(m, p + w / 2.0);
  }

  /** Bounds on the margin in terms of the proportion `p` and the weight
      `w = z² / n`. */
  lemma MarginBounds(p: real, w: real, m: real)
    requires 0.0 <= p <= 1.0 && w >= 0.0 && m >= 0.0
    requires m * m == w * (p * (1.0 - p)) + w * w / 4.0
    ensures m <= p + w / 2.0
    ensures m <= 1.0 - p + w / 2.0
    ensures -m <= w / 2.0 - p * w <= m
  {
    MarginBelowCentre(p, w, m);
    assert (1.0 - p) * (1.0 - (1.0 - p)) == p * (1.0 - p);
    MarginBelowCentre(1.0 - p, w, m);
    ProductNonNegative(p, 1.0 - p);
    ProductNonNegative(w, w);
    ProductNonNegative(w, p * (1.0 - p));
    ProductNonNegative(w * w, p * (1.0 - p));
    DeviationExpands(p, w);
    SquareOrder(w / 2.0 - p * w, m);
  }

  lemma Scaled(x: real, y: real, d: real)
    requires d > 0.0 && x <= y * d
    ensures x / d <= y
  {
    assert x / d * d == x;
  }

  lemma ScaledBelow(x: real, y: real, d: real)
    requires d > 0.0 && y * d <= x
    ensures y <= x / d
  {
    assert x / d * d == x;
  }

  lemma MarginSquared(passes: nat, samples: nat, root: real, w: real, p: real)
    requires samples > 0 && passes <= samples && IsRoot(root, Spread(passes, samples))
    requires w == Z * Z / samples as real && p == passes as real / samples as real
    ensures (Z * root) * (Z * root) == w * (p * (1.0 - p)) + w * w / 4.0
  {
    var n := samples as real;
    var q := p * (1.0 - p);
    var zz := Z * Z;
    assert zz == w * n;
    assert zz / (4.0 * n) == w / 4.0;
    assert root * root == (q + w / 4.0) / n;
    assert root * root * n == q + w / 4.0;
    assert (Z * root) * (Z * root) == zz * (root * root);
    assert zz * (root * root) == w * (root * root * n);
  }

  /** The interval written with the proportion, the weight and the margin. */
  lemma UnclampedIs(passes: nat, samples: nat, root: real, p: real, w: real, m: real)
    requires samples > 0
    requires p == passes as real / samples as real && w == Z * Z / samples as real && m == Z * root
    ensures Unclamped(passes, samples, root) ==
            Interval((p + w / 2.0 - m) / (1.0 + w), (p + w / 2.0 + m) / (1.0 + w))
  {
    assert Z * Z / (2.0 * samples as real) == w / 2.0;
  }

  lemma WithinUnit(p: real, w: real, m: real) returns (i: Interval)
    requires 0.0 <= p <= 1.0 && w >= 0.0 && m >= 0.0
    requires m * m == w * (p * (1.0 - p)) + w * w / 4.0
    ensures i == Interval((p + w / 2.0 - m) / (1.0 + w), (p + w / 2.0 + m) / (1.0 + w))
    ensures 0.0 <= i.lower <= p <= i.upper <= 1.0
  {
    i := Interval((p + w / 2.0 - m) / (1.0 + w), (p + w / 2.0 + m) / (1.0 + w));
    MarginBounds(p, w, m);
    Quotients(p, w, m);
  }

  lemma ProportionInUnit(passes: nat, samples: nat)
    requires samples > 0 && passes <= samples
    ensures 0.0 <= passes as real / samples as real <= 1.0
  {
  }

  lemma WeightPositive(samples: nat)
    requires samples > 0
    ensures Z * Z / samples as real >= 0.0
  {
  }

  /** In exact arithmetic the interval lies within [0, 1] before any clamping,
      so clamping changes nothing, and it contains the observed proportion. */
  lemma WilsonContainsProportion(passes: nat, samples: nat, root: real)
    requires samples > 0 && passes <= samples
    requires IsRoot(root, Spread(passes, samples))
    ensures var raw := Unclamped(passes, samples, root);
            && 0.0 <= raw.lower <= passes as real / samples as real <= raw.upper <= 1.0
            && Wilson(passes, samples, root) == raw
  {
    var p, w, m := passes as real / samples as real, Z * Z / samples as real, Z * root;
    ProportionInUnit(passes, samples);
    WeightPositive(samples);
    MarginSquared(passes, samples, root, w, p);
    UnclampedIs(passes, samples, root, p, w, m);
    var i := WithinUnit(p, w, m);
  }

  lemma Quotients(p: real, w: real, m: real)
    requires w >= 0.0 && m <= p + w / 2.0 && m <= 1.0 - p + w / 2.0 && -m <= w / 2.0 - p * w <= m
    ensures var d, center := 1.0 + w, p + w / 2.0;
            0.0 <= (center - m) / d <= p <= (center + m) / d <= 1.0
  {
    var d, center := 1.0 + w, p + w / 2.0;
    assert p * d == p + p * w;
    Scaled(center - m, p, d);
    ScaledBelow(center - m, 0.0, d);
    Scaled(center + m, 1.0, d);
    ScaledBelow(center + m, p, d);
  }

  // ----- what the bounds are ---------------------------------------------------------------------

  /** `x` is exactly as far from the observed proportion as the 95% score test
      tolerates: the squared distance is z² times the variance at `x`. */
  predicate OnScoreCurve(x: real, passes: nat, samples: nat)
    requires samples > 0
  {
    var n := samples as real;
    var distance := x - passes as real / n;
    distance * distance == 1.959963984540054 * 1.959963984540054 * (x * (1.0 - x)) / n
  }

  /** With `dx = c + m`, the quadratic of the score curve vanishes. */
  lemma QuadraticVanishes(p: real, w: real, m: real, x: real)
    requires w >= 0.0 && m * m == w * (p * (1.0 - p)) + w * w / 4.0
    requires x * (1.0 + w) == p + w / 2.0 + m
    ensures (x - p) * (x - p) == w * (x * (1.0 - x))
  {
    var d, c := 1.0 + w, p + w / 2.0;
    SquareExpands(p, w);
    assert m * m == c * c - p * p * d;
    assert (x * d - c) * (x * d - c) == m * m;
    SquareOfDifference(x * d, c);
    assert (x * d) * (x * d) - 2.0 * (x * d) * c + p * p * d == 0.0;
    Factor(x, d, c, p);
    assert d * (x * x * d - 2.0 * x * c + p * p) == 0.0;
    ZeroFactor(d, x * x * d - 2.0 * x * c + p * p);
    CurveExpands(x, p, w);
  }

  lemma SquareOfDifference(a: real, b: real)
    ensures (a - b) * (a - b) == a * a - 2.0 * a * b + b * b
  {
  }

  lemma Factor(x: real, d: real, c: real, p: real)
    ensures (x * d) * (x * d) - 2.0 * (x * d) * c + p * p * d == d * (x * x * d - 2.0 * x * c + p * p)
  {
    assert (x * d) * (x * d) == d * (x * x * d);
    assert 2.0 * (x * d) * c == d * (2.0 * x * c);
  }

  lemma ZeroFactor(d: real, y: real)
    requires d > 0.0 && d * y == 0.0
    ensures y == 0.0
  {
  }

  lemma CurveExpands(x: real, p: real, w: real)
    ensures (x - p) * (x - p) - w * (x * (1.0 - x)) == x * x * (1.0 + w) - 2.0 * x * (p + w / 2.0) + p * p
  {
    SquareOfDifference(x, p);
    assert w * (x * (1.0 - x)) == w * x - x * x * w;
    assert x * x * (1.0 + w) == x * x + x * x * w;
    assert 2.0 * x * (p + w / 2.0) == 2.0 * x * p + w * x;
  }

  lemma OnCurve(passes: nat, samples: nat, x: real, p: real, w: real)
    requires samples > 0 && p == passes as real / samples as real && w == Z * Z / samples as real
    requires (x - p) * (x - p) == w * (x * (1.0 - x))
    ensures OnScoreCurve(x, passes, samples)
  {
    var n, y, zz := samples as real, x * (1.0 - x), Z * Z;
    assert zz / n * y == zz * y / n;
  }

  lemma DividedBack(a: real, d: real)
    requires d > 0.0
    ensures a / d * d == a
  {
  }

  lemma BoundSolves(p: real, w: real, m: real, x: real)
    requires w >= 0.0 && m * m == w * (p * (1.0 - p)) + w * w / 4.0
    requires x == (p + w / 2.0 + m) / (1.0 + w)
    ensures (x - p) * (x - p) == w * (x * (1.0 - x))
  {
    DividedBack(p + w / 2.0 + m, 1.0 + w);
    QuadraticVanishes(p, w, m, x);
  }

  lemma LowerBoundSolves(p: real, w: real, m: real, x: real)
    requires w >= 0.0 && m * m == w * (p * (1.0 - p)) + w * w / 4.0
    requires x == (p + w / 2.0 - m) / (1.0 + w)
    ensures (x - p) * (x - p) == w * (x * (1.0 - x))
  {
    assert (-m) * (-m) == m * m;
    BoundSolves(p, w, -m, x);
  }

  ghost predicate SolvesScore(i: Interval, passes: nat, samples: nat)
    requires samples > 0
  {
    OnScoreCurve(i.lower, passes, samples) && OnScoreCurve(i.upper, passes, samples)
  }

  lemma BoundsOnCurve(passes: nat, samples: nat, p: real, w: real, lower: real, upper: real)
    requires samples > 0 && p == passes as real / samples as real && w == Z * Z / samples as real
    requires (lower - p) * (lower - p) == w * (lower * (1.0 - lower))
    requires (upper - p) * (upper - p) == w * (upper * (1.0 - upper))
    ensures SolvesScore(Interval(lower, upper), passes, samples)
  {
    OnCurve(passes, samples, lower, p, w);
    OnCurve(passes, samples, upper, p, w);
  }

  lemma UnclampedSolves(passes: nat, samples: nat, root: real)
    requires samples > 0 && passes <= samples && IsRoot(root, Spread(passes, samples))
    ensures SolvesScore(Unclamped(passes, samples, root), passes, samples)
  {
    var p, w, m := passes as real / samples as real, Z * Z / samples as real, Z * root;
    var lower, upper := (p + w / 2.0 - m) / (1.0 + w), (p + w / 2.0 + m) / (1.0 + w);
    assert SolvesScore(Interval(lower, upper), passes, samples) by {
      WeightPositive(samples);
      MarginSquared(passes, samples, root, w, p);
      LowerBoundSolves(p, w, m, lower);
      BoundSolves(p, w, m, upper);
      BoundsOnCurve(passes, samples, p, w, lower, upper);
    }
    assert Unclamped(passes, samples, root) == Interval(lower, upper) by {
      UnclampedIs(passes, samples, root, p, w, m);
    }
  }

  /** The two bounds are the two proportions on the score curve around the
      observed one, which is what a Wilson interval is. */
  lemma WilsonBoundsSolveScore(passes: nat, samples: nat, root: real)
    requires samples > 0 && passes <= samples
    requires IsRoot(root, Spread(passes, samples))
    ensures var i := Wilson(passes, samples, root);
            && i.lower <= passes as real / samples as real <= i.upper
            && OnScoreCurve(i.lower, passes, samples) && OnScoreCurve(i.upper, passes, samples)
  {
    WilsonContainsProportion(passes, samples, root);
    UnclampedSolves(passes, samples, root);
  }

  // ----- percentiles ------------------------------------------------------------------------

  predicate Ascending(s: seq<real>) {
    forall i, j | 0 <= i <= j < |s| :: s[i] <= s[j]
  }

  function Ceiling(x: real): int {
    if x == x.Floor as real then x.Floor else x.Floor + 1
  }

  /** Linear interpolation between the two neighbouring order statistics. */
  function At(sorted: seq<real>, position: real): real
    requires sorted != [] && 0.0 <= position <= (|sorted| - 1) as real
  {
    var lower, upper := position.Floor, Ceiling(position);
    if lower == upper then sorted[lower]
    else sorted[lower] + (sorted[upper] - sorted[lower]) * (position - lower as real)
  }

  /** Where a probability falls between the first and the last element. */
  function PositionOf(count: nat, probability: real): real
    requires count > 0
  {
    (count - 1) as real * probability
  }

  function Percentile(sorted: seq<real>, probability: real): real
    requires sorted != [] && 0.0 <= probability <= 1.0
  {
    PositionsOrdered(|sorted|, probability, 1.0);
    At(sorted, PositionOf(|sorted|, probability))
  }

  lemma PositionsOrdered(count: nat, low: real, high: real)
    requires count > 0 && 0.0 <= low <= high <= 1.0
    ensures 0.0 <= PositionOf(count, low) <= PositionOf(count, high) <= (count - 1) as real
  {
    var top := (count - 1) as real;
    ProductNonNegative(top, low);
    ProductNonNegative(top, high - low);
    ProductNonNegative(top, 1.0 - high);
    assert top * (high - low) == top * high - top * low;
    assert top * (1.0 - high) == top - top * high;
  }

  lemma BetweenNeighbours(sorted: seq<real>, position: real)
    requires sorted != [] && Ascending(sorted) && 0.0 <= position <= (|sorted| - 1) as real
    ensures 0 <= position.Floor <= Ceiling(position) < |sorted|
    ensures sorted[position.Floor] <= At(sorted, position) <= sorted[Ceiling(position)]
  {
    var lower, upper := position.Floor, Ceiling(position);
    if lower != upper {
      var step, fraction := sorted[upper] - sorted[lower], position - lower as real;
      ProductNonNegative(step, fraction);
      ProductNonNegative(step, 1.0 - fraction);
      assert step * (1.0 - fraction) == step - step * fraction;
    }
  }

  /** Interpolation on a sorted sample is monotone in the position. */
  lemma AtMonotone(sorted: seq<real>, a: real, b: real)
    requires sorted != [] && Ascending(sorted)
    requires 0.0 <= a <= b <= (|sorted| - 1) as real
    ensures At(sorted, a) <= At(sorted, b)
  {
    BetweenNeighbours(sorted, a);
    BetweenNeighbours(sorted, b);
    if a.Floor < b.Floor {
      assert Ceiling(a) <= b.Floor;
      assert sorted[Ceiling(a)] <= sorted[b.Floor];
    } else if Ceiling(a) != a.Floor {
      var step, x, y := sorted[Ceiling(a)] - sorted[a.Floor], a - a.Floor as real, b - a.Floor as real;
      assert a.Floor == b.Floor && Ceiling(a) == Ceiling(b);
      ProductNonNegative(step, y - x);
      assert step * (y - x) == step * y - step * x;
    }
  }

  /** Percentiles stay within the sample and grow with the probability. */
  lemma PercentilesOrdered(sorted: seq<real>, low: real, high: real)
    requires sorted != [] && Ascending(sorted) && 0.0 <= low <= high <= 1.0
    ensures sorted[0] <= Percentile(sorted, low) <= Percentile(sorted, high) <= sorted[|sorted| - 1]
  {
    PositionsOrdered(|sorted|, low, high);
    var a, b := PositionOf(|sorted|, low), PositionOf(|sorted|, high);
    AtMonotone(sorted, a, b);
    BetweenNeighbours(sorted, a);
    BetweenNeighbours(sorted, b);
  }

  /** The median lies between the quartiles, so the interquartile range is
      never negative. */
  lemma QuartilesBracketMedian(sorted: seq<real>)
    requires sorted != [] && Ascending(sorted)
    ensures Percentile(sorted, 0.25) <= Percentile(sorted, 0.5) <= Percentile(sorted, 0.75)
  {
    PercentilesOrdered(sorted, 0.25, 0.5);
    PercentilesOrdered(sorted, 0.5, 0.75);
  }

  /** Between two neighbours the percentile moves on the straight line from one to
      the other. */
  lemma PercentileInterpolates(sorted: seq<real>, probability: real, i: nat, t: real)
    requires 0.0 <= probability <= 1.0 && i + 1 < |sorted| && 0.0 <= t <= 1.0
    requires (|sorted| - 1) as real * probability == i as real + t
    ensures Percentile(sorted, probability) == (1.0 - t) * sorted[i] + t * sorted[i + 1]
  {
    var position := PositionOf(|sorted|, probability);
    PositionsOrdered(|sorted|, probability, 1.0);
    assert position == i as real + t;
    if t == 0.0 {
      assert position.Floor == i && Ceiling(position) == i;
    } else if t == 1.0 {
      assert position.Floor == i + 1 && Ceiling(position) == i + 1;
    } else {
      assert position.Floor == i && Ceiling(position) == i + 1;
      assert (1.0 - t) * sorted[i] + t * sorted[i + 1] == sorted[i] + (sorted[i + 1] - sorted[i]) * t;
    }
  }

  /** The median is the middle value, or the mean of the two middle values. */
  lemma MedianIsMiddle(sorted: seq<real>)
    requires sorted != []
    ensures var k := |sorted| / 2;
            Percentile(sorted, 0.5) == if |sorted| % 2 == 1 then sorted[k] else (sorted[k - 1] + sorted[k]) / 2.0
  {
    var k := |sorted| / 2;
    if |sorted| % 2 == 0 {
      assert (|sorted| - 1) as real * 0.5 == (k - 1) as real + 0.5;
      PercentileInterpolates(sorted, 0.5, k - 1, 0.5);
    } else if |sorted| > 1 {
      assert (|sorted| - 1) as real * 0.5 == (k - 1) as real + 1.0;
      PercentileInterpolates(sorted, 0.5, k - 1, 1.0);
    } else {
      assert PositionOf(1, 0.5) == 0.0;
    }
  }
}
