/**
  Mean, variance and outlier threshold of the fault detector, over exact reals.

  The source takes `std_dev.ceil()`, never less than one, of the square root of the variance.
  That number is the least natural `c >= 1` whose square is at least the variance, so no
  square root is needed.
 */
module Statistics {
  import opened Wrappers

  const STD_DEVS_AWAY: nat := 3

  function Sum(data: seq<real>): real {
    if data == [] then 0.0 else Sum(data[..|data| - 1]) + data[|data| - 1]
  }

  /** The squared distances of the data from `centre`. */
  function Squares(data: seq<real>, centre: real): (r: seq<real>)
    ensures |r| == |data|
  {
    if data == [] then []
    else
      var diff := centre - data[|data| - 1];
      Squares(data[..|data| - 1], centre) + [diff * diff]
  }

  ghost predicate NonNegative(data: seq<real>) {
    forall i :: 0 <= i < |data| ==> data[i] >= 0.0
  }

  function MeanOf(data: seq<real>): Option<real> {
    if |data| > 0 then Some(Sum(data) / |data| as real) else None
  }

  function Variance(data: seq<real>): Option<real> {
    match MeanOf(data)
    case Some(mean) => Some(Sum(Squares(data, mean)) / |data| as real)
    case None => None
  }

  /** `c` is the square root of `v` rounded up, but at least one. */
  ghost predicate IsRootCeiling(c: nat, v: real) {
    && 1 <= c
    && v <= (c * c) as real
    && (1 < c ==> ((c - 1) * (c - 1)) as real < v)
  }

  function RootCeiling(v: real, from: nat := 1): (c: nat)
    requires 1 <= from
    requires 1 < from ==> ((from - 1) * (from - 1)) as real < v
    ensures IsRootCeiling(c, v)
    decreases if v <= (from * from) as real then 0 else v.Floor + 2 - from
  {
    if v <= (from * from) as real then from
    else
      assert from <= from * from;
      RootCeiling(v, from + 1)
  }

  lemma SquareMonotone(a: nat, b: nat)
    requires a <= b
    ensures a * a <= b * b
  {
    assert b * b == a * a + (b - a) * (b + a);
  }

  /** No natural number from one up whose square reaches the variance is smaller. */
  lemma RootCeilingIsLeast(c: nat, v: real, other: nat)
    requires IsRootCeiling(c, v)
    requires 1 <= other && v <= (other * other) as real
    ensures c <= other
  {
    if other < c {
      SquareMonotone(other, c - 1);
    }
  }

  /** Three rounded-up standard deviations above the rounded-down mean. */
  function Threshold(data: seq<real>): nat
    requires NonNegative(data)
  {
    SumNonNegative(data);
    var mean := match MeanOf(data) case Some(m) => m case None => 1.0;
    var variance := match Variance(data) case Some(v) => v case None => 1.0;
    ThresholdAt(RootCeiling(variance), mean)
  }

  /** The threshold for a rounded-up standard deviation `c`; it stays more than `3 * c - 1` above the mean. */
  function ThresholdAt(c: nat, mean: real): (t: nat)
    requires 0.0 <= mean
    ensures mean + 3.0 * c as real - 1.0 < t as real
    ensures t == 3 * c + mean.Floor
  {
    STD_DEVS_AWAY * c + mean.Floor
  }

  lemma SumNonNegative(data: seq<real>)
    requires NonNegative(data)
    ensures Sum(data) >= 0.0
    ensures |data| > 0 ==> Sum(data) / |data| as real >= 0.0
  {
    if data != [] {
      SumNonNegative(data[..|data| - 1]);
    }
  }

  /** A score is compared with the threshold after truncation to an integer. */
  predicate Exceeds(score: real, threshold: nat) {
    threshold <= score.Floor && 1 < threshold
  }

  function CountExceeding(data: seq<real>, threshold: nat): nat {
    if data == [] then 0
    else
      CountExceeding(data[..|data| - 1], threshold)
      + if Exceeds(data[|data| - 1], threshold) then 1 else 0
  }

  /** `n` copies of `e`, added up. */
  function Times(n: nat, e: real): real {
    if n == 0 then 0.0 else Times(n - 1, e) + e
  }

  lemma Distribute(k: real, x: real, y: real, sum: real)
    requires sum == x + y
    ensures k * sum == k * x + k * y
  {}

  lemma {:induction false} TimesIsProduct(n: nat, e: real)
    ensures Times(n, e) == e * n as real
  {
    if n > 0 {
      TimesIsProduct(n - 1, e);
      Distribute(e, (n - 1) as real, 1.0, n as real);
    }
  }

  lemma {:induction false} SquaresAt(data: seq<real>, centre: real, i: nat)
    requires i < |data|
    ensures Squares(data, centre)[i] == (centre - data[i]) * (centre - data[i])
  {
    if i < |data| - 1 {
      SquaresAt(data[..|data| - 1], centre, i);
    }
  }

  /** The differences from `centre`, each scaled by `k`. */
  function ScaledDifferences(data: seq<real>, centre: real, k: real): (r: seq<real>)
    ensures |r| == |data|
  {
    if data == [] then []
    else ScaledDifferences(data[..|data| - 1], centre, k) + [k * (data[|data| - 1] - centre)]
  }

  lemma {:induction false} ScaledDifferencesAt(data: seq<real>, centre: real, k: real, i: nat)
    requires i < |data|
    ensures ScaledDifferences(data, centre, k)[i] == k * (data[i] - centre)
  {
    if i < |data| - 1 {
      ScaledDifferencesAt(data[..|data| - 1], centre, k, i);
    }
  }

  lemma {:induction false} SumOfMultiples(a: seq<real>, b: seq<real>, k: real)
    requires |a| == |b|
    requires forall i :: 0 <= i < |a| ==> a[i] == k * b[i]
    ensures Sum(a) == k * Sum(b)
  {
    if a != [] {
      var n := |a| - 1;
      SumOfMultiples(a[..n], b[..n], k);
      Distribute(k, Sum(b[..n]), b[n], Sum(b));
    }
  }

  function Differences(data: seq<real>, centre: real): (r: seq<real>)
    ensures |r| == |data|
    ensures forall i :: 0 <= i < |r| ==> r[i] == data[i] - centre
  {
    seq(|data|, i requires 0 <= i < |data| => data[i] - centre)
  }

  lemma {:induction false} SumOfDifferences(data: seq<real>, centre: real)
    ensures Sum(Differences(data, centre)) == Sum(data) - Times(|data|, centre)
  {
    if data != [] {
      var n := |data| - 1;
      SumOfDifferences(data[..n], centre);
      assert Differences(data, centre)[..n] == Differences(data[..n], centre);
    }
  }

  /** Scaled differences from the mean cancel out. */
  lemma ScaledDifferencesCancel(data: seq<real>, mean: real, k: real)
    requires Sum(data) == Times(|data|, mean)
    ensures Sum(ScaledDifferences(data, mean, k)) == 0.0
  {
    var d := Differences(data, mean);
    forall i | 0 <= i < |data|
      ensures ScaledDifferences(data, mean, k)[i] == k * d[i]
    {
      ScaledDifferencesAt(data, mean, k, i);
    }
    SumOfMultiples(ScaledDifferences(data, mean, k), d, k);
    SumOfDifferences(data, mean);
  }

  lemma ProductMonotone(a: real, b: real, c: real)
    requires a <= b && 0.0 <= c
    ensures a * c <= b * c
  {}

  lemma StrictProduct(a: real, b: real, c: real)
    requires a < b && 0.0 < c
    ensures a * c < b * c
  {}

  lemma SquareBound(low: real, x: real)
    requires 0.0 <= low <= x
    ensures low * low <= x * x
  {
    ProductMonotone(low, x, low);
    ProductMonotone(low, x, x);
  }

  /** About a point half of `c` below `centre`, completing the square. */
  lemma CompleteSquare(centre: real, x: real, c: real, far: real)
    requires 0.0 <= far
    ensures (centre - x) * (centre - x) + c * (x - centre) + 0.25 * (c * c) >= 0.0
    ensures far <= x - centre + 0.5 * c ==>
              far * far <= (centre - x) * (centre - x) + c * (x - centre) + 0.25 * (c * c)
  {
    var d := x - centre;
    var e := d + 0.5 * c;
    assert (centre - x) * (centre - x) == d * d;
    assert e * e == d * d + c * d + 0.25 * (c * c);
    if far <= e {
      SquareBound(far, e);
    }
  }

  lemma ElementWeight(data: seq<real>, centre: real, c: real, far: real, i: nat, quarter: real, w: real)
    requires i < |data| && 0.0 <= far
    requires quarter == 0.25 * (c * c) && w == far * far
    ensures Squares(data, centre)[i] + ScaledDifferences(data, centre, c)[i] + quarter
         >= if far <= data[i] - centre + 0.5 * c then w else 0.0
  {
    SquaresAt(data, centre, i);
    ScaledDifferencesAt(data, centre, c, i);
    CompleteSquare(centre, data[i], c, far);
  }

  /** If every entry brings its share, the exceeding entries' weights are covered by the sums. */
  lemma {:induction false} WeightsAddUp(data: seq<real>, a: seq<real>, b: seq<real>, e: real, threshold: nat, w: real)
    requires |a| == |b| == |data|
    requires forall i :: 0 <= i < |data| ==> a[i] + b[i] + e >= if Exceeds(data[i], threshold) then w else 0.0
    ensures Times(CountExceeding(data, threshold), w) <= Sum(a) + Sum(b) + Times(|data|, e)
  {
    if data != [] {
      var n := |data| - 1;
      WeightsAddUp(data[..n], a[..n], b[..n], e, threshold, w);
    }
  }

  lemma ExceedingWeight(data: seq<real>, centre: real, c: real, threshold: nat, far: real, quarter: real, w: real)
    requires 0.0 <= far && far == threshold as real - centre + 0.5 * c
    requires quarter == 0.25 * (c * c) && 0.0 <= w == far * far
    ensures Times(CountExceeding(data, threshold), w)
         <= Sum(Squares(data, centre)) + Sum(ScaledDifferences(data, centre, c)) + Times(|data|, quarter)
  {
    forall i | 0 <= i < |data|
      ensures Squares(data, centre)[i] + ScaledDifferences(data, centre, c)[i] + quarter
           >= if Exceeds(data[i], threshold) then w else 0.0
    {
      ElementWeight(data, centre, c, far, i, quarter, w);
    }
    WeightsAddUp(data, Squares(data, centre), ScaledDifferences(data, centre, c), quarter, threshold, w);
  }

  lemma SquareStrict(c: real, far: real)
    requires 1.0 <= c && 2.5 * c < far
    ensures 1.0 <= c * c && 6.25 * (c * c) < far * far
  {
    SquareBound(1.0, c);
    assert (2.5 * c) * (2.5 * c) == 6.25 * (c * c);
    ProductMonotone(2.5 * c, far, 2.5 * c);
    assert (2.5 * c) * far < far * far by { assert (far - 2.5 * c) * far > 0.0; }
  }

  lemma {:induction false} TimesMonotone(n: nat, d: real, e: real)
    requires d <= e
    ensures Times(n, d) <= Times(n, e)
    ensures 0 < n && d < e ==> Times(n, d) < Times(n, e)
  {
    if n > 0 {
      TimesMonotone(n - 1, d, e);
    }
  }

  lemma {:induction false} TimesMore(m: nat, n: nat, e: real)
    requires m <= n && 0.0 <= e
    ensures Times(m, e) <= Times(n, e)
  {
    if m < n {
      TimesMore(m, n - 1, e);
    }
  }

  lemma {:induction false} TimesOfSum(n: nat, d: real, e: real)
    ensures Times(n, d) + Times(n, e) == Times(n, d + e)
  {
    if n > 0 {
      TimesOfSum(n - 1, d, e);
    }
  }

  lemma {:induction false} TimesFive(k: nat, e: real)
    ensures Times(5 * k, e) == Times(k, 5.0 * e)
  {
    if k > 0 {
      TimesFive(k - 1, e);
      assert Times(5 * k, e) == Times(5 * k - 2, e) + 2.0 * e;
      assert Times(5 * k - 2, e) == Times(5 * k - 4, e) + 2.0 * e;
    }
  }

  /** The arithmetic heart: `k` weights above `6.25 * v` within `n` shares of `1.25 * v`. */
  lemma OneSided(k: nat, n: nat, v: real, w: real)
    requires 0 < k && 0.0 <= v && 6.25 * v < w
    requires Times(k, w) <= Times(n, v) + Times(n, 0.25 * v)
    ensures 5 * k < n
  {
    if n <= 5 * k {
      TimesOfSum(n, v, 0.25 * v);
      TimesMore(n, 5 * k, 1.25 * v);
      TimesFive(k, 1.25 * v);
      TimesMonotone(k, 6.25 * v, w);
    }
  }

  lemma FewExceed(data: seq<real>, mean: real, variance: real, c: real, v: real, threshold: nat)
    requires Sum(data) == Times(|data|, mean)
    requires Sum(Squares(data, mean)) == Times(|data|, variance)
    requires variance <= v == c * c && 1.0 <= c
    requires mean + 3.0 * c - 1.0 < threshold as real
    requires 0 < CountExceeding(data, threshold)
    ensures 5 * CountExceeding(data, threshold) < |data|
  {
    var far := threshold as real - mean + 0.5 * c;
    var w := far * far;
    SquareStrict(c, far);
    ExceedingWeight(data, mean, c, threshold, far, 0.25 * v, w);
    ScaledDifferencesCancel(data, mean, c);
    TimesMonotone(|data|, variance, v);
    OneSided(CountExceeding(data, threshold), |data|, v, w);
  }

  lemma DivideAndMultiply(s: real, n: nat)
    requires n > 0
    ensures Times(n, s / n as real) == s
  {
    TimesIsProduct(n, s / n as real);
  }

  lemma SquareAsReal(c: nat)
    ensures (c * c) as real == c as real * c as real
  {}

  lemma FewExceedThreshold(data: seq<real>, mean: real, variance: real, c: nat, threshold: nat)
    requires Sum(data) == Times(|data|, mean)
    requires Sum(Squares(data, mean)) == Times(|data|, variance)
    requires 1 <= c && variance <= (c * c) as real
    requires mean + 3.0 * c as real - 1.0 < threshold as real
    requires data != []
    ensures 5 * CountExceeding(data, threshold) < |data|
  {
    SquareAsReal(c);
    if CountExceeding(data, threshold) > 0 {
      FewExceed(data, mean, variance, c as real, (c * c) as real, threshold);
    }
  }

  /**
    One-sided Chebyshev bound of the threshold: of a non-empty list of non-negative scores,
    strictly fewer than a fifth reach it.
   */
  lemma FewerThanAFifthExceed(data: seq<real>)
    requires data != [] && NonNegative(data)
    ensures 5 * CountExceeding(data, Threshold(data)) < |data|
  {
    var mean := MeanOf(data).value;
    DivideAndMultiply(Sum(data), |data|);
    DivideAndMultiply(Sum(Squares(data, mean)), |data|);
    FewExceedThreshold(data, mean, Variance(data).value, RootCeiling(Variance(data).value), Threshold(data));
  }
}
