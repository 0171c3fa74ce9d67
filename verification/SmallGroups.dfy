/** How far above the mean a flagged node can be in a group as small as the elders of a section. */
module SmallGroups {
  import opened Statistics
  import opened LoneOffender

  /** If no entry brings less than nothing, one entry is covered by the sums. */
  lemma {:induction false} OneWithinAll(a: seq<real>, b: seq<real>, e: real, i: nat)
    requires |a| == |b| && i < |a|
    requires forall j :: 0 <= j < |a| ==> a[j] + b[j] + e >= 0.0
    ensures a[i] + b[i] + e <= Sum(a) + Sum(b) + Times(|a|, e)
  {
    var n := |a| - 1;
    if i < n {
      OneWithinAll(a[..n], b[..n], e, i);
    } else {
      AllWithin(a[..n], b[..n], e);
    }
  }

  lemma {:induction false} AllWithin(a: seq<real>, b: seq<real>, e: real)
    requires |a| == |b|
    requires forall j :: 0 <= j < |a| ==> a[j] + b[j] + e >= 0.0
    ensures 0.0 <= Sum(a) + Sum(b) + Times(|a|, e)
  {
    if a != [] {
      var n := |a| - 1;
      AllWithin(a[..n], b[..n], e);
    }
  }

  lemma EntrySquare(data: seq<real>, mean: real, j: nat, t: real, d: real, tt: real)
    requires j < |data| && d == data[j] - mean && tt == t * t
    ensures Squares(data, mean)[j] + ScaledDifferences(data, mean, 2.0 * t)[j] + tt == (d + t) * (d + t)
  {
    SquaresAt(data, mean, j);
    ScaledDifferencesAt(data, mean, 2.0 * t, j);
    SquareOfSum(d, t, mean - data[j]);
  }

  lemma SquareOfSum(d: real, t: real, e: real)
    requires e == -d
    ensures (d + t) * (d + t) == e * e + (2.0 * t) * d + t * t
  {}

  lemma SquareIsNonNegative(d: real)
    ensures d * d >= 0.0
  {}

  lemma EntriesNonNegative(data: seq<real>, mean: real, t: real, tt: real)
    requires tt == t * t
    ensures forall j :: 0 <= j < |data| ==> Squares(data, mean)[j] + ScaledDifferences(data, mean, 2.0 * t)[j] + tt >= 0.0
  {
    forall j | 0 <= j < |data|
      ensures Squares(data, mean)[j] + ScaledDifferences(data, mean, 2.0 * t)[j] + tt >= 0.0
    {
      EntrySquare(data, mean, j, t, data[j] - mean, tt);
      SquareIsNonNegative(data[j] - mean + t);
    }
  }

  /** The squared distance of one entry from a point `t` below the mean is within all such distances. */
  lemma ShiftedSquare(data: seq<real>, mean: real, i: nat, t: real, d: real, tt: real, p: real)
    requires i < |data| && Sum(data) == Times(|data|, mean)
    requires d == data[i] - mean && tt == t * t && p == (d + t) * (d + t)
    ensures p <= Sum(Squares(data, mean)) + Times(|data|, tt)
  {
    EntriesNonNegative(data, mean, t, tt);
    OneWithinAll(Squares(data, mean), ScaledDifferences(data, mean, 2.0 * t), tt, i);
    ScaledDifferencesCancel(data, mean, 2.0 * t);
    EntrySquare(data, mean, i, t, d, tt);
  }

  lemma ShareOfOne(n: nat, k: real, v: real, d: real, t: real, tt: real)
    requires n as real == k + 1.0 && 0.0 < k && d == k * t && tt == t * t
    requires (d + t) * (d + t) <= Times(n, v) + Times(n, tt)
    ensures d * d <= k * v
  {
    TimesIsProduct(n, v);
    TimesIsProduct(n, tt);
    var r := k + 1.0;
    assert d + t == r * t;
    assert (r * t) * (r * t) == (r * r) * tt;
    assert (r * r) * tt == (r * tt) * r;
    assert (r * tt) * r <= v * r + tt * r;
    assert r * tt <= v + tt by {
      if v + tt < r * tt {
        StrictProduct(v + tt, r * tt, r);
        assert false;
      }
    }
    assert r * tt == k * tt + tt;
    ProductMonotone(k * tt, v, k);
    assert (k * tt) * k == d * d;
  }

  lemma SingleIsMean(data: seq<real>, mean: real)
    requires |data| == 1 && Sum(data) == Times(1, mean)
    ensures data[0] == mean
  {
    assert data[..0] == [];
  }

  lemma Quotient(d: real, k: real) returns (t: real)
    requires 0.0 < k
    ensures d == k * t
  {
    t := d / k;
  }

  lemma SamuelsonBy(data: seq<real>, mean: real, variance: real, i: nat, d: real, k: real, t: real)
    requires i < |data| && Sum(data) == Times(|data|, mean)
    requires Sum(Squares(data, mean)) == Times(|data|, variance)
    requires d == data[i] - mean && k == (|data| - 1) as real && 0.0 < k && d == k * t
    ensures d * d <= k * variance
  {
    ShiftedSquare(data, mean, i, t, d, t * t, (d + t) * (d + t));
    ShareOfOne(|data|, k, variance, d, t, t * t);
  }

  /** Samuelson's inequality: the squared distance of an entry from the mean is within the others' number times the variance. */
  lemma Samuelson(data: seq<real>, mean: real, variance: real, i: nat, d: real, k: real)
    requires i < |data| && Sum(data) == Times(|data|, mean)
    requires Sum(Squares(data, mean)) == Times(|data|, variance)
    requires d == data[i] - mean && k == (|data| - 1) as real
    ensures d * d <= k * variance
  {
    if |data| == 1 {
      SingleIsMean(data, mean);
      assert d == 0.0 && k == 0.0;
    } else {
      var t := Quotient(d, k);
      SamuelsonBy(data, mean, variance, i, d, k, t);
    }
  }

  lemma OneToCount(r: real, rr: real, d: real, dd: real)
    requires rr == r * r && dd == d * d && dd <= 6.0 * rr && 1.0 <= r && 3.0 * r - 1.0 < d
    ensures r < 2.0
  {
    SquareBound(3.0 * r - 1.0, d);
    assert (3.0 * r - 1.0) * (3.0 * r - 1.0) == 9.0 * rr - 6.0 * r + 1.0;
    if 2.0 <= r {
      ProductMonotone(2.0, r, r);
      assert false;
    }
  }

  /** With at most six others, whoever reaches three deviations finds only one to count, and is less than 2.5 away. */
  lemma OneDeviation(c: nat, d: real, dd: real, k: real, v: real)
    requires 1 <= c && dd == d * d && dd <= k * v && 0.0 <= v <= (c * c) as real && 0.0 <= k <= 6.0
    requires 3.0 * c as real - 1.0 < d
    ensures c == 1 && d < 2.5
  {
    SquareAsReal(c);
    ProductMonotone(k, 6.0, v);
    OneToCount(c as real, (c * c) as real, d, dd);
    if 2.5 <= d {
      SquareBound(2.5, d);
      assert false;
    }
  }

  lemma {:induction false} SquaresNonNegative(data: seq<real>, centre: real)
    ensures Sum(Squares(data, centre)) >= 0.0
  {
    if data != [] {
      var n := |data| - 1;
      SquaresNonNegative(data[..n], centre);
      assert Squares(data, centre)[..n] == Squares(data[..n], centre);
      SquareIsNonNegative(centre - data[n]);
    }
  }

  lemma NonNegativeShare(n: nat, v: real)
    requires n > 0 && 0.0 <= Times(n, v)
    ensures 0.0 <= v
  {
    TimesIsProduct(n, v);
    if v < 0.0 {
      StrictProduct(v, 0.0, n as real);
      assert false;
    }
  }

  /**
    In a group of seven or fewer whoever reaches the threshold is less than 2.5 above the mean: an offender
    that stands out more raises the threshold out of its own reach.
   */
  lemma FlaggedAreNearTheMean(data: seq<real>, i: nat)
    requires i < |data| <= 7 && NonNegative(data) && Exceeds(data[i], Threshold(data))
    ensures data[i] - MeanOf(data).value < 2.5
  {
    SumNonNegative(data);
    var mean, variance := MeanOf(data).value, Variance(data).value;
    DivideAndMultiply(Sum(data), |data|);
    DivideAndMultiply(Sum(Squares(data, mean)), |data|);
    SquaresNonNegative(data, mean);
    NonNegativeShare(|data|, variance);
    var d, k := data[i] - mean, (|data| - 1) as real;
    Samuelson(data, mean, variance, i, d, k);
    OneDeviation(RootCeiling(variance), d, d * d, k, variance);
  }

  lemma SevenAreTooFew(k: real, m: real, x: real, xm: real, c: nat, s: real)
    requires 0.0 <= k <= 6.0 && 0.0 <= m && 1 <= c && x == k * m && s == x + m && xm == x * m
    requires xm <= (c * c) as real
    ensures s.Floor < 3 * c + m.Floor
  {
    if 3 * c + m.Floor <= s.Floor {
      Reassociate(k, m);
      assert 0.0 <= xm;
      OneDeviation(c, x, x * x, k, xm);
      assert c * c == 1;
      assert 0.5 < m;
      ProductMonotone(2.0, x, m);
      assert false;
    }
  }

  /** In a group of seven or fewer an offender beside nodes without a score is never flagged, whatever its score. */
  lemma LoneNeverFlaggedAmongSeven(n: nat, s: real)
    requires 0 < n <= 7 && 0.0 <= s
    ensures !LoneFlagged(n, s)
  {
    var m, k := s / n as real, (n - 1) as real;
    var x, c := k * m, RootCeiling(LoneSpread(n, m));
    LoneParts(n, s, m, k, x);
    LoneFlaggedMeans(n, s, m, c);
    SevenAreTooFew(k, m, x, x * m, c, s);
  }

  /** Seven is the most that this holds for: among eight nodes a lone score of three is flagged. */
  lemma ThreeIsFlaggedAmongEight()
    ensures LoneFlagged(8, 3.0)
  {
    var m := 3.0 / 8.0;
    SpreadIsProduct(8, m, 7.0, m * m);
    RootCeilingUnique(1, LoneSpread(8, m));
    LoneFlaggedMeans(8, 3.0, m, 1);
  }
}
