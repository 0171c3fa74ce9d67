/** A group in which exactly one node has a score: when does the threshold flag it? */
module LoneOffender {
  import opened Wrappers
  import opened Statistics

  /** All scores are zero, except the one at `i`. */
  ghost predicate IsLone(data: seq<real>, i: nat) {
    i < |data| && forall j :: 0 <= j < |data| && j != i ==> data[j] == 0.0
  }

  lemma DistanceOfZero(m: real, x: real, mm: real)
    requires x == 0.0 && mm == m * m
    ensures (m - x) * (m - x) == mm
  {
    assert m - x == m;
  }

  lemma {:induction false} ZeroSquares(data: seq<real>, m: real, mm: real)
    requires forall j :: 0 <= j < |data| ==> data[j] == 0.0
    requires mm == m * m
    ensures Sum(data) == 0.0 && Sum(Squares(data, m)) == Times(|data|, mm)
  {
    if data != [] {
      var n := |data| - 1;
      ZeroSquares(data[..n], m, mm);
      assert Squares(data, m)[..n] == Squares(data[..n], m);
      DistanceOfZero(m, data[n], mm);
    }
  }

  lemma {:induction false} LoneSums(data: seq<real>, i: nat, m: real, mm: real, dd: real)
    requires IsLone(data, i)
    requires mm == m * m && dd == (m - data[i]) * (m - data[i])
    ensures Sum(data) == data[i]
    ensures Sum(Squares(data, m)) == Times(|data| - 1, mm) + dd
  {
    var n := |data| - 1;
    assert Squares(data, m)[..n] == Squares(data[..n], m);
    if i == n {
      ZeroSquares(data[..n], m, mm);
    } else {
      assert data[..n][i] == data[i];
      LoneSums(data[..n], i, m, mm, dd);
      DistanceOfZero(m, data[n], mm);
    }
  }

  lemma VarianceFromMean(n: nat, s: real, m: real, mm: real, dd: real, v: real, total: real)
    requires n > 0 && s == Times(n, m) && v == Times(n - 1, mm)
    requires mm == m * m && dd == (m - s) * (m - s)
    requires total == v + dd
    ensures total == Times(n, v)
  {
    var k := (n - 1) as real;
    TimesIsProduct(n, m);
    TimesIsProduct(n - 1, mm);
    TimesIsProduct(n, v);
    assert m - s == -(m * k);
    assert dd == (m * k) * (m * k);
    assert (m * k) * (m * k) == (mm * k) * k;
    assert total == (mm * k) * (1.0 + k);
  }

  lemma LoneTotal(data: seq<real>, i: nat, m: real, mm: real, dd: real)
    requires IsLone(data, i)
    requires data[i] == Times(|data|, m)
    requires mm == m * m && dd == (m - data[i]) * (m - data[i])
    ensures Sum(data) == data[i]
    ensures Sum(Squares(data, m)) == Times(|data|, Times(|data| - 1, mm))
  {
    LoneSums(data, i, m, mm, dd);
    VarianceFromMean(|data|, data[i], m, mm, dd, Times(|data| - 1, mm), Sum(Squares(data, m)));
  }

  lemma MultiplyAndDivide(v: real, n: real, total: real)
    requires n > 0.0
    ensures total == v * n <==> total / n == v
  {}

  lemma DivideTimes(n: nat, v: real)
    requires n > 0
    ensures Times(n, v) / n as real == v
  {
    TimesIsProduct(n, v);
    MultiplyAndDivide(v, n as real, Times(n, v));
  }

  lemma LoneSquares(data: seq<real>, i: nat, m: real)
    requires IsLone(data, i)
    requires data[i] == Times(|data|, m)
    ensures Sum(data) == data[i]
    ensures Sum(Squares(data, m)) == Times(|data|, LoneSpread(|data|, m))
  {
    LoneTotal(data, i, m, m * m, (m - data[i]) * (m - data[i]));
  }

  /** With one offender the variance is `n - 1` times the squared mean. */
  lemma LoneVariance(data: seq<real>, i: nat, m: real)
    requires IsLone(data, i)
    requires m == data[i] / |data| as real
    ensures MeanOf(data) == Some(m)
    ensures Variance(data) == Some(LoneSpread(|data|, m))
  {
    DivideAndMultiply(data[i], |data|);
    LoneSquares(data, i, m);
    DivideTimes(|data|, LoneSpread(|data|, m));
  }

  /** The variance of `n` scores with mean `m` of which all but one are zero. */
  function LoneSpread(n: nat, m: real): real
    requires n > 0
  {
    Times(n - 1, m * m)
  }

  /** The lone score `s` is flagged among `n` nodes. */
  ghost predicate LoneFlagged(n: nat, s: real)
    requires n > 0 && s >= 0.0
  {
    var m := s / n as real;
    Exceeds(s, ThresholdAt(RootCeiling(LoneSpread(n, m)), m))
  }

  /** The threshold of a group with one offender, worked out: nobody but the offender can reach it. */
  lemma LoneThreshold(data: seq<real>, i: nat, j: nat)
    requires IsLone(data, i) && NonNegative(data) && j < |data|
    ensures Exceeds(data[j], Threshold(data)) <==> j == i && LoneFlagged(|data|, data[i])
  {
    var m := data[i] / |data| as real;
    LoneVariance(data, i, m);
    NonNegativeMean(data);
  }

  lemma NonNegativeMean(data: seq<real>)
    requires data != [] && NonNegative(data)
    ensures 3 <= Threshold(data)
  {
    SumNonNegative(data);
  }

  /** A rounded-up 0.2875 of the score bounds the standard deviation from eleven nodes on. */
  lemma RootBound(n: nat, h: nat, m: real, c: nat)
    requires 11 <= n && m * n as real == 0.5 * h as real
    requires 23 * h <= 160 * c
    ensures LoneSpread(n, m) <= (c * c) as real
  {
    TimesIsProduct(n - 1, m * m);
    var k, w := n as real, 0.2875 * n as real;
    var mm := m * m;
    assert 0.5 * h as real * 0.2875 <= c as real;
    assert m * w == 0.5 * h as real * 0.2875;
    assert 0.0 <= m * w;
    SquareBound(m * w, c as real);
    assert (m * w) * (m * w) == mm * (w * w);
    assert w * w == 0.08265625 * (k * k);
    assert k - 1.0 <= w * w by {
      assert (k - 11.0) * (k - 1.0) >= 0.0;
    }
    ProductMonotone(k - 1.0, w * w, mm);
    assert (c * c) as real == c as real * c as real;
  }

  /** Three such bounds and an eleventh of the score stay within the truncated score from 46 on. */
  lemma HalvesSuffice(h: nat)
    requires 92 <= h
    ensures 3 * ((23 * h + 159) / 160) + h / 22 <= h / 2
  {
    var c, q, f := (23 * h + 159) / 160, h / 22, h / 2;
    assert 160 * c <= 23 * h + 159 && 22 * q <= h && h <= 2 * f + 1;
    if h < 150 {
      assert c == 14 || c == 15 || c == 16 || c == 17 || c == 18 || c == 19 || c == 20 || c == 21 || c == 22;
    }
  }

  lemma RootWithin(n: nat, h: nat, m: real)
    requires 11 <= n && m * n as real == 0.5 * h as real && 0 < h
    ensures RootCeiling(LoneSpread(n, m)) <= (23 * h + 159) / 160
  {
    var c := (23 * h + 159) / 160;
    RootBound(n, h, m, c);
    RootCeilingIsLeast(RootCeiling(LoneSpread(n, m)), LoneSpread(n, m), c);
  }

  lemma FloorOfHalf(h: nat, s: real)
    requires s == 0.5 * h as real
    ensures s.Floor == h / 2
  {
    assert (h / 2) as real <= s < (h / 2) as real + 1.0;
  }

  /** From eleven nodes on, a lone score of 46 or more (in halves) is always flagged. */
  lemma LoneFlaggedFromEleven(n: nat, h: nat)
    requires 11 <= n && 92 <= h
    ensures LoneFlagged(n, 0.5 * h as real)
  {
    var s := 0.5 * h as real;
    var m := s / n as real;
    MultiplyAndDivide(m, n as real, s);
    RootWithin(n, h, m);
    MeanBound(n, h, m);
    HalvesSuffice(h);
    FloorOfHalf(h, s);
  }

  lemma MeanBound(n: nat, h: nat, m: real)
    requires 11 <= n && m * n as real == 0.5 * h as real
    ensures 0 <= m.Floor <= h / 22
  {
    assert m >= 0.0;
    assert m * 11.0 <= 0.5 * h as real by { assert m * (n as real - 11.0) >= 0.0; }
    assert (h / 22) as real + 1.0 > h as real / 22.0;
  }

  lemma RootCeilingUnique(c: nat, v: real)
    requires IsRootCeiling(c, v)
    ensures RootCeiling(v) == c
  {
    RootCeilingIsLeast(c, v, RootCeiling(v));
    RootCeilingIsLeast(RootCeiling(v), v, c);
  }

  lemma TwentiethsSquared(h: nat, c: nat)
    ensures 3 * h <= 20 * c <==> 9 * (h * h) <= 400 * (c * c)
  {
    var a, b := 3 * h, 20 * c;
    assert a * a == 9 * (h * h) && b * b == 400 * (c * c);
    if a <= b {
      SquareMonotone(a, b);
    } else {
      SquareMonotone(b + 1, a);
      assert (b + 1) * (b + 1) == b * b + 2 * b + 1;
    }
  }

  lemma TenSpread(h: nat, m: real)
    requires m == h as real / 20.0
    ensures 400.0 * LoneSpread(10, m) == (9 * (h * h)) as real
  {
    TimesIsProduct(9, m * m);
    assert 400.0 * (m * m) == h as real * h as real;
    assert (h * h) as real == h as real * h as real;
  }

  /** Among ten nodes the rounded-up standard deviation is three tenths of the lone score, rounded up. */
  lemma TenNodeRoot(h: nat, m: real)
    requires m == h as real / 20.0
    ensures RootCeiling(LoneSpread(10, m)) == if h == 0 then 1 else (3 * h + 19) / 20
  {
    var c := if h == 0 then 1 else (3 * h + 19) / 20;
    TenSpread(h, m);
    TwentiethsSquared(h, c);
    if 1 < c {
      TwentiethsSquared(h, c - 1);
    }
    RootCeilingUnique(c, LoneSpread(10, m));
  }

  /** The remainders, in halves, that a lone score among ten nodes is flagged with. */
  predicate FlaggedRemainder(h: nat) {
    h % 20 in {0, 6, 12, 13, 18, 19}
  }

  lemma Remainders(h: nat)
    requires 0 < h
    ensures 3 * ((3 * h + 19) / 20) + h / 20 <= h / 2 <==> FlaggedRemainder(h)
  {
    var q, r := h / 20, h % 20;
    assert (3 * h + 19) / 20 == 3 * q + (3 * r + 19) / 20;
    assert h / 2 == 10 * q + r / 2;
  }

  /**
    Flagging is not monotone in the offender's own score: among ten nodes a lone score of `h` halves is
    flagged exactly with some remainders modulo ten. So 90 is flagged, and 90.5, 91 and 92.5 are not.
   */
  lemma TenNodesFlagByRemainder(h: nat)
    ensures LoneFlagged(10, 0.5 * h as real) <==> 0 < h && FlaggedRemainder(h)
  {
    var s := 0.5 * h as real;
    var m := s / 10.0;
    assert m == h as real / 20.0;
    TenNodeRoot(h, m);
    FloorOfHalf(h, s);
    assert m.Floor == h / 20 by {
      assert (h / 20) as real <= m < (h / 20) as real + 1.0;
    }
    if h > 0 {
      Remainders(h);
    }
  }

  /** With `x` the deviation of the offender, `x * x <= 8 * xm` and `5 * x <= xm`, three deviations are out of reach. */
  lemma NineAreTooFew(x: real, xm: real, c: real, cc: real, xx: real)
    requires 0.0 <= x && xx == x * x && xx <= 8.0 * xm && 5.0 * x <= xm
    requires 1.0 <= c && cc == c * c && xm <= cc
    ensures x + 1.0 <= 3.0 * c
  {
    assert (3.0 * c) * (3.0 * c) == 9.0 * cc;
    assert (x + 1.0) * (x + 1.0) == xx + 2.0 * x + 1.0;
    if 3.0 * c < x + 1.0 {
      SquareBound(3.0 * c, x + 1.0);
      assert false;
    }
  }

  lemma Reassociate(k: real, m: real)
    ensures (k * m) * m == (m * m) * k && (k * m) * (k * m) == k * ((k * m) * m)
  {}

  /** The parts of a lone score: the mean, the deviation from it, and the spread they make. */
  lemma LoneParts(n: nat, s: real, m: real, k: real, x: real)
    requires n > 0 && 0.0 <= s && m == s / n as real && k == (n - 1) as real && x == k * m
    ensures s == x + m && 0.0 <= m && LoneSpread(n, m) == x * m
  {
    MultiplyAndDivide(m, n as real, s);
    Distribute(m, k, 1.0, n as real);
    SpreadIsProduct(n, m, k, m * m);
    Reassociate(k, m);
  }

  lemma SpreadIsProduct(n: nat, m: real, k: real, mm: real)
    requires n > 0 && k == (n - 1) as real && mm == m * m
    ensures LoneSpread(n, m) == mm * k
  {
    TimesIsProduct(n - 1, mm);
  }

  lemma LoneFlaggedMeans(n: nat, s: real, m: real, c: nat)
    requires n > 0 && 0.0 <= s && m == s / n as real && c == RootCeiling(LoneSpread(n, m))
    ensures LoneFlagged(n, s) <==> 3 * c + m.Floor <= s.Floor
    ensures 1 <= c && LoneSpread(n, m) <= (c * c) as real
  {}

  lemma OutOfReach(s: real, m: real, x: real, c: nat)
    requires s == x + m && x + 1.0 <= 3.0 * c as real
    ensures s.Floor < 3 * c + m.Floor
  {}

  lemma MeanAtLeast(n: nat, s: real, m: real)
    requires n > 0 && m == s / n as real && 5.0 * n as real <= s
    ensures 5.0 <= m
  {
    MultiplyAndDivide(m, n as real, s);
    if m < 5.0 {
      StrictProduct(m, 5.0, n as real);
      assert false;
    }
  }

  lemma DeviationBounds(k: real, m: real, x: real, xm: real)
    requires 0.0 <= k <= 8.0 && 5.0 <= m && x == k * m && xm == x * m
    ensures 0.0 <= x && x * x <= 8.0 * xm && 5.0 * x <= xm
  {
    Reassociate(k, m);
    assert 0.0 <= x;
    ProductMonotone(5.0, m, x);
    ProductMonotone(k, 8.0, xm);
  }

  lemma NineOutOfReach(k: real, m: real, x: real, xm: real, c: nat, s: real)
    requires 0.0 <= k <= 8.0 && 5.0 <= m && x == k * m && xm == x * m && s == x + m
    requires 1 <= c && xm <= (c * c) as real
    ensures s.Floor < 3 * c + m.Floor
  {
    DeviationBounds(k, m, x, xm);
    SquareAsReal(c);
    NineAreTooFew(x, xm, c as real, (c * c) as real, x * x);
    OutOfReach(s, m, x, c);
  }

  /** Among nine nodes or fewer a lone score whose mean is five or more is never flagged. */
  lemma NineNeverFlag(n: nat, s: real)
    requires 0 < n <= 9 && 5.0 * n as real <= s
    ensures !LoneFlagged(n, s)
  {
    var m, k := s / n as real, (n - 1) as real;
    var x, c := k * m, RootCeiling(LoneSpread(n, m));
    LoneParts(n, s, m, k, x);
    LoneFlaggedMeans(n, s, m, c);
    MeanAtLeast(n, s, m);
    NineOutOfReach(k, m, x, x * m, c, s);
  }

  /** For which groups a lone score of 46 or more is flagged. */
  lemma LoneFlaggedExactly(n: nat, h: nat)
    requires 0 < n && 92 <= h
    ensures LoneFlagged(n, 0.5 * h as real) <==> 11 <= n || (n == 10 && FlaggedRemainder(h))
  {
    if 11 <= n {
      LoneFlaggedFromEleven(n, h);
    } else if n == 10 {
      TenNodesFlagByRemainder(h);
    } else {
      NineNeverFlag(n, 0.5 * h as real);
    }
  }

  /** 46 is the least bound for eleven nodes: a lone score of 45.5 is not flagged. */
  lemma FortyFiveAndAHalfNotFlagged()
    ensures !LoneFlagged(11, 45.5)
  {
    var m := 45.5 / 11.0;
    TimesIsProduct(10, m * m);
    assert m * m == (45.5 * 45.5) / 121.0;
    RootCeilingUnique(14, LoneSpread(11, m));
    assert m.Floor == 4;
  }
}
