/** The running mean and variance of one pixel over a sequence of frames (analyze,
    Scripts/AnalyzeBenchmarkSequence.py:484-510): the one-pass update computes what two passes would. */
module SequenceVariance {
  import opened Sums

  function Times(x: real, y: real): real {
    x * y
  }

  // The sum of squared distances from c, over the first n samples.
  function Spread(xs: seq<real>, c: real, n: nat): real
    requires n <= |xs|
  {
    if n == 0 then 0.0 else Spread(xs, c, n - 1) + Times(xs[n - 1] - c, xs[n - 1] - c)
  }

  predicate IsMean(xs: seq<real>, m: real, n: nat)
    requires n <= |xs|
  {
    Times(n as real, m) == Sum(xs, n)
  }

  // Moving the reference point.
  lemma {:induction false} SpreadMoves(xs: seq<real>, c: real, d: real, n: nat)
    requires n <= |xs|
    ensures Spread(xs, d, n) ==
              Spread(xs, c, n) + 2.0 * Times(c - d, Sum(xs, n) - Times(n as real, c))
                  + Times(n as real, Times(c - d, c - d))
  {
    if n == 0 {
      NothingTimes(c - d);
    } else {
      SpreadMoves(xs, c, d, n - 1);
      TermMoves(xs[n - 1], c, d, Sum(xs, n - 1), (n - 1) as real);
      assert n as real == (n - 1) as real + 1.0;
    }
  }

  lemma NothingTimes(x: real)
    ensures Times(0.0, x) == 0.0 && Times(x, 0.0) == 0.0
  {
  }

  lemma {:induction false} TermMoves(x: real, c: real, d: real, sum: real, n: real)
    ensures Times(x - d, x - d) + 2.0 * Times(c - d, sum - Times(n, c)) + Times(n, Times(c - d, c - d)) ==
              Times(x - c, x - c) + 2.0 * Times(c - d, sum + x - Times(n + 1.0, c))
                  + Times(n + 1.0, Times(c - d, c - d))
  {
    var e, f := c - d, x - c;
    assert (f + e) * (f + e) == f * f + 2.0 * (e * f) + e * e;
    assert (n + 1.0) * c == n * c + c;
    assert e * (sum - n * c + f) == e * (sum - n * c) + e * f;
    assert (n + 1.0) * (e * e) == n * (e * e) + e * e;
  }

  // One sample more: with e the step of the mean, both sides are n (n - 1) e e.
  lemma {:induction false} UpdateIsExact(xs: seq<real>, c: real, d: real, n: nat)
    requires 0 < n <= |xs| && IsMean(xs, c, n - 1) && Times(n as real, d - c) == xs[n - 1] - c
    ensures IsMean(xs, d, n)
    ensures Spread(xs, d, n) == Spread(xs, c, n - 1) + Times(xs[n - 1] - c, xs[n - 1] - d)
  {
    hide Times;
    var m, x, e := n as real, xs[n - 1], d - c;
    SpreadMoves(xs, c, d, n - 1);
    NothingTimes(c - d);
    StepOfTheMean(m, c, e);
    StepOfTheSpread(m, e, x - c);
    assert x - d == x - c - e && c - d == -e && (n - 1) as real == m - 1.0;
  }

  lemma StepOfTheMean(m: real, c: real, e: real)
    ensures Times(m, c + e) == Times(m - 1.0, c) + c + Times(m, e)
  {
  }

  lemma StepOfTheSpread(m: real, e: real, f: real)
    requires Times(m, e) == f
    ensures Times(m - 1.0, Times(-e, -e)) + Times(f - e, f - e) == Times(f, f - e)
  {
    assert f - e == (m - 1.0) * e;
    assert (f - e) * (f - e) == (m - 1.0) * e * (f - e);
    assert (m - 1.0) * (e * e) == (f - e) * e;
  }

  lemma {:induction false} SpreadNotNegative(xs: seq<real>, c: real, n: nat)
    requires n <= |xs|
    ensures Spread(xs, c, n) >= 0.0
  {
    hide Times;
    if n > 0 {
      SpreadNotNegative(xs, c, n - 1);
      SquareNotNegative(xs[n - 1] - c);
    }
  }

  lemma SquareNotNegative(x: real)
    ensures Times(x, x) >= 0.0
  {
    if x < 0.0 {
      assert (-x) * (-x) >= 0.0;
    }
  }

  // The loop over the frames; the clamp at zero never has anything to do.
  method Analyze(xs: seq<real>) returns (mean: real, variance: real)
    requires |xs| >= 2
    ensures mean == Total(xs) / |xs| as real
    ensures variance == Spread(xs, mean, |xs|) / (|xs| - 1) as real && variance >= 0.0
  {
    hide Spread, Sum;
    mean := 0.0;
    var m2 := 0.0;
    NoSamples(xs);
    for k := 0 to |xs|
      invariant IsMean(xs, mean, k) && m2 == Spread(xs, mean, k)
    {
      var delta := xs[k] - mean;
      ghost var before := mean;
      mean := mean + delta / (k + 1) as real;
      m2 := m2 + Times(delta, xs[k] - mean);
      Quotient(delta, (k + 1) as real);
      assert mean - before == delta / (k + 1) as real;
      UpdateIsExact(xs, before, mean, k + 1);
    }
    SpreadNotNegative(xs, mean, |xs|);
    MeanOf(mean, Sum(xs, |xs|), |xs| as real);
    Share(m2, (|xs| - 1) as real);
    variance := m2 / (|xs| - 1) as real;
    if variance < 0.0 {
      variance := 0.0;
    }
  }

  lemma NoSamples(xs: seq<real>)
    ensures IsMean(xs, 0.0, 0) && Spread(xs, 0.0, 0) == 0.0
  {
  }

  lemma Quotient(x: real, n: real)
    requires n > 0.0
    ensures Times(n, x / n) == x
  {
  }

  lemma MeanOf(m: real, sum: real, n: real)
    requires n > 0.0 && Times(n, m) == sum
    ensures m == sum / n
  {
  }

  lemma Share(x: real, n: real)
    requires x >= 0.0 && n > 0.0
    ensures x / n >= 0.0
  {
  }
}
