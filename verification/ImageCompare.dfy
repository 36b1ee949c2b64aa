/** Comparing two captures (CompareImages, Source/McpReviewAnalysis.cpp:343-437), over the reals and
    for any map of channel bytes to linear values. */
module ImageCompare {
  import opened Bytes
  import opened Options

  datatype Image = Image(width: nat, height: nat, pixels: seq<Byte>)

  // The root of the mean squared error is left as its square.
  datatype Metrics = Metrics(
    meanSquaredError: real,
    maximumDifference: real,
    changedPixelCount: nat,
    luminanceSsim: real)

  datatype Error = ResolutionMismatch | InvalidImage

  datatype Result = Compared(metrics: Metrics) | Rejected(error: Error)

  predicate Comparable(a: Image, b: Image) {
    && a.width != 0 && a.height != 0 && a.width == b.width && a.height == b.height
    && |a.pixels| == |b.pixels| == a.width * a.height * 4
  }

  // ----- differences

  function Abs(x: real): real {
    if x < 0.0 then -x else x
  }

  function Max(x: real, y: real): real {
    if x < y then y else x
  }

  // The difference of two pixels in one channel.
  function Difference(a: seq<Byte>, b: seq<Byte>, linear: Byte -> real, p: nat, c: nat): real
    requires c < 3 && 4 * p + 4 <= |a| && 4 * p + 4 <= |b|
  {
    Abs(linear(a[4 * p + c]) - linear(b[4 * p + c]))
  }

  function PixelDifference(a: seq<Byte>, b: seq<Byte>, linear: Byte -> real, p: nat): real
    requires 4 * p + 4 <= |a| && 4 * p + 4 <= |b|
  {
    Max(Max(Difference(a, b, linear, p, 0), Difference(a, b, linear, p, 1)), Difference(a, b, linear, p, 2))
  }

  function Times(x: real, y: real): real {
    x * y
  }

  function Square(x: real): real {
    Times(x, x)
  }

  function PixelError(a: seq<Byte>, b: seq<Byte>, linear: Byte -> real, p: nat): real
    requires 4 * p + 4 <= |a| && 4 * p + 4 <= |b|
  {
    Square(Difference(a, b, linear, p, 0)) + Square(Difference(a, b, linear, p, 1))
        + Square(Difference(a, b, linear, p, 2))
  }

  // Over the first n pixels.
  function SquaredError(a: seq<Byte>, b: seq<Byte>, linear: Byte -> real, n: nat): real
    requires 4 * n <= |a| && 4 * n <= |b|
  {
    if n == 0 then 0.0 else SquaredError(a, b, linear, n - 1) + PixelError(a, b, linear, n - 1)
  }

  function MaximumDifference(a: seq<Byte>, b: seq<Byte>, linear: Byte -> real, n: nat): real
    requires 4 * n <= |a| && 4 * n <= |b|
  {
    if n == 0 then 0.0 else Max(MaximumDifference(a, b, linear, n - 1), PixelDifference(a, b, linear, n - 1))
  }

  function ChangedPixels(a: seq<Byte>, b: seq<Byte>, linear: Byte -> real, n: nat): nat
    requires 4 * n <= |a| && 4 * n <= |b|
  {
    if n == 0 then 0
    else ChangedPixels(a, b, linear, n - 1) + if PixelDifference(a, b, linear, n - 1) > 1.0 / 255.0 then 1 else 0
  }

  // ----- structural similarity

  function Luminance(a: seq<Byte>, linear: Byte -> real, p: nat): real
    requires 4 * p + 4 <= |a|
  {
    linear(a[4 * p]) * 0.2126 + linear(a[4 * p + 1]) * 0.7152 + linear(a[4 * p + 2]) * 0.0722
  }

  function Luminances(a: seq<Byte>, linear: Byte -> real, n: nat): (s: seq<real>)
    requires 4 * n <= |a|
    ensures |s| == n
  {
    if n == 0 then [] else Luminances(a, linear, n - 1) + [Luminance(a, linear, n - 1)]
  }

  function Sum(s: seq<real>): real {
    if s == [] then 0.0 else Sum(s[..|s| - 1]) + s[|s| - 1]
  }

  // The sum of products of deviations, over the first n.
  function Deviations(s: seq<real>, ms: real, t: seq<real>, mt: real, n: nat): real
    requires n <= |s| && n <= |t|
  {
    if n == 0 then 0.0 else Deviations(s, ms, t, mt, n - 1) + Times(s[n - 1] - ms, t[n - 1] - mt)
  }

  const C1 := 0.01 * 0.01
  const C2 := 0.03 * 0.03

  // One factor of the similarity: mixed terms over squares, each with a small constant.
  function Similarity(mixed: real, squares: real, c: real): real
    requires squares + c != 0.0
  {
    (mixed + c) / (squares + c)
  }

  lemma {:induction false} SquareIsPositive(x: real)
    ensures Square(x) >= 0.0
  {
    if x < 0.0 {
      assert (-x) * (-x) >= 0.0;
    }
  }

  // A product is at most the mean of the squares, in size.
  lemma {:induction false} ProductBound(x: real, y: real)
    ensures -(Square(x) + Square(y)) <= 2.0 * Times(x, y) <= Square(x) + Square(y)
  {
    SquareIsPositive(x - y);
    SquareIsPositive(x + y);
    assert (x - y) * (x - y) == x * x - 2.0 * (x * y) + y * y;
    assert (x + y) * (x + y) == x * x + 2.0 * (x * y) + y * y;
  }

  // Twice the sum of mixed products is at most the sums of squares together, in size.
  lemma {:induction false} CovarianceBound(s: seq<real>, ms: real, t: seq<real>, mt: real, n: nat)
    requires n <= |s| && n <= |t|
    ensures -(Deviations(s, ms, s, ms, n) + Deviations(t, mt, t, mt, n)) <= 2.0 * Deviations(s, ms, t, mt, n)
    ensures 2.0 * Deviations(s, ms, t, mt, n) <= Deviations(s, ms, s, ms, n) + Deviations(t, mt, t, mt, n)
  {
    hide Times;
    if n > 0 {
      CovarianceBound(s, ms, t, mt, n - 1);
      ProductBound(s[n - 1] - ms, t[n - 1] - mt);
    }
  }

  lemma {:induction false} VarianceIsPositive(s: seq<real>, m: real, n: nat)
    requires n <= |s|
    ensures Deviations(s, m, s, m, n) >= 0.0
  {
    hide Times;
    if n > 0 {
      VarianceIsPositive(s, m, n - 1);
      SquareIsPositive(s[n - 1] - m);
    }
  }

  lemma {:induction false} DeviationsSwap(s: seq<real>, ms: real, t: seq<real>, mt: real, n: nat)
    requires n <= |s| && n <= |t|
    ensures Deviations(s, ms, t, mt, n) == Deviations(t, mt, s, ms, n)
  {
    hide Times;
    if n > 0 {
      DeviationsSwap(s, ms, t, mt, n - 1);
      TimesSwaps(s[n - 1] - ms, t[n - 1] - mt);
    }
  }

  lemma TimesSwaps(x: real, y: real)
    ensures Times(x, y) == Times(y, x)
  {
  }

  lemma {:induction false} DividedBound(x: real, y: real, d: real)
    requires -y <= x <= y && d > 0.0
    ensures -(y / d) <= x / d <= y / d
  {
  }

  lemma {:induction false} SimilarityInUnit(mixed: real, squares: real, c: real)
    requires -squares <= mixed <= squares && c > 0.0
    ensures squares + c > 0.0 && -1.0 <= Similarity(mixed, squares, c) <= 1.0
  {
    DividedBound(mixed + c, squares + c, squares + c);
  }

  lemma {:induction false} CornerProducts(p: real, r: real)
    ensures Times(1.0 - p, 1.0 + r) == 1.0 + r - p - Times(p, r)
    ensures Times(1.0 + p, 1.0 - r) == 1.0 - r + p - Times(p, r)
    ensures Times(1.0 - p, 1.0 - r) == 1.0 - r - p + Times(p, r)
    ensures Times(1.0 + p, 1.0 + r) == 1.0 + r + p + Times(p, r)
  {
  }

  lemma {:induction false} ProductInUnit(p: real, r: real)
    requires -1.0 <= p <= 1.0 && -1.0 <= r <= 1.0
    ensures -1.0 <= Times(p, r) <= 1.0
  {
    hide Times;
    CornerProducts(p, r);
    NotNegative(1.0 - p, 1.0 + r);
    NotNegative(1.0 + p, 1.0 - r);
    NotNegative(1.0 - p, 1.0 - r);
    NotNegative(1.0 + p, 1.0 + r);
  }

  lemma NotNegative(x: real, y: real)
    requires x >= 0.0 && y >= 0.0
    ensures Times(x, y) >= 0.0
  {
  }

  // The divisor of the unbiased variances.
  function Divisor(n: nat): (d: real)
    ensures d > 0.0
  {
    if n > 1 then (n - 1) as real else 1.0
  }

  function Mean(s: seq<real>): real
    requires s != []
  {
    Sum(s) / |s| as real
  }

  function Spread(s: seq<real>, t: seq<real>): real
    requires s != [] && |s| == |t|
  {
    Deviations(s, Mean(s), t, Mean(t), |s|) / Divisor(|s|)
  }

  lemma {:induction false} SpreadBound(s: seq<real>, t: seq<real>)
    requires s != [] && |s| == |t|
    ensures -(Spread(s, s) + Spread(t, t)) <= 2.0 * Spread(s, t) <= Spread(s, s) + Spread(t, t)
    ensures Spread(s, s) >= 0.0 && Spread(s, t) == Spread(t, s)
  {
    hide Deviations, Mean;
    var ms, mt, d := Mean(s), Mean(t), Divisor(|s|);
    CovarianceBound(s, ms, t, mt, |s|);
    VarianceIsPositive(s, ms, |s|);
    DeviationsSwap(s, ms, t, mt, |s|);
    Shares(Deviations(s, ms, t, mt, |s|), Deviations(s, ms, s, ms, |s|), Deviations(t, mt, t, mt, |s|), d);
  }

  lemma {:induction false} Shares(c: real, v: real, w: real, d: real)
    requires -(v + w) <= 2.0 * c <= v + w && v >= 0.0 && d > 0.0
    ensures -(v / d + w / d) <= 2.0 * (c / d) <= v / d + w / d && v / d >= 0.0
  {
    DividedBound(2.0 * c, v + w, d);
    assert (v + w) / d == v / d + w / d && (2.0 * c) / d == 2.0 * (c / d);
  }

  // The two factors of the luminance similarity.
  function LuminanceFactor(s: seq<real>, t: seq<real>): real
    requires s != [] && |s| == |t|
  {
    MeansInUnit(s, t);
    Similarity(2.0 * Times(Mean(s), Mean(t)), Square(Mean(s)) + Square(Mean(t)), C1)
  }

  function StructureFactor(s: seq<real>, t: seq<real>): real
    requires s != [] && |s| == |t|
  {
    SpreadInUnit(s, t);
    Similarity(2.0 * Spread(s, t), Spread(s, s) + Spread(t, t), C2)
  }

  lemma {:induction false} MeansInUnit(s: seq<real>, t: seq<real>)
    requires s != [] && |s| == |t|
    ensures Square(Mean(s)) + Square(Mean(t)) + C1 > 0.0
    ensures -1.0 <= Similarity(2.0 * Times(Mean(s), Mean(t)), Square(Mean(s)) + Square(Mean(t)), C1) <= 1.0
  {
    hide Mean, Similarity;
    ProductBound(Mean(s), Mean(t));
    SimilarityInUnit(2.0 * Times(Mean(s), Mean(t)), Square(Mean(s)) + Square(Mean(t)), C1);
  }

  lemma {:induction false} SpreadInUnit(s: seq<real>, t: seq<real>)
    requires s != [] && |s| == |t|
    ensures Spread(s, s) + Spread(t, t) + C2 > 0.0
    ensures -1.0 <= Similarity(2.0 * Spread(s, t), Spread(s, s) + Spread(t, t), C2) <= 1.0
  {
    hide Spread, Similarity;
    SpreadBound(s, t);
    SimilarityInUnit(2.0 * Spread(s, t), Spread(s, s) + Spread(t, t), C2);
  }

  function Ssim(s: seq<real>, t: seq<real>): real
    requires s != [] && |s| == |t|
  {
    Times(LuminanceFactor(s, t), StructureFactor(s, t))
  }

  // It lies in [-1, 1], does not depend on the order, and is 1 for equal luminances.
  lemma {:induction false} SsimBounds(s: seq<real>, t: seq<real>)
    requires s != [] && |s| == |t|
    ensures -1.0 <= Ssim(s, t) <= 1.0 && Ssim(s, t) == Ssim(t, s)
    ensures Ssim(s, s) == 1.0
  {
    hide Mean, Spread, Similarity;
    MeansInUnit(s, t);
    SpreadInUnit(s, t);
    ProductInUnit(LuminanceFactor(s, t), StructureFactor(s, t));
    TimesSwaps(Mean(s), Mean(t));
    SpreadBound(s, t);
    MeansInUnit(s, s);
    SpreadInUnit(s, s);
    SimilarityOne(2.0 * Spread(s, s), C2);
    SimilarityOne(2.0 * Square(Mean(s)), C1);
  }

  lemma SimilarityOne(x: real, c: real)
    requires x + c > 0.0
    ensures Similarity(x, x, c) == 1.0
  {
    var y := x + c;
    assert y / y == 1.0;
  }

  // ----- errors

  lemma {:induction false} DifferencesSwap(a: seq<Byte>, b: seq<Byte>, linear: Byte -> real, n: nat)
    requires 4 * n <= |a| && 4 * n <= |b|
    ensures SquaredError(a, b, linear, n) == SquaredError(b, a, linear, n)
    ensures MaximumDifference(a, b, linear, n) == MaximumDifference(b, a, linear, n)
    ensures ChangedPixels(a, b, linear, n) == ChangedPixels(b, a, linear, n)
  {
    if n > 0 {
      DifferencesSwap(a, b, linear, n - 1);
      assert Difference(a, b, linear, n - 1, 0) == Difference(b, a, linear, n - 1, 0);
      assert Difference(a, b, linear, n - 1, 1) == Difference(b, a, linear, n - 1, 1);
      assert Difference(a, b, linear, n - 1, 2) == Difference(b, a, linear, n - 1, 2);
    }
  }

  lemma {:induction false} SquareGrows(x: real, m: real)
    requires 0.0 <= x <= m
    ensures Square(x) <= Square(m)
  {
    NotNegative(m - x, m + x);
    assert Times(m - x, m + x) == m * m - x * x;
  }

  // No channel differs by more than the maximum, so the mean square is at most its square.
  lemma {:induction false} ErrorBound(a: seq<Byte>, b: seq<Byte>, linear: Byte -> real, n: nat, m: real)
    requires 4 * n <= |a| && 4 * n <= |b| && MaximumDifference(a, b, linear, n) <= m
    ensures 0.0 <= SquaredError(a, b, linear, n) <= (3 * n) as real * Square(m)
    ensures MaximumDifference(a, b, linear, n) >= 0.0
  {
    hide Square, Difference;
    if n > 0 {
      ErrorBound(a, b, linear, n - 1, m);
      PixelErrorBound(a, b, linear, n - 1, m);
      assert (3 * n) as real * Square(m) == (3 * (n - 1)) as real * Square(m) + 3.0 * Square(m);
    }
  }

  lemma {:induction false} PixelErrorBound(a: seq<Byte>, b: seq<Byte>, linear: Byte -> real, p: nat, m: real)
    requires 4 * p + 4 <= |a| && 4 * p + 4 <= |b| && PixelDifference(a, b, linear, p) <= m
    ensures 0.0 <= PixelError(a, b, linear, p) <= 3.0 * Square(m)
  {
    hide Square;
    SquareGrows(Difference(a, b, linear, p, 0), m);
    SquareGrows(Difference(a, b, linear, p, 1), m);
    SquareGrows(Difference(a, b, linear, p, 2), m);
    SquareIsPositive(Difference(a, b, linear, p, 0));
    SquareIsPositive(Difference(a, b, linear, p, 1));
    SquareIsPositive(Difference(a, b, linear, p, 2));
  }

  predicate SameColour(a: seq<Byte>, b: seq<Byte>, linear: Byte -> real, p: nat)
    requires 4 * p + 4 <= |a| && 4 * p + 4 <= |b|
  {
    Difference(a, b, linear, p, 0) == 0.0 && Difference(a, b, linear, p, 1) == 0.0
        && Difference(a, b, linear, p, 2) == 0.0
  }

  predicate SameColours(a: seq<Byte>, b: seq<Byte>, linear: Byte -> real, n: nat)
    requires 4 * n <= |a| && 4 * n <= |b|
  {
    forall p :: 0 <= p < n ==> SameColour(a, b, linear, p)
  }

  // The error is zero exactly when no colour channel differs; alpha is not looked at.
  lemma {:induction false} NoErrorExactly(a: seq<Byte>, b: seq<Byte>, linear: Byte -> real, n: nat)
    requires 4 * n <= |a| && 4 * n <= |b|
    ensures SquaredError(a, b, linear, n) >= 0.0
    ensures SquaredError(a, b, linear, n) == 0.0 <==> SameColours(a, b, linear, n)
  {
    hide SameColour, PixelError;
    if n > 0 {
      NoErrorExactly(a, b, linear, n - 1);
      PixelErrorIsZero(a, b, linear, n - 1);
    }
  }

  lemma {:induction false} PixelErrorIsZero(a: seq<Byte>, b: seq<Byte>, linear: Byte -> real, p: nat)
    requires 4 * p + 4 <= |a| && 4 * p + 4 <= |b|
    ensures PixelError(a, b, linear, p) >= 0.0
    ensures PixelError(a, b, linear, p) == 0.0 <==> SameColour(a, b, linear, p)
  {
    hide Square, Difference;
    var x, y, z := Difference(a, b, linear, p, 0), Difference(a, b, linear, p, 1), Difference(a, b, linear, p, 2);
    SquareIsPositive(x);
    SquareIsPositive(y);
    SquareIsPositive(z);
    SquareIsZero(x);
    SquareIsZero(y);
    SquareIsZero(z);
  }

  lemma SquareIsZero(x: real)
    ensures Square(x) == 0.0 <==> x == 0.0
  {
    hide Times;
    if x > 0.0 {
      ProductIsPositive(x, x);
    } else if x < 0.0 {
      ProductIsPositive(-x, -x);
      SignsCancel(x);
    } else {
      ZeroProduct(x);
    }
  }

  lemma ProductIsPositive(x: real, y: real)
    requires x > 0.0 && y > 0.0
    ensures Times(x, y) > 0.0
  {
  }

  lemma SignsCancel(x: real)
    ensures Times(-x, -x) == Times(x, x)
  {
  }

  lemma ZeroProduct(x: real)
    ensures Times(0.0, x) == 0.0
  {
  }

  // ----- the comparison

  function Compare(a: Image, b: Image, linear: Byte -> real): Metrics
    requires Comparable(a, b)
  {
    var n := a.width * a.height;
    Metrics(SquaredError(a.pixels, b.pixels, linear, n) / (3 * n) as real,
            MaximumDifference(a.pixels, b.pixels, linear, n),
            ChangedPixels(a.pixels, b.pixels, linear, n),
            Ssim(Luminances(a.pixels, linear, n), Luminances(b.pixels, linear, n)))
  }

  lemma {:induction false} SomePixels(a: Image, b: Image)
    requires Comparable(a, b)
    ensures a.width * a.height > 0
  {
  }

  // For images of any size: the similarity is in [-1, 1], the mean squared error at most the square
  // of the maximum difference, and all four metrics do not depend on which image comes first.
  lemma {:induction false} ComparisonBounds(a: Image, b: Image, linear: Byte -> real)
    requires Comparable(a, b)
    ensures var m := Compare(a, b, linear);
            && -1.0 <= m.luminanceSsim <= 1.0
            && 0.0 <= m.meanSquaredError <= Square(m.maximumDifference)
            && m.changedPixelCount <= a.width * a.height
            && Compare(b, a, linear) == m
            && (m.meanSquaredError == 0.0 <==> SameColours(a.pixels, b.pixels, linear, a.width * a.height))
  {
    hide Ssim, Luminances, SquaredError, MaximumDifference, ChangedPixels, SameColours, Square;
    var n := a.width * a.height;
    SomePixels(a, b);
    var s, t := Luminances(a.pixels, linear, n), Luminances(b.pixels, linear, n);
    SsimBounds(s, t);
    DifferencesSwap(a.pixels, b.pixels, linear, n);
    var m := MaximumDifference(a.pixels, b.pixels, linear, n);
    ErrorBound(a.pixels, b.pixels, linear, n, m);
    MeanBound(SquaredError(a.pixels, b.pixels, linear, n), Square(m), (3 * n) as real);
    NoErrorExactly(a.pixels, b.pixels, linear, n);
    ChangedBound(a.pixels, b.pixels, linear, n);
  }

  lemma {:induction false} MeanBound(x: real, y: real, d: real)
    requires 0.0 <= x <= d * y && d > 0.0
    ensures 0.0 <= x / d <= y
    ensures x / d == 0.0 <==> x == 0.0
  {
  }

  lemma {:induction false} ChangedBound(a: seq<Byte>, b: seq<Byte>, linear: Byte -> real, n: nat)
    requires 4 * n <= |a| && 4 * n <= |b|
    ensures ChangedPixels(a, b, linear, n) <= n
  {
    hide PixelDifference;
    if n > 0 {
      ChangedBound(a, b, linear, n - 1);
    }
  }

  // An image compared with itself shows no difference and full similarity.
  lemma {:induction false} SameImage(a: Image, linear: Byte -> real)
    requires Comparable(a, a)
    ensures Compare(a, a, linear).luminanceSsim == 1.0 && Compare(a, a, linear).meanSquaredError == 0.0
  {
    hide Ssim, Luminances, SquaredError, MaximumDifference, ChangedPixels;
    var n := a.width * a.height;
    SomePixels(a, a);
    SsimBounds(Luminances(a.pixels, linear, n), Luminances(a.pixels, linear, n));
    ComparisonBounds(a, a, linear);
  }

  // ----- the loops

  lemma {:induction false} FractionProduct(p: real, q: real, r: real, s: real)
    requires q > 0.0 && s > 0.0
    ensures q * s > 0.0 && (p * r) / (q * s) == (p / q) * (r / s)
  {
    var x, y := p / q, r / s;
    assert p == x * q && r == y * s;
    assert p * r == (x * y) * (q * s);
  }

  // The error, the maximum and the count, and both luminances.
  method Accumulate(a: seq<Byte>, b: seq<Byte>, linear: Byte -> real, n: nat)
      returns (squaredError: real, maximum: real, changed: nat, s: seq<real>, t: seq<real>, sumS: real, sumT: real)
    requires 4 * n <= |a| && 4 * n <= |b|
    ensures squaredError == SquaredError(a, b, linear, n) && maximum == MaximumDifference(a, b, linear, n)
    ensures changed == ChangedPixels(a, b, linear, n)
    ensures s == Luminances(a, linear, n) && t == Luminances(b, linear, n) && sumS == Sum(s) && sumT == Sum(t)
  {
    hide Difference, Max, Luminance, Square;
    squaredError, maximum, changed, s, t, sumS, sumT := 0.0, 0.0, 0, [], [], 0.0, 0.0;
    for p := 0 to n
      invariant squaredError == SquaredError(a, b, linear, p) && maximum == MaximumDifference(a, b, linear, p)
      invariant changed == ChangedPixels(a, b, linear, p)
      invariant s == Luminances(a, linear, p) && t == Luminances(b, linear, p) && sumS == Sum(s) && sumT == Sum(t)
    {
      var pixelError, pixelMaximum, newMaximum := PixelLoop(a, b, linear, p, maximum);
      squaredError := squaredError + pixelError;
      maximum := newMaximum;
      if pixelMaximum > 1.0 / 255.0 {
        changed := changed + 1;
      }
      s, t := s + [Luminance(a, linear, p)], t + [Luminance(b, linear, p)];
      assert s[..p] == Luminances(a, linear, p) && t[..p] == Luminances(b, linear, p);
      sumS, sumT := sumS + s[p], sumT + t[p];
    }
  }

  // The three colour channels of one pixel.
  method PixelLoop(a: seq<Byte>, b: seq<Byte>, linear: Byte -> real, p: nat, maximum0: real)
      returns (squares: real, pixelMaximum: real, maximum: real)
    requires 4 * p + 4 <= |a| && 4 * p + 4 <= |b|
    ensures squares == PixelError(a, b, linear, p) && pixelMaximum == PixelDifference(a, b, linear, p)
    ensures maximum == Max(maximum0, PixelDifference(a, b, linear, p))
  {
    hide Square;
    squares, pixelMaximum, maximum := 0.0, 0.0, maximum0;
    for c := 0 to 3
      invariant c == 0 ==> squares == 0.0 && pixelMaximum == 0.0 && maximum == maximum0
      invariant c >= 1 ==>
                  && squares == Squares(a, b, linear, p, c) && pixelMaximum == Largest(a, b, linear, p, c)
                  && maximum == Max(maximum0, pixelMaximum)
    {
      var difference := Abs(linear(a[4 * p + c]) - linear(b[4 * p + c]));
      squares := squares + Square(difference);
      maximum := Max(maximum, difference);
      pixelMaximum := Max(pixelMaximum, difference);
    }
    ThreeChannels(a, b, linear, p);
  }

  lemma ThreeChannels(a: seq<Byte>, b: seq<Byte>, linear: Byte -> real, p: nat)
    requires 4 * p + 4 <= |a| && 4 * p + 4 <= |b|
    ensures Squares(a, b, linear, p, 3) == PixelError(a, b, linear, p)
    ensures Largest(a, b, linear, p, 3) == PixelDifference(a, b, linear, p)
  {
    hide Square, Difference, Max;
    assert Squares(a, b, linear, p, 1) == Square(Difference(a, b, linear, p, 0));
    assert Largest(a, b, linear, p, 2) == Max(Difference(a, b, linear, p, 0), Difference(a, b, linear, p, 1));
  }

  // The first n channels of a pixel.
  function Squares(a: seq<Byte>, b: seq<Byte>, linear: Byte -> real, p: nat, n: nat): real
    requires n <= 3 && 4 * p + 4 <= |a| && 4 * p + 4 <= |b|
  {
    if n == 0 then 0.0 else Squares(a, b, linear, p, n - 1) + Square(Difference(a, b, linear, p, n - 1))
  }

  function Largest(a: seq<Byte>, b: seq<Byte>, linear: Byte -> real, p: nat, n: nat): real
    requires 1 <= n <= 3 && 4 * p + 4 <= |a| && 4 * p + 4 <= |b|
  {
    if n == 1 then Difference(a, b, linear, p, 0)
    else Max(Largest(a, b, linear, p, n - 1), Difference(a, b, linear, p, n - 1))
  }

  method Similar(s: seq<real>, t: seq<real>, sumS: real, sumT: real) returns (ssim: real)
    requires s != [] && |s| == |t| && sumS == Sum(s) && sumT == Sum(t)
    ensures ssim == Ssim(s, t)
  {
    hide Times, Sum;
    var meanS, meanT := sumS / |s| as real, sumT / |t| as real;
    var varianceS, varianceT, covariance := 0.0, 0.0, 0.0;
    for i := 0 to |s|
      invariant varianceS == Deviations(s, meanS, s, meanS, i) && varianceT == Deviations(t, meanT, t, meanT, i)
      invariant covariance == Deviations(s, meanS, t, meanT, i)
    {
      var deltaS, deltaT := s[i] - meanS, t[i] - meanT;
      varianceS := varianceS + Times(deltaS, deltaS);
      varianceT := varianceT + Times(deltaT, deltaT);
      covariance := covariance + Times(deltaS, deltaT);
    }
    var divisor := Divisor(|s|);
    varianceS, varianceT, covariance := varianceS / divisor, varianceT / divisor, covariance / divisor;
    ghost var _ := LuminanceFactor(s, t);
    MeansInUnit(s, t);
    SpreadInUnit(s, t);
    var p, q := 2.0 * Times(meanS, meanT) + C1, Times(meanS, meanS) + Times(meanT, meanT) + C1;
    var u, v := 2.0 * covariance + C2, varianceS + varianceT + C2;
    FractionProduct(p, q, u, v);
    TimesIs(p / q, u / v);
    ssim := (p * u) / (q * v);
  }

  lemma TimesIs(x: real, y: real)
    ensures Times(x, y) == x * y
  {
  }

  // The comparison as the editor makes it.
  method CompareImages(a: Image, b: Image, linear: Byte -> real) returns (r: Result)
    ensures r.Compared? <==> Comparable(a, b)
    ensures r.Compared? ==> r.metrics == Compare(a, b, linear)
    ensures r.Rejected? ==>
              (r.error == ResolutionMismatch <==>
                 a.width == 0 || a.height == 0 || a.width != b.width || a.height != b.height)
  {
    hide Ssim, Luminances, SquaredError, MaximumDifference, ChangedPixels;
    if a.width == 0 || a.height == 0 || a.width != b.width || a.height != b.height {
      return Rejected(ResolutionMismatch);
    }
    var n := a.width * a.height;
    if |a.pixels| != n * 4 || |b.pixels| != n * 4 {
      return Rejected(InvalidImage);
    }
    SomePixels(a, b);
    var squaredError, maximum, changed, s, t, sumS, sumT := Accumulate(a.pixels, b.pixels, linear, n);
    var ssim := Similar(s, t, sumS, sumT);
    r := Compared(Metrics(squaredError / (3 * n) as real, maximum, changed, ssim));
  }
}
