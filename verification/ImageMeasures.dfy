/** What the metrics of the image comparison measure (Source/McpReviewAnalysis.cpp:343-437), said of the
    images and not of the loops. */
module ImageMeasures {
  import opened Bytes
  import opened ImageCompare

  // ----- the largest difference and the changed pixels

  // Channel c of pixel p differs by d, either way.
  predicate DiffersBy(a: seq<Byte>, b: seq<Byte>, linear: Byte -> real, p: nat, c: nat, d: real)
    requires c < 3 && 4 * p + 4 <= |a| && 4 * p + 4 <= |b|
  {
    d >= 0.0 && (linear(a[4 * p + c]) == linear(b[4 * p + c]) + d || linear(b[4 * p + c]) == linear(a[4 * p + c]) + d)
  }

  lemma {:induction false} DifferenceIs(a: seq<Byte>, b: seq<Byte>, linear: Byte -> real, p: nat, c: nat, d: real)
    requires c < 3 && 4 * p + 4 <= |a| && 4 * p + 4 <= |b|
    ensures Difference(a, b, linear, p, c) == d <==> DiffersBy(a, b, linear, p, c, d)
  {
  }

  lemma {:induction false} LargestOfPixel(a: seq<Byte>, b: seq<Byte>, linear: Byte -> real, p: nat)
    requires 4 * p + 4 <= |a| && 4 * p + 4 <= |b|
    ensures forall c :: 0 <= c < 3 ==> Difference(a, b, linear, p, c) <= PixelDifference(a, b, linear, p)
    ensures exists c :: 0 <= c < 3 && Difference(a, b, linear, p, c) == PixelDifference(a, b, linear, p)
  {
    hide Difference;
    var x, y, z := Difference(a, b, linear, p, 0), Difference(a, b, linear, p, 1), Difference(a, b, linear, p, 2);
    assert PixelDifference(a, b, linear, p) == x || PixelDifference(a, b, linear, p) == y
        || PixelDifference(a, b, linear, p) == z;
  }

  // The maximum is at least every channel's difference, and one of them unless there is no pixel.
  lemma {:induction false} MaximumIsLargest(a: seq<Byte>, b: seq<Byte>, linear: Byte -> real, n: nat)
    requires 4 * n <= |a| && 4 * n <= |b|
    ensures forall p, c :: 0 <= p < n && 0 <= c < 3 ==>
              Difference(a, b, linear, p, c) <= MaximumDifference(a, b, linear, n)
    ensures n == 0 ||
            exists p, c :: 0 <= p < n && 0 <= c < 3
              && Difference(a, b, linear, p, c) == MaximumDifference(a, b, linear, n)
  {
    hide Difference, PixelDifference;
    if n > 0 {
      MaximumIsLargest(a, b, linear, n - 1);
      LargestOfPixel(a, b, linear, n - 1);
      if n == 1 {
        NotNegativeDifference(a, b, linear);
      }
    }
  }

  lemma NotNegativeDifference(a: seq<Byte>, b: seq<Byte>, linear: Byte -> real)
    requires 4 <= |a| && 4 <= |b|
    ensures PixelDifference(a, b, linear, 0) >= 0.0 && MaximumDifference(a, b, linear, 0) == 0.0
  {
  }

  // A pixel counts as changed when a colour channel differs by more than one step in 255.
  predicate Changes(a: seq<Byte>, b: seq<Byte>, linear: Byte -> real, p: nat)
    requires 4 * p + 4 <= |a| && 4 * p + 4 <= |b|
  {
    exists c :: 0 <= c < 3 && Difference(a, b, linear, p, c) * 255.0 > 1.0
  }

  function Changing(a: seq<Byte>, b: seq<Byte>, linear: Byte -> real, n: nat): set<nat>
    requires 4 * n <= |a| && 4 * n <= |b|
  {
    set p: nat | p < n && Changes(a, b, linear, p)
  }

  lemma {:induction false} ChangedExactly(a: seq<Byte>, b: seq<Byte>, linear: Byte -> real, n: nat)
    requires 4 * n <= |a| && 4 * n <= |b|
    ensures ChangedPixels(a, b, linear, n) == |Changing(a, b, linear, n)|
  {
    hide Difference, PixelDifference, Changes;
    if n == 0 {
      assert Changing(a, b, linear, n) == {};
    } else {
      ChangedExactly(a, b, linear, n - 1);
      PixelChanges(a, b, linear, n - 1);
      var before := Changing(a, b, linear, n - 1);
      assert Changing(a, b, linear, n) == if Changes(a, b, linear, n - 1) then before + {n - 1} else before;
    }
  }

  lemma {:induction false} PixelChanges(a: seq<Byte>, b: seq<Byte>, linear: Byte -> real, p: nat)
    requires 4 * p + 4 <= |a| && 4 * p + 4 <= |b|
    ensures PixelDifference(a, b, linear, p) > 1.0 / 255.0 <==> Changes(a, b, linear, p)
  {
    hide Difference, PixelDifference;
    LargestOfPixel(a, b, linear, p);
  }

  // ----- the mean squared error

  // Images whose colour channels all differ by d have the mean squared error d * d.
  lemma {:induction false} UniformError(a: seq<Byte>, b: seq<Byte>, linear: Byte -> real, n: nat, d: real)
    requires 4 * n <= |a| && 4 * n <= |b|
    requires forall p, c :: 0 <= p < n && 0 <= c < 3 ==> Difference(a, b, linear, p, c) == d
    ensures SquaredError(a, b, linear, n) == 3.0 * n as real * (d * d)
  {
    hide Difference;
    if n > 0 {
      UniformError(a, b, linear, n - 1, d);
      assert PixelError(a, b, linear, n - 1) == 3.0 * (d * d);
      assert 3.0 * (n - 1) as real * (d * d) + 3.0 * (d * d) == 3.0 * n as real * (d * d);
    }
  }

  lemma {:induction false} UniformMeanError(a: Image, b: Image, linear: Byte -> real, d: real)
    requires Comparable(a, b)
    requires forall p, c :: 0 <= p < a.width * a.height && 0 <= c < 3 ==>
               4 * p + 4 <= |a.pixels| && Difference(a.pixels, b.pixels, linear, p, c) == d
    ensures Compare(a, b, linear).meanSquaredError == d * d
  {
    hide Difference, Ssim, SquaredError, Luminances;
    var n := a.width * a.height;
    SomePixels(a, b);
    UniformError(a.pixels, b.pixels, linear, n, d);
    Divided(n, d * d);
  }

  lemma Divided(n: nat, x: real)
    requires n > 0
    ensures 3.0 * n as real * x / (3 * n) as real == x
  {
    assert (3 * n) as real == 3.0 * n as real;
  }

  // ----- the similarity

  // The luminance of a grey pixel is its value; the three weights are those of its channels.
  lemma {:induction false} LuminanceWeights(a: seq<Byte>, linear: Byte -> real, p: nat, v: real)
    requires 4 * p + 4 <= |a|
    ensures linear(a[4 * p]) == v == linear(a[4 * p + 1]) == linear(a[4 * p + 2]) ==> Luminance(a, linear, p) == v
    ensures linear(a[4 * p + 1]) == 0.0 == linear(a[4 * p + 2]) ==>
              Luminance(a, linear, p) == 0.2126 * linear(a[4 * p])
    ensures linear(a[4 * p]) == 0.0 == linear(a[4 * p + 1]) ==>
              Luminance(a, linear, p) == 0.0722 * linear(a[4 * p + 2])
  {
  }

  lemma {:induction false} LuminanceOfPixel(a: seq<Byte>, linear: Byte -> real, n: nat, p: nat)
    requires 4 * n <= |a| && p < n
    ensures Luminances(a, linear, n)[p] == Luminance(a, linear, p)
  {
    hide Luminance;
    if p < n - 1 {
      LuminanceOfPixel(a, linear, n - 1, p);
    }
  }

  predicate Constant(s: seq<real>, v: real) {
    forall i :: 0 <= i < |s| ==> s[i] == v
  }

  lemma {:induction false} SumOfConstant(s: seq<real>, v: real)
    requires Constant(s, v)
    ensures Sum(s) == |s| as real * v
  {
    if s != [] {
      SumOfConstant(s[..|s| - 1], v);
      assert (|s| - 1) as real * v + v == |s| as real * v;
    }
  }

  lemma {:induction false} MeanOfConstant(s: seq<real>, v: real)
    requires Constant(s, v) && s != []
    ensures Mean(s) == v
  {
    SumOfConstant(s, v);
    assert |s| as real * v / |s| as real == v;
  }

  lemma {:induction false} NoDeviation(s: seq<real>, v: real, t: seq<real>, m: real, n: nat)
    requires Constant(s, v) && n <= |s| && n <= |t|
    ensures Deviations(s, v, t, m, n) == 0.0
  {
    if n > 0 {
      NoDeviation(s, v, t, m, n - 1);
    }
  }

  // Two images of constant luminances v and w: only the means count, and the constant 0.0001.
  lemma {:induction false} SsimOfConstants(s: seq<real>, t: seq<real>, v: real, w: real)
    requires Constant(s, v) && Constant(t, w) && s != [] && |s| == |t|
    ensures Ssim(s, t) * (v * v + w * w + 0.0001) == 2.0 * (v * w) + 0.0001
  {
    hide Mean, Deviations, Spread;
    MeanOfConstant(s, v);
    MeanOfConstant(t, w);
    NoSpread(s, s, v, v);
    NoSpread(t, t, w, w);
    NoSpread(s, t, v, w);
    MeansInUnit(s, t);
    var p, q := 2.0 * (v * w) + 0.0001, v * v + w * w + 0.0001;
    assert LuminanceFactor(s, t) == p / q && StructureFactor(s, t) == 1.0;
    Undivided(p, q);
  }

  lemma Undivided(p: real, q: real)
    requires q > 0.0
    ensures p / q * q == p
  {
  }

  lemma NoSpread(s: seq<real>, t: seq<real>, v: real, w: real)
    requires Constant(s, v) && Constant(t, w) && s != [] && |s| == |t|
    ensures Spread(s, t) == 0.0
  {
    hide Mean, Deviations;
    MeanOfConstant(s, v);
    MeanOfConstant(t, w);
    NoDeviation(s, v, t, w, |s|);
  }

  // Variances and the covariance are unbiased: divided by one less than the number of pixels.
  lemma {:induction false} SpreadIsUnbiased(s: seq<real>, t: seq<real>)
    requires |s| == |t| >= 2
    ensures Spread(s, t) * (|s| - 1) as real == Deviations(s, Mean(s), t, Mean(t), |s|)
  {
    hide Deviations, Mean;
    Undivided(Deviations(s, Mean(s), t, Mean(t), |s|), (|s| - 1) as real);
  }

  // Two pixels that change places, black and white: the similarity with the constant 0.0009.
  lemma {:induction false} SsimOfExchange()
    ensures Ssim([0.0, 1.0], [1.0, 0.0]) * 1.0009 == -0.9991
  {
    var s, t := [0.0, 1.0], [1.0, 0.0];
    assert s[..1] == [0.0] && t[..1] == [1.0] && s[..1][..0] == [] && t[..1][..0] == [];
    assert Sum([0.0]) == 0.0 && Sum([1.0]) == 1.0;
    assert Sum(s) == 1.0 && Sum(t) == 1.0;
    assert Mean(s) == 0.5 && Mean(t) == 0.5;
    OneStep(s, t);
    OneStep(s, s);
    OneStep(t, t);
    assert Spread(s, t) == -0.5 && Spread(s, s) == 0.5 && Spread(t, t) == 0.5;
    assert LuminanceFactor(s, t) == 1.0;
    Undivided(-0.9991, 1.0009);
  }

  lemma OneStep(s: seq<real>, t: seq<real>)
    requires |s| == |t| == 2
    ensures Deviations(s, 0.5, t, 0.5, 2)
         == Times(s[0] - 0.5, t[0] - 0.5) + Times(s[1] - 0.5, t[1] - 0.5)
  {
    assert Deviations(s, 0.5, t, 0.5, 1) == Times(s[0] - 0.5, t[0] - 0.5);
  }
}
