/** Finite sums of reals, and what changing one term does to them. */
module Sums {

  // The sum of the first k terms.
  function Sum(xs: seq<real>, k: nat): real
    requires k <= |xs|
  {
    if k == 0 then 0.0 else Sum(xs, k - 1) + xs[k - 1]
  }

  function Total(xs: seq<real>): real {
    Sum(xs, |xs|)
  }

  function Abs(x: real): (r: real)
    ensures r >= 0.0 && (r == x || r == -x)
  {
    if x < 0.0 then -x else x
  }

  function AbsTotal(xs: seq<real>): real {
    Total(seq(|xs|, i requires 0 <= i < |xs| => Abs(xs[i])))
  }

  function Add(xs: seq<real>, i: nat, v: real): (ys: seq<real>)
    requires i < |xs|
    ensures |ys| == |xs|
  {
    xs[i := xs[i] + v]
  }

  lemma {:induction false} SumCongruence(xs: seq<real>, ys: seq<real>, k: nat)
    requires k <= |xs| && k <= |ys| && forall i :: 0 <= i < k ==> xs[i] == ys[i]
    ensures Sum(xs, k) == Sum(ys, k)
  {
    if k > 0 {
      SumCongruence(xs, ys, k - 1);
    }
  }

  lemma {:induction false} SumUpdate(xs: seq<real>, i: nat, v: real, k: nat)
    requires i < |xs| && k <= |xs|
    ensures Sum(xs[i := v], k) == if i < k then Sum(xs, k) - xs[i] + v else Sum(xs, k)
  {
    if k > 0 {
      SumUpdate(xs, i, v, k - 1);
    }
  }

  lemma {:induction false} TotalAdd(xs: seq<real>, i: nat, v: real)
    requires i < |xs|
    ensures Total(Add(xs, i, v)) == Total(xs) + v
  {
    SumUpdate(xs, i, xs[i] + v, |xs|);
  }

  lemma {:induction false} AbsTotalAdd(xs: seq<real>, i: nat, v: real)
    requires i < |xs|
    ensures AbsTotal(Add(xs, i, v)) <= AbsTotal(xs) + Abs(v)
  {
    var a := seq(|xs|, j requires 0 <= j < |xs| => Abs(xs[j]));
    var ys := Add(xs, i, v);
    var b := seq(|ys|, j requires 0 <= j < |ys| => Abs(ys[j]));
    SumUpdate(a, i, Abs(xs[i] + v), |xs|);
    assert b == a[i := Abs(xs[i] + v)];
  }

  lemma {:induction false} SumScaled(xs: seq<real>, ys: seq<real>, f: real, k: nat)
    requires k <= |xs| && k <= |ys| && forall i :: 0 <= i < k ==> ys[i] == xs[i] * f
    ensures Sum(ys, k) == Sum(xs, k) * f
  {
    if k > 0 {
      SumScaled(xs, ys, f, k - 1);
    }
  }

  lemma {:induction false} SumOfZeros(xs: seq<real>, k: nat)
    requires k <= |xs| && forall i :: 0 <= i < k ==> xs[i] == 0.0
    ensures Sum(xs, k) == 0.0
  {
    if k > 0 {
      SumOfZeros(xs, k - 1);
    }
  }

  // Terms of one sign cannot cancel.
  lemma {:induction false} NothingCancels(xs: seq<real>, k: nat, i: nat)
    requires i < k <= |xs| && forall j :: 0 <= j < k ==> xs[j] >= 0.0
    ensures Sum(xs, k) >= xs[i]
  {
    SumNonNegative(xs, k - 1);
    if i < k - 1 {
      NothingCancels(xs, k - 1, i);
    }
  }

  lemma {:induction false} SumNonNegative(xs: seq<real>, k: nat)
    requires k <= |xs| && forall j :: 0 <= j < k ==> xs[j] >= 0.0
    ensures Sum(xs, k) >= 0.0
  {
    if k > 0 {
      SumNonNegative(xs, k - 1);
    }
  }

  lemma {:induction false} SumBounded(xs: seq<real>, k: nat, bound: real)
    requires k <= |xs| && forall j :: 0 <= j < k ==> xs[j] <= bound
    ensures Sum(xs, k) <= k as real * bound
  {
    if k > 0 {
      SumBounded(xs, k - 1, bound);
      assert k as real * bound == (k - 1) as real * bound + bound;
    }
  }
}
