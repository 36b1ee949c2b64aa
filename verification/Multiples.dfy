/** Division of multiples. */
module Multiples {

  function Quotient(x: nat, n: nat): nat
    requires n > 0
  {
    x / n
  }

  function Remainder(x: nat, n: nat): nat
    requires n > 0
  {
    x % n
  }

  lemma Divided(x: nat, n: nat)
    requires n > 0
    ensures x == Quotient(x, n) * n + Remainder(x, n) && Remainder(x, n) < n
  {
  }

  lemma Smaller(a: nat, b: nat, n: nat)
    requires a < b
    ensures a * n + n <= b * n
  {
    assert (a + 1) * n <= b * n;
  }

  lemma {:induction false} RemainderOf(k: nat, r: nat, n: nat)
    requires r < n
    ensures Remainder(k * n + r, n) == r
  {
    hide Quotient, Remainder;
    Divided(k * n + r, n);
    var q := Quotient(k * n + r, n);
    if q < k {
      Smaller(q, k, n);
    } else if k < q {
      Smaller(k, q, n);
    }
  }

  lemma {:induction false} MultipleLeavesNothing(k: nat, n: nat)
    requires n > 0
    ensures Remainder(k * n, n) == 0
  {
    hide Remainder;
    RemainderOf(k, 0, n);
  }
}
