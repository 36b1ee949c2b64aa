/** Walker's alias table for light selection (BuildLightAliasTable, Source/PathTracingScene.cpp).
    Floats are modelled as reals; the 16-bit quantisation is kept exactly. */
module AliasTable {
  import opened Sums

  datatype Light = Light(area: real, red: real, green: real, blue: real, packed: nat, pdf: real)

  datatype Result = Table(lights: seq<Light>) | TooManyLights

  const STEPS := 65535
  const STEPS_REAL := 65535.0

  function Luminance(light: Light): real {
    light.red * 0.2126 + light.green * 0.7152 + light.blue * 0.0722
  }

  function Weight(light: Light): (w: real)
    ensures w >= 0.0
  {
    var w := light.area * Luminance(light);
    if w < 0.0 then 0.0 else w
  }

  function Weights(lights: seq<Light>): (ws: seq<real>)
    ensures |ws| == |lights| && forall i :: 0 <= i < |ws| ==> ws[i] == Weight(lights[i])
  {
    seq(|lights|, i requires 0 <= i < |lights| => Weight(lights[i]))
  }

  // ----- what a table selects

  predicate IsTable(accept: seq<real>, alias: seq<nat>) {
    && |accept| == |alias|
    && (forall i :: 0 <= i < |alias| ==> alias[i] < |alias|)
    && (forall i :: 0 <= i < |accept| ==> 0.0 <= accept[i] <= 1.0)
  }

  // A sample falls into one of n buckets with equal chance; bucket j yields j with probability
  // accept[j] and alias[j] otherwise. This is n times the chance that the first k buckets yield i.
  function Chance(accept: seq<real>, alias: seq<nat>, i: nat, k: nat): real
    requires |accept| == |alias| && k <= |accept|
  {
    if k == 0 then 0.0
    else
      Chance(accept, alias, i, k - 1) +
      (if k - 1 == i then accept[k - 1] else 0.0) +
      (if alias[k - 1] == i then 1.0 - accept[k - 1] else 0.0)
  }

  // The chances of all lights at once, built up bucket by bucket.
  function Shares(accept: seq<real>, alias: seq<nat>, k: nat): (s: seq<real>)
    requires IsTable(accept, alias) && k <= |accept|
    ensures |s| == |accept|
  {
    if k == 0 then seq(|accept|, _ => 0.0)
    else Add(Add(Shares(accept, alias, k - 1), k - 1, accept[k - 1]), alias[k - 1], 1.0 - accept[k - 1])
  }

  lemma {:induction false} SharesAreChances(accept: seq<real>, alias: seq<nat>, k: nat, i: nat)
    requires IsTable(accept, alias) && k <= |accept| && i < |accept|
    ensures Shares(accept, alias, k)[i] == Chance(accept, alias, i, k)
  {
    if k > 0 {
      SharesAreChances(accept, alias, k - 1, i);
    }
  }

  // Every bucket hands out a whole unit.
  lemma {:induction false} SharesSumUp(accept: seq<real>, alias: seq<nat>, k: nat)
    requires IsTable(accept, alias) && k <= |accept|
    ensures Total(Shares(accept, alias, k)) == k as real
  {
    if k == 0 {
      SumOfZeros(Shares(accept, alias, 0), |accept|);
    } else {
      SharesSumUp(accept, alias, k - 1);
      var s := Shares(accept, alias, k - 1);
      TotalAdd(s, k - 1, accept[k - 1]);
      TotalAdd(Add(s, k - 1, accept[k - 1]), alias[k - 1], 1.0 - accept[k - 1]);
    }
  }

  // ----- the two worklists

  // What other buckets hand to light i.
  function Inflow(accept: seq<real>, alias: seq<nat>, i: nat, k: nat): real
    requires |accept| == |alias| && k <= |accept|
  {
    if k == 0 then 0.0
    else Inflow(accept, alias, i, k - 1) + (if alias[k - 1] == i && k - 1 != i then 1.0 - accept[k - 1] else 0.0)
  }

  lemma {:induction false} ChanceIsInflow(accept: seq<real>, alias: seq<nat>, i: nat, k: nat)
    requires |accept| == |alias| && k <= |accept| && i < |accept|
    ensures Chance(accept, alias, i, k) ==
            Inflow(accept, alias, i, k) + (if i < k then if alias[i] == i then 1.0 else accept[i] else 0.0)
  {
    if k > 0 {
      ChanceIsInflow(accept, alias, i, k - 1);
    }
  }

  // Redirecting bucket b, which kept everything so far, only raises the inflow of its new alias.
  lemma {:induction false} InflowRedirect(accept: seq<real>, alias: seq<nat>, b: nat, p: real, target: nat, i: nat,
        k: nat)
    requires |accept| == |alias| && k <= |accept| && b < |accept| && alias[b] == b && target != b
    ensures Inflow(accept[b := p], alias[b := target], i, k) ==
            Inflow(accept, alias, i, k) + (if b < k && i == target then 1.0 - p else 0.0)
  {
    if k > 0 {
      InflowRedirect(accept, alias, b, p, target, i, k - 1);
    }
  }

  lemma {:induction false} NoInflowYet(accept: seq<real>, alias: seq<nat>, i: nat, k: nat)
    requires |accept| == |alias| && k <= |accept| && forall j :: 0 <= j < |alias| ==> alias[j] == j
    ensures Inflow(accept, alias, i, k) == 0.0
  {
    if k > 0 {
      NoInflowYet(accept, alias, i, k - 1);
    }
  }

  // The state of the redistribution: current masses, the table so far, and the two worklists.
  datatype Buckets = Buckets(scaled: seq<real>, accept: seq<real>, alias: seq<nat>, small: seq<nat>, large: seq<nat>)

  predicate Worklist(list: seq<nat>, n: nat) {
    && (forall k :: 0 <= k < |list| ==> list[k] < n)
    && (forall j, k :: 0 <= j < k < |list| ==> list[j] != list[k])
  }

  lemma {:induction false} Pop(list: seq<nat>, n: nat)
    requires Worklist(list, n) && list != []
    ensures var rest := list[..|list| - 1];
            && Worklist(rest, n) && list[|list| - 1] !in rest
            && forall i :: i in list <==> i in rest || i == list[|list| - 1]
  {
    assert list == list[..|list| - 1] + [list[|list| - 1]];
  }

  lemma {:induction false} Push(list: seq<nat>, n: nat, i: nat)
    requires Worklist(list, n) && i < n && i !in list
    ensures Worklist(list + [i], n)
    ensures forall j :: j in list + [i] <==> j in list || j == i
  {
  }

  predicate Waiting(b: Buckets, i: nat) {
    i in b.small || i in b.large
  }

  predicate WellShaped(b: Buckets, n: nat) {
    && |b.scaled| == |b.accept| == |b.alias| == n
    && Worklist(b.small, n) && Worklist(b.large, n)
    && (forall k :: 0 <= k < |b.small| ==> b.scaled[b.small[k]] < 1.0)
    && (forall k :: 0 <= k < |b.large| ==> b.scaled[b.large[k]] >= 1.0)
  }

  // A waiting bucket still keeps everything; a settled one keeps its mass and passes on the rest.
  predicate Settled(b: Buckets, i: nat)
    requires i < |b.accept| && |b.scaled| == |b.accept| == |b.alias|
  {
    && b.scaled[i] >= 0.0 && b.alias[i] < |b.alias|
    && (if Waiting(b, i) then b.accept[i] == 1.0 && b.alias[i] == i
        else b.accept[i] == b.scaled[i] < 1.0 && b.alias[i] != i)
  }

  // How far the waiting buckets are above a full unit each.
  function Surplus(b: Buckets): (xs: seq<real>)
    ensures |xs| == |b.scaled|
  {
    seq(|b.scaled|, i requires 0 <= i < |b.scaled| => if Waiting(b, i) then b.scaled[i] - 1.0 else 0.0)
  }

  // Own mass plus inflow is what the light is owed, and the waiting masses average one unit.
  ghost predicate Balanced(b: Buckets, target: seq<real>) {
    && WellShaped(b, |target|)
    && (forall i :: 0 <= i < |target| ==> Settled(b, i))
    && (forall i :: 0 <= i < |target| ==> b.scaled[i] + Inflow(b.accept, b.alias, i, |target|) == target[i])
    && Total(Surplus(b)) == 0.0
  }

  // One turn of the loop: the last small bucket is settled, the last large one pays for it.
  function Pour(b: Buckets): (b': Buckets)
    requires b.small != [] && b.large != [] && WellShaped(b, |b.scaled|)
  {
    var s, l := b.small[|b.small| - 1], b.large[|b.large| - 1];
    var rest := b.scaled[l] + b.scaled[s] - 1.0;
    var small, large := b.small[..|b.small| - 1], b.large[..|b.large| - 1];
    Buckets(b.scaled[l := rest], b.accept[s := b.scaled[s]], b.alias[s := l],
            if rest < 1.0 then small + [l] else small, if rest < 1.0 then large else large + [l])
  }

  lemma {:induction false} PourShape(b: Buckets, n: nat)
    requires WellShaped(b, n) && b.small != [] && b.large != []
    ensures WellShaped(Pour(b), n)
    ensures forall i: nat :: Waiting(Pour(b), i) <==> Waiting(b, i) && i != b.small[|b.small| - 1]
    ensures Waiting(b, b.large[|b.large| - 1]) && Waiting(b, b.small[|b.small| - 1])
    ensures b.small[|b.small| - 1] != b.large[|b.large| - 1]
  {
    hide Worklist;
    var s, l := b.small[|b.small| - 1], b.large[|b.large| - 1];
    var small, large := b.small[..|b.small| - 1], b.large[..|b.large| - 1];
    InRange(b, n);
    assert l !in b.small && s !in b.large;
    Pop(b.small, n);
    Pop(b.large, n);
    var b' := Pour(b);
    if b'.scaled[l] < 1.0 {
      Push(small, n, l);
    } else {
      Push(large, n, l);
    }
    assert forall k :: 0 <= k < |small| ==> small[k] == b.small[k];
    assert forall k :: 0 <= k < |large| ==> large[k] == b.large[k];
  }

  lemma {:induction false} PourSurplus(b: Buckets, n: nat)
    requires WellShaped(b, n) && b.small != [] && b.large != []
    ensures Total(Surplus(Pour(b))) == Total(Surplus(b))
  {
    hide WellShaped, Worklist, Sum, Waiting;
    var s, l := b.small[|b.small| - 1], b.large[|b.large| - 1];
    PourShape(b, n);
    InRange(b, n);
    var xs := Surplus(b);
    var ys := Add(Add(xs, s, 1.0 - b.scaled[s]), l, b.scaled[s] - 1.0);
    TotalAdd(xs, s, 1.0 - b.scaled[s]);
    TotalAdd(Add(xs, s, 1.0 - b.scaled[s]), l, b.scaled[s] - 1.0);
    assert Surplus(Pour(b)) == ys;
  }

  lemma {:induction false} InRange(b: Buckets, n: nat)
    requires WellShaped(b, n) && b.small != [] && b.large != []
    ensures b.small[|b.small| - 1] < n && b.large[|b.large| - 1] < n && |b.scaled| == |b.accept| == |b.alias| == n
    ensures b.scaled[b.small[|b.small| - 1]] < 1.0 <= b.scaled[b.large[|b.large| - 1]]
  {
  }

  lemma {:induction false} PourKeepsBalance(b: Buckets, target: seq<real>)
    requires Balanced(b, target) && b.small != [] && b.large != []
    ensures Balanced(Pour(b), target)
  {
    hide Worklist, Sum, Surplus;
    var n := |target|;
    var s, l := b.small[|b.small| - 1], b.large[|b.large| - 1];
    InRange(b, n);
    var b' := Pour(b);
    PourShape(b, n);
    PourSurplus(b, n);
    assert Settled(b, s) && Settled(b, l);
    forall i | 0 <= i < n
      ensures b'.scaled[i] + Inflow(b'.accept, b'.alias, i, n) == target[i]
    {
      InflowRedirect(b.accept, b.alias, s, b.scaled[s], l, i, n);
    }
    forall i | 0 <= i < n
      ensures Settled(b', i)
    {
      assert Settled(b, i);
    }
  }

  // When one list runs dry the other holds only full buckets, so the small list is empty.
  lemma {:induction false} DryMeansDone(b: Buckets, target: seq<real>)
    requires Balanced(b, target) && (b.small == [] || b.large == [])
    ensures b.small == []
    ensures forall i :: 0 <= i < |target| && Waiting(b, i) ==> b.scaled[i] == 1.0
  {
    var xs, n := Surplus(b), |target|;
    if b.small == [] {
      forall i | 0 <= i < n && Waiting(b, i)
        ensures b.scaled[i] == 1.0
      {
        NothingCancels(xs, n, i);
      }
    } else {
      var ys := seq(n, i requires 0 <= i < n => -xs[i]);
      SumScaled(xs, ys, -1.0, n);
      NothingCancels(ys, n, b.small[0]);
      assert false;
    }
  }

  lemma {:induction false} SettledTable(b: Buckets, target: seq<real>)
    requires Balanced(b, target) && (b.small == [] || b.large == [])
    ensures IsTable(b.accept, b.alias)
    ensures forall i :: 0 <= i < |target| ==> Chance(b.accept, b.alias, i, |target|) == target[i]
    ensures forall i :: 0 <= i < |target| && b.alias[i] == i ==> b.accept[i] == 1.0
  {
    DryMeansDone(b, target);
    forall i | 0 <= i < |target|
      ensures 0.0 <= b.accept[i] <= 1.0 && b.alias[i] < |target|
      ensures Chance(b.accept, b.alias, i, |target|) == target[i]
      ensures b.alias[i] == i ==> b.accept[i] == 1.0
    {
      assert Settled(b, i);
      ChanceIsInflow(b.accept, b.alias, i, |target|);
    }
  }

  // The buckets when sorting into the worklists has reached light k.
  ghost predicate Sorting(b: Buckets, target: seq<real>, k: nat) {
    && WellShaped(b, |target|) && b.scaled == target && k <= |target|
    && (forall i :: 0 <= i < |target| ==> b.accept[i] == 1.0 && b.alias[i] == i)
    && (forall i: nat :: Waiting(b, i) <==> i < k)
  }

  function Sorted1(b: Buckets, k: nat): Buckets
    requires k < |b.scaled|
  {
    if b.scaled[k] < 1.0 then b.(small := b.small + [k]) else b.(large := b.large + [k])
  }

  lemma {:induction false} SortStep(b: Buckets, target: seq<real>, k: nat)
    requires Sorting(b, target, k) && k < |target|
    ensures Sorting(Sorted1(b, k), target, k + 1)
  {
    assert !Waiting(b, k);
    Push(b.small, |target|, k);
    Push(b.large, |target|, k);
    hide Worklist;
    forall i: nat ensures Waiting(Sorted1(b, k), i) <==> i < k + 1 {
      assert Waiting(b, i) <==> i < k;
    }
  }

  lemma {:induction false} SortedIsBalanced(b: Buckets, target: seq<real>)
    requires Sorting(b, target, |target|) && (forall i :: 0 <= i < |target| ==> target[i] >= 0.0)
    requires Total(target) == |target| as real
    ensures Balanced(b, target)
  {
    var n := |target|;
    forall i | 0 <= i < n ensures Inflow(b.accept, b.alias, i, n) == 0.0 {
      NoInflowYet(b.accept, b.alias, i, n);
    }
    SumMinusOnes(target, Surplus(b), n);
  }

  lemma {:induction false} SumMinusOnes(xs: seq<real>, ys: seq<real>, k: nat)
    requires k <= |xs| && k <= |ys| && forall i :: 0 <= i < k ==> ys[i] == xs[i] - 1.0
    ensures Sum(ys, k) == Sum(xs, k) - k as real
  {
    if k > 0 {
      SumMinusOnes(xs, ys, k - 1);
    }
  }

  lemma {:induction false} PourFacts(b: Buckets, target: seq<real>)
    requires Balanced(b, target) && b.small != [] && b.large != []
    ensures |b.scaled| == |b.accept| == |b.alias| == |target| && WellShaped(b, |target|)
    ensures var s, l := b.small[|b.small| - 1], b.large[|b.large| - 1];
            s < |target| && l < |target| && 0.0 <= b.scaled[s] < 1.0
  {
    InRange(b, |target|);
    assert Settled(b, b.small[|b.small| - 1]);
  }

  // The two-worklist loop. Over the reals the table it builds selects every light with exactly the
  // chance it is owed, whatever order the lists come in.
  method Redistribute(target: seq<real>) returns (accept: seq<real>, alias: seq<nat>)
    requires forall i :: 0 <= i < |target| ==> target[i] >= 0.0
    requires Total(target) == |target| as real
    ensures |accept| == |target| && IsTable(accept, alias)
    ensures forall i :: 0 <= i < |target| ==> Chance(accept, alias, i, |target|) == target[i]
    ensures forall i :: 0 <= i < |target| && alias[i] == i ==> accept[i] == 1.0
  {
    hide Balanced, Sorting, IsTable, Chance, Total, WellShaped;
    var n := |target|;
    var scaled := target;
    var small: seq<nat> := [];
    var large: seq<nat> := [];
    accept := seq(n, _ => 1.0);
    alias := seq(n, i => i);
    StartSorting(target, accept, alias);
    for i := 0 to n
      invariant |accept| == |alias| == |scaled| == n
      invariant Sorting(Buckets(scaled, accept, alias, small, large), target, i)
    {
      SortStep(Buckets(scaled, accept, alias, small, large), target, i);
      if scaled[i] < 1.0 {
        small := small + [i];
      } else {
        large := large + [i];
      }
    }
    SortedIsBalanced(Buckets(scaled, accept, alias, small, large), target);
    while small != [] && large != []
      invariant |accept| == |alias| == |scaled| == n
      invariant Balanced(Buckets(scaled, accept, alias, small, large), target)
      decreases |small| + |large|
    {
      ghost var b := Buckets(scaled, accept, alias, small, large);
      PourFacts(b, target);
      PourKeepsBalance(b, target);
      var smallIndex := small[|small| - 1];
      small := small[..|small| - 1];
      var largeIndex := large[|large| - 1];
      large := large[..|large| - 1];
      accept := accept[smallIndex := Clamp(scaled[smallIndex])];
      alias := alias[smallIndex := largeIndex];
      scaled := scaled[largeIndex := (scaled[largeIndex] + scaled[smallIndex]) - 1.0];
      if scaled[largeIndex] < 1.0 {
        small := small + [largeIndex];
      } else {
        large := large + [largeIndex];
      }
      assert Buckets(scaled, accept, alias, small, large) == Pour(b);
    }
    SettledTable(Buckets(scaled, accept, alias, small, large), target);
  }

  lemma {:induction false} StartSorting(target: seq<real>, accept: seq<real>, alias: seq<nat>)
    requires |accept| == |alias| == |target| && forall i :: 0 <= i < |target| ==> accept[i] == 1.0 && alias[i] == i
    ensures Sorting(Buckets(target, accept, alias, [], []), target, 0)
  {
  }

  function Clamp(x: real): real {
    if x < 0.0 then 0.0 else if x > 1.0 then 1.0 else x
  }

  // ----- sixteen bits

  // lround for the non-negative arguments it gets here.
  function Lround(x: real): (r: nat)
    requires x >= 0.0
    ensures x - 0.5 < r as real <= x + 0.5
  {
    (x + 0.5).Floor
  }

  // A positive-weight light keeps at least the smallest direct chance.
  function Threshold(accept: real, weight: real): (t: nat)
    requires 0.0 <= accept <= 1.0
    ensures t <= STEPS
  {
    var t := Lround(accept * STEPS_REAL);
    if weight > 0.0 && t == 0 then 1 else t
  }

  function Pack(threshold: nat, alias: nat): nat {
    threshold * 65536 + alias % 65536
  }

  // What the shader reads back (SelectLightIndex, Shaders/PathTracingABI.hlsli).
  function AcceptOf(light: Light): real {
    (light.packed / 65536) as real / STEPS_REAL
  }

  function AliasOf(light: Light): nat {
    light.packed % 65536
  }

  function Accepts(lights: seq<Light>): (s: seq<real>)
    ensures |s| == |lights| && forall i :: 0 <= i < |s| ==> s[i] == AcceptOf(lights[i])
  {
    seq(|lights|, i requires 0 <= i < |lights| => AcceptOf(lights[i]))
  }

  function Aliases(lights: seq<Light>): (s: seq<nat>)
    ensures |s| == |lights| && forall i :: 0 <= i < |s| ==> s[i] == AliasOf(lights[i])
  {
    seq(|lights|, i requires 0 <= i < |lights| => AliasOf(lights[i]))
  }

  function Pdfs(lights: seq<Light>): (s: seq<real>)
    ensures |s| == |lights| && forall i :: 0 <= i < |s| ==> s[i] == lights[i].pdf
  {
    seq(|lights|, i requires 0 <= i < |lights| => lights[i].pdf)
  }

  // Packing loses nothing.
  lemma {:induction false} Unpacks(light: Light, threshold: nat, alias: nat)
    requires light.packed == Pack(threshold, alias) && alias < 65536
    ensures AcceptOf(light) == threshold as real / STEPS_REAL && AliasOf(light) == alias
  {
  }

  lemma {:induction false} ThresholdIsClose(accept: real, weight: real)
    requires 0.0 <= accept <= 1.0
    ensures Abs(Threshold(accept, weight) as real / STEPS_REAL - accept) <= 1.0 / STEPS_REAL
    ensures 0.0 <= Threshold(accept, weight) as real / STEPS_REAL <= 1.0
  {
    var t := Threshold(accept, weight) as real;
    var x := accept * STEPS_REAL;
    assert -1.0 <= t - x <= 1.0;
    assert t / STEPS_REAL - accept == (t - x) / STEPS_REAL;
  }

  // The quantised table of an exact one.
  predicate Quantised(exact: seq<real>, weights: seq<real>, q: seq<real>) {
    && |exact| == |weights| == |q|
    && (forall i :: 0 <= i < |exact| ==> 0.0 <= exact[i] <= 1.0)
    && (forall i :: 0 <= i < |exact| ==> q[i] == Threshold(exact[i], weights[i]) as real / STEPS_REAL)
  }

  lemma {:induction false} QuantisedTable(exact: seq<real>, weights: seq<real>, q: seq<real>, alias: seq<nat>)
    requires Quantised(exact, weights, q) && IsTable(exact, alias)
    ensures IsTable(q, alias)
    ensures forall i :: 0 <= i < |q| ==> Abs(q[i] - exact[i]) <= 1.0 / STEPS_REAL
  {
    forall i | 0 <= i < |q|
      ensures 0.0 <= q[i] <= 1.0 && Abs(q[i] - exact[i]) <= 1.0 / STEPS_REAL
    {
      ThresholdIsClose(exact[i], weights[i]);
    }
  }

  // ----- how far quantisation moves the distribution

  function Drift(a: seq<real>, q: seq<real>, alias: seq<nat>, k: nat): (d: seq<real>)
    requires IsTable(a, alias) && IsTable(q, alias) && k <= |a|
    ensures |d| == |a| && forall i :: 0 <= i < |a| ==> d[i] == Shares(q, alias, k)[i] - Shares(a, alias, k)[i]
  {
    seq(|a|, i requires 0 <= i < |a| => Shares(q, alias, k)[i] - Shares(a, alias, k)[i])
  }

  lemma {:induction false} ShareStep(a: seq<real>, alias: seq<nat>, k: nat, i: nat)
    requires IsTable(a, alias) && 0 < k <= |a| && i < |a|
    ensures Shares(a, alias, k)[i] == Shares(a, alias, k - 1)[i] +
              (if i == k - 1 then a[k - 1] else 0.0) + (if i == alias[k - 1] then 1.0 - a[k - 1] else 0.0)
  {
  }

  // Moving one threshold moves two shares by as much.
  lemma {:induction false} DriftStep(a: seq<real>, q: seq<real>, alias: seq<nat>, k: nat)
    requires IsTable(a, alias) && IsTable(q, alias) && 0 < k <= |a|
    ensures var d := q[k - 1] - a[k - 1];
            Drift(a, q, alias, k) == Add(Add(Drift(a, q, alias, k - 1), k - 1, d), alias[k - 1], -d)
  {
    var d := q[k - 1] - a[k - 1];
    var x, y := Drift(a, q, alias, k), Add(Add(Drift(a, q, alias, k - 1), k - 1, d), alias[k - 1], -d);
    forall i | 0 <= i < |a| ensures x[i] == y[i] {
      ShareStep(q, alias, k, i);
      ShareStep(a, alias, k, i);
    }
  }

  lemma {:induction false} NoDriftYet(a: seq<real>, q: seq<real>, alias: seq<nat>)
    requires IsTable(a, alias) && IsTable(q, alias)
    ensures AbsTotal(Drift(a, q, alias, 0)) == 0.0
  {
    var d := Drift(a, q, alias, 0);
    assert forall i :: 0 <= i < |a| ==> d[i] == 0.0;
    SumOfZeros(seq(|d|, i requires 0 <= i < |d| => Abs(d[i])), |d|);
  }

  lemma {:induction false} DriftIsSmall(a: seq<real>, q: seq<real>, alias: seq<nat>, k: nat, e: real)
    requires IsTable(a, alias) && IsTable(q, alias) && k <= |a|
    requires forall i :: 0 <= i < |a| ==> Abs(q[i] - a[i]) <= e
    ensures AbsTotal(Drift(a, q, alias, k)) <= k as real * (2.0 * e)
  {
    hide Drift, AbsTotal, Shares;
    if k == 0 {
      NoDriftYet(a, q, alias);
    } else {
      DriftIsSmall(a, q, alias, k - 1, e);
      DriftStep(a, q, alias, k);
      var d := q[k - 1] - a[k - 1];
      var before := Drift(a, q, alias, k - 1);
      AbsTotalAdd(before, k - 1, d);
      AbsTotalAdd(Add(before, k - 1, d), alias[k - 1], -d);
      assert k as real * (2.0 * e) == (k - 1) as real * (2.0 * e) + 2.0 * e;
    }
  }

  // ----- which lights can be selected at all

  lemma {:induction false} ChanceGrows(accept: seq<real>, alias: seq<nat>, i: nat, j: nat, k: nat)
    requires IsTable(accept, alias) && j < k <= |accept|
    ensures Chance(accept, alias, i, k) >= Chance(accept, alias, i, j) >= 0.0
    ensures Chance(accept, alias, i, k) >= (if j == i then accept[j] else 0.0)
          + (if alias[j] == i then 1.0 - accept[j] else 0.0)
  {
    if k - 1 > j {
      ChanceGrows(accept, alias, i, j, k - 1);
    } else if j > 0 {
      ChanceGrows(accept, alias, i, j - 1, j);
    }
  }

  lemma {:induction false} NoChance(accept: seq<real>, alias: seq<nat>, i: nat, k: nat)
    requires |accept| == |alias| && k <= |accept|
    requires forall j :: 0 <= j < k ==> (j == i ==> accept[j] == 0.0) && (alias[j] == i ==> j != i && accept[j] == 1.0)
    ensures Chance(accept, alias, i, k) == 0.0
  {
    if k > 0 {
      NoChance(accept, alias, i, k - 1);
    }
  }

  // Quantisation neither starves a light that has weight nor feeds one that has none.
  lemma {:induction false} SelectableExactly(exact: seq<real>, weights: seq<real>, q: seq<real>, alias: seq<nat>,
        i: nat)
    requires Quantised(exact, weights, q) && IsTable(exact, alias) && i < |exact|
    requires Chance(exact, alias, i, |exact|) > 0.0 <==> weights[i] > 0.0
    ensures Chance(q, alias, i, |q|) > 0.0 <==> weights[i] > 0.0
  {
    QuantisedTable(exact, weights, q, alias);
    var n := |exact|;
    if weights[i] > 0.0 {
      ChanceGrows(q, alias, i, i, n);
      assert Threshold(exact[i], weights[i]) >= 1;
    } else {
      forall j | 0 <= j < n
        ensures (j == i ==> q[j] == 0.0) && (alias[j] == i ==> j != i && q[j] == 1.0)
      {
        ChanceGrows(exact, alias, i, j, n);
        assert j == i ==> exact[j] == 0.0 && Lround(0.0) == 0;
        assert alias[j] == i ==> exact[j] == 1.0 && Lround(STEPS_REAL) == STEPS;
      }
      NoChance(q, alias, i, n);
    }
  }

  // ----- the whole function

  // One of n equally likely buckets carries this much of a share.
  function PerBucket(share: real, n: nat): real
    requires n > 0
  {
    share / n as real
  }

  lemma {:induction false} PerBucketLinear(a: real, b: real, n: nat)
    requires n > 0
    ensures PerBucket(a, n) + PerBucket(b, n) == PerBucket(a + b, n)
    ensures PerBucket(a, n) - PerBucket(b, n) == PerBucket(a - b, n)
    ensures PerBucket(a * n as real, n) == a && PerBucket(0.0, n) == 0.0 && PerBucket(n as real, n) == 1.0
    ensures a > 0.0 <==> PerBucket(a, n) > 0.0
    ensures Abs(PerBucket(a, n)) == PerBucket(Abs(a), n)
  {
    var m := n as real;
    assert a * m / m == a;
  }

  lemma {:induction false} SumPerBucket(xs: seq<real>, ys: seq<real>, n: nat, k: nat)
    requires n > 0 && k <= |xs| && k <= |ys| && forall i :: 0 <= i < k ==> ys[i] == PerBucket(xs[i], n)
    ensures Sum(ys, k) == PerBucket(Sum(xs, k), n)
  {
    hide PerBucket;
    if k == 0 {
      PerBucketLinear(0.0, 0.0, n);
    } else {
      SumPerBucket(xs, ys, n, k - 1);
      PerBucketLinear(Sum(xs, k - 1), xs[k - 1], n);
    }
  }

  // The chance a light of this weight is owed.
  function Owed(weight: real, total: real): real
    requires total > 0.0
  {
    weight / total
  }

  // A chance in units of one bucket.
  function InBuckets(chance: real, n: nat): real {
    chance * n as real
  }

  lemma {:induction false} InBucketsBack(chance: real, n: nat)
    requires n > 0
    ensures PerBucket(InBuckets(chance, n), n) == chance
  {
    PerBucketLinear(chance, 0.0, n);
  }

  lemma {:induction false} OwedSign(weight: real, total: real, n: nat)
    requires total > 0.0 && n > 0
    ensures InBuckets(Owed(weight, total), n) > 0.0 <==> weight > 0.0
    ensures weight >= 0.0 ==> InBuckets(Owed(weight, total), n) >= 0.0
  {
    var q, m := Owed(weight, total), n as real;
    assert weight == q * total;
    if q > 0.0 {
      assert q * total > 0.0 && q * m > 0.0;
    } else {
      assert q * total <= 0.0 && q * m <= 0.0;
    }
  }

  function Targets(lights: seq<Light>): (s: seq<real>)
    requires Total(Weights(lights)) > 0.0
    ensures |s| == |lights|
    ensures forall i :: 0 <= i < |s| ==> s[i] == Owed(Weight(lights[i]), Total(Weights(lights)))
  {
    seq(|lights|, i requires 0 <= i < |lights| => Owed(Weight(lights[i]), Total(Weights(lights))))
  }

  function Difference(xs: seq<real>, ys: seq<real>): seq<real>
    requires |xs| == |ys|
  {
    seq(|xs|, i requires 0 <= i < |xs| => xs[i] - ys[i])
  }

  // The lights of a finished table: geometry untouched, and the stored density is exactly the
  // chance with which the packed table selects the light.
  ghost predicate TrueDensity(before: seq<Light>, after: seq<Light>) {
    && |after| == |before| && IsTable(Accepts(after), Aliases(after))
    && (forall i :: 0 <= i < |after| ==> after[i] == before[i].(packed := after[i].packed, pdf := after[i].pdf))
    && (forall i :: 0 <= i < |after| ==>
        after[i].pdf == PerBucket(Chance(Accepts(after), Aliases(after), i, |after|), |after|))
  }

  // Some exact table for the targets, of which the packed one is the quantisation.
  ghost predicate QuantisationOf(before: seq<Light>, after: seq<Light>, exact: seq<real>)
    requires |after| == |before|
  {
    && Quantised(exact, Weights(before), Accepts(after)) && IsTable(exact, Aliases(after))
    && (Total(Weights(before)) > 0.0 ==> forall i :: 0 <= i < |before| ==>
          Chance(exact, Aliases(after), i, |before|) == InBuckets(Targets(before)[i], |before|))
  }

  // The stored densities are a probability distribution.
  lemma {:induction false} DensitiesSumToOne(before: seq<Light>, after: seq<Light>)
    requires TrueDensity(before, after) && after != []
    ensures Total(Pdfs(after)) == 1.0
  {
    hide Chance, Shares, Sum, PerBucket;
    var a, alias, n := Accepts(after), Aliases(after), |after|;
    SharesSumUp(a, alias, n);
    forall i | 0 <= i < n
      ensures Pdfs(after)[i] == PerBucket(Shares(a, alias, n)[i], n)
    {
      SharesAreChances(a, alias, n, i);
    }
    SumPerBucket(Shares(a, alias, n), Pdfs(after), n, n);
    PerBucketLinear(0.0, 0.0, n);
  }

  // A light can be selected exactly when it has weight.
  lemma {:induction false} PositiveExactlyWithWeight(before: seq<Light>, after: seq<Light>, exact: seq<real>, i: nat)
    requires TrueDensity(before, after) && QuantisationOf(before, after, exact)
    requires Total(Weights(before)) > 0.0 && i < |before|
    ensures after[i].pdf > 0.0 <==> Weight(before[i]) > 0.0
  {
    hide Chance, Total, PerBucket, InBuckets, Owed;
    var n := |before|;
    var share := Chance(Accepts(after), Aliases(after), i, n);
    assert Chance(exact, Aliases(after), i, n) == InBuckets(Targets(before)[i], n);
    OwedSign(Weight(before[i]), Total(Weights(before)), n);
    SelectableExactly(exact, Weights(before), Accepts(after), Aliases(after), i);
    PerBucketLinear(share, 0.0, n);
  }

  // Packing moves the distribution by at most 2/65535 in total.
  lemma {:induction false} CloseToTargets(before: seq<Light>, after: seq<Light>, exact: seq<real>)
    requires TrueDensity(before, after) && QuantisationOf(before, after, exact)
    requires Total(Weights(before)) > 0.0 && before != []
    ensures AbsTotal(Difference(Pdfs(after), Targets(before))) <= 2.0 / STEPS_REAL
  {
    hide Chance, Total, PerBucket, Shares, AbsTotal, InBuckets, Owed;
    var q, alias, n := Accepts(after), Aliases(after), |before|;
    QuantisedTable(exact, Weights(before), q, alias);
    DriftIsSmall(exact, q, alias, n, 1.0 / STEPS_REAL);
    var d, drift := Difference(Pdfs(after), Targets(before)), Drift(exact, q, alias, n);
    forall i | 0 <= i < n
      ensures d[i] == PerBucket(drift[i], n)
    {
      SharesAreChances(exact, alias, n, i);
      SharesAreChances(q, alias, n, i);
      InBucketsBack(Targets(before)[i], n);
      PerBucketLinear(Chance(q, alias, i, n), Chance(exact, alias, i, n), n);
    }
    AbsTotalPerBucket(drift, d, n);
    PerBucketBound(AbsTotal(drift), 2.0 * (1.0 / STEPS_REAL), n);
  }

  lemma {:induction false} PerBucketBound(x: real, bound: real, n: nat)
    requires n > 0 && x <= n as real * bound
    ensures PerBucket(x, n) <= bound
  {
    var m := n as real;
    assert x / m <= (m * bound) / m == bound;
  }

  lemma {:induction false} AbsTotalPerBucket(xs: seq<real>, ys: seq<real>, n: nat)
    requires n > 0 && |xs| == |ys| && forall i :: 0 <= i < |xs| ==> ys[i] == PerBucket(xs[i], n)
    ensures AbsTotal(ys) == PerBucket(AbsTotal(xs), n)
  {
    hide PerBucket, Sum;
    var a := seq(|xs|, i requires 0 <= i < |xs| => Abs(xs[i]));
    var b := seq(|ys|, i requires 0 <= i < |ys| => Abs(ys[i]));
    forall i | 0 <= i < |a| ensures b[i] == PerBucket(a[i], n) {
      PerBucketLinear(xs[i], 0.0, n);
    }
    SumPerBucket(a, b, n, |a|);
  }

  // ----- the loops around the redistribution

  method TotalWeight(lights: seq<Light>) returns (weights: seq<real>, total: real)
    ensures weights == Weights(lights) && total == Total(Weights(lights))
  {
    weights, total := [], 0.0;
    for i := 0 to |lights|
      invariant weights == Weights(lights)[..i] && total == Sum(Weights(lights), i)
    {
      var weight := Weight(lights[i]);
      weights := weights + [weight];
      total := total + weight;
    }
    assert weights == Weights(lights);
  }

  method Scale(weights: seq<real>, total: real) returns (scaled: seq<real>)
    requires total > 0.0 && total == Total(weights) && forall i :: 0 <= i < |weights| ==> weights[i] >= 0.0
    ensures |scaled| == |weights| && Total(scaled) == |weights| as real
    ensures forall i :: 0 <= i < |weights| ==>
          scaled[i] == InBuckets(Owed(weights[i], total), |weights|) && scaled[i] >= 0.0
  {
    hide Sum, InBuckets, Owed;
    scaled := [];
    for i := 0 to |weights|
      invariant |scaled| == i
      invariant forall j :: 0 <= j < i ==>
            scaled[j] == InBuckets(Owed(weights[j], total), |weights|) && scaled[j] >= 0.0
    {
      OwedSign(weights[i], total, |weights|);
      scaled := scaled + [InBuckets(Owed(weights[i], total), |weights|)];
    }
    ScaledTotal(weights, scaled, total);
  }

  lemma {:induction false} ScaledTotal(weights: seq<real>, scaled: seq<real>, total: real)
    requires total > 0.0 && total == Total(weights) && |scaled| == |weights|
    requires forall i :: 0 <= i < |weights| ==> scaled[i] == InBuckets(Owed(weights[i], total), |weights|)
    ensures Total(scaled) == |weights| as real
  {
    hide InBuckets, Owed, Sum;
    var f := |weights| as real / total;
    forall i | 0 <= i < |weights| ensures scaled[i] == weights[i] * f {
      OwedIsScaling(weights[i], total, |weights|);
    }
    SumScaled(weights, scaled, f, |weights|);
    OwedIsScaling(total, total, |weights|);
    WholeShare(total, |weights|);
  }

  lemma {:induction false} OwedIsScaling(w: real, total: real, n: nat)
    requires total > 0.0
    ensures InBuckets(Owed(w, total), n) == w * (n as real / total)
  {
    var q, f := w / total, n as real / total;
    assert w == q * total && n as real == f * total;
    assert q * (f * total) == (q * total) * f;
  }

  lemma {:induction false} WholeShare(total: real, n: nat)
    requires total > 0.0
    ensures InBuckets(Owed(total, total), n) == n as real
  {
  }

  method Quantise(lights: seq<Light>, weights: seq<real>, exact: seq<real>, alias: seq<nat>)
      returns (packed: seq<Light>, thresholds: seq<nat>)
    requires |lights| == |weights| == |exact| && IsTable(exact, alias) && |lights| <= 65535
    ensures |packed| == |thresholds| == |lights|
    ensures Quantised(exact, weights, Accepts(packed)) && Aliases(packed) == alias
    ensures forall i :: 0 <= i < |lights| ==> packed[i] == lights[i].(packed := packed[i].packed)
    ensures forall i :: 0 <= i < |lights| ==> Accepts(packed)[i] == thresholds[i] as real / STEPS_REAL
  {
    packed, thresholds := lights, seq(|lights|, _ => STEPS);
    for i := 0 to |lights|
      invariant |packed| == |thresholds| == |lights|
      invariant forall j :: 0 <= j < |lights| ==> packed[j] == lights[j].(packed := packed[j].packed)
      invariant forall j :: 0 <= j < i ==> thresholds[j] == Threshold(exact[j], weights[j])
      invariant forall j :: 0 <= j < i ==>
            AcceptOf(packed[j]) == thresholds[j] as real / STEPS_REAL && AliasOf(packed[j]) == alias[j]
    {
      var threshold := Lround(exact[i] * STEPS_REAL);
      if weights[i] > 0.0 && threshold == 0 {
        threshold := 1;
      }
      thresholds := thresholds[i := threshold];
      packed := packed[i := lights[i].(packed := Pack(threshold, alias[i]))];
      Unpacks(packed[i], threshold, alias[i]);
    }
  }

  function Fractions(thresholds: seq<nat>): (q: seq<real>)
    ensures |q| == |thresholds| && forall i :: 0 <= i < |q| ==> q[i] == thresholds[i] as real / STEPS_REAL
  {
    seq(|thresholds|, i requires 0 <= i < |thresholds| => thresholds[i] as real / STEPS_REAL)
  }

  // The density the quantised table realises, accumulated bucket by bucket.
  method Realise(thresholds: seq<nat>, alias: seq<nat>) returns (realised: seq<real>)
    requires thresholds != [] && |thresholds| == |alias|
    requires forall i :: 0 <= i < |alias| ==> alias[i] < |alias|
    ensures |realised| == |thresholds|
    ensures forall i :: 0 <= i < |thresholds| ==>
              realised[i] == PerBucket(Chance(Fractions(thresholds), alias, i, |thresholds|), |thresholds|)
  {
    hide PerBucket;
    var n := |thresholds|;
    ghost var q := Fractions(thresholds);
    realised := seq(n, _ => 0.0);
    PerBucketLinear(0.0, 0.0, n);
    for k := 0 to n
      invariant |realised| == n
      invariant forall i :: 0 <= i < n ==> realised[i] == PerBucket(Chance(q, alias, i, k), n)
    {
      var accept := thresholds[k] as real / STEPS_REAL;
      var direct := PerBucket(accept, n);
      var passedOn := PerBucket(1.0 - accept, n);
      forall i | 0 <= i < n
        ensures PerBucket(Chance(q, alias, i, k + 1), n) ==
                realised[i] + (if i == k then direct else 0.0) + (if i == alias[k] then passedOn else 0.0)
      {
        var own := if i == k then accept else 0.0;
        PerBucketLinear(Chance(q, alias, i, k), own, n);
        PerBucketLinear(Chance(q, alias, i, k) + own, if i == alias[k] then 1.0 - accept else 0.0, n);
      }
      realised := realised[k := realised[k] + direct];
      realised := realised[alias[k] := realised[alias[k]] + passedOn];
    }
  }

  method BuildLightAliasTable(lights: seq<Light>) returns (r: Result, ghost exact: seq<real>)
    ensures r.TooManyLights? <==> |lights| > 65535
    ensures r.Table? && Total(Weights(lights)) <= 0.0 ==> r.lights == []
    ensures r.Table? && Total(Weights(lights)) > 0.0 ==>
              TrueDensity(lights, r.lights) && QuantisationOf(lights, r.lights, exact)
  {
    hide Total, Chance, PerBucket, Quantised, InBuckets, Owed;
    exact := [];
    if |lights| > 65535 {
      return TooManyLights, [];
    }
    var weights, total := TotalWeight(lights);
    if total <= 0.0 {
      return Table([]), [];
    }
    NothingToSum(lights);
    var scaled := Scale(weights, total);
    var accept, alias := Redistribute(scaled);
    var packed, thresholds := Quantise(lights, weights, accept, alias);
    var realised := Realise(thresholds, alias);
    var out := packed;
    for i := 0 to |out|
      invariant |out| == |packed|
      invariant forall j :: 0 <= j < |out| ==> out[j] == packed[j].(pdf := if j < i then realised[j] else packed[j].pdf)
    {
      out := out[i := out[i].(pdf := realised[i])];
    }
    r, exact := Table(out), accept;
    assert Accepts(out) == Accepts(packed) == Fractions(thresholds) && Aliases(out) == alias;
    QuantisedTable(exact, weights, Accepts(out), alias);
  }

  lemma {:induction false} NothingToSum(lights: seq<Light>)
    requires Total(Weights(lights)) > 0.0
    ensures lights != []
  {
  }
}
