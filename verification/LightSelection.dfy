/** What the table of BuildLightAliasTable (Source/PathTracingScene.cpp:157-241) is for: the light a
    sample selects in the shader (SelectLightIndex, Shaders/PathTracingABI.hlsli:1554-1563), and what
    area and radiance have to do with it. */
module LightSelection {
  import opened Sums
  import opened AliasTable

  // ----- the shader

  // The largest float below one.
  const LAST_SAMPLE := 16777215.0 / 16777216.0

  function Least(a: real, b: real): real {
    if a < b then a else b
  }

  // A sample scaled to the number of buckets.
  function Scaled(sample: real, n: nat): (s: real)
    requires sample >= 0.0
    ensures s >= 0.0 && s.Floor >= 0
  {
    var s := Least(sample, LAST_SAMPLE) * n as real;
    s
  }

  // The light for a sample of [0, 1]: the whole part of the scaled sample is the bucket, the rest is
  // the coin; the high half of the packed word is the threshold, the low half the alias.
  function SelectLightIndex(lights: seq<Light>, sample: real): nat
    requires lights != [] && sample >= 0.0
  {
    var scaled, last := Scaled(sample, |lights|), |lights| - 1;
    var bucket := if scaled.Floor < last then scaled.Floor else last;
    Toss(lights[bucket].packed, scaled - scaled.Floor as real, bucket, last)
  }

  function Toss(packed: nat, coin: real, bucket: nat, last: nat): nat {
    var alias := if packed % 0x10000 < last then packed % 0x10000 else last;
    if coin < (packed / 0x10000) as real / 65535.0 then bucket else alias
  }

  // A sample in bucket b selects its light for a coin below the threshold, and else its alias; so the
  // light's share of all samples is what Chance adds up.
  lemma {:induction false} SelectsByCoin(lights: seq<Light>, sample: real, b: nat, coin: real)
    requires b < |lights| && 0.0 <= coin < 1.0 && 0.0 <= sample <= LAST_SAMPLE
    requires Scaled(sample, |lights|) == b as real + coin && IsTable(Accepts(lights), Aliases(lights))
    ensures SelectLightIndex(lights, sample) == if coin < Accepts(lights)[b] then b else Aliases(lights)[b]
  {
    hide Scaled, IsTable, Toss, AcceptOf, AliasOf;
    assert (b as real + coin).Floor == b;
    assert Aliases(lights)[b] < |lights| by { AliasInside(lights, b); }
    TossReads(lights[b], coin, b, |lights| - 1);
  }

  lemma AliasInside(lights: seq<Light>, b: nat)
    requires b < |lights| && IsTable(Accepts(lights), Aliases(lights))
    ensures Aliases(lights)[b] < |lights|
  {
  }

  lemma TossReads(light: Light, coin: real, b: nat, last: nat)
    requires AliasOf(light) <= last
    ensures Toss(light.packed, coin, b, last) == if coin < AcceptOf(light) then b else AliasOf(light)
  {
  }

  // A sample lies in its bucket, and every bucket and coin have a sample.
  lemma {:induction false} SampleOfCoin(n: nat, b: nat, coin: real)
    requires b < n && 0.0 <= coin < 1.0
    ensures var sample := (b as real + coin) / n as real;
            0.0 <= sample < 1.0 && (sample <= LAST_SAMPLE ==> Scaled(sample, n) == b as real + coin)
  {
    var m := n as real;
    var x := b as real + coin;
    assert x < m;
    assert x / m * m == x;
    Ratio(x, m);
  }

  lemma Ratio(x: real, m: real)
    requires 0.0 <= x < m
    ensures 0.0 <= x / m < 1.0
  {
  }

  // ----- the chance of a light, counted

  // How many of the first k of 65535 evenly spaced coins select light i in a bucket.
  function Coins(packed: nat, bucket: nat, last: nat, i: nat, k: nat): (count: nat)
    ensures count <= k
  {
    if k == 0 then 0
    else Coins(packed, bucket, last, i, k - 1)
         + if Toss(packed, (k - 1) as real / 65535.0, bucket, last) == i then 1 else 0
  }

  // And with these coins in each of the first k buckets.
  function Samples(lights: seq<Light>, i: nat, k: nat): nat
    requires k <= |lights|
  {
    if k == 0 then 0
    else Samples(lights, i, k - 1) + Coins(lights[k - 1].packed, k - 1, |lights| - 1, i, 65535)
  }

  lemma CoinBelow(k: nat, t: nat)
    ensures k as real / 65535.0 < t as real / 65535.0 <==> k < t
  {
  }

  lemma {:induction false} CoinsSelect(packed: nat, bucket: nat, last: nat, i: nat, k: nat)
    requires packed % 65536 <= last
    ensures var t := packed / 65536;
            var own := if k < t then k else t;
            Coins(packed, bucket, last, i, k)
              == (if bucket == i then own else 0) + if packed % 65536 == i then k - own else 0
  {
    if k > 0 {
      CoinsSelect(packed, bucket, last, i, k - 1);
      CoinBelow(k - 1, packed / 65536);
    }
  }

  lemma {:induction false} CoinsOfBucket(light: Light, bucket: nat, last: nat, i: nat)
    requires AliasOf(light) <= last && 0.0 <= AcceptOf(light) <= 1.0
    ensures Coins(light.packed, bucket, last, i, 65535) as real
         == 65535.0 * ((if bucket == i then AcceptOf(light) else 0.0)
                       + (if AliasOf(light) == i then 1.0 - AcceptOf(light) else 0.0))
  {
    var t := light.packed / 65536;
    assert t <= 65535;
    CoinsSelect(light.packed, bucket, last, i, 65535);
  }

  lemma {:induction false} SamplesAreChance(lights: seq<Light>, i: nat, k: nat)
    requires k <= |lights| && IsTable(Accepts(lights), Aliases(lights))
    ensures Samples(lights, i, k) as real == 65535.0 * Chance(Accepts(lights), Aliases(lights), i, k)
  {
    hide Coins, AcceptOf, AliasOf;
    if k > 0 {
      SamplesAreChance(lights, i, k - 1);
      assert Accepts(lights)[k - 1] == AcceptOf(lights[k - 1]) && Aliases(lights)[k - 1] == AliasOf(lights[k - 1]);
      CoinsOfBucket(lights[k - 1], k - 1, |lights| - 1, i);
    }
  }

  // The stored density is the share of these evenly spaced samples for which the shader selects the
  // light; 65535 of them in each bucket tell all thresholds apart.
  lemma {:induction false} DensityIsShareOfSamples(before: seq<Light>, after: seq<Light>, i: nat)
    requires TrueDensity(before, after) && i < |after|
    ensures Samples(after, i, |after|) as real == after[i].pdf * (65535 * |after|) as real
  {
    hide Samples, Chance, IsTable;
    SamplesAreChance(after, i, |after|);
    var n := |after| as real;
    assert after[i].pdf * n == Chance(Accepts(after), Aliases(after), i, |after|);
    assert (65535 * |after|) as real == 65535.0 * n;
  }

  // ----- what a light is owed

  // Luminance is additive and homogeneous in the radiance, and this on the unit colours.
  function Lit(area: real, red: real, green: real, blue: real): Light {
    Light(area, red, green, blue, 0, 0.0)
  }

  lemma {:induction false} LuminanceIsLinear(a: Light, b: Light, k: real)
    ensures Luminance(Lit(1.0, a.red + b.red, a.green + b.green, a.blue + b.blue)) == Luminance(a) + Luminance(b)
    ensures Luminance(Lit(1.0, k * a.red, k * a.green, k * a.blue)) == k * Luminance(a)
  {
  }

  lemma {:induction false} LuminanceOfColours(area: real)
    ensures Luminance(Lit(area, 1.0, 0.0, 0.0)) == 0.2126
    ensures Luminance(Lit(area, 0.0, 1.0, 0.0)) == 0.7152
    ensures Luminance(Lit(area, 0.0, 0.0, 1.0)) == 0.0722
  {
  }

  // The target of a light is in proportion to its area times its luminance, and zero where that is
  // negative.
  lemma {:induction false} TargetsInProportion(lights: seq<Light>, i: nat, j: nat)
    requires Total(Weights(lights)) > 0.0 && i < |lights| && j < |lights|
    requires lights[i].area * Luminance(lights[i]) >= 0.0 && lights[j].area * Luminance(lights[j]) >= 0.0
    ensures Targets(lights)[i] * (lights[j].area * Luminance(lights[j]))
         == Targets(lights)[j] * (lights[i].area * Luminance(lights[i]))
  {
    hide Total, Luminance;
    Crosswise(lights[i].area * Luminance(lights[i]), lights[j].area * Luminance(lights[j]), Total(Weights(lights)));
  }

  lemma {:induction false} Crosswise(a: real, b: real, total: real)
    requires total > 0.0
    ensures Owed(a, total) * b == Owed(b, total) * a
  {
    assert Owed(a, total) == a / total && Owed(b, total) == b / total;
    assert a / total * b == a * b / total;
    assert b / total * a == a * b / total;
  }

  // Lights of equal radiance are selected in the ratio of their areas.
  lemma {:induction false} TargetsByArea(lights: seq<Light>, i: nat, j: nat)
    requires Total(Weights(lights)) > 0.0 && i < |lights| && j < |lights|
    requires lights[i].red == lights[j].red && lights[i].green == lights[j].green && lights[i].blue == lights[j].blue
    requires lights[i].area >= 0.0 && lights[j].area >= 0.0
    ensures Targets(lights)[i] * lights[j].area == Targets(lights)[j] * lights[i].area
  {
    hide Total, Luminance;
    var total, l := Total(Weights(lights)), Luminance(lights[i]);
    SameLuminance(lights[i], lights[j]);
    if l <= 0.0 {
      assert lights[i].area * l <= 0.0 && lights[j].area * l <= 0.0;
      NothingOwed(total);
    } else {
      assert lights[i].area * l >= 0.0 && lights[j].area * l >= 0.0;
      InUnits(lights[i].area, l, total);
      InUnits(lights[j].area, l, total);
      var unit := Owed(l, total);
      assert lights[i].area * unit * lights[j].area == lights[j].area * unit * lights[i].area;
    }
  }

  lemma SameLuminance(a: Light, b: Light)
    requires a.red == b.red && a.green == b.green && a.blue == b.blue
    ensures Luminance(a) == Luminance(b)
  {
  }

  lemma NothingOwed(total: real)
    requires total > 0.0
    ensures Owed(0.0, total) == 0.0
  {
  }

  lemma {:induction false} InUnits(area: real, l: real, total: real)
    requires total > 0.0
    ensures Owed(area * l, total) == area * Owed(l, total)
  {
    assert area * l / total == area * (l / total);
  }

  // Lights of equal area are selected in the ratio of their luminances.
  lemma {:induction false} TargetsByLuminance(lights: seq<Light>, i: nat, j: nat)
    requires Total(Weights(lights)) > 0.0 && i < |lights| && j < |lights| && lights[i].area == lights[j].area >= 0.0
    requires Luminance(lights[i]) >= 0.0 && Luminance(lights[j]) >= 0.0
    ensures Targets(lights)[i] * Luminance(lights[j]) == Targets(lights)[j] * Luminance(lights[i])
  {
    hide Total, Luminance;
    var total, area, l, m := Total(Weights(lights)), lights[i].area, Luminance(lights[i]), Luminance(lights[j]);
    assert area * l >= 0.0 && area * m >= 0.0;
    InUnits(area, l, total);
    InUnits(area, m, total);
    Crosswise(l, m, total);
    assert area * Owed(l, total) * m == area * (Owed(l, total) * m);
    assert area * Owed(m, total) * l == area * (Owed(m, total) * l);
  }

  // The targets are shares of the whole.
  lemma {:induction false} TargetsSumToOne(lights: seq<Light>)
    requires Total(Weights(lights)) > 0.0
    ensures Total(Targets(lights)) == 1.0
  {
    var total := Total(Weights(lights));
    SharesOf(Weights(lights), Targets(lights), total, |lights|);
    assert Sum(Weights(lights), |lights|) == total && total / total == 1.0;
  }

  lemma {:induction false} SharesOf(xs: seq<real>, ys: seq<real>, total: real, k: nat)
    requires total > 0.0 && k <= |xs| && k <= |ys| && forall i :: 0 <= i < k ==> ys[i] == Owed(xs[i], total)
    ensures Sum(ys, k) == Sum(xs, k) / total
  {
    if k > 0 {
      SharesOf(xs, ys, total, k - 1);
      assert Sum(xs, k - 1) / total + xs[k - 1] / total == (Sum(xs, k - 1) + xs[k - 1]) / total;
    }
  }

  // There is something to select exactly when some light has positive area times luminance, and of
  // a finished table exactly these lights can be selected.
  lemma {:induction false} SelectableByFlux(before: seq<Light>, after: seq<Light>, exact: seq<real>, i: nat)
    requires TrueDensity(before, after) && QuantisationOf(before, after, exact)
    requires Total(Weights(before)) > 0.0 && i < |before|
    ensures after[i].pdf > 0.0 <==> before[i].area * Luminance(before[i]) > 0.0
  {
    hide Total, Luminance, TrueDensity, QuantisationOf;
    PositiveExactlyWithWeight(before, after, exact, i);
  }

  lemma {:induction false} SomethingToSelect(lights: seq<Light>)
    ensures Total(Weights(lights)) > 0.0
       <==> exists i :: 0 <= i < |lights| && lights[i].area * Luminance(lights[i]) > 0.0
  {
    hide Luminance;
    SomePositive(Weights(lights), |lights|);
    if exists i :: 0 <= i < |lights| && lights[i].area * Luminance(lights[i]) > 0.0 {
      var i :| 0 <= i < |lights| && lights[i].area * Luminance(lights[i]) > 0.0;
      assert Weights(lights)[i] > 0.0;
    }
  }

  lemma {:induction false} SomePositive(ws: seq<real>, k: nat)
    requires k <= |ws| && forall i :: 0 <= i < |ws| ==> ws[i] >= 0.0
    ensures Sum(ws, k) >= 0.0
    ensures Sum(ws, k) > 0.0 <==> exists i :: 0 <= i < k && ws[i] > 0.0
  {
    if k > 0 {
      SomePositive(ws, k - 1);
    }
  }
}
