/** The effective rate at one estate value: the allowance comes off first, the
    band walk taxes what is left, and the tax is divided by the full estate. */
module EffectiveRate {
  import opened Outcomes
  import opened Cells
  import opened Bands
  import opened Allowance
  import opened BandWalk
  import opened Arithmetic

  /** Everything computed for one estate value. `rate` is None when the value
      is 0, where tax / value is undefined. */
  datatype Sample = Sample(value: real, allowance: real, modified: real, tax: real, band: nat, rate: Option<real>)

  /** Total tax over estate value. */
  function RateOf(tax: real, v: real): (r: Option<real>)
    ensures r.None? <==> v == 0.0
    ensures r.Some? ==> r.value * v == tax
  {
    if v == 0.0 then None else Some(tax / v)
  }

  /** One estate value through the engine. */
  function Measure(bands: seq<Band>, taper: Option<Taper>, v: real): (r: Result<Sample, Error>)
    ensures r.Success? ==> r.value.value == v && r.value.band + 1 < |bands|
    ensures r.Success? ==> r.value.modified + r.value.allowance == v
    ensures r.Success? ==> r.value.allowance == AllowanceAt(taper, v)
    ensures r.Success? ==> r.value.rate == RateOf(r.value.tax, v)
    ensures r.Success? ==> r.value.modified < bands[r.value.band + 1].threshold
  {
    var allowance := AllowanceAt(taper, v);
    var modified := v - allowance;
    var stop :- WalkFrom(bands, modified, 0);
    Success(Sample(v, allowance, modified, stop.tax, stop.band, RateOf(stop.tax, v)))
  }

  /** The highest rate in a table. */
  function MaxRate(bands: seq<Band>): (m: real)
    requires |bands| > 0
    ensures forall i :: 0 <= i < |bands| ==> bands[i].rate <= m
    ensures exists i :: 0 <= i < |bands| && bands[i].rate == m
  {
    if |bands| == 1 then bands[0].rate
    else
      var rest := MaxRate(bands[1..]);
      assert forall i :: 1 <= i < |bands| ==> bands[i] == bands[1..][i - 1];
      if bands[0].rate >= rest then bands[0].rate else rest
  }

  /** From band x on, each real band levies at least the rate of the one
      before it (the sentinel's rate is never levied and is left out). */
  predicate RatesRiseFrom(bands: seq<Band>, x: nat)
    decreases |bands| - x
  {
    x + 2 >= |bands| || (bands[x].rate <= bands[x + 1].rate && RatesRiseFrom(bands, x + 1))
  }

  /** The real bands' rates never fall along the table. */
  predicate RatesRise(bands: seq<Band>) {
    RatesRiseFrom(bands, 0)
  }

  /** A walk-free description of when the engine answers: with at least one
      real band, every estate whose modified value stays below the sentinel
      threshold is measured. */
  lemma MeasureSucceeds(bands: seq<Band>, taper: Option<Taper>, v: real)
    requires |bands| >= 2
    requires v - AllowanceAt(taper, v) < Last(bands).threshold
    ensures Measure(bands, taper, v).Success?
  {
    WalkStopsBeforeSentinel(bands, v - AllowanceAt(taper, v));
  }

  /** A single-rate schedule starting at zero, without allowance: the effective
      rate is that rate at every positive estate below the sentinel. */
  lemma FlatRateIdentity(bands: seq<Band>, r: real, v: real)
    requires |bands| >= 2 && bands[0].threshold == 0.0
    requires forall i :: 0 <= i < |bands| - 1 ==> bands[i].rate == r
    requires 0.0 < v < Last(bands).threshold
    ensures Measure(bands, None, v).Success?
    ensures Measure(bands, None, v).value.rate == Some(r)
  {
    WalkStopsBeforeSentinel(bands, v);
    var k := WalkFrom(bands, v, 0).value.band;
    RatesAtMostEach(bands, 0, k, r);
    RatesAtLeastEach(bands, 0, k, r);
    WalkFlatRate(bands, v, 0, r);
    var tax := WalkFrom(bands, v, 0).value.tax;
    assert tax == r * v;
    DivideProduct(r, v);
  }

  /** Without allowance, with non-negative rates and the first band starting at
      zero, the effective rate of every positive estate below the sentinel lies
      between zero and the highest real rate. */
  lemma EffectiveRateWithinRates(bands: seq<Band>, v: real)
    requires |bands| >= 2 && Ascending(bands) && bands[0].threshold == 0.0
    requires forall i :: 0 <= i < |bands| - 1 ==> 0.0 <= bands[i].rate
    requires 0.0 < v < Last(bands).threshold
    ensures Measure(bands, None, v).Success?
    ensures Measure(bands, None, v).value.rate.Some?
    ensures 0.0 <= Measure(bands, None, v).value.rate.value <= MaxRate(bands[..|bands| - 1])
  {
    WalkStopsBeforeSentinel(bands, v);
    var k := WalkFrom(bands, v, 0).value.band;
    var taxed := bands[..|bands| - 1];
    var top := MaxRate(taxed);
    assert forall i :: 0 <= i < |bands| - 1 ==> bands[i].rate == taxed[i].rate;
    RatesAtMostEach(bands, 0, k, top);
    RatesAtLeastEach(bands, 0, k, 0.0);
    WalkTaxAtMost(bands, v, 0, top);
    WalkTaxAtLeast(bands, v, 0, 0.0);
    var tax := WalkFrom(bands, v, 0).value.tax;
    QuotientBounds(tax, v, 0.0, top);
  }

  /** Rates rising from x keep rising from every later band. */
  lemma {:induction false} RatesRiseSuffix(bands: seq<Band>, x: nat, y: nat)
    requires RatesRiseFrom(bands, x) && x <= y
    ensures RatesRiseFrom(bands, y)
    decreases y - x
  {
    if x < y && x + 2 < |bands| {
      RatesRiseSuffix(bands, x + 1, y);
    }
  }

  /** A lower bound stays a bound when lowered. */
  lemma {:induction false} RatesAtLeastLowered(bands: seq<Band>, x: nat, k: nat, lo: real, lower: real)
    requires k < |bands| && RatesAtLeast(bands, x, k, lo) && lower <= lo
    ensures RatesAtLeast(bands, x, k, lower)
    decreases k + 1 - x
  {
    if x <= k {
      RatesAtLeastLowered(bands, x + 1, k, lo, lower);
    }
  }

  /** With rates rising from x, every real band from x through k levies
      between band x's rate and band k's rate. */
  lemma {:induction false} RisingFrom(bands: seq<Band>, x: nat, k: nat)
    requires RatesRiseFrom(bands, x) && x <= k && k + 1 < |bands|
    ensures RatesAtLeast(bands, x, k, bands[x].rate)
    ensures RatesAtMost(bands, x, k, bands[k].rate)
    decreases k - x
  {
    if x < k {
      RisingFrom(bands, x + 1, k);
      RatesAtLeastLowered(bands, x + 1, k, bands[x + 1].rate, bands[x].rate);
      assert bands[x + 1].rate <= bands[k].rate;
    } else {
      assert RatesAtLeast(bands, x + 1, k, bands[x].rate);
      assert RatesAtMost(bands, x + 1, k, bands[k].rate);
    }
  }

  /** Band by band and pairwise rising rates are the same order. */
  lemma RatesRiseIsPairwise(bands: seq<Band>)
    ensures RatesRise(bands) <==> forall i, j :: 0 <= i < j < |bands| - 1 ==> bands[i].rate <= bands[j].rate
  {
    if RatesRise(bands) {
      forall i, j | 0 <= i < j < |bands| - 1
        ensures bands[i].rate <= bands[j].rate
      {
        RatesRiseSuffix(bands, 0, i);
        RisingFrom(bands, i, j);
        RatesAtMostEach(bands, i, j, bands[j].rate);
      }
    }
    if forall i, j :: 0 <= i < j < |bands| - 1 ==> bands[i].rate <= bands[j].rate {
      PairwiseRisesFrom(bands, 0);
    }
  }

  lemma {:induction false} PairwiseRisesFrom(bands: seq<Band>, x: nat)
    requires forall i, j :: 0 <= i < j < |bands| - 1 ==> bands[i].rate <= bands[j].rate
    ensures RatesRiseFrom(bands, x)
    decreases |bands| - x
  {
    if x + 2 < |bands| {
      PairwiseRisesFrom(bands, x + 1);
    }
  }

  /** Two values walk together through every band the lower one fills: the
      tax difference between them arises only from the band where the lower
      value stops onwards. */
  lemma {:induction false} SharedPrefix(bands: seq<Band>, v1: real, v2: real, x: nat, k: nat, m: real)
    requires v1 <= v2
    requires WalkFrom(bands, v1, x).Success? && WalkFrom(bands, v2, x).Success?
    requires k == WalkFrom(bands, v1, x).value.band && m == bands[k].rate
    ensures WalkFrom(bands, v1, k).Success? && WalkFrom(bands, v2, k).Success?
    ensures WalkFrom(bands, v1, k).value.tax == m * (v1 - bands[k].threshold)
    ensures WalkFrom(bands, v2, x).value.tax - WalkFrom(bands, v1, x).value.tax
         == WalkFrom(bands, v2, k).value.tax - WalkFrom(bands, v1, k).value.tax
    decreases |bands| - x
  {
    if v1 >= bands[x + 1].threshold {
      FullBandStep(bands, v1, x);
      FullBandStep(bands, v2, x);
      SharedPrefix(bands, v1, v2, x + 1, k, m);
    } else {
      assert k == x;
    }
  }

  /** From the band where the lower value stops, the higher value pays at least
      that band's rate on every extra unit when no later band it reaches has a
      lower rate. */
  lemma GainFromStoppingBand(bands: seq<Band>, v1: real, v2: real, k: nat, m: real)
    requires AscendingFrom(bands, k) && k < |bands| && m == bands[k].rate
    requires bands[k].threshold <= v1 <= v2
    requires WalkFrom(bands, v1, k).Success? && WalkFrom(bands, v2, k).Success?
    requires WalkFrom(bands, v1, k).value.tax == m * (v1 - bands[k].threshold)
    requires RatesAtLeast(bands, k, WalkFrom(bands, v2, k).value.band, m)
    ensures WalkFrom(bands, v2, k).value.tax - WalkFrom(bands, v1, k).value.tax >= m * (v2 - v1)
  {
    WalkTaxAtLeast(bands, v2, k, m);
  }

  /** Without allowance, measuring is walking the estate value itself. */
  lemma MeasureWithoutAllowance(bands: seq<Band>, v: real)
    requires WalkFrom(bands, v, 0).Success?
    ensures Measure(bands, None, v).Success?
    ensures Measure(bands, None, v).value.tax == WalkFrom(bands, v, 0).value.tax
    ensures Measure(bands, None, v).value.rate == RateOf(WalkFrom(bands, v, 0).value.tax, v)
  {
  }

  /** The engine at value v succeeds exactly when the walk of v less its
      allowance does. */
  lemma MeasureSucceedsIff(bands: seq<Band>, taper: Option<Taper>, v: real)
    ensures Measure(bands, taper, v).Success? <==> WalkFrom(bands, v - AllowanceAt(taper, v), 0).Success?
  {
  }

  /** The engine at value v is the walk of v less its allowance: when both
      succeed it reports the walk's band and tax. */
  lemma MeasureIsWalk(bands: seq<Band>, taper: Option<Taper>, v: real, sample: Sample, stop: Stop)
    requires Measure(bands, taper, v) == Success(sample)
    requires WalkFrom(bands, v - AllowanceAt(taper, v), 0) == Success(stop)
    ensures sample.band == stop.band && sample.tax == stop.tax
    ensures sample.rate == RateOf(stop.tax, v)
  {
  }

  /** The tax of a value is at most the rate of its last band on all of it,
      when rates rise band by band from a first band at zero. */
  lemma TaxAtMostLastRate(bands: seq<Band>, v: real, k: nat, m: real)
    requires Ascending(bands) && RatesRise(bands) && |bands| >= 2 && bands[0].threshold == 0.0
    requires 0.0 <= v && WalkFrom(bands, v, 0).Success?
    requires k == WalkFrom(bands, v, 0).value.band && m == bands[k].rate
    ensures WalkFrom(bands, v, 0).value.tax <= m * v
  {
    RisingFrom(bands, 0, k);
    WalkTaxAtMost(bands, v, 0, m);
  }

  /** The higher of two values pays at least the lower value's last rate on
      the difference, when rates rise band by band. */
  lemma GainAtLeastLastRate(bands: seq<Band>, v1: real, v2: real, k: nat, m: real)
    requires Ascending(bands) && RatesRise(bands) && |bands| >= 2
    requires bands[0].threshold <= v1 <= v2
    requires WalkFrom(bands, v1, 0).Success? && WalkFrom(bands, v2, 0).Success?
    requires k == WalkFrom(bands, v1, 0).value.band && m == bands[k].rate
    ensures WalkFrom(bands, v2, 0).value.tax - WalkFrom(bands, v1, 0).value.tax >= m * (v2 - v1)
  {
    SharedPrefix(bands, v1, v2, 0, k, m);
    StopBandReached(bands, v1, 0);
    AscendingSuffix(bands, 0, k);
    RatesRiseSuffix(bands, 0, k);
    RisingFrom(bands, k, WalkFrom(bands, v2, k).value.band);
    GainFromStoppingBand(bands, v1, v2, k, m);
  }

  /** Tax over value never falls as the value grows, when thresholds ascend
      from a first band at zero and rates rise band by band. */
  lemma WalkRatioRises(bands: seq<Band>, v1: real, v2: real)
    requires |bands| >= 2 && Ascending(bands) && RatesRise(bands) && bands[0].threshold == 0.0
    requires 0.0 < v1 <= v2 < Last(bands).threshold
    ensures WalkFrom(bands, v1, 0).Success? && WalkFrom(bands, v2, 0).Success?
    ensures WalkFrom(bands, v1, 0).value.tax / v1 <= WalkFrom(bands, v2, 0).value.tax / v2
  {
    WalkStopsBeforeSentinel(bands, v1);
    WalkStopsBeforeSentinel(bands, v2);
    var k := WalkFrom(bands, v1, 0).value.band;
    RatioOfWalks(bands, v1, v2, k, bands[k].rate, WalkFrom(bands, v1, 0).value.tax, WalkFrom(bands, v2, 0).value.tax);
  }

  /** The ratio step with the walk's results named: t1 is at most rate m on v1
      and t2 gains at least m per unit beyond v1, so t1 / v1 <= t2 / v2. */
  lemma RatioOfWalks(bands: seq<Band>, v1: real, v2: real, k: nat, m: real, t1: real, t2: real)
    requires |bands| >= 2 && Ascending(bands) && RatesRise(bands) && bands[0].threshold == 0.0
    requires 0.0 < v1 <= v2
    requires WalkFrom(bands, v1, 0).Success? && WalkFrom(bands, v2, 0).Success?
    requires k == WalkFrom(bands, v1, 0).value.band && m == bands[k].rate
    requires t1 == WalkFrom(bands, v1, 0).value.tax && t2 == WalkFrom(bands, v2, 0).value.tax
    ensures t1 / v1 <= t2 / v2
  {
    TaxAtMostLastRate(bands, v1, k, m);
    GainAtLeastLastRate(bands, v1, v2, k, m);
    RatioRises(t1, t2, v1, v2, m);
  }

  /** With no allowance, the first band at zero and rates rising band by band,
      the effective rate never falls as the estate grows (below the sentinel). */
  lemma EffectiveRateNonDecreasing(bands: seq<Band>, v1: real, v2: real)
    requires |bands| >= 2 && Ascending(bands) && RatesRise(bands) && bands[0].threshold == 0.0
    requires 0.0 < v1 <= v2 < Last(bands).threshold
    ensures Measure(bands, None, v1).Success? && Measure(bands, None, v2).Success?
    ensures Measure(bands, None, v1).value.rate.Some? && Measure(bands, None, v2).value.rate.Some?
    ensures Measure(bands, None, v1).value.rate.value <= Measure(bands, None, v2).value.rate.value
  {
    WalkRatioRises(bands, v1, v2);
    MeasureWithoutAllowance(bands, v1);
    MeasureWithoutAllowance(bands, v2);
  }

  /** A worked example: nothing up to 1, then 20%; an estate
      of 2 pays 0.2, an effective rate of 10%. */
  lemma TwoBandExample()
    ensures Measure([Band(0.0, 0.0), Band(1.0, 0.2), Band(SentinelThreshold, 0.2)], None, 2.0)
         == Success(Sample(2.0, 0.0, 2.0, 0.2, 1, Some(0.1)))
  {
    var bands := [Band(0.0, 0.0), Band(1.0, 0.2), Band(SentinelThreshold, 0.2)];
    assert WalkFrom(bands, 2.0, 1) == Success(Stop(0.2, 1));
    assert WalkFrom(bands, 2.0, 0) == Success(Stop(0.2, 1));
  }
}
