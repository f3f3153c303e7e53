/** The band walk: the tax on a (modified) estate value, taking every band the
    value reaches in full and the first band it does not reach in part. */
module BandWalk {
  import opened Outcomes
  import opened Cells
  import opened Bands
  import opened Arithmetic

  /** Where the walk stopped: the tax accumulated and the band it ended in. */
  datatype Stop = Stop(tax: real, band: nat)

  /** The walk from band x on. A value at or above the next threshold consumes
      band x in full and moves on (the comparison is `>=`); below it, band x is
      taken up to the value and the walk stops. Looking up the band after the
      last one fails. */
  function WalkFrom(bands: seq<Band>, mv: real, x: nat): (r: Result<Stop, Error>)
    decreases |bands| - x
    ensures r.Success? ==> x <= r.value.band && r.value.band + 1 < |bands|
    ensures r.Success? ==> mv < bands[r.value.band + 1].threshold
  {
    if x + 1 >= |bands| then Failure(BandOutOfRange(x + 1))
    else if mv >= bands[x + 1].threshold then
      var rest :- WalkFrom(bands, mv, x + 1);
      Success(Stop(bands[x].rate * (bands[x + 1].threshold - bands[x].threshold) + rest.tax, rest.band))
    else
      Success(Stop(bands[x].rate * (mv - bands[x].threshold), x))
  }

  /** Every threshold the walk passed lies at or below the value: the walk
      leaves a band only for a next threshold the value reaches. */
  lemma {:induction false} WalkPassesThresholds(bands: seq<Band>, mv: real, x: nat)
    requires WalkFrom(bands, mv, x).Success?
    ensures forall j :: x < j <= WalkFrom(bands, mv, x).value.band ==> bands[j].threshold <= mv
    decreases |bands| - x
  {
    if mv >= bands[x + 1].threshold {
      WalkPassesThresholds(bands, mv, x + 1);
    }
  }

  /** The band the walk ends in starts at or below the value, once the band
      it starts from does. */
  lemma StopBandReached(bands: seq<Band>, mv: real, x: nat)
    requires x < |bands| && bands[x].threshold <= mv
    requires WalkFrom(bands, mv, x).Success?
    ensures bands[WalkFrom(bands, mv, x).value.band].threshold <= mv
  {
    var k := WalkFrom(bands, mv, x).value.band;
    if k > x {
      WalkPassesThresholds(bands, mv, x);
      assert x < k <= k;
    }
  }

  /** A walk result with `paid` already added to its tax. */
  function PlusTax(r: Result<Stop, Error>, paid: real): Result<Stop, Error> {
    match r
    case Success(s) => Success(Stop(paid + s.tax, s.band))
    case Failure(e) => r
  }

  /** The walk as the scripts run it: a loop over band indices with a running
      total, leaving at the first band the value does not fill. */
  method Walk(bands: seq<Band>, mv: real) returns (r: Result<Stop, Error>)
    ensures r == WalkFrom(bands, mv, 0)
  {
    var total := 0.0;
    var x: nat := 0;
    while x < |bands|
      invariant x <= |bands|
      invariant PlusTax(WalkFrom(bands, mv, x), total) == WalkFrom(bands, mv, 0)
      decreases |bands| - x
    {
      if x + 1 >= |bands| {
        return Failure(BandOutOfRange(x + 1));
      }
      if mv >= bands[x + 1].threshold {
        total := total + bands[x].rate * (bands[x + 1].threshold - bands[x].threshold);
        x := x + 1;
      } else {
        total := total + bands[x].rate * (mv - bands[x].threshold);
        return Success(Stop(total, x));
      }
    }
    return Failure(BandOutOfRange(x + 1));
  }

  /** The walk fails exactly when the value reaches every threshold after band
      x, the sentinel's included; otherwise it stops inside the table. */
  lemma {:induction false} WalkFailsPastEveryThreshold(bands: seq<Band>, mv: real, x: nat)
    ensures WalkFrom(bands, mv, x).Failure? <==> forall j :: x < j < |bands| ==> bands[j].threshold <= mv
    decreases |bands| - x
  {
    if x + 1 < |bands| && mv >= bands[x + 1].threshold {
      WalkFailsPastEveryThreshold(bands, mv, x + 1);
    }
  }

  /** The walk never runs off the end of a loaded table: with one real band or
      more, any value below the sentinel threshold stops inside the table. */
  lemma WalkStopsBeforeSentinel(bands: seq<Band>, mv: real)
    requires |bands| >= 2
    requires mv < Last(bands).threshold
    ensures WalkFrom(bands, mv, 0).Success?
  {
    WalkFailsPastEveryThreshold(bands, mv, 0);
    var j := |bands| - 1;
    assert 0 < j < |bands| && !(bands[j].threshold <= mv);
  }

  // ---------------------------------------------------------------------------
  // Closed form: a sum of clamped band slices

  /** a limited to [lo, hi]. */
  function Clamp(a: real, lo: real, hi: real): (c: real)
    requires lo <= hi
    ensures lo <= c <= hi
    ensures lo <= a <= hi ==> c == a
  {
    if a < lo then lo else if a > hi then hi else a
  }

  /** The tax band i levies on value mv: its rate on the part of mv that lies
      between its threshold and the next one. */
  function Slice(bands: seq<Band>, mv: real, i: nat): real
    requires AscendingFrom(bands, i) && i + 1 < |bands|
  {
    bands[i].rate * Clamp(mv - bands[i].threshold, 0.0, bands[i + 1].threshold - bands[i].threshold)
  }

  /** The slices of every real band from x on (the sentinel has no slice). */
  function SliceSum(bands: seq<Band>, mv: real, x: nat): real
    requires AscendingFrom(bands, x)
    decreases |bands| - x
  {
    if x + 1 >= |bands| then 0.0 else Slice(bands, mv, x) + SliceSum(bands, mv, x + 1)
  }

  /** No band at or above a value's reach levies anything on it. */
  lemma {:induction false} SliceSumVanishes(bands: seq<Band>, mv: real, x: nat)
    requires AscendingFrom(bands, x) && x < |bands|
    requires mv <= bands[x].threshold
    ensures SliceSum(bands, mv, x) == 0.0
    decreases |bands| - x
  {
    if x + 1 < |bands| {
      assert Clamp(mv - bands[x].threshold, 0.0, bands[x + 1].threshold - bands[x].threshold) == 0.0;
      SliceSumVanishes(bands, mv, x + 1);
    }
  }

  /** The walk's tax is the sum of clamped slices over the real bands, for every
      value at or above the walk's first threshold. A value exactly on a
      threshold fills the band below it, so the `>=` test changes the band the
      walk ends in but never the tax. */
  lemma {:induction false} WalkIsSliceSum(bands: seq<Band>, mv: real, x: nat)
    requires AscendingFrom(bands, x) && x < |bands|
    requires bands[x].threshold <= mv
    requires WalkFrom(bands, mv, x).Success?
    ensures WalkFrom(bands, mv, x).value.tax == SliceSum(bands, mv, x)
    decreases |bands| - x
  {
    if mv >= bands[x + 1].threshold {
      FullBandStep(bands, mv, x);
      FullSlice(bands, mv, x);
      WalkIsSliceSum(bands, mv, x + 1);
    } else {
      PartialSlice(bands, mv, x);
      SliceSumVanishes(bands, mv, x + 1);
    }
  }

  /** One step of the walk through a band the value fills. */
  lemma FullBandStep(bands: seq<Band>, mv: real, x: nat)
    requires x + 1 < |bands| && mv >= bands[x + 1].threshold
    requires WalkFrom(bands, mv, x).Success?
    ensures WalkFrom(bands, mv, x + 1).Success?
    ensures WalkFrom(bands, mv, x).value
         == Stop(bands[x].rate * (bands[x + 1].threshold - bands[x].threshold) + WalkFrom(bands, mv, x + 1).value.tax,
                 WalkFrom(bands, mv, x + 1).value.band)
  {
  }

  /** A filled band's slice is its rate on its whole width. */
  lemma FullSlice(bands: seq<Band>, mv: real, x: nat)
    requires AscendingFrom(bands, x) && x + 1 < |bands| && mv >= bands[x + 1].threshold
    ensures Slice(bands, mv, x) == bands[x].rate * (bands[x + 1].threshold - bands[x].threshold)
    ensures SliceSum(bands, mv, x) == Slice(bands, mv, x) + SliceSum(bands, mv, x + 1)
  {
  }

  /** The band the walk stops in is taxed on the value above its threshold. */
  lemma PartialSlice(bands: seq<Band>, mv: real, x: nat)
    requires AscendingFrom(bands, x) && x + 1 < |bands|
    requires bands[x].threshold <= mv < bands[x + 1].threshold
    ensures WalkFrom(bands, mv, x) == Success(Stop(bands[x].rate * (mv - bands[x].threshold), x))
    ensures Slice(bands, mv, x) == bands[x].rate * (mv - bands[x].threshold)
    ensures SliceSum(bands, mv, x) == Slice(bands, mv, x) + SliceSum(bands, mv, x + 1)
  {
  }

  // ---------------------------------------------------------------------------
  // Bounds on the tax from bounds on the rates

  /** If every band the walk taxes has rate at most hi, the tax is at most hi
      on the whole value above the first threshold. */
  lemma {:induction false} WalkTaxAtMost(bands: seq<Band>, mv: real, x: nat, hi: real)
    requires AscendingFrom(bands, x) && x < |bands|
    requires bands[x].threshold <= mv
    requires WalkFrom(bands, mv, x).Success?
    requires RatesAtMost(bands, x, WalkFrom(bands, mv, x).value.band, hi)
    ensures WalkFrom(bands, mv, x).value.tax <= hi * (mv - bands[x].threshold)
    decreases |bands| - x
  {
    assert bands[x].rate <= hi;
    if mv >= bands[x + 1].threshold {
      FullBandStep(bands, mv, x);
      WalkTaxAtMost(bands, mv, x + 1, hi);
      FullBandAtMost(bands, x, hi, mv, WalkFrom(bands, mv, x + 1).value.tax, WalkFrom(bands, mv, x).value.tax);
    } else {
      PartBandAtMost(bands, x, hi, mv);
    }
  }

  /** If every band the walk taxes has rate at least lo, the tax is at least lo
      on the whole value above the first threshold. */
  lemma {:induction false} WalkTaxAtLeast(bands: seq<Band>, mv: real, x: nat, lo: real)
    requires AscendingFrom(bands, x) && x < |bands|
    requires bands[x].threshold <= mv
    requires WalkFrom(bands, mv, x).Success?
    requires RatesAtLeast(bands, x, WalkFrom(bands, mv, x).value.band, lo)
    ensures lo * (mv - bands[x].threshold) <= WalkFrom(bands, mv, x).value.tax
    decreases |bands| - x
  {
    assert lo <= bands[x].rate;
    if mv >= bands[x + 1].threshold {
      FullBandStep(bands, mv, x);
      WalkTaxAtLeast(bands, mv, x + 1, lo);
      FullBandAtLeast(bands, x, lo, mv, WalkFrom(bands, mv, x + 1).value.tax, WalkFrom(bands, mv, x).value.tax);
    } else {
      PartBandAtLeast(bands, x, lo, mv);
    }
  }

  /** One filled band at rate <= hi, then a remainder taxed at most hi per
      unit: at most hi per unit from band x's threshold. */
  lemma FullBandAtMost(bands: seq<Band>, x: nat, hi: real, mv: real, rest: real, total: real)
    requires x + 1 < |bands| && bands[x].threshold <= bands[x + 1].threshold && bands[x].rate <= hi
    requires rest <= hi * (mv - bands[x + 1].threshold)
    requires total == bands[x].rate * (bands[x + 1].threshold - bands[x].threshold) + rest
    ensures total <= hi * (mv - bands[x].threshold)
  {
    MultiplyKeepsOrder(bands[x].rate, hi, bands[x + 1].threshold - bands[x].threshold);
  }

  lemma PartBandAtMost(bands: seq<Band>, x: nat, hi: real, mv: real)
    requires x < |bands| && bands[x].threshold <= mv && bands[x].rate <= hi
    ensures bands[x].rate * (mv - bands[x].threshold) <= hi * (mv - bands[x].threshold)
  {
    MultiplyKeepsOrder(bands[x].rate, hi, mv - bands[x].threshold);
  }

  /** One filled band at rate >= lo, then a remainder taxed at least lo per
      unit: at least lo per unit from band x's threshold. */
  lemma FullBandAtLeast(bands: seq<Band>, x: nat, lo: real, mv: real, rest: real, total: real)
    requires x + 1 < |bands| && bands[x].threshold <= bands[x + 1].threshold && lo <= bands[x].rate
    requires lo * (mv - bands[x + 1].threshold) <= rest
    requires total == bands[x].rate * (bands[x + 1].threshold - bands[x].threshold) + rest
    ensures lo * (mv - bands[x].threshold) <= total
  {
    MultiplyKeepsOrder(lo, bands[x].rate, bands[x + 1].threshold - bands[x].threshold);
  }

  lemma PartBandAtLeast(bands: seq<Band>, x: nat, lo: real, mv: real)
    requires x < |bands| && bands[x].threshold <= mv && lo <= bands[x].rate
    ensures lo * (mv - bands[x].threshold) <= bands[x].rate * (mv - bands[x].threshold)
  {
    MultiplyKeepsOrder(lo, bands[x].rate, mv - bands[x].threshold);
  }

  /** With one rate r on every band the walk taxes, the tax is r on the value
      above the first threshold: the full-band widths telescope. This holds
      for any thresholds and also below the first threshold. */
  lemma {:induction false} WalkFlatRate(bands: seq<Band>, mv: real, x: nat, r: real)
    requires WalkFrom(bands, mv, x).Success?
    requires RatesAtMost(bands, x, WalkFrom(bands, mv, x).value.band, r)
    requires RatesAtLeast(bands, x, WalkFrom(bands, mv, x).value.band, r)
    ensures WalkFrom(bands, mv, x).value.tax == r * (mv - bands[x].threshold)
    decreases |bands| - x
  {
    assert bands[x].rate == r;
    if mv >= bands[x + 1].threshold {
      FullBandStep(bands, mv, x);
      WalkFlatRate(bands, mv, x + 1, r);
    }
  }

  /** A value below the second threshold stops in the first band and pays its
      rate on the difference from the first threshold, unclamped: a value below
      the first threshold gives a negative tax when that rate is positive. */
  lemma BelowSecondThreshold(bands: seq<Band>, mv: real)
    requires |bands| >= 2 && mv < bands[1].threshold
    ensures WalkFrom(bands, mv, 0).Success? && WalkFrom(bands, mv, 0).value.band == 0
    ensures WalkFrom(bands, mv, 0).value.tax == bands[0].rate * (mv - bands[0].threshold)
    ensures mv < bands[0].threshold && bands[0].rate > 0.0 ==> WalkFrom(bands, mv, 0).value.tax < 0.0
  {
    if mv < bands[0].threshold && bands[0].rate > 0.0 {
      NegativeTimesPositive(mv - bands[0].threshold, bands[0].rate);
    }
  }

  /** The walk ends in the top real band exactly when the value reaches that
      band's threshold; below it, it ends in an earlier band. */
  lemma ReachesTopBand(bands: seq<Band>, mv: real)
    requires Ascending(bands) && |bands| >= 3
    requires WalkFrom(bands, mv, 0).Success?
    ensures WalkFrom(bands, mv, 0).value.band == |bands| - 2 <==> bands[|bands| - 2].threshold <= mv
  {
    var k := WalkFrom(bands, mv, 0).value.band;
    if k < |bands| - 2 {
      AscendingSuffix(bands, 0, k + 1);
      ThresholdsOrdered(bands, k + 1, |bands| - 2);
    } else {
      WalkPassesThresholds(bands, mv, 0);
      assert 0 < k <= k;
    }
  }

  /** At a value exactly equal to a later threshold the walk has already moved
      into the band that threshold opens. */
  lemma ExactThresholdEntersBand(bands: seq<Band>, k: nat)
    requires |bands| >= 2 && 0 < k < |bands| - 1
    requires forall i, j :: 0 <= i < j < |bands| ==> bands[i].threshold < bands[j].threshold
    ensures WalkFrom(bands, bands[k].threshold, 0).Success?
    ensures WalkFrom(bands, bands[k].threshold, 0).value.band == k
  {
    var mv := bands[k].threshold;
    WalkStopsBeforeSentinel(bands, mv);
    var b := WalkFrom(bands, mv, 0).value.band;
    WalkPassesThresholds(bands, mv, 0);
    IndexOrder(bands, k, b + 1);
    if b > 0 {
      IndexOrder(bands, b, k);
    }
  }

  /** With strictly increasing thresholds, threshold order is index order. */
  lemma IndexOrder(bands: seq<Band>, i: nat, j: nat)
    requires forall i, j :: 0 <= i < j < |bands| ==> bands[i].threshold < bands[j].threshold
    requires i < |bands| && j < |bands|
    ensures bands[i].threshold < bands[j].threshold ==> i < j
    ensures bands[i].threshold <= bands[j].threshold ==> i <= j
  {
  }
}
