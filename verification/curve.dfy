/** The effective-rate curve of one country: the engine run at every estate
    value of the chart's grid, 0 to 100 times average earnings in steps of a
    tenth. */
module Curve {
  import opened Outcomes
  import opened Cells
  import opened Bands
  import opened Allowance
  import opened BandWalk
  import opened EffectiveRate

  /** The two versions of the engine. `Current` skips the zero estate and keeps
      "United States" whatever its final rate; `Legacy` (the earlier script)
      does neither. */
  datatype Edition = Current | Legacy

  /** Number of grid steps: the largest estate charted over the step size. */
  const GridSteps: nat := 1000

  /** The largest estate charted, as a multiple of average earnings. */
  const MaxEstate: real := 100.0

  /** The k-th grid value, k tenths of average earnings (exact, not the
      floating-point product k * 0.1). */
  function GridValue(k: nat): (v: real)
    ensures v >= 0.0 && (v == 0.0 <==> k == 0)
    ensures k <= GridSteps ==> v <= MaxEstate
  {
    k as real / 10.0
  }

  /** The first grid step that produces a point. */
  function FirstStep(edition: Edition): nat {
    if edition.Current? then 1 else 0
  }

  /** The grid step that produces the first point from step k on. */
  function StartAt(edition: Edition, k: nat): nat {
    if k == 0 then FirstStep(edition) else k
  }

  /** The engine for one country's table and allowance, as a function of the
      estate value. */
  function Engine(bands: seq<Band>, taper: Option<Taper>): real -> Result<Sample, Error> {
    v => Measure(bands, taper, v)
  }

  /** The points for grid steps k through GridSteps, in order, each computed by
      `point`. The current edition passes over the zero estate; any failing
      point fails the curve. */
  function SweepFrom(edition: Edition, point: real -> Result<Sample, Error>, k: nat): Result<seq<Sample>, Error>
    decreases GridSteps + 1 - k
  {
    if k > GridSteps then Success([])
    else if edition.Current? && GridValue(k) == 0.0 then SweepFrom(edition, point, k + 1)
    else
      var sample :- point(GridValue(k));
      var rest :- SweepFrom(edition, point, k + 1);
      Success([sample] + rest)
  }

  /** The whole curve of one country: one point per grid step from the
      edition's first step, point i being the engine's result at grid value
      FirstStep + i. */
  function Sweep(edition: Edition, bands: seq<Band>, taper: Option<Taper>): (r: Result<seq<Sample>, Error>)
    ensures r.Success? ==> |r.value| == GridSteps + 1 - FirstStep(edition)
    ensures r.Success? ==> forall i :: 0 <= i < |r.value| ==>
      Measure(bands, taper, GridValue(FirstStep(edition) + i)) == Success(r.value[i])
  {
    var r := SweepFrom(edition, Engine(bands, taper), 0);
    if r.Success? then SweepFromIsPointwise(edition, Engine(bands, taper), 0); r else r
  }

  /** The sweep from step k succeeds exactly when every remaining grid value it
      charts yields a point. */
  lemma {:induction false} SweepFromSucceedsIff(edition: Edition, point: real -> Result<Sample, Error>, k: nat)
    requires k <= GridSteps + 1
    ensures SweepFrom(edition, point, k).Success? <==>
      forall j :: StartAt(edition, k) <= j <= GridSteps ==> point(GridValue(j)).Success?
    decreases GridSteps + 1 - k
  {
    if k <= GridSteps {
      SweepFromSucceedsIff(edition, point, k + 1);
    }
  }

  /** A successful sweep from step k holds exactly one point per remaining grid
      step, each the point computed at that step's value. */
  lemma {:induction false} SweepFromIsPointwise(edition: Edition, point: real -> Result<Sample, Error>, k: nat)
    requires k <= GridSteps + 1 && SweepFrom(edition, point, k).Success?
    ensures |SweepFrom(edition, point, k).value| == GridSteps + 1 - StartAt(edition, k)
    ensures forall i :: 0 <= i < |SweepFrom(edition, point, k).value| ==>
      point(GridValue(StartAt(edition, k) + i)) == Success(SweepFrom(edition, point, k).value[i])
    decreases GridSteps + 1 - k
  {
    if k <= GridSteps {
      SweepFromIsPointwise(edition, point, k + 1);
      if !(edition.Current? && k == 0) {
        var rest := SweepFrom(edition, point, k + 1).value;
        assert SweepFrom(edition, point, k).value == [point(GridValue(k)).value] + rest;
        PrependPoint(point, k, point(GridValue(k)).value, rest);
      }
    }
  }

  /** A point for step k in front of the points for steps k + 1 on gives the
      points for steps k on. */
  lemma PrependPoint(point: real -> Result<Sample, Error>, k: nat, head: Sample, rest: seq<Sample>)
    requires point(GridValue(k)) == Success(head)
    requires forall i :: 0 <= i < |rest| ==> point(GridValue(k + 1 + i)) == Success(rest[i])
    ensures forall i :: 0 <= i < |[head] + rest| ==> point(GridValue(k + i)) == Success(([head] + rest)[i])
  {
    forall i | 0 <= i < |[head] + rest|
      ensures point(GridValue(k + i)) == Success(([head] + rest)[i])
    {
      if i > 0 {
        assert k + i == k + 1 + (i - 1);
      }
    }
  }

  /** The curve succeeds exactly when the engine succeeds at every grid value
      it charts. */
  lemma SweepSucceedsIff(edition: Edition, bands: seq<Band>, taper: Option<Taper>)
    ensures Sweep(edition, bands, taper).Success? <==>
      forall j :: FirstStep(edition) <= j <= GridSteps ==> Measure(bands, taper, GridValue(j)).Success?
  {
    SweepFromSucceedsIff(edition, Engine(bands, taper), 0);
  }

  /** The curve's estate values strictly increase, one tenth apart. */
  lemma SweepValuesAscend(edition: Edition, bands: seq<Band>, taper: Option<Taper>)
    requires Sweep(edition, bands, taper).Success?
    ensures forall i :: 0 <= i < |Sweep(edition, bands, taper).value| ==>
      Sweep(edition, bands, taper).value[i].value == GridValue(FirstStep(edition) + i)
    ensures forall i, j :: 0 <= i < j < |Sweep(edition, bands, taper).value| ==>
      Sweep(edition, bands, taper).value[i].value < Sweep(edition, bands, taper).value[j].value
  {
  }

  /** With a sentinel band above the chart and a non-negative allowance, the
      walk never runs off the table: every point of the curve is computed. */
  lemma SweepSucceeds(edition: Edition, bands: seq<Band>, taper: Option<Taper>)
    requires |bands| >= 2 && Last(bands).threshold == SentinelThreshold
    requires taper.Some? ==> taper.value.band >= 0.0
    ensures Sweep(edition, bands, taper).Success?
  {
    forall j | FirstStep(edition) <= j <= GridSteps
      ensures Measure(bands, taper, GridValue(j)).Success?
    {
      MeasureSucceeds(bands, taper, GridValue(j));
    }
    SweepSucceedsIff(edition, bands, taper);
  }

  /** In the current edition every point has a positive estate value and so a
      defined effective rate. */
  lemma CurrentPointsDefined(bands: seq<Band>, taper: Option<Taper>)
    requires Sweep(Current, bands, taper).Success?
    ensures |Sweep(Current, bands, taper).value| == GridSteps
    ensures forall i :: 0 <= i < |Sweep(Current, bands, taper).value| ==>
      Sweep(Current, bands, taper).value[i].value > 0.0 && Sweep(Current, bands, taper).value[i].rate.Some?
  {
  }

  /** The legacy edition charts the zero estate too, and there the effective
      rate (tax divided by zero) is undefined. */
  lemma LegacyFirstPointUndefined(bands: seq<Band>, taper: Option<Taper>)
    requires Sweep(Legacy, bands, taper).Success?
    ensures |Sweep(Legacy, bands, taper).value| == GridSteps + 1
    ensures Sweep(Legacy, bands, taper).value[0].value == 0.0
    ensures Sweep(Legacy, bands, taper).value[0].rate.None?
  {
  }

  /** Both editions end on the engine's result at the largest estate. */
  lemma SweepEndsAtMaxEstate(edition: Edition, bands: seq<Band>, taper: Option<Taper>, curve: seq<Sample>)
    requires Sweep(edition, bands, taper) == Success(curve)
    ensures |curve| > 0 && Measure(bands, taper, MaxEstate) == Success(Last(curve))
    ensures Last(curve).band + 1 < |bands|
  {
    SweepFromEndsAtMax(edition, Engine(bands, taper));
  }

  /** Any sweep's last point is the point at the largest estate. */
  lemma SweepFromEndsAtMax(edition: Edition, point: real -> Result<Sample, Error>)
    requires SweepFrom(edition, point, 0).Success?
    ensures |SweepFrom(edition, point, 0).value| > 0
    ensures point(MaxEstate) == Success(Last(SweepFrom(edition, point, 0).value))
  {
    SweepFromIsPointwise(edition, point, 0);
    var n := |SweepFrom(edition, point, 0).value|;
    assert GridValue(FirstStep(edition) + (n - 1)) == MaxEstate;
  }
}
