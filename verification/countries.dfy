/** One pass over the band sheet: each country row is loaded, charted and
    then kept or dropped by the rate of the band its largest estate reaches. */
module Countries {
  import opened Outcomes
  import opened Cells
  import opened Bands
  import opened Allowance
  import opened BandWalk
  import opened EffectiveRate
  import opened Curve

  /** The one country the current edition keeps whatever its final rate: its
      exemption lies beyond the largest estate charted. */
  const ExemptName: string := "United States"

  /** The selection rule: a country is kept when the band reached at the largest
      estate levies a non-zero rate, or (current edition only) by name. */
  predicate Kept(edition: Edition, name: string, finalBandRate: real): (kept: bool)
    ensures finalBandRate != 0.0 ==> kept
    ensures name != ExemptName ==> (kept <==> finalBandRate != 0.0)
    ensures edition.Legacy? ==> (kept <==> finalBandRate != 0.0)
    ensures edition.Current? && name == ExemptName ==> kept
  {
    finalBandRate != 0.0 || (edition.Current? && name == ExemptName)
  }

  /** What is recorded for a kept country: its share of GDP raised by the tax
      (column 1, possibly empty), its curve, the effective rate at the largest
      estate and the marginal rate of the band reached there. */
  datatype Country = Country(name: string, gdpShare: Cell, curve: seq<Sample>, finalRate: Option<real>, statutoryRate: real)

  /** One row: None when the country is dropped. */
  function EvaluateCountry(edition: Edition, row: Row): (r: Result<Option<Country>, Error>)
    ensures r.Success? && r.value.Some? ==>
      r.value.value.name == row.name && Kept(edition, row.name, r.value.value.statutoryRate)
  {
    var bands :- LoadBands(row.cells);
    match DecodeTaper(row.cells)
    case Failure(e) => Failure(e)
    case Success(taper) =>
      var curve :- Sweep(edition, bands, taper);
      SweepEndsAtMaxEstate(edition, bands, taper, curve);
      Select(edition, row, bands, curve)
  }

  /** Selection on a computed curve, by the band its last point stopped in. */
  function Select(edition: Edition, row: Row, bands: seq<Band>, curve: seq<Sample>): (r: Result<Option<Country>, Error>)
    requires |curve| > 0 && Last(curve).band < |bands|
    ensures r.Success? <==> !Kept(edition, row.name, bands[Last(curve).band].rate) || 1 < |row.cells|
    ensures r.Success? ==> (r.value.Some? <==> Kept(edition, row.name, bands[Last(curve).band].rate))
    ensures r.Success? && r.value.Some? ==>
      r.value.value == Country(row.name, row.cells[1], curve, Last(curve).rate, bands[Last(curve).band].rate)
  {
    var last := Last(curve);
    var statutory := bands[last.band].rate;
    if !Kept(edition, row.name, statutory) then Success(None)
    else
      var gdpShare :- ReadCell(row.cells, 1);
      Success(Some(Country(row.name, gdpShare, curve, last.rate, statutory)))
  }

  /** Once the bands, allowance and curve are known, evaluating the row is
      selecting on that curve. */
  lemma EvaluateCountryIsSelect(edition: Edition, row: Row, bands: seq<Band>, taper: Option<Taper>, curve: seq<Sample>)
    requires LoadBands(row.cells) == Success(bands) && DecodeTaper(row.cells) == Success(taper)
    requires Sweep(edition, bands, taper) == Success(curve)
    ensures |curve| > 0 && Last(curve).band < |bands|
    ensures EvaluateCountry(edition, row) == Select(edition, row, bands, curve)
  {
    SweepEndsAtMaxEstate(edition, bands, taper, curve);
  }

  /** The curve's last point is the walk at the largest estate. */
  lemma LastPointIsFinalWalk(edition: Edition, bands: seq<Band>, taper: Option<Taper>, curve: seq<Sample>, stop: Stop)
    requires Sweep(edition, bands, taper) == Success(curve)
    requires WalkFrom(bands, MaxEstate - AllowanceAt(taper, MaxEstate), 0) == Success(stop)
    ensures |curve| > 0 && Last(curve).band == stop.band
    ensures Last(curve).rate == RateOf(stop.tax, MaxEstate)
  {
    SweepEndsAtMaxEstate(edition, bands, taper, curve);
    FinalSampleIsWalk(bands, taper, Last(curve), stop);
  }

  /** The engine's point at the largest estate is the walk there. */
  lemma FinalSampleIsWalk(bands: seq<Band>, taper: Option<Taper>, sample: Sample, stop: Stop)
    requires Measure(bands, taper, MaxEstate) == Success(sample)
    requires WalkFrom(bands, MaxEstate - AllowanceAt(taper, MaxEstate), 0) == Success(stop)
    ensures sample.band == stop.band && sample.rate == RateOf(stop.tax, MaxEstate)
  {
    MeasureIsWalk(bands, taper, MaxEstate, sample, stop);
  }

  /** Selection and the recorded rates, in terms of the walk at the largest
      estate: the country is kept exactly when the band that walk stops in has
      a non-zero rate (or the name is exempt, in the current edition), and then
      the recorded statutory rate is that band's rate and the recorded final
      rate is the walk's tax over the largest estate. */
  lemma SelectionByFinalBand(edition: Edition, row: Row, bands: seq<Band>, taper: Option<Taper>, stop: Stop)
    requires LoadBands(row.cells) == Success(bands) && DecodeTaper(row.cells) == Success(taper)
    requires Sweep(edition, bands, taper).Success? && 1 < |row.cells|
    requires WalkFrom(bands, MaxEstate - AllowanceAt(taper, MaxEstate), 0) == Success(stop)
    ensures stop.band < |bands| && EvaluateCountry(edition, row).Success?
    ensures EvaluateCountry(edition, row).value.Some? <==>
      bands[stop.band].rate != 0.0 || (edition.Current? && row.name == ExemptName)
    ensures EvaluateCountry(edition, row).value.Some? ==>
      EvaluateCountry(edition, row).value.value ==
        Country(row.name, row.cells[1], Sweep(edition, bands, taper).value, RateOf(stop.tax, MaxEstate), bands[stop.band].rate)
  {
    var curve := Sweep(edition, bands, taper).value;
    EvaluateCountryIsSelect(edition, row, bands, taper, curve);
    LastPointIsFinalWalk(edition, bands, taper, curve, stop);
  }

  /** A row whose bands load reaches column 5, so its taper columns and its
      GDP-share column exist: neither can fail after loading. */
  lemma LoadedRowIsWideEnough(cells: seq<Cell>)
    requires LoadBands(cells).Success?
    ensures DecodeTaper(cells).Success? && 1 < |cells|
  {
  }

  /** A row fails to evaluate exactly when its bands fail to load or its
      curve fails; the taper and the GDP-share read never fail once the bands
      have loaded. */
  lemma EvaluateCountryFails(edition: Edition, row: Row)
    ensures LoadBands(row.cells).Success? ==> DecodeTaper(row.cells).Success? && 1 < |row.cells|
    ensures EvaluateCountry(edition, row).Failure? <==>
      LoadBands(row.cells).Failure?
      || Sweep(edition, LoadBands(row.cells).value, DecodeTaper(row.cells).value).Failure?
  {
    if LoadBands(row.cells).Success? {
      LoadedRowIsWideEnough(row.cells);
    }
  }

  /** The legacy edition charts every value the current one does, and more, so
      whenever it completes a row the current edition does too; the two then
      agree on every country except the exempt one, which only the current
      edition may keep with a zero final rate. */
  lemma EditionsAgreeExceptExempt(row: Row)
    requires EvaluateCountry(Legacy, row).Success?
    ensures EvaluateCountry(Current, row).Success?
    ensures EvaluateCountry(Current, row).value.Some? <==>
      EvaluateCountry(Legacy, row).value.Some? || row.name == ExemptName
  {
    var bands := LoadBands(row.cells).value;
    var taper := DecodeTaper(row.cells).value;
    SweepSucceedsIff(Legacy, bands, taper);
    SweepSucceedsIff(Current, bands, taper);
    SweepEndsAtMaxEstate(Legacy, bands, taper, Sweep(Legacy, bands, taper).value);
    SweepEndsAtMaxEstate(Current, bands, taper, Sweep(Current, bands, taper).value);
  }

  /** When the walk at the largest estate reaches the top real band (thresholds
      ascending), the recorded statutory rate is the top rate; when it stops
      short of that band, the statutory rate is an earlier band's. */
  lemma StatutoryRateIsTopRate(edition: Edition, row: Row, bands: seq<Band>, taper: Option<Taper>, stop: Stop)
    requires LoadBands(row.cells) == Success(bands) && DecodeTaper(row.cells) == Success(taper)
    requires Sweep(edition, bands, taper).Success? && 1 < |row.cells|
    requires WalkFrom(bands, MaxEstate - AllowanceAt(taper, MaxEstate), 0) == Success(stop)
    requires Ascending(bands) && |bands| >= 3
    ensures stop.band == |bands| - 2 <==> bands[|bands| - 2].threshold <= MaxEstate - AllowanceAt(taper, MaxEstate)
    ensures EvaluateCountry(edition, row).Success?
    ensures EvaluateCountry(edition, row).value.Some? && stop.band == |bands| - 2 ==>
      EvaluateCountry(edition, row).value.value.statutoryRate == bands[|bands| - 2].rate
  {
    SelectionByFinalBand(edition, row, bands, taper, stop);
    FinalWalkReachesTop(bands, taper, stop);
  }

  /** The walk at the largest estate ends in the top real band exactly when the
      estate less its allowance reaches that band's threshold. */
  lemma FinalWalkReachesTop(bands: seq<Band>, taper: Option<Taper>, stop: Stop)
    requires WalkFrom(bands, MaxEstate - AllowanceAt(taper, MaxEstate), 0) == Success(stop)
    requires Ascending(bands) && |bands| >= 3
    ensures stop.band == |bands| - 2 <==> bands[|bands| - 2].threshold <= MaxEstate - AllowanceAt(taper, MaxEstate)
  {
    ReachesTopBand(bands, MaxEstate - AllowanceAt(taper, MaxEstate));
  }

  /** The rows in order through `evaluate`, keeping what it keeps. The first
      row that fails stops the pass. */
  function Collect(evaluate: Row -> Result<Option<Country>, Error>, rows: seq<Row>): (r: Result<seq<Country>, Error>)
    ensures r.Success? ==> |r.value| <= |rows|
  {
    if |rows| == 0 then Success([])
    else
      var first :- evaluate(rows[0]);
      var rest :- Collect(evaluate, rows[1..]);
      Success(Yield(first) + rest)
  }

  /** What one row adds to the pass: its country if it is kept. */
  function Yield(c: Option<Country>): seq<Country> {
    if c.Some? then [c.value] else []
  }

  /** Evaluating rows in one edition. */
  function Evaluator(edition: Edition): Row -> Result<Option<Country>, Error> {
    row => EvaluateCountry(edition, row)
  }

  /** The whole sheet: the kept countries in row order. */
  function Run(edition: Edition, rows: seq<Row>): (r: Result<seq<Country>, Error>)
    ensures r.Success? ==> |r.value| <= |rows|
    ensures r.Success? ==> forall c :: c in r.value ==> Kept(edition, c.name, c.statutoryRate)
  {
    var r := Collect(Evaluator(edition), rows);
    if r.Success? then CollectOnlyKept(edition, rows); r else r
  }

  /** A pass completes exactly when every row evaluates, and then it holds
      exactly the countries the rows keep. */
  lemma {:induction false} CollectKeepsSelected(evaluate: Row -> Result<Option<Country>, Error>, rows: seq<Row>)
    ensures Collect(evaluate, rows).Success? <==> forall i :: 0 <= i < |rows| ==> evaluate(rows[i]).Success?
    ensures Collect(evaluate, rows).Success? ==>
      forall c :: c in Collect(evaluate, rows).value <==> exists i :: 0 <= i < |rows| && evaluate(rows[i]) == Success(Some(c))
    decreases |rows|
  {
    if |rows| > 0 {
      CollectKeepsSelected(evaluate, rows[1..]);
      assert forall i :: 1 <= i < |rows| ==> rows[i] == rows[1..][i - 1];
      if Collect(evaluate, rows).Success? {
        var rest := Collect(evaluate, rows[1..]).value;
        forall c
          ensures c in Collect(evaluate, rows).value <==> exists i :: 0 <= i < |rows| && evaluate(rows[i]) == Success(Some(c))
        {
          if c in rest {
            var j :| 0 <= j < |rows[1..]| && evaluate(rows[1..][j]) == Success(Some(c));
            assert evaluate(rows[j + 1]) == Success(Some(c));
          }
          if exists i :: 0 <= i < |rows| && evaluate(rows[i]) == Success(Some(c)) {
            var i :| 0 <= i < |rows| && evaluate(rows[i]) == Success(Some(c));
            if i > 0 {
              assert evaluate(rows[1..][i - 1]) == Success(Some(c));
            }
          }
        }
      }
    }
  }

  /** The run completes exactly when every row evaluates, and then it holds
      exactly the countries the rows keep. */
  lemma RunKeepsSelected(edition: Edition, rows: seq<Row>)
    ensures Run(edition, rows).Success? <==> forall i :: 0 <= i < |rows| ==> EvaluateCountry(edition, rows[i]).Success?
    ensures Run(edition, rows).Success? ==>
      forall c :: c in Run(edition, rows).value <==> exists i :: 0 <= i < |rows| && EvaluateCountry(edition, rows[i]) == Success(Some(c))
  {
    CollectKeepsSelected(Evaluator(edition), rows);
  }

  /** Every country in a completed pass in one edition passed the selection
      rule. */
  lemma CollectOnlyKept(edition: Edition, rows: seq<Row>)
    requires Collect(Evaluator(edition), rows).Success?
    ensures forall c :: c in Collect(Evaluator(edition), rows).value ==> Kept(edition, c.name, c.statutoryRate)
  {
    CollectKeepsSelected(Evaluator(edition), rows);
    forall c | c in Collect(Evaluator(edition), rows).value
      ensures Kept(edition, c.name, c.statutoryRate)
    {
      var i :| 0 <= i < |rows| && Evaluator(edition)(rows[i]) == Success(Some(c));
      assert EvaluateCountry(edition, rows[i]).value.value == c;
    }
  }

  /** Adding a row at the end of the sheet appends its country, if kept, after
      all the earlier ones: the pass records countries in row order. The
      first failing row, earlier ones first, decides the error. */
  lemma {:induction false} CollectAppend(evaluate: Row -> Result<Option<Country>, Error>, rows: seq<Row>, row: Row)
    ensures Collect(evaluate, rows + [row]) ==
      match Collect(evaluate, rows)
      case Failure(e) => Failure(e)
      case Success(kept) =>
        match evaluate(row)
        case Failure(e) => Failure(e)
        case Success(c) => Success(kept + Yield(c))
    decreases |rows|
  {
    if |rows| == 0 {
      assert rows == [] && rows + [row] == [row];
      assert [row][1..] == [];
      if evaluate(row).Success? {
        assert Collect(evaluate, [row]) == Success(Yield(evaluate(row).value) + []);
        assert Yield(evaluate(row).value) + [] == [] + Yield(evaluate(row).value);
      }
    } else {
      assert (rows + [row])[0] == rows[0];
      assert (rows + [row])[1..] == rows[1..] + [row];
      CollectAppend(evaluate, rows[1..], row);
      if Collect(evaluate, rows).Success? && evaluate(row).Success? {
        var first := evaluate(rows[0]).value;
        var rest := Collect(evaluate, rows[1..]).value;
        assert Yield(first) + (rest + Yield(evaluate(row).value)) == (Yield(first) + rest) + Yield(evaluate(row).value);
      }
    }
  }

  /** The whole sheet's pass in row order: one more row appends its kept
      country after those of the rows before it. */
  lemma RunAppend(edition: Edition, rows: seq<Row>, row: Row)
    ensures Run(edition, rows + [row]) ==
      match Run(edition, rows)
      case Failure(e) => Failure(e)
      case Success(kept) =>
        match EvaluateCountry(edition, row)
        case Failure(e) => Failure(e)
        case Success(c) => Success(kept + Yield(c))
  {
    CollectAppend(Evaluator(edition), rows, row);
  }
}
