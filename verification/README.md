# Estate tax effective-rate engine, modelled in Dafny

This project models the engine behind the worldwide comparison of
inheritance, estate and gift taxes. For every country row of the band sheet
("IHT bands - children") the engine does four things:

1. It **loads the bands**: the threshold/rate pairs from column 5 on, up to
   the first empty threshold cell, followed by a sentinel band at threshold
   10000. The sentinel's rate is re-read from the last pair's rate cell.
2. It computes the **tapering allowance**, the UK residence nil-rate band
   (columns 2, 3 and 4). The allowance is absent, or the full band up to the
   taper start, or `max(0, band - fraction * (v - start))` above it. An empty
   start cell keeps the full band at every value, because `v > NaN` is false.
   An empty fraction cell leaves nothing above the start, because
   `max(0, NaN)` is 0.
3. It runs the **band walk** on the estate value less its allowance. Each band
   the value reaches (test `>=`) is taxed in full. The first band it does not
   reach is taxed on the part above its threshold, and the walk stops there.
   The effective rate is the total tax over the estate value. This is done for
   every value of the grid 0.1, ..., 100 (multiples of average earnings); the
   legacy script also evaluates 0.
4. It **selects** the countries to keep. A country is kept unless the band
   reached at the largest estate has rate 0. The current script also always
   keeps "United States". For a kept country it records the GDP share
   (column 1), the curve, the final effective rate and the final band's rate.

Both scripts are modelled. `estate_taxes_worldwide_comparison.py` is the
`Current` edition and `main.py` is the `Legacy` edition (`Curve.Edition`).
The two differ in two places: the legacy grid includes the zero estate, and
the legacy selection has no name override.

Module layout, one file each:

- `Outcomes`: Option and Result.
- `Cells`: a row as cells, and the error cases.
- `Bands`: band loading.
- `Allowance`: the taper.
- `BandWalk`: the walk as a recursive function and a loop, its closed form and its bounds.
- `EffectiveRate`: one estate value through the engine.
- `Curve`: the grid sweep.
- `Countries`: selection and the pass over all rows.
- `Arithmetic`: small facts about real multiplication.

A row is a name plus a sequence of cells, `Option<real>`, where an empty
(NaN) cell is `None`. Reading past the end of a row fails with
`ColumnOutOfRange` (pandas raises here). Looking up the band after the last
one fails with `BandOutOfRange` (Python raises here).

The recorded statutory rate is the rate of the band the walk reached at the
largest estate, `bands[x]["rate"]` (line 202), and the model records exactly
that. The script collects it in the list `country_max_statutory_rate`
(line 63). Only main.py charts it, as "Maximum statutory estate/IHT/gift tax
rate" (main.py:231, with `x=country_max_statutory_rate` at main.py:244); the
current script's chart of it comes after `exit()` at line 231 and never
runs. Despite the name, the recorded rate is the top real band's rate only
when the largest estate, less its allowance, reaches that band's threshold. `Countries.StatutoryRateIsTopRate`
states when that happens.

## Model

| member | source | states |
|---|---|---|
| Cells.CellIsMissing | estate_taxes_worldwide_comparison.py:120 | the emptiness test succeeds exactly when the column exists, and reports true exactly for an empty cell |
| Cells.ReadCell | estate_taxes_worldwide_comparison.py:200 | a raw cell read succeeds exactly when the column exists, and returns the cell as it is, empty or not |
| Cells.ReadNumber | estate_taxes_worldwide_comparison.py:122 | a numeric read succeeds exactly when the column exists and is filled, and returns that cell's number |
| Bands.ScanPairs | estate_taxes_worldwide_comparison.py:118-124 | every scanned band is the (threshold, rate) pair in columns 5+2k and 6+2k, and the scan ends at an existing empty threshold cell |
| Bands.LoadBands | estate_taxes_worldwide_comparison.py:118-127 | the table is the row's consecutive pairs before the first empty threshold, plus a sentinel at 10000 whose rate is the cell in column 2(n-1)+6, which is the last pair's rate |
| Bands.ScanPairsReadsEveryPair | estate_taxes_worldwide_comparison.py:118-124 | completeness: any run of filled pairs closed by an empty threshold cell is exactly what the scan returns |
| Bands.LoadBandsReadsEveryPair | main.py:86-95 | the loader inverts laying bands out in a row: it returns the pairs plus a sentinel carrying the last pair's rate, or column 4's value when the row has no pair |
| Bands.AscendingIsPairwise | estate_taxes_worldwide_comparison.py:154-163 | the band-by-band threshold order the walk relies on is the same as the pairwise order |
| Allowance.DecodeTaper | estate_taxes_worldwide_comparison.py:140-146 | decoding succeeds exactly when column 2 exists and is empty, or columns 3 and 4 exist too; there is no taper exactly when column 2 is empty; otherwise the band is column 2, an empty start (column 3) means the band is never tapered, and with the start filled the taper is proper exactly when the fraction (column 4) is filled, carrying both cells |
| Allowance.AtLeastZero | estate_taxes_worldwide_comparison.py:149 | Python's max(0, y): the least number that is both non-negative and at least y |
| Allowance.AllowanceAt | estate_taxes_worldwide_comparison.py:140-149 | the allowance is 0 with no taper; the full band at every value when the start is empty (`v > NaN` is false) and otherwise up to the start; 0 above the start when the fraction is empty (`max(0, NaN)` is 0); never negative above the start; and between 0 and the band when band and fraction are non-negative |
| Allowance.TaperedAllowance | main.py:111-112 | above the start, the allowance is band less the withdrawn amount while that is positive, and exactly zero once the withdrawal covers the band |
| Allowance.AllowanceVanishes | estate_taxes_worldwide_comparison.py:148-149 | with a positive fraction, every estate at or beyond start + band/fraction keeps no allowance |
| Allowance.AllowanceNonIncreasing | estate_taxes_worldwide_comparison.py:140-149 | a larger estate never receives a larger allowance, for a non-negative band and (when the fraction cell is filled) a non-negative fraction, whichever taper cells are empty |
| Allowance.TaperExample | main.py:103-112 | band 1 tapering from 2 at one half gives 1 at estate 2, 0.75 at 2.5 and 0 at 4 |
| Allowance.EmptyTaperCellsExample | estate_taxes_worldwide_comparison.py:144-149 | band 1 with an empty start is decoded as never tapered and kept whole at estate 50; with start 2 and an empty fraction it is kept at 2 and lost at 2.5 |
| BandWalk.WalkFrom | estate_taxes_worldwide_comparison.py:154-163 | a successful walk stops in a real band, at or after its start, below the next threshold |
| BandWalk.Walk | estate_taxes_worldwide_comparison.py:154-163 | the loop with a running total computes the same stop and tax as the recursive walk, including the out-of-range failure |
| BandWalk.WalkPassesThresholds | estate_taxes_worldwide_comparison.py:157-158 | every band boundary the walk crossed lies at or below the value |
| BandWalk.StopBandReached | estate_taxes_worldwide_comparison.py:157-162 | the band the walk stops in starts at or below the value |
| BandWalk.WalkFailsPastEveryThreshold | main.py:117-126 | the walk runs past the table exactly when the value reaches every later threshold, the sentinel's included |
| BandWalk.WalkStopsBeforeSentinel | estate_taxes_worldwide_comparison.py:154-163 | with one real band or more, every value below the sentinel threshold stops inside the table, whatever the order of the thresholds |
| BandWalk.WalkIsSliceSum | estate_taxes_worldwide_comparison.py:157-162 | for a value at or above the first threshold, the tax is the sum over real bands of rate times the value's part clamped to the band's width |
| BandWalk.WalkTaxAtMost | estate_taxes_worldwide_comparison.py:157-162 | if every band the walk taxes has rate at most hi, the tax is at most hi on the value above the first threshold |
| BandWalk.WalkTaxAtLeast | estate_taxes_worldwide_comparison.py:157-162 | if every band the walk taxes has rate at least lo, the tax is at least lo on the value above the first threshold |
| BandWalk.WalkFlatRate | estate_taxes_worldwide_comparison.py:157-162 | one rate r on every band taxed gives tax r times (value - first threshold), with the widths telescoping |
| BandWalk.BelowSecondThreshold | main.py:115-126 | a value below the second threshold (including a negative modified value) stops in band 0 with unclamped tax rate0 * (value - t0), which is negative below t0 when rate0 > 0 |
| BandWalk.ReachesTopBand | estate_taxes_worldwide_comparison.py:154-163 | with ascending thresholds, the walk ends in the top real band exactly when the value reaches that band's threshold |
| BandWalk.ExactThresholdEntersBand | estate_taxes_worldwide_comparison.py:157 | with strictly increasing thresholds, a value equal to threshold k ends the walk in band k, because `>=` moves on at equality |
| EffectiveRate.RateOf | estate_taxes_worldwide_comparison.py:165 | the rate is undefined exactly at value 0; otherwise rate times value is the tax |
| EffectiveRate.Measure | estate_taxes_worldwide_comparison.py:140-165 | a measured point keeps its value, splits it into allowance plus modified value, carries the allowance rule's amount, stops in a real band below the next threshold, and reports tax / value |
| EffectiveRate.MeasureSucceeds | estate_taxes_worldwide_comparison.py:152-163 | every estate whose modified value is below the sentinel threshold is measured |
| EffectiveRate.MeasureSucceedsIff | estate_taxes_worldwide_comparison.py:152-163 | the engine answers at value v exactly when the walk of v less its allowance stays inside the table |
| EffectiveRate.MeasureIsWalk | estate_taxes_worldwide_comparison.py:152-165 | the point is the walk of the value less its allowance: the same band and tax, and that tax over the full value |
| EffectiveRate.MeasureWithoutAllowance | main.py:115-128 | with no taper, the engine walks the estate value itself |
| EffectiveRate.FlatRateIdentity | estate_taxes_worldwide_comparison.py:152-165 | with one rate on every real band, a first threshold of 0 and no allowance, every positive estate below the sentinel has effective rate exactly that rate |
| EffectiveRate.EffectiveRateWithinRates | estate_taxes_worldwide_comparison.py:152-165 | with non-negative rates, ascending thresholds from 0 and no allowance, the effective rate lies between 0 and the highest real rate |
| EffectiveRate.EffectiveRateNonDecreasing | estate_taxes_worldwide_comparison.py:152-165 | with no allowance, ascending thresholds from 0 and rates rising band by band, the effective rate never falls as the estate grows |
| EffectiveRate.TwoBandExample | estate_taxes_worldwide_comparison.py:154-165 | bands 0% to 1 and 20% above, at estate 2: tax 0.2, band 1, effective rate 0.1 |
| Curve.GridValue | estate_taxes_worldwide_comparison.py:132 | grid values are non-negative, zero only at step 0, and never exceed the largest estate 100 within the grid |
| Curve.Sweep | estate_taxes_worldwide_comparison.py:132-136 | the curve has one point per grid step from the edition's first step (step 1 after the zero-estate skip; step 0 in main.py:100, which has no skip), and point i is the engine's result at that step's value |
| Curve.SweepFromIsPointwise | estate_taxes_worldwide_comparison.py:132-136 | the grid loop from any step k yields exactly one point per remaining step, each the point computed at that step's value |
| Curve.SweepSucceedsIff | estate_taxes_worldwide_comparison.py:132-165 | the curve is computed exactly when the engine succeeds at every grid value the edition charts |
| Curve.SweepValuesAscend | estate_taxes_worldwide_comparison.py:132 | the curve's estate values are the grid values in strictly increasing order |
| Curve.SweepSucceeds | estate_taxes_worldwide_comparison.py:127-163 | with a sentinel at 10000 and a non-negative allowance, every grid point is computed |
| Curve.CurrentPointsDefined | estate_taxes_worldwide_comparison.py:134-136 | the current edition charts 1000 points, each with a positive value and a defined effective rate |
| Curve.LegacyFirstPointUndefined | main.py:100-128 | the legacy edition charts 1001 points, and the first is at value 0 with no defined effective rate |
| Curve.SweepEndsAtMaxEstate | estate_taxes_worldwide_comparison.py:132-165 | both editions end on the engine's point at the largest estate, which stops in a real band |
| Countries.Kept | estate_taxes_worldwide_comparison.py:174 | a non-zero final band rate always keeps a country; for every name but "United States", and for every name in the legacy edition (main.py:133), the rule is exactly "final band rate non-zero"; the current edition always keeps "United States" |
| Countries.EvaluateCountry | estate_taxes_worldwide_comparison.py:109-202 | a country the row yields carries the row's name and passes the selection rule |
| Countries.Select | estate_taxes_worldwide_comparison.py:174-202 | the row is kept exactly when the final band's rate is non-zero or the name is exempt, and the kept record holds column 1, the curve, the last point's rate and that band's rate |
| Countries.EvaluateCountryIsSelect | estate_taxes_worldwide_comparison.py:109-176 | once bands, taper and curve are computed, evaluating the row is selecting on the curve's last point |
| Countries.LastPointIsFinalWalk | estate_taxes_worldwide_comparison.py:154-174 | the band `x` left over after the grid loop is the band the walk stops in at the largest estate, and the final rate is that walk's tax over 100 |
| Countries.FinalSampleIsWalk | estate_taxes_worldwide_comparison.py:152-165 | the engine's point at the largest estate has the band and rate of the walk there |
| Countries.SelectionByFinalBand | estate_taxes_worldwide_comparison.py:174-202 | in terms of the walk at the largest estate: the country is kept exactly when that walk's band rate is non-zero or the name is exempt (current edition), and the record holds that band's rate and the walk's tax over 100 |
| Countries.EvaluateCountryFails | estate_taxes_worldwide_comparison.py:109-202 | a row fails exactly when its bands fail to load or its curve fails; once the bands load, the taper columns and column 1 exist, so neither read can fail |
| Countries.LoadedRowIsWideEnough | estate_taxes_worldwide_comparison.py:120-146 | a row whose bands load has columns 1 to 5, so reading the taper (lines 144-146) and the GDP share (line 200) cannot raise |
| Countries.EditionsAgreeExceptExempt | main.py:133-135 | whenever the legacy script completes a row the current one does too, and the current one keeps it exactly when the legacy one does or the name is the exempt one |
| Countries.StatutoryRateIsTopRate | estate_taxes_worldwide_comparison.py:202 | the walk at the largest estate reaches the top real band exactly when the modified value reaches its threshold, and then the recorded statutory rate is the top real rate |
| Countries.FinalWalkReachesTop | estate_taxes_worldwide_comparison.py:154-174 | the final band is the top real band exactly when the modified largest estate reaches that band's threshold |
| Countries.Collect | estate_taxes_worldwide_comparison.py:109-204 | a pass keeps at most one country per row |
| Countries.CollectAppend | estate_taxes_worldwide_comparison.py:199-202 | one more row at the end appends its kept country after all earlier ones (row order), and the first failing row decides the error |
| Countries.Run | estate_taxes_worldwide_comparison.py:109-204 | the per-country loop keeps at most one country per row, and every country it records passed the selection rule |
| Countries.RunAppend | main.py:152-155 | the recorded countries are appended in row order: a further row adds its kept country at the end, after those of the rows before it |
| Countries.RunKeepsSelected | estate_taxes_worldwide_comparison.py:109-204 | the pass completes exactly when every row evaluates, and then it holds exactly the countries the rows yield |
| Countries.CollectOnlyKept | estate_taxes_worldwide_comparison.py:173-176 | every country in a completed pass passed the selection rule |

## Left out

- Spreadsheet reading (`pd.ExcelFile`, `parse`, `df.iat`, `pd.isna`): a row is given as a name and a sequence of optional reals.
- Plotting, images, annotations, chart uploads and image export (plotly, PIL, chart_studio): these are presentation and I/O.
- The regression and trend lines (`stats.linregress`): an external statistical routine over floats. In the current script everything after `exit()` at line 231 is unreachable in any case.
- The printed export strings, the progress prints and `round(estate_value, 2)`: formatting only.
- The UK average-wage marker lines at lines 207-210: constant chart decoration.
- Curve.GridValue: grid values are exact tenths `k / 10`, not the floating-point products `k * 0.1`. No bit-compatibility is claimed, and floating-point rounding in the tax arithmetic is not modelled.
- Cells.ReadNumber: an empty rate cell of a band pair fails the row with `MissingNumber`. The scripts instead give that band a NaN rate. The points whose walk taxes that band then have a NaN rate, the other points are unaffected, and the country is kept whenever the final band's rate is NaN, since `NaN == 0` is false. The model reports an error for such a row where the script computes a partly NaN curve.
- Bands.LoadBands: with no band pair at all, an empty column 4 fails with `MissingNumber`. The script reads NaN there and fails later at the walk's `bands[1]`, so the row fails either way, with a different error. With one pair or more, the sentinel re-reads the last pair's rate cell, which the scan has already read as filled.
- Countries.Run: the row order and the error of the first failing row are modelled. Python's exception, which ends the whole script, is modelled as the failed result of the pass.
- EffectiveRate.RateOf: at value 0 the rate is `None`. The legacy script divides numpy scalars there and gets NaN, or an infinity when the tax is non-zero; `None` stands for that non-number.
- The plot labels list and the `all_countries` and related parallel lists are modelled as one `Countries.Country` record per kept row.

## Findings

| source | as written | input that shows it | evidently intended | confidence | as-written member | corrected member |
|---|---|---|---|---|---|---|
| main.py:100-128 | the grid starts at estate value 0 and the effective rate divides the tax by the estate value with no guard | any country row: the first grid point, value 0, gives tax / 0, which is no number, and that point goes into the curve | skip the zero estate so every charted rate is defined, as the later script does at estate_taxes_worldwide_comparison.py:134-136 | not executed | Curve.LegacyFirstPointUndefined | Curve.CurrentPointsDefined |
