/** The band table loader: threshold/rate pairs read from a country row,
    closed by a sentinel band above every estate value the engine charts. */
module Bands {
  import opened Outcomes
  import opened Cells

  /** A marginal band: `rate` applies from `threshold` up to the next band's
      threshold. Thresholds are multiples of average earnings. */
  datatype Band = Band(threshold: real, rate: real)

  /** Threshold of the appended top band; larger than any estate value charted. */
  const SentinelThreshold: real := 10000.0

  /** The k-th pair's threshold sits in column 5 + 2k and its rate beside it. */
  function ThresholdColumn(k: nat): nat { 5 + 2 * k }

  function RateColumn(k: nat): nat { 6 + 2 * k }

  function Last<T>(s: seq<T>): T
    requires |s| > 0
  {
    s[|s| - 1]
  }

  /** From band x on, every threshold is at most the next one. (The data is
      meant to be strictly increasing; the proofs only need this weaker
      order.) */
  predicate AscendingFrom(bands: seq<Band>, x: nat)
    decreases |bands| - x
  {
    x + 1 >= |bands| || (bands[x].threshold <= bands[x + 1].threshold && AscendingFrom(bands, x + 1))
  }

  /** Thresholds never decrease along the whole table. */
  predicate Ascending(bands: seq<Band>) {
    AscendingFrom(bands, 0)
  }

  /** A table ascending from x is ascending from every later band. */
  lemma {:induction false} AscendingSuffix(bands: seq<Band>, x: nat, y: nat)
    requires AscendingFrom(bands, x) && x <= y
    ensures AscendingFrom(bands, y)
    decreases y - x
  {
    if x < y && x + 1 < |bands| {
      AscendingSuffix(bands, x + 1, y);
    }
  }

  /** In a table ascending from i, every later threshold is at least band i's. */
  lemma {:induction false} ThresholdsOrdered(bands: seq<Band>, i: nat, j: nat)
    requires AscendingFrom(bands, i) && i <= j < |bands|
    ensures bands[i].threshold <= bands[j].threshold
    decreases j - i
  {
    if i < j {
      ThresholdsOrdered(bands, i + 1, j);
    }
  }

  /** Band by band and pairwise ascent are the same order. */
  lemma AscendingIsPairwise(bands: seq<Band>)
    ensures Ascending(bands) <==> forall i, j :: 0 <= i < j < |bands| ==> bands[i].threshold <= bands[j].threshold
  {
    if Ascending(bands) {
      forall i, j | 0 <= i < j < |bands|
        ensures bands[i].threshold <= bands[j].threshold
      {
        AscendingSuffix(bands, 0, i);
        ThresholdsOrdered(bands, i, j);
      }
    }
    if forall i, j :: 0 <= i < j < |bands| ==> bands[i].threshold <= bands[j].threshold {
      PairwiseAscendsFrom(bands, 0);
    }
  }

  lemma {:induction false} PairwiseAscendsFrom(bands: seq<Band>, x: nat)
    requires forall i, j :: 0 <= i < j < |bands| ==> bands[i].threshold <= bands[j].threshold
    ensures AscendingFrom(bands, x)
    decreases |bands| - x
  {
    if x + 1 < |bands| {
      PairwiseAscendsFrom(bands, x + 1);
    }
  }

  /** Every band from x through k levies at most hi. */
  predicate RatesAtMost(bands: seq<Band>, x: nat, k: nat, hi: real)
    requires k < |bands|
    decreases k + 1 - x
  {
    x > k || (bands[x].rate <= hi && RatesAtMost(bands, x + 1, k, hi))
  }

  /** Every band from x through k levies at least lo. */
  predicate RatesAtLeast(bands: seq<Band>, x: nat, k: nat, lo: real)
    requires k < |bands|
    decreases k + 1 - x
  {
    x > k || (lo <= bands[x].rate && RatesAtLeast(bands, x + 1, k, lo))
  }

  /** The recursive rate bounds say what they say of each band. */
  lemma {:induction false} RatesAtMostEach(bands: seq<Band>, x: nat, k: nat, hi: real)
    requires k < |bands|
    ensures RatesAtMost(bands, x, k, hi) <==> forall i :: x <= i <= k ==> bands[i].rate <= hi
    decreases k + 1 - x
  {
    if x <= k {
      RatesAtMostEach(bands, x + 1, k, hi);
    }
  }

  lemma {:induction false} RatesAtLeastEach(bands: seq<Band>, x: nat, k: nat, lo: real)
    requires k < |bands|
    ensures RatesAtLeast(bands, x, k, lo) <==> forall i :: x <= i <= k ==> lo <= bands[i].rate
    decreases k + 1 - x
  {
    if x <= k {
      RatesAtLeastEach(bands, x + 1, k, lo);
    }
  }

  /** Pair k of the row holds exactly band b, both cells filled. */
  predicate PairAt(cells: seq<Cell>, k: nat, b: Band) {
    RateColumn(k) < |cells| && cells[ThresholdColumn(k)] == Some(b.threshold) && cells[RateColumn(k)] == Some(b.rate)
  }

  /** The threshold cell of pair k exists and is empty: scanning stops there. */
  predicate EndsAt(cells: seq<Cell>, k: nat) {
    ThresholdColumn(k) < |cells| && cells[ThresholdColumn(k)].None?
  }

  /** The pairs from pair k up to the first empty threshold cell. */
  function ScanPairs(cells: seq<Cell>, k: nat): (r: Result<seq<Band>, Error>)
    decreases |cells| - 2 * k
    ensures r.Success? ==> forall i :: 0 <= i < |r.value| ==> PairAt(cells, k + i, r.value[i])
    ensures r.Success? ==> EndsAt(cells, k + |r.value|)
  {
    var missing :- CellIsMissing(cells, ThresholdColumn(k));
    if missing then Success([])
    else
      var threshold := cells[ThresholdColumn(k)].value;
      var rate :- ReadNumber(cells, RateColumn(k));
      var rest :- ScanPairs(cells, k + 1);
      Success([Band(threshold, rate)] + rest)
  }

  /** The country's band table: the scanned pairs, then the sentinel band whose
      rate is re-read from column (pairs - 1) * 2 + 6. With no pair at all
      that column is 4, the allowance taper fraction. */
  function LoadBands(cells: seq<Cell>): (r: Result<seq<Band>, Error>)
    ensures r.Success? ==> |r.value| >= 1 && Last(r.value).threshold == SentinelThreshold
    ensures r.Success? ==> forall i :: 0 <= i < |r.value| - 1 ==> PairAt(cells, i, r.value[i])
    ensures r.Success? ==> EndsAt(cells, |r.value| - 1)
    ensures r.Success? ==> 2 * (|r.value| - 2) + 6 < |cells| && cells[2 * (|r.value| - 2) + 6] == Some(Last(r.value).rate)
    ensures r.Success? && |r.value| >= 2 ==> Last(r.value).rate == r.value[|r.value| - 2].rate
  {
    var scanned :- ScanPairs(cells, 0);
    var topRate :- ReadNumber(cells, 2 * (|scanned| - 1) + 6);
    Success(scanned + [Band(SentinelThreshold, topRate)])
  }

  /** Scanning is complete: whenever the row holds exactly `pairs` from pair k
      on, followed by an empty threshold cell, the scan returns those pairs. */
  lemma {:induction false} ScanPairsReadsEveryPair(cells: seq<Cell>, k: nat, pairs: seq<Band>)
    requires forall i :: 0 <= i < |pairs| ==> PairAt(cells, k + i, pairs[i])
    requires EndsAt(cells, k + |pairs|)
    ensures ScanPairs(cells, k) == Success(pairs)
    decreases |pairs|
  {
    if |pairs| > 0 {
      assert PairAt(cells, k, pairs[0]);
      forall i | 0 <= i < |pairs[1..]|
        ensures PairAt(cells, k + 1 + i, pairs[1..][i])
      {
        assert PairAt(cells, k + (i + 1), pairs[i + 1]);
      }
      ScanPairsReadsEveryPair(cells, k + 1, pairs[1..]);
      assert [pairs[0]] + pairs[1..] == pairs;
    }
  }

  /** Loading is the inverse of laying bands out in a row: the loaded table is
      exactly the row's pairs plus the sentinel, whose rate is the last pair's
      rate, or the column 4 cell when the row has no pair. */
  lemma LoadBandsReadsEveryPair(cells: seq<Cell>, pairs: seq<Band>, fallback: real)
    requires forall i :: 0 <= i < |pairs| ==> PairAt(cells, i, pairs[i])
    requires EndsAt(cells, |pairs|)
    requires |pairs| == 0 ==> cells[4] == Some(fallback)
    ensures LoadBands(cells) == Success(pairs + [Band(SentinelThreshold, if |pairs| > 0 then Last(pairs).rate else fallback)])
  {
    forall i | 0 <= i < |pairs|
      ensures PairAt(cells, 0 + i, pairs[i])
    {
    }
    ScanPairsReadsEveryPair(cells, 0, pairs);
    if |pairs| > 0 {
      assert PairAt(cells, |pairs| - 1, pairs[|pairs| - 1]);
    }
  }
}
