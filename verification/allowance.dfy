/** The tapering allowance (the UK residence nil-rate band): a tax-free amount
    that shrinks once the estate passes a taper start, and never below zero. */
module Allowance {
  import opened Outcomes
  import opened Cells
  import opened Arithmetic

  /** A row's allowance, read from columns 2 (band), 3 (start) and 4
      (fraction). The start and fraction cells may be empty, and an empty
      cell is NaN to the scripts:
      - `Tapering`: both filled; `band` is withdrawn at `fraction` per unit of
        estate value above `start`.
      - `NeverTapered`: the start is empty. The test `value > NaN` is false,
        so the full band applies at every value.
      - `LostAboveStart`: the fraction is empty. Above the start the
        withdrawal is NaN and `max(0, NaN)` keeps its first argument, 0. */
  datatype Taper =
    | Tapering(band: real, start: real, fraction: real)
    | NeverTapered(band: real)
    | LostAboveStart(band: real, start: real)

  /** The taper described by a filled band cell and the start and fraction
      cells as they are. */
  function TaperOfCells(band: real, start: Cell, fraction: Cell): Taper {
    match start
    case None => NeverTapered(band)
    case Some(s) =>
      match fraction
      case None => LostAboveStart(band, s)
      case Some(f) => Tapering(band, s, f)
  }

  /** The row's taper, or None when the allowance cell (column 2) is empty.
      A filled band cell makes the script read columns 3 and 4, so both must
      exist. */
  function DecodeTaper(cells: seq<Cell>): (r: Result<Option<Taper>, Error>)
    ensures r.Success? <==> 2 < |cells| && (cells[2].None? || 4 < |cells|)
    ensures r == Success(None) <==> 2 < |cells| && cells[2].None?
    ensures r.Success? && r.value.Some? ==> 4 < |cells| && cells[2] == Some(r.value.value.band)
    ensures r.Success? && r.value.Some? ==> (r.value.value.NeverTapered? <==> cells[3].None?)
    ensures r.Success? && r.value.Some? && !r.value.value.NeverTapered? ==>
      cells[3] == Some(r.value.value.start) && (r.value.value.Tapering? <==> cells[4].Some?)
    ensures r.Success? && r.value.Some? && r.value.value.Tapering? ==> cells[4] == Some(r.value.value.fraction)
  {
    var missing :- CellIsMissing(cells, 2);
    if missing then Success(None)
    else
      var band := cells[2].value;
      var start :- ReadCell(cells, 3);
      var fraction :- ReadCell(cells, 4);
      Success(Some(TaperOfCells(band, start, fraction)))
  }

  /** Python's max(0, y). */
  function AtLeastZero(y: real): (m: real)
    ensures m >= 0.0 && m >= y
    ensures m == 0.0 || m == y
  {
    if y > 0.0 then y else 0.0
  }

  /** The part of the allowance withdrawn at estate value v above the start. */
  function Withdrawn(t: Taper, v: real): real
    requires t.Tapering?
  {
    t.fraction * (v - t.start)
  }

  /** The allowance deducted from an estate worth v. */
  function AllowanceAt(taper: Option<Taper>, v: real): (a: real)
    ensures taper.None? ==> a == 0.0
    ensures taper.Some? && (taper.value.NeverTapered? || v <= taper.value.start) ==> a == taper.value.band
    ensures taper.Some? && taper.value.LostAboveStart? && v > taper.value.start ==> a == 0.0
    ensures taper.Some? && !taper.value.NeverTapered? && v > taper.value.start ==> a >= 0.0
    ensures taper.Some? && taper.value.band >= 0.0 ==> a >= 0.0
    ensures taper.Some? && taper.value.band >= 0.0 && (taper.value.Tapering? ==> taper.value.fraction >= 0.0) ==>
      a <= taper.value.band
  {
    match taper
    case None => 0.0
    case Some(t) =>
      match t
      case NeverTapered(band) => band
      case LostAboveStart(band, start) => if v > start then 0.0 else band
      case Tapering(band, start, _) =>
        if v > start then AtLeastZero(band - Withdrawn(t, v)) else band
  }

  /** Above the taper start the allowance is the full band less the withdrawn
      amount, floored at zero: exactly zero once the withdrawal covers the band,
      exactly the remainder before that. */
  lemma TaperedAllowance(t: Taper, v: real)
    requires t.Tapering? && v > t.start
    ensures t.fraction * (v - t.start) >= t.band ==> AllowanceAt(Some(t), v) == 0.0
    ensures t.fraction * (v - t.start) < t.band ==> AllowanceAt(Some(t), v) == t.band - t.fraction * (v - t.start)
  {
  }

  /** With a positive taper fraction the allowance is exactly zero for every
      estate at or above start + band / fraction: large estates keep none. */
  lemma AllowanceVanishes(t: Taper, v: real)
    requires t.Tapering? && t.fraction > 0.0 && t.band >= 0.0
    requires v >= t.start + t.band / t.fraction
    ensures AllowanceAt(Some(t), v) == 0.0
  {
    var excess := v - t.start;
    assert excess >= t.band / t.fraction;
    assert t.fraction * excess >= t.fraction * (t.band / t.fraction) by {
      MultiplyKeepsOrder(t.band / t.fraction, excess, t.fraction);
    }
    assert t.fraction * (t.band / t.fraction) == t.band;
    if v <= t.start {
      assert t.band <= 0.0;
    }
  }

  /** Growing the estate never grows the allowance, for a non-negative band
      and (where there is one) a non-negative fraction. */
  lemma AllowanceNonIncreasing(t: Taper, v1: real, v2: real)
    requires t.band >= 0.0 && (t.Tapering? ==> t.fraction >= 0.0)
    requires v1 <= v2
    ensures AllowanceAt(Some(t), v2) <= AllowanceAt(Some(t), v1)
  {
    if t.Tapering? {
      if v1 > t.start {
        WithdrawalGrows(t, v1, v2);
      } else if v2 > t.start {
        WithdrawalGrows(t, t.start, v2);
      }
    }
  }

  /** The withdrawn amount grows with the estate. */
  lemma WithdrawalGrows(t: Taper, v1: real, v2: real)
    requires t.Tapering? && t.fraction >= 0.0 && v1 <= v2
    ensures Withdrawn(t, v1) <= Withdrawn(t, v2)
  {
    MultiplyKeepsOrder(v1 - t.start, v2 - t.start, t.fraction);
  }

  /** A worked example: band 1, taper from 2 at one half. */
  lemma TaperExample()
    ensures AllowanceAt(Some(Tapering(1.0, 2.0, 0.5)), 4.0) == 0.0
    ensures AllowanceAt(Some(Tapering(1.0, 2.0, 0.5)), 2.5) == 0.75
    ensures AllowanceAt(Some(Tapering(1.0, 2.0, 0.5)), 2.0) == 1.0
  {
  }

  /** A worked example of empty taper cells: with the start empty the band of
      1 is kept at every value; with the fraction empty it is lost entirely
      once the estate passes the start. */
  lemma EmptyTaperCellsExample()
    ensures DecodeTaper([None, None, Some(1.0), None, Some(0.5)]) == Success(Some(NeverTapered(1.0)))
    ensures AllowanceAt(Some(NeverTapered(1.0)), 50.0) == 1.0
    ensures DecodeTaper([None, None, Some(1.0), Some(2.0), None]) == Success(Some(LostAboveStart(1.0, 2.0)))
    ensures AllowanceAt(Some(LostAboveStart(1.0, 2.0)), 2.0) == 1.0
    ensures AllowanceAt(Some(LostAboveStart(1.0, 2.0)), 2.5) == 0.0
  {
  }
}
