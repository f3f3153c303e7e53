/** A country row of the band sheet, as the tax engine reads it. */
module Cells {
  import opened Outcomes

  /** A numeric cell; None stands for an empty (NaN) cell. */
  type Cell = Option<real>

  /** One country row: the name from column 0 and every cell by column
      index (the name column itself reads as None in `cells`). */
  datatype Row = Row(name: string, cells: seq<Cell>)

  /** Why evaluating a country stops. */
  datatype Error =
      /** A column past the end of the row was read (pandas raises IndexError). */
    | ColumnOutOfRange(column: nat)
      /** An empty cell was needed as a number. */
    | MissingNumber(column: nat)
      /** The band walk looked up the band after the last one (Python raises IndexError). */
    | BandOutOfRange(index: nat)

  /** The emptiness test on one cell; the column must exist. */
  function CellIsMissing(cells: seq<Cell>, column: nat): (r: Result<bool, Error>)
    ensures r.Success? <==> column < |cells|
    ensures r.Success? ==> (r.value <==> cells[column].None?)
  {
    if column < |cells| then Success(cells[column].None?) else Failure(ColumnOutOfRange(column))
  }

  /** A cell read as it is, empty or not; the column must exist. */
  function ReadCell(cells: seq<Cell>, column: nat): (r: Result<Cell, Error>)
    ensures r.Success? <==> column < |cells|
    ensures r.Success? ==> r.value == cells[column]
  {
    if column < |cells| then Success(cells[column]) else Failure(ColumnOutOfRange(column))
  }

  /** A cell read as a number; the column must exist and the cell be filled. */
  function ReadNumber(cells: seq<Cell>, column: nat): (r: Result<real, Error>)
    ensures r.Success? <==> column < |cells| && cells[column].Some?
    ensures r.Success? ==> cells[column] == Some(r.value)
  {
    if column >= |cells| then Failure(ColumnOutOfRange(column))
    else match cells[column]
      case None => Failure(MissingNumber(column))
      case Some(x) => Success(x)
  }
}
