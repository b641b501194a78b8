/** The cell grid a sheet is read into: a rectangular grid of cells, each
    missing (NaN or None in the data frame), a text value, or a number. */
module Cells {
  import opened Text

  /** Numbers are kept opaque: the model keeps only the text `str()` renders
      for them, which is all the analysis ever looks at. */
  datatype Cell = Missing | Str(s: string) | Num(rendered: string)

  type Row = seq<Cell>
  type Grid = seq<Row>

  /** Every row of a data frame has one cell per column. */
  predicate IsRectangular(g: Grid, width: nat)
  {
    forall i :: 0 <= i < |g| ==> |g[i]| == width
  }

  /** `astype(str)` / `str(val)` of a cell; a missing cell (NaN) becomes "nan". */
  function CellText(c: Cell): string
  {
    match c
    case Missing => "nan"
    case Str(s) => s
    case Num(t) => t
  }

  /** `row.isna().all()`. */
  predicate AllMissing(row: Row)
  {
    forall j :: 0 <= j < |row| ==> row[j].Missing?
  }

  /** `(row == '').all()`: every cell is the empty string (a missing cell is not). */
  predicate AllEmptyText(row: Row)
  {
    forall j :: 0 <= j < |row| ==> row[j] == Str("")
  }

  /** The test the boundary scan uses for an empty row: all missing, or all
      empty strings. A row mixing the two is not blank. */
  predicate IsBlankRow(row: Row)
  {
    AllMissing(row) || AllEmptyText(row)
  }
}
