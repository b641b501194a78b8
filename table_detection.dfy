/** Table-boundary detection (`detect_tables_in_sheet`): header candidates by
    text density, the vertical extent of each candidate ended by a run of two
    blank rows, the horizontal extent from the first to the last column with a
    value, trimming of all-missing rows and columns, and numbering of the
    accepted tables `table_1`, `table_2`, ... */
module TableDetection {
  import opened Text
  import opened Cells

  /** The widest sheet a workbook can hold (Excel's 16,384 columns). */
  const MaxColumns: nat := 16384

  // ---------------------------------------------------------------------------
  // Selecting indices: the positions below n that satisfy a test, ascending.

  function IndicesWhere(n: nat, p: nat -> bool): (r: seq<nat>)
    ensures forall k :: 0 <= k < |r| ==> r[k] < n && p(r[k])
    ensures forall j, k :: 0 <= j < k < |r| ==> r[j] < r[k]
  {
    if n == 0 then [] else IndicesWhere(n - 1, p) + (if p(n - 1) then [n - 1] else [])
  }

  lemma {:induction false} IndicesWhereComplete(n: nat, p: nat -> bool, i: nat)
    requires i < n && p(i)
    ensures i in IndicesWhere(n, p)
  {
    if i < n - 1 {
      IndicesWhereComplete(n - 1, p, i);
    }
  }

  /** An ascending sequence that holds x and nothing below x starts with x. */
  lemma FirstOfAscending(r: seq<nat>, x: nat)
    requires x in r
    requires forall k :: 0 <= k < |r| ==> x <= r[k]
    requires forall j, k :: 0 <= j < k < |r| ==> r[j] < r[k]
    ensures |r| >= 1 && r[0] == x
  {
    var m :| 0 <= m < |r| && r[m] == x;
    assert x <= r[0] <= r[m];
  }

  /** The members of hs that pass p, in list order. */
  function Filter(p: nat -> bool, hs: seq<nat>): (r: seq<nat>)
    ensures forall k :: 0 <= k < |r| ==> r[k] in hs && p(r[k])
  {
    if hs == [] then [] else Filter(p, hs[..|hs| - 1]) + (if p(hs[|hs| - 1]) then [hs[|hs| - 1]] else [])
  }

  /** Filtering keeps exactly the members that pass, and keeps an ascending list ascending. */
  lemma {:induction false} FilterSpec(p: nat -> bool, hs: seq<nat>)
    requires forall j, k :: 0 <= j < k < |hs| ==> hs[j] < hs[k]
    ensures var s := Filter(p, hs);
            && (forall x :: x in s <==> x in hs && p(x))
            && (forall j, k :: 0 <= j < k < |s| ==> s[j] < s[k])
  {
    if hs != [] {
      var init := hs[..|hs| - 1];
      FilterSpec(p, init);
      assert hs == init + [hs[|hs| - 1]];
      var s := Filter(p, init);
      forall k | 0 <= k < |s|
        ensures s[k] < hs[|hs| - 1]
      {
        assert s[k] in init;
      }
    }
  }

  /** What the members of hs yield under f, each asked with the count of
      results so far plus one; a member yielding nothing takes no number. */
  function Collect<T>(f: (nat, nat) -> Option<T>, hs: seq<nat>): seq<T>
  {
    if hs == [] then []
    else
      var prev := Collect(f, hs[..|hs| - 1]);
      match f(hs[|hs| - 1], |prev| + 1)
      case None => prev
      case Some(t) => prev + [t]
  }

  lemma CollectStep<T>(f: (nat, nat) -> Option<T>, hs: seq<nat>, i: nat)
    requires i < |hs|
    ensures var prev := Collect(f, hs[..i]);
            Collect(f, hs[..i + 1])
              == match f(hs[i], |prev| + 1)
                 case None => prev
                 case Some(t) => prev + [t]
  {
    assert hs[..i + 1][..i] == hs[..i];
  }

  /** When whether a member yields depends only on the member (test p), the k-th
      result is what the k-th member passing p yields as number k + 1. */
  lemma {:induction false} CollectSpec<T>(f: (nat, nat) -> Option<T>, p: nat -> bool, hs: seq<nat>)
    requires forall h: nat, n: nat :: f(h, n).Some? <==> p(h)
    ensures var ts := Collect(f, hs);
            var rows := Filter(p, hs);
            && |ts| == |rows|
            && forall k :: 0 <= k < |ts| ==> Some(ts[k]) == f(rows[k], k + 1)
  {
    if hs != [] {
      var init := hs[..|hs| - 1];
      var last := hs[|hs| - 1];
      CollectSpec(f, p, init);
      var prev := Collect(f, init);
      var rows := Filter(p, init);
      var c := f(last, |prev| + 1);
      var ts := Collect(f, hs);
      var all := Filter(p, hs);
      assert ts == prev + (if c.Some? then [c.value] else []);
      assert all == rows + (if c.Some? then [last] else []);
      forall k | 0 <= k < |ts|
        ensures Some(ts[k]) == f(all[k], k + 1)
      {
        if k < |prev| {
          assert ts[k] == prev[k] && all[k] == rows[k];
        } else {
          assert ts[k] == c.value && all[k] == last;
        }
      }
    }
  }

  // ---------------------------------------------------------------------------
  // Header candidates.

  /** A text cell with something left after `strip()`. */
  predicate IsText(c: Cell)
  {
    c.Str? && |Strip(c.s)| > 0
  }

  /** `sum(1 for val in row if pd.notna(val))`. */
  function NonNullCount(row: Row): (n: nat)
    ensures n <= |row|
    ensures n == 0 <==> AllMissing(row)
  {
    if row == [] then 0
    else NonNullCount(row[..|row| - 1]) + (if row[|row| - 1].Missing? then 0 else 1)
  }

  /** `sum(1 for val in row if isinstance(val, str) and len(str(val).strip()) > 0)`. */
  function TextCount(row: Row): (n: nat)
    ensures n <= NonNullCount(row)
  {
    if row == [] then 0
    else TextCount(row[..|row| - 1]) + (if IsText(row[|row| - 1]) then 1 else 0)
  }

  /** The header test as the source writes it, with the ratio in exact arithmetic. */
  predicate IsHeaderRow(row: Row)
  {
    NonNullCount(row) > 0 && (TextCount(row) as real) / (NonNullCount(row) as real) > 0.5
  }

  /** The ratio test is "more than half of the present cells are text": a row with
      exactly half text cells, and an all-missing row, never qualify. */
  lemma HeaderRowByCounts(row: Row)
    ensures IsHeaderRow(row) <==> 2 * TextCount(row) > NonNullCount(row)
  {
    if NonNullCount(row) > 0 {
      RatioAboveHalf(TextCount(row), NonNullCount(row));
    }
  }

  lemma RatioAboveHalf(t: nat, n: nat)
    requires n > 0
    ensures (t as real) / (n as real) > 0.5 <==> 2 * t > n
  {
    var q := (t as real) / (n as real);
    assert q * (n as real) == t as real;
    MultiplyMonotone(q, 0.5, n as real);
    MultiplyMonotone(0.5, q, n as real);
  }

  lemma MultiplyMonotone(a: real, b: real, n: real)
    requires n > 0.0
    ensures a <= b <==> a * n <= b * n
  {
    assert b * n - a * n == (b - a) * n;
  }

  function HeaderTest(g: Grid): nat -> bool
  {
    (i: nat) => i < |g| && IsHeaderRow(g[i])
  }

  /** The list `potential_headers`. */
  function HeaderCandidates(g: Grid): seq<nat>
  {
    IndicesWhere(|g|, HeaderTest(g))
  }

  /** The first loop of the scan: every row index whose row passes the header
      test, in ascending order. */
  method FindHeaderCandidates(g: Grid) returns (potentialHeaders: seq<nat>)
    ensures potentialHeaders == HeaderCandidates(g)
    ensures forall i: nat :: i in potentialHeaders <==> i < |g| && IsHeaderRow(g[i])
    ensures forall j, k :: 0 <= j < k < |potentialHeaders| ==> potentialHeaders[j] < potentialHeaders[k]
  {
    potentialHeaders := [];
    for idx := 0 to |g|
      invariant potentialHeaders == IndicesWhere(idx, HeaderTest(g))
    {
      var textCount := TextCount(g[idx]);
      var totalNonNull := NonNullCount(g[idx]);
      if totalNonNull > 0 && (textCount as real) / (totalNonNull as real) > 0.5 {
        potentialHeaders := potentialHeaders + [idx];
      }
    }
    forall i: nat | i < |g| && IsHeaderRow(g[i])
      ensures i in potentialHeaders
    {
      IndicesWhereComplete(|g|, HeaderTest(g), i);
    }
  }

  // ---------------------------------------------------------------------------
  // Vertical extent.

  /** Rows q and q + 1 are both blank. */
  predicate BlankPairAt(g: Grid, q: nat)
  {
    q + 1 < |g| && IsBlankRow(g[q]) && IsBlankRow(g[q + 1])
  }

  /** The second row of the first pair of consecutive blank rows at or after `from`. */
  function FirstBlankPair(g: Grid, from: nat): (r: Option<nat>)
    ensures r.Some? ==> from + 1 <= r.value && BlankPairAt(g, r.value - 1)
    ensures r.Some? ==> forall q: nat :: from <= q < r.value - 1 ==> !BlankPairAt(g, q)
    ensures r.None? ==> forall q: nat :: from <= q ==> !BlankPairAt(g, q)
    decreases |g| - from
  {
    if from + 1 >= |g| then None
    else if IsBlankRow(g[from]) && IsBlankRow(g[from + 1]) then Some(from + 1)
    else FirstBlankPair(g, from + 1)
  }

  /** `data_end` for a header row: the grid's length when no two consecutive blank
      rows follow the header, otherwise the second blank row's index minus 2. */
  function DataEnd(g: Grid, headerRow: nat): (e: nat)
    ensures e <= |g|
    ensures headerRow < |g| ==> headerRow <= e
  {
    match FirstBlankPair(g, headerRow + 1)
    case None => |g|
    case Some(r) => r - 2
  }

  /** The inner scan with its blank-row counter and early exit. With p the first
      row of the first blank pair after the header (so the counter reaches 2 at
      row p + 1), `data_end` is p - 1; without such a pair it is the grid's length. */
  method FindDataEnd(g: Grid, headerRow: nat) returns (dataEnd: nat)
    requires headerRow < |g|
    ensures dataEnd == DataEnd(g, headerRow)
    ensures (forall q: nat :: headerRow + 1 <= q ==> !BlankPairAt(g, q)) ==> dataEnd == |g|
    ensures forall p: nat :: headerRow + 1 <= p && BlankPairAt(g, p)
              && (forall q: nat :: headerRow + 1 <= q < p ==> !BlankPairAt(g, q))
              ==> dataEnd == p - 1
  {
    var dataStart := headerRow + 1;
    dataEnd := |g|;
    var emptyRowCount := 0;
    for rowIdx := dataStart to |g|
      invariant emptyRowCount == if rowIdx > dataStart && IsBlankRow(g[rowIdx - 1]) then 1 else 0
      invariant forall q: nat :: dataStart <= q && q + 1 < rowIdx ==> !BlankPairAt(g, q)
      invariant dataEnd == |g|
    {
      if IsBlankRow(g[rowIdx]) {
        emptyRowCount := emptyRowCount + 1;
        if emptyRowCount >= 2 {
          assert BlankPairAt(g, rowIdx - 1);
          dataEnd := rowIdx - emptyRowCount;
          assert FirstBlankPair(g, dataStart) == Some(rowIdx);
          return;
        }
      } else {
        emptyRowCount := 0;
      }
    }
    assert FirstBlankPair(g, dataStart).None?;
  }

  /** When a blank run ends the table, the row just before the run is left out
      too: `data_end` is the index of the last non-blank row, not one past it. */
  lemma DataEndDropsRowBeforeBlankRun(g: Grid, headerRow: nat)
    requires headerRow < |g| && DataEnd(g, headerRow) < |g|
    ensures var e := DataEnd(g, headerRow);
            && e + 2 < |g| && IsBlankRow(g[e + 1]) && IsBlankRow(g[e + 2])
            && (e > headerRow ==> !IsBlankRow(g[e]))
  {
    var p := FirstBlankPair(g, headerRow + 1);
    assert p.Some?;
    var r := p.value;
    if r - 2 > headerRow {
      assert !BlankPairAt(g, r - 2);
    }
  }

  // ---------------------------------------------------------------------------
  // Horizontal extent.

  /** Some row of [lo, hi) has a value (anything but missing; "" counts) in column c. */
  predicate ColumnHasValue(g: Grid, lo: nat, hi: nat, c: nat)
  {
    exists i :: lo <= i < hi && i < |g| && c < |g[i]| && !g[i][c].Missing?
  }

  function ColumnTest(g: Grid, lo: nat, hi: nat): nat -> bool
  {
    (c: nat) => ColumnHasValue(g, lo, hi, c)
  }

  /** The list `non_empty_cols` for the rows [lo, hi). */
  function NonEmptyColumns(g: Grid, width: nat, lo: nat, hi: nat): seq<nat>
  {
    IndicesWhere(width, ColumnTest(g, lo, hi))
  }

  /** The column loop of the scan. */
  method FindNonEmptyColumns(g: Grid, width: nat, lo: nat, hi: nat) returns (nonEmptyCols: seq<nat>)
    ensures nonEmptyCols == NonEmptyColumns(g, width, lo, hi)
    ensures forall c: nat :: c in nonEmptyCols <==> c < width && ColumnHasValue(g, lo, hi, c)
  {
    nonEmptyCols := [];
    for colIdx := 0 to width
      invariant nonEmptyCols == IndicesWhere(colIdx, ColumnTest(g, lo, hi))
    {
      if ColumnHasValue(g, lo, hi, colIdx) {
        nonEmptyCols := nonEmptyCols + [colIdx];
      }
    }
    forall c: nat | c < width && ColumnHasValue(g, lo, hi, c)
      ensures c in nonEmptyCols
    {
      IndicesWhereComplete(width, ColumnTest(g, lo, hi), c);
    }
  }

  /** A raw region: header row, exclusive data end, inclusive column range. */
  datatype Region = Region(headerRow: nat, dataEnd: nat, colStart: nat, colEnd: nat)

  function RawRegion(g: Grid, width: nat, headerRow: nat): (r: Option<Region>)
    ensures r.Some? ==> r.value.headerRow == headerRow && r.value.dataEnd <= |g|
    ensures r.Some? ==> r.value.colStart <= r.value.colEnd < width
  {
    var dataEnd := DataEnd(g, headerRow);
    var cols := NonEmptyColumns(g, width, headerRow, dataEnd);
    if |cols| > 0 && dataEnd > headerRow + 1 then
      Some(Region(headerRow, dataEnd, cols[0], cols[|cols| - 1]))
    else
      None
  }

  /** A candidate yields a region exactly when its data end lies past the row after
      the header and some column has a value in [headerRow, dataEnd); the region's
      columns run from the least to the greatest such column. */
  lemma RawRegionSpec(g: Grid, width: nat, headerRow: nat)
    ensures RawRegion(g, width, headerRow).Some? <==>
              DataEnd(g, headerRow) > headerRow + 1
              && exists c: nat :: c < width && ColumnHasValue(g, headerRow, DataEnd(g, headerRow), c)
    ensures RawRegion(g, width, headerRow).Some? ==>
              var reg := RawRegion(g, width, headerRow).value;
              && reg.headerRow == headerRow && reg.dataEnd == DataEnd(g, headerRow) <= |g|
              && reg.colStart <= reg.colEnd < width
              && ColumnHasValue(g, headerRow, reg.dataEnd, reg.colStart)
              && ColumnHasValue(g, headerRow, reg.dataEnd, reg.colEnd)
              && forall c: nat :: c < width && ColumnHasValue(g, headerRow, reg.dataEnd, c) ==>
                   reg.colStart <= c <= reg.colEnd
  {
    var dataEnd := DataEnd(g, headerRow);
    var p := ColumnTest(g, headerRow, dataEnd);
    var cols := NonEmptyColumns(g, width, headerRow, dataEnd);
    forall c: nat | c < width && ColumnHasValue(g, headerRow, dataEnd, c)
      ensures c in cols
    {
      IndicesWhereComplete(width, p, c);
    }
    if |cols| > 0 {
      assert p(cols[0]) && p(cols[|cols| - 1]);
    }
  }

  // ---------------------------------------------------------------------------
  // Trimming: `dropna(how='all')` on rows, then on columns, over the sliced region.

  /** The row has a value somewhere in columns [colStart, colEnd]. */
  predicate RowHasValueIn(row: Row, colStart: nat, colEnd: nat)
  {
    exists c :: colStart <= c <= colEnd && c < |row| && !row[c].Missing?
  }

  function KeptRowTest(g: Grid, reg: Region): nat -> bool
  {
    (i: nat) => reg.headerRow <= i && i < |g| && RowHasValueIn(g[i], reg.colStart, reg.colEnd)
  }

  /** The rows of [headerRow, dataEnd) that survive `dropna(how='all')`: every
      all-missing row goes, interior ones included. */
  function KeptRows(g: Grid, reg: Region): seq<nat>
  {
    IndicesWhere(reg.dataEnd, KeptRowTest(g, reg))
  }

  /** One of the given rows has a value in column c. */
  predicate HasValueInRows(g: Grid, rows: seq<nat>, c: nat)
  {
    exists k :: 0 <= k < |rows| && rows[k] < |g| && c < |g[rows[k]]| && !g[rows[k]][c].Missing?
  }

  function KeptColumnTest(g: Grid, reg: Region, rows: seq<nat>): nat -> bool
  {
    (c: nat) => reg.colStart <= c && HasValueInRows(g, rows, c)
  }

  /** The columns of [colStart, colEnd] that survive `dropna(axis=1, how='all')`
      applied after the row trim. */
  function KeptColumns(g: Grid, reg: Region, rows: seq<nat>): seq<nat>
  {
    IndicesWhere(reg.colEnd + 1, KeptColumnTest(g, reg, rows))
  }

  /** The sub-grid at the given rows and columns. */
  function Project(g: Grid, width: nat, rows: seq<nat>, cols: seq<nat>): (t: seq<seq<Cell>>)
    requires IsRectangular(g, width)
    requires forall k :: 0 <= k < |rows| ==> rows[k] < |g|
    requires forall j :: 0 <= j < |cols| ==> cols[j] < width
    ensures |t| == |rows|
    ensures forall k :: 0 <= k < |t| ==> |t[k]| == |cols|
    ensures forall k, j :: 0 <= k < |t| && 0 <= j < |cols| ==> t[k][j] == g[rows[k]][cols[j]]
  {
    seq(|rows|, k requires 0 <= k < |rows| =>
      seq(|cols|, j requires 0 <= j < |cols| => g[rows[k]][cols[j]]))
  }

  /** A candidate's raw region with the rows and columns the trim keeps. */
  datatype Extraction = Extraction(region: Region, rows: seq<nat>, cols: seq<nat>)

  function Extract(g: Grid, width: nat, headerRow: nat): Option<Extraction>
  {
    match RawRegion(g, width, headerRow)
    case None => None
    case Some(reg) =>
      var rows := KeptRows(g, reg);
      Some(Extraction(reg, rows, KeptColumns(g, reg, rows)))
  }

  /** `not table_df.empty and len(table_df) > 1`. */
  predicate Accepts(g: Grid, width: nat, headerRow: nat)
  {
    var e := Extract(g, width, headerRow);
    && e.Some?
    && !(|e.value.rows| == 0 || |e.value.cols| == 0)
    && |e.value.rows| > 1
  }

  /** A region whose header row has a value inside the region's columns keeps
      that row first. */
  lemma HeaderRowFirst(g: Grid, reg: Region)
    requires reg.headerRow < reg.dataEnd && reg.headerRow < |g|
    requires RowHasValueIn(g[reg.headerRow], reg.colStart, reg.colEnd)
    ensures var rows := KeptRows(g, reg);
            |rows| >= 1 && rows[0] == reg.headerRow
  {
    var rows := KeptRows(g, reg);
    IndicesWhereComplete(reg.dataEnd, KeptRowTest(g, reg), reg.headerRow);
    forall k | 0 <= k < |rows|
      ensures reg.headerRow <= rows[k]
    {
      assert KeptRowTest(g, reg)(rows[k]);
    }
    FirstOfAscending(rows, reg.headerRow);
  }

  /** The visible effect of the data end's off-by-one: a header followed by
      exactly one data row and then two blank rows never yields a table, since
      its data end falls on the data start and the region test fails. */
  lemma SingleDataRowLost(g: Grid, width: nat, headerRow: nat)
    requires headerRow + 3 < |g|
    requires !IsBlankRow(g[headerRow + 1]) && IsBlankRow(g[headerRow + 2]) && IsBlankRow(g[headerRow + 3])
    ensures DataEnd(g, headerRow) == headerRow + 1
    ensures RawRegion(g, width, headerRow).None?
    ensures !Accepts(g, width, headerRow)
  {
    assert FirstBlankPair(g, headerRow + 2) == Some(headerRow + 3);
    assert FirstBlankPair(g, headerRow + 1) == Some(headerRow + 3);
  }

  /** The header row of a candidate has a value inside its region's columns,
      so the row trim keeps it, and keeps it first. */
  lemma HeaderRowKept(g: Grid, width: nat, headerRow: nat)
    requires IsRectangular(g, width)
    requires headerRow < |g| && IsHeaderRow(g[headerRow])
    requires RawRegion(g, width, headerRow).Some?
    ensures var rows := KeptRows(g, RawRegion(g, width, headerRow).value);
            |rows| >= 1 && rows[0] == headerRow
  {
    RawRegionSpec(g, width, headerRow);
    var reg := RawRegion(g, width, headerRow).value;
    assert !AllMissing(g[headerRow]);
    var c :| 0 <= c < |g[headerRow]| && !g[headerRow][c].Missing?;
    assert ColumnHasValue(g, headerRow, reg.dataEnd, c);
    assert reg.colStart <= c <= reg.colEnd;
    assert RowHasValueIn(g[headerRow], reg.colStart, reg.colEnd);
    HeaderRowFirst(g, reg);
  }

  /** A row of the region with a value inside the region's columns survives the row trim. */
  lemma RowKept(g: Grid, reg: Region, i: nat)
    requires reg.headerRow <= i < reg.dataEnd && i < |g|
    requires RowHasValueIn(g[i], reg.colStart, reg.colEnd)
    ensures i in KeptRows(g, reg)
  {
    IndicesWhereComplete(reg.dataEnd, KeptRowTest(g, reg), i);
  }

  /** When the first column has a value in a kept row, the column trim keeps it first. */
  lemma FirstColumnFirst(g: Grid, reg: Region, rows: seq<nat>)
    requires reg.colStart <= reg.colEnd
    requires HasValueInRows(g, rows, reg.colStart)
    ensures var cols := KeptColumns(g, reg, rows);
            |cols| >= 1 && cols[0] == reg.colStart
  {
    var cols := KeptColumns(g, reg, rows);
    IndicesWhereComplete(reg.colEnd + 1, KeptColumnTest(g, reg, rows), reg.colStart);
    forall k | 0 <= k < |cols|
      ensures reg.colStart <= cols[k]
    {
      assert KeptColumnTest(g, reg, rows)(cols[k]);
    }
    FirstOfAscending(cols, reg.colStart);
  }

  /** The region's first column has a value in some row of the region; that row
      survives the row trim, so the column trim keeps colStart, and keeps it first. */
  lemma FirstColumnKept(g: Grid, reg: Region)
    requires reg.colStart <= reg.colEnd
    requires ColumnHasValue(g, reg.headerRow, reg.dataEnd, reg.colStart)
    ensures var cols := KeptColumns(g, reg, KeptRows(g, reg));
            |cols| >= 1 && cols[0] == reg.colStart
  {
    var rows := KeptRows(g, reg);
    var i :| reg.headerRow <= i < reg.dataEnd && i < |g| && reg.colStart < |g[i]| && !g[i][reg.colStart].Missing?;
    assert RowHasValueIn(g[i], reg.colStart, reg.colEnd);
    RowKept(g, reg, i);
    var mi :| 0 <= mi < |rows| && rows[mi] == i;
    assert HasValueInRows(g, rows, reg.colStart);
    FirstColumnFirst(g, reg, rows);
  }

  /** No row survives the trim all missing: each kept row has a value in a kept column. */
  lemma KeptRowsHaveValues(g: Grid, reg: Region, k: nat)
    requires k < |KeptRows(g, reg)|
    ensures var rows := KeptRows(g, reg);
            var cols := KeptColumns(g, reg, rows);
            exists j :: 0 <= j < |cols| && cols[j] < |g[rows[k]]| && !g[rows[k]][cols[j]].Missing?
  {
    var rows := KeptRows(g, reg);
    var cols := KeptColumns(g, reg, rows);
    assert KeptRowTest(g, reg)(rows[k]);
    var c :| reg.colStart <= c <= reg.colEnd && c < |g[rows[k]]| && !g[rows[k]][c].Missing?;
    assert HasValueInRows(g, rows, c);
    IndicesWhereComplete(reg.colEnd + 1, KeptColumnTest(g, reg, rows), c);
    var j :| 0 <= j < |cols| && cols[j] == c;
  }

  /** No column survives the trim all missing: each kept column has a value in a kept row. */
  lemma KeptColumnsHaveValues(g: Grid, reg: Region, j: nat)
    requires j < |KeptColumns(g, reg, KeptRows(g, reg))|
    ensures var rows := KeptRows(g, reg);
            var cols := KeptColumns(g, reg, rows);
            exists k :: 0 <= k < |rows| && rows[k] < |g| && cols[j] < |g[rows[k]]| && !g[rows[k]][cols[j]].Missing?
  {
    var rows := KeptRows(g, reg);
    assert KeptColumnTest(g, reg, rows)(KeptColumns(g, reg, rows)[j]);
  }

  // ---------------------------------------------------------------------------
  // Table records.

  /** The dictionary built for an accepted table: `data` holds the trimmed rows
      after the header row, `rows` and `columns` its dimensions. */
  datatype Table = Table(
    tableId: string,
    sheetName: string,
    location: string,
    headers: seq<string>,
    data: seq<seq<Cell>>,
    rows: nat,
    columns: nat)

  /** f"table_{n}". */
  function TableId(n: nat): string
  {
    "table_" + NatToDecimal(n)
  }

  /** `chr(65 + c)`: one character per column, so column 26 gives '['. */
  function ColumnLetter(c: nat): char
    requires c < MaxColumns
  {
    ('A' as int + c) as char
  }

  /** f"{chr(65+col_start)}{header_row+1}:{chr(65+col_end)}{data_end}", from the
      untrimmed region. */
  function Location(reg: Region): string
    requires reg.colStart < MaxColumns && reg.colEnd < MaxColumns
  {
    [ColumnLetter(reg.colStart)] + NatToDecimal(reg.headerRow + 1) + ":"
      + [ColumnLetter(reg.colEnd)] + NatToDecimal(reg.dataEnd)
  }

  /** Distinct table numbers give distinct identifiers. */
  lemma TableIdInjective(m: nat, n: nat)
    requires TableId(m) == TableId(n)
    ensures m == n
  {
    var p := "table_";
    assert NatToDecimal(m) == TableId(m)[|p|..];
    assert NatToDecimal(n) == TableId(n)[|p|..];
    NatToDecimalInjective(m, n);
  }

  /** The first 26 columns get the letters A to Z, as in a spreadsheet; from the
      27th column on `chr(65 + c)` leaves the alphabet ('[', '\\', ...) instead of
      continuing with AA, AB, ... */
  lemma ColumnLetterRange(c: nat)
    requires c < MaxColumns
    ensures c < 26 <==> 'A' <= ColumnLetter(c) <= 'Z'
    ensures c == 26 ==> ColumnLetter(c) == '['
  {
  }

  /** A cell range read back from a location string: first column, first row
      (1-based), last column, last row. */
  datatype CellRange = CellRange(firstCol: nat, firstRow: nat, lastCol: nat, lastRow: nat)

  /** A character `chr(65 + c)` can produce for a column of a sheet. */
  predicate IsColumnChar(ch: char)
  {
    'A' as int <= ch as int < 'A' as int + MaxColumns
  }

  /** The first position of c in s. */
  function IndexOf(s: string, c: char): (r: Option<nat>)
    ensures r.Some? ==> r.value < |s| && s[r.value] == c && c !in s[..r.value]
    ensures r.None? ==> c !in s
  {
    if s == [] then None
    else if s[0] == c then Some(0)
    else match IndexOf(s[1..], c)
      case None => None
      case Some(i) => assert s[..i + 1] == [s[0]] + s[1..][..i]; Some(i + 1)
  }

  /** Reads "<column char><row>:<column char><row>" back into its four numbers. */
  function ParseLocation(s: string): Option<CellRange>
  {
    match IndexOf(s, ':')
    case None => None
    case Some(m) =>
      var left := s[..m];
      var right := s[m + 1..];
      if |left| >= 2 && |right| >= 2 && IsColumnChar(left[0]) && IsColumnChar(right[0])
         && AllDigits(left[1..]) && AllDigits(right[1..])
      then Some(CellRange(left[0] as int - 'A' as int, DecimalValue(left[1..]),
                          right[0] as int - 'A' as int, DecimalValue(right[1..])))
      else None
  }

  lemma NoColonInDigits(s: string)
    requires AllDigits(s)
    ensures ':' !in s
  {
    forall i | 0 <= i < |s|
      ensures s[i] != ':'
    {
      assert IsDigit(s[i]);
    }
  }

  /** A column character and digits, a colon, and another column character and
      digits parse back into the two characters' columns and the two numbers. */
  lemma ParseCellPair(a: string, b: string)
    requires |a| >= 2 && IsColumnChar(a[0]) && AllDigits(a[1..])
    requires |b| >= 2 && IsColumnChar(b[0]) && AllDigits(b[1..])
    ensures ParseLocation(a + ":" + b)
              == Some(CellRange(a[0] as int - 'A' as int, DecimalValue(a[1..]),
                                b[0] as int - 'A' as int, DecimalValue(b[1..])))
  {
    var s := a + ":" + b;
    assert s == a + [':'] + b;
    NoColonInDigits(a[1..]);
    assert ':' !in a by {
      assert a == [a[0]] + a[1..];
    }
    IndexOfAfter(a, b, ':');
    assert s[..|a|] == a && s[|a| + 1..] == b;
  }

  /** The location string encodes the untrimmed region exactly: its column
      characters, the 1-based header row and the data end can all be read back. */
  lemma LocationRoundTrip(reg: Region)
    requires reg.colStart < MaxColumns && reg.colEnd < MaxColumns
    ensures ParseLocation(Location(reg))
              == Some(CellRange(reg.colStart, reg.headerRow + 1, reg.colEnd, reg.dataEnd))
  {
    var a := [ColumnLetter(reg.colStart)] + NatToDecimal(reg.headerRow + 1);
    var b := [ColumnLetter(reg.colEnd)] + NatToDecimal(reg.dataEnd);
    assert Location(reg) == a + ":" + b;
    assert a[1..] == NatToDecimal(reg.headerRow + 1);
    assert b[1..] == NatToDecimal(reg.dataEnd);
    ParseCellPair(a, b);
    DecimalRoundTrip(reg.headerRow + 1);
    DecimalRoundTrip(reg.dataEnd);
  }

  lemma {:induction false} IndexOfAfter(a: string, b: string, c: char)
    requires c !in a
    ensures IndexOf(a + [c] + b, c) == Some(|a|)
  {
    if a != [] {
      assert (a + [c] + b)[1..] == a[1..] + [c] + b;
      IndexOfAfter(a[1..], b, c);
    }
  }

  /** Different raw regions have different location strings. */
  lemma LocationInjective(r1: Region, r2: Region)
    requires r1.colStart < MaxColumns && r1.colEnd < MaxColumns
    requires r2.colStart < MaxColumns && r2.colEnd < MaxColumns
    requires Location(r1) == Location(r2)
    ensures r1 == r2
  {
    LocationRoundTrip(r1);
    LocationRoundTrip(r2);
  }

  /** The record for a trimmed region with the given kept rows and columns. */
  function BuildTable(g: Grid, width: nat, sheetName: string, reg: Region,
                      rows: seq<nat>, cols: seq<nat>, n: nat): Table
    requires IsRectangular(g, width) && width <= MaxColumns
    requires reg.colStart <= reg.colEnd < width
    requires |rows| >= 1 && forall k :: 0 <= k < |rows| ==> rows[k] < |g|
    requires forall j :: 0 <= j < |cols| ==> cols[j] < width
  {
    var t := Project(g, width, rows, cols);
    Table(TableId(n), sheetName, Location(reg),
          seq(|cols|, j requires 0 <= j < |cols| => CellText(t[0][j])),
          t[1..], |t| - 1, |cols|)
  }

  /** The record an accepted candidate produces when it is the n-th accepted one. */
  function MakeTable(g: Grid, width: nat, sheetName: string, headerRow: nat, n: nat): Table
    requires IsRectangular(g, width) && width <= MaxColumns
    requires Accepts(g, width, headerRow)
  {
    var e := Extract(g, width, headerRow).value;
    BuildTable(g, width, sheetName, e.region, e.rows, e.cols, n)
  }

  /** What a header candidate yields as the n-th table: its record when the trimmed
      region is accepted, nothing otherwise. */
  function CandidateTable(g: Grid, width: nat, sheetName: string, headerRow: nat, n: nat): Option<Table>
    requires IsRectangular(g, width) && width <= MaxColumns
  {
    if Accepts(g, width, headerRow) then Some(MakeTable(g, width, sheetName, headerRow, n)) else None
  }

  /** The record of an accepted candidate: its number, sheet and untrimmed
      location; the header row is the first kept row and the region's first
      column the first kept column; `rows` counts the data rows below the header
      (at least one) and `columns` the kept columns (at least one); the headers
      are the header row's cells as text and each data row is its grid row at
      the kept columns. */
  lemma MakeTableRecord(g: Grid, width: nat, sheetName: string, headerRow: nat, n: nat)
    requires IsRectangular(g, width) && width <= MaxColumns
    requires headerRow < |g| && IsHeaderRow(g[headerRow]) && Accepts(g, width, headerRow)
    ensures var t := MakeTable(g, width, sheetName, headerRow, n);
            var e := Extract(g, width, headerRow).value;
            && t.tableId == TableId(n) && t.sheetName == sheetName && t.location == Location(e.region)
            && e.rows[0] == headerRow && e.cols[0] == e.region.colStart
            && t.rows == |t.data| == |e.rows| - 1 && t.rows >= 1
            && t.columns == |t.headers| == |e.cols| && t.columns >= 1
            && (forall j :: 0 <= j < t.columns ==> t.headers[j] == CellText(g[headerRow][e.cols[j]]))
            && (forall k :: 0 <= k < t.rows ==> |t.data[k]| == t.columns)
            && (forall k, j :: 0 <= k < t.rows && 0 <= j < t.columns ==> t.data[k][j] == g[e.rows[k + 1]][e.cols[j]])
  {
    var reg := RawRegion(g, width, headerRow).value;
    HeaderRowKept(g, width, headerRow);
    RawRegionSpec(g, width, headerRow);
    FirstColumnKept(g, reg);
  }

  /** No data row of an accepted table is all missing. */
  lemma MakeTableDataRowsHaveValues(g: Grid, width: nat, sheetName: string, headerRow: nat, n: nat, k: nat)
    requires IsRectangular(g, width) && width <= MaxColumns
    requires Accepts(g, width, headerRow)
    requires k < MakeTable(g, width, sheetName, headerRow, n).rows
    ensures !AllMissing(MakeTable(g, width, sheetName, headerRow, n).data[k])
  {
    var e := Extract(g, width, headerRow).value;
    var t := MakeTable(g, width, sheetName, headerRow, n);
    KeptRowsHaveValues(g, e.region, k + 1);
    var j :| 0 <= j < |e.cols| && e.cols[j] < |g[e.rows[k + 1]]| && !g[e.rows[k + 1]][e.cols[j]].Missing?;
    assert t.data[k][j] == g[e.rows[k + 1]][e.cols[j]];
  }

  /** No column of an accepted table is all missing: each has a present header
      cell or a present data cell. */
  lemma MakeTableColumnsHaveValues(g: Grid, width: nat, sheetName: string, headerRow: nat, n: nat, j: nat)
    requires IsRectangular(g, width) && width <= MaxColumns
    requires headerRow < |g| && IsHeaderRow(g[headerRow]) && Accepts(g, width, headerRow)
    requires j < MakeTable(g, width, sheetName, headerRow, n).columns
    ensures var t := MakeTable(g, width, sheetName, headerRow, n);
            var e := Extract(g, width, headerRow).value;
            !g[headerRow][e.cols[j]].Missing? || exists k :: 0 <= k < t.rows && !t.data[k][j].Missing?
  {
    var e := Extract(g, width, headerRow).value;
    var t := MakeTable(g, width, sheetName, headerRow, n);
    MakeTableRecord(g, width, sheetName, headerRow, n);
    KeptColumnsHaveValues(g, e.region, j);
    var k :| 0 <= k < |e.rows| && e.rows[k] < |g| && e.cols[j] < |g[e.rows[k]]| && !g[e.rows[k]][e.cols[j]].Missing?;
    if k > 0 {
      assert t.data[k - 1][j] == g[e.rows[k]][e.cols[j]];
    }
  }

  /** The trim keeps exactly the rows of [headerRow, dataEnd) with a value inside
      the region's columns. */
  lemma KeptRowsSpec(g: Grid, reg: Region)
    ensures forall i: nat :: i in KeptRows(g, reg) <==>
              reg.headerRow <= i < reg.dataEnd && i < |g| && RowHasValueIn(g[i], reg.colStart, reg.colEnd)
  {
    forall i: nat | reg.headerRow <= i < reg.dataEnd && i < |g| && RowHasValueIn(g[i], reg.colStart, reg.colEnd)
      ensures i in KeptRows(g, reg)
    {
      IndicesWhereComplete(reg.dataEnd, KeptRowTest(g, reg), i);
    }
  }

  /** The trim keeps exactly the columns of [colStart, colEnd] with a value in a kept row. */
  lemma KeptColumnsSpec(g: Grid, reg: Region)
    ensures var rows := KeptRows(g, reg);
            forall c: nat :: c in KeptColumns(g, reg, rows) <==>
              reg.colStart <= c <= reg.colEnd && HasValueInRows(g, rows, c)
  {
    var rows := KeptRows(g, reg);
    forall c: nat | reg.colStart <= c <= reg.colEnd && HasValueInRows(g, rows, c)
      ensures c in KeptColumns(g, reg, rows)
    {
      IndicesWhereComplete(reg.colEnd + 1, KeptColumnTest(g, reg, rows), c);
    }
  }

  /** Whatever a candidate yields carries its number and its sheet. */
  lemma CandidateTableNumbered(g: Grid, width: nat, sheetName: string, headerRow: nat, n: nat)
    requires IsRectangular(g, width) && width <= MaxColumns
    ensures var r := CandidateTable(g, width, sheetName, headerRow, n);
            r.Some? ==> r.value.tableId == TableId(n) && r.value.sheetName == sheetName
  {
  }

  /** One sheet's tables are numbered 1, 2, ... in order and all name that sheet. */
  lemma DetectedTablesNumbered(g: Grid, width: nat, sheetName: string, tables: seq<Table>)
    requires IsRectangular(g, width) && width <= MaxColumns
    requires |tables| == |AcceptedHeaderRows(g, width)|
    requires forall k :: 0 <= k < |tables| ==>
               Some(tables[k]) == CandidateTable(g, width, sheetName, AcceptedHeaderRows(g, width)[k], k + 1)
    ensures forall k :: 0 <= k < |tables| ==> tables[k].tableId == TableId(k + 1) && tables[k].sheetName == sheetName
  {
    forall k | 0 <= k < |tables|
      ensures tables[k].tableId == TableId(k + 1) && tables[k].sheetName == sheetName
    {
      CandidateTableNumbered(g, width, sheetName, AcceptedHeaderRows(g, width)[k], k + 1);
    }
  }

  function AcceptTest(g: Grid, width: nat): nat -> bool
  {
    (h: nat) => Accepts(g, width, h)
  }

  /** The header rows of the accepted tables of a sheet, in detection order. */
  function AcceptedHeaderRows(g: Grid, width: nat): seq<nat>
  {
    Filter(AcceptTest(g, width), HeaderCandidates(g))
  }

  /** The accepted header rows are exactly the header candidates whose region
      survives trimming, ascending: a rejected candidate takes no place (and
      so no table number). */
  lemma AcceptedHeaderRowsSpec(g: Grid, width: nat)
    ensures var a := AcceptedHeaderRows(g, width);
            && (forall x: nat :: x in a <==> x < |g| && IsHeaderRow(g[x]) && Accepts(g, width, x))
            && (forall j, k :: 0 <= j < k < |a| ==> a[j] < a[k])
  {
    var hs := HeaderCandidates(g);
    FilterSpec(AcceptTest(g, width), hs);
    forall x: nat | x < |g| && IsHeaderRow(g[x])
      ensures x in hs
    {
      IndicesWhereComplete(|g|, HeaderTest(g), x);
    }
  }

  /** `CandidateTable` as a function of the candidate and its number. */
  function CandidateFn(g: Grid, width: nat, sheetName: string): (nat, nat) -> Option<Table>
  {
    (h: nat, n: nat) =>
      if IsRectangular(g, width) && width <= MaxColumns then CandidateTable(g, width, sheetName, h, n) else None
  }

  /** Whether a candidate yields a table does not depend on its number. */
  lemma CandidateFnYields(g: Grid, width: nat, sheetName: string)
    requires IsRectangular(g, width) && width <= MaxColumns
    ensures forall h: nat, n: nat :: CandidateFn(g, width, sheetName)(h, n).Some? <==> AcceptTest(g, width)(h)
    ensures forall h: nat, n: nat :: CandidateFn(g, width, sheetName)(h, n) == CandidateTable(g, width, sheetName, h, n)
  {
  }

  /** One pass of the candidate loop: scan for the data end, find the column span,
      trim, and build the record numbered `tableCount` when the trimmed region has
      a header and at least one data row. */
  method ScanCandidate(g: Grid, width: nat, sheetName: string, headerRow: nat, tableCount: nat)
    returns (accepted: bool, table: Table)
    requires IsRectangular(g, width) && width <= MaxColumns
    requires headerRow < |g|
    ensures accepted == Accepts(g, width, headerRow)
    ensures CandidateTable(g, width, sheetName, headerRow, tableCount) == if accepted then Some(table) else None
  {
    accepted := false;
    table := Table("", sheetName, "", [], [], 0, 0);
    var dataStart := headerRow + 1;
    var dataEnd := FindDataEnd(g, headerRow);
    var nonEmptyCols := FindNonEmptyColumns(g, width, headerRow, dataEnd);
    if |nonEmptyCols| > 0 && dataEnd > dataStart {
      var colStart := nonEmptyCols[0];
      var colEnd := nonEmptyCols[|nonEmptyCols| - 1];
      var region := Region(headerRow, dataEnd, colStart, colEnd);
      assert RawRegion(g, width, headerRow) == Some(region);
      RawRegionSpec(g, width, headerRow);
      var keptRows := KeptRows(g, region);
      var keptCols := KeptColumns(g, region, keptRows);
      if !(|keptRows| == 0 || |keptCols| == 0) && |keptRows| > 1 {
        accepted := true;
        table := BuildTable(g, width, sheetName, region, keptRows, keptCols, tableCount);
      }
    }
  }

  /** `detect_tables_in_sheet`: the k-th table is the record of the k-th accepted
      header candidate, numbered k + 1. */
  method DetectTables(g: Grid, width: nat, sheetName: string) returns (tables: seq<Table>)
    requires IsRectangular(g, width) && width <= MaxColumns
    ensures tables == Collect(CandidateFn(g, width, sheetName), HeaderCandidates(g))
    ensures |tables| == |AcceptedHeaderRows(g, width)|
    ensures forall k :: 0 <= k < |tables| ==>
              Some(tables[k]) == CandidateTable(g, width, sheetName, AcceptedHeaderRows(g, width)[k], k + 1)
  {
    tables := [];
    ghost var f := CandidateFn(g, width, sheetName);
    var potentialHeaders := FindHeaderCandidates(g);
    if |potentialHeaders| > 0 {
      var tableCount := 1;
      for i := 0 to |potentialHeaders|
        invariant tables == Collect(f, potentialHeaders[..i])
        invariant tableCount == |tables| + 1
      {
        CollectStep(f, potentialHeaders, i);
        var headerRow := potentialHeaders[i];
        var accepted, table := ScanCandidate(g, width, sheetName, headerRow, tableCount);
        assert f(headerRow, tableCount) == if accepted then Some(table) else None;
        if accepted {
          tables := tables + [table];
          tableCount := tableCount + 1;
        }
      }
      assert potentialHeaders[..|potentialHeaders|] == potentialHeaders;
    }
    CollectedTables(g, width, sheetName);
  }

  /** The tables collected from a sheet's header candidates, one per accepted
      header row, in order and numbered from 1. */
  lemma CollectedTables(g: Grid, width: nat, sheetName: string)
    requires IsRectangular(g, width) && width <= MaxColumns
    ensures var ts := Collect(CandidateFn(g, width, sheetName), HeaderCandidates(g));
            && |ts| == |AcceptedHeaderRows(g, width)|
            && forall k :: 0 <= k < |ts| ==>
                 Some(ts[k]) == CandidateTable(g, width, sheetName, AcceptedHeaderRows(g, width)[k], k + 1)
  {
    var f := CandidateFn(g, width, sheetName);
    CandidateFnYields(g, width, sheetName);
    CollectSpec(f, AcceptTest(g, width), HeaderCandidates(g));
  }
}
