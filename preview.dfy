/** The short text preview of a detected table (`create_table_preview`): a
    header line and at most the first two data rows, one line each. */
module Preview {
  import opened Text
  import opened Cells

  /** Longest cell text a preview shows. */
  const CellWidth: nat := 50

  /** `str(val)[:50] if pd.notna(val) else ""`. */
  function PreviewCell(c: Cell): (r: string)
    ensures c.Missing? ==> r == ""
    ensures !c.Missing? ==> |r| <= CellWidth && r <= CellText(c)
    ensures !c.Missing? && |CellText(c)| <= CellWidth ==> r == CellText(c)
  {
    if c.Missing? then "" else Truncate(CellText(c), CellWidth)
  }

  function HeaderLine(headers: seq<string>): string
  {
    "HEADERS: " + Join(" | ", headers)
  }

  /** f"Row {idx+1}: {row_data}" for the row at position idx. */
  function RowLine(idx: nat, row: seq<Cell>): string
  {
    "Row " + NatToDecimal(idx + 1) + ": " + Join(" | ", seq(|row|, j requires 0 <= j < |row| => PreviewCell(row[j])))
  }

  function Min(a: nat, b: nat): nat
  {
    if a <= b then a else b
  }

  /** The list `preview_lines`: the header line, then one line per row of `head(2)`. */
  function PreviewLines(data: seq<seq<Cell>>, headers: seq<string>): (lines: seq<string>)
    ensures |lines| == 1 + Min(2, |data|)
  {
    [HeaderLine(headers)] + seq(Min(2, |data|), k requires 0 <= k < Min(2, |data|) => RowLine(k, data[k]))
  }

  /** `create_table_preview`. */
  method CreateTablePreview(data: seq<seq<Cell>>, headers: seq<string>) returns (preview: string)
    ensures preview == Join("\n", PreviewLines(data, headers))
  {
    var previewLines := [HeaderLine(headers)];
    var sample := Min(2, |data|);
    for idx := 0 to sample
      invariant previewLines == [HeaderLine(headers)] + seq(idx, k requires 0 <= k < idx => RowLine(k, data[k]))
    {
      var row := data[idx];
      var rowData := Join(" | ", seq(|row|, j requires 0 <= j < |row| => PreviewCell(row[j])));
      previewLines := previewLines + ["Row " + NatToDecimal(idx + 1) + ": " + rowData];
    }
    assert previewLines == PreviewLines(data, headers);
    preview := Join("\n", previewLines);
  }

  /** A join holds the character c only if the separator or a part does. */
  lemma {:induction false} JoinAvoids(sep: string, parts: seq<string>, c: char)
    requires c !in sep
    requires forall k :: 0 <= k < |parts| ==> c !in parts[k]
    ensures c !in Join(sep, parts)
  {
    if |parts| > 1 {
      JoinAvoids(sep, parts[1..], c);
    }
  }

  /** No header and no cell text holds a line break. */
  predicate SingleLineContents(data: seq<seq<Cell>>, headers: seq<string>)
  {
    && (forall k :: 0 <= k < |headers| ==> '\n' !in headers[k])
    && (forall i, j :: 0 <= i < |data| && 0 <= j < |data[i]| ==> '\n' !in CellText(data[i][j]))
  }

  lemma RowLineSingle(idx: nat, row: seq<Cell>)
    requires forall j :: 0 <= j < |row| ==> '\n' !in CellText(row[j])
    ensures '\n' !in RowLine(idx, row)
  {
    var cells := seq(|row|, j requires 0 <= j < |row| => PreviewCell(row[j]));
    forall j | 0 <= j < |cells|
      ensures '\n' !in cells[j]
    {
      var t := CellText(row[j]);
      assert forall m :: 0 <= m < |cells[j]| ==> cells[j][m] == t[m];
    }
    JoinAvoids(" | ", cells, '\n');
    var d := NatToDecimal(idx + 1);
    forall m | 0 <= m < |d|
      ensures d[m] != '\n'
    {
      assert IsDigit(d[m]);
    }
  }

  lemma HeaderLineSingle(headers: seq<string>)
    requires forall k :: 0 <= k < |headers| ==> '\n' !in headers[k]
    ensures '\n' !in HeaderLine(headers)
  {
    JoinAvoids(" | ", headers, '\n');
  }

  /** No line of the preview holds a line break when no header or cell does. */
  lemma PreviewLinesSingle(data: seq<seq<Cell>>, headers: seq<string>)
    requires SingleLineContents(data, headers)
    ensures forall k :: 0 <= k < |PreviewLines(data, headers)| ==> '\n' !in PreviewLines(data, headers)[k]
  {
    var lines := PreviewLines(data, headers);
    forall k | 0 <= k < |lines|
      ensures '\n' !in lines[k]
    {
      if k == 0 {
        HeaderLineSingle(headers);
      } else {
        assert lines[k] == RowLine(k - 1, data[k - 1]);
        RowLineSingle(k - 1, data[k - 1]);
      }
    }
  }

  /** The preview lines are the header line, then the row lines in order. */
  lemma PreviewLinesShape(data: seq<seq<Cell>>, headers: seq<string>)
    ensures var lines := PreviewLines(data, headers);
            && lines[0] == HeaderLine(headers)
            && forall k :: 1 <= k < |lines| ==> lines[k] == RowLine(k - 1, data[k - 1])
  {
  }

  /** When no header or cell spans lines, the preview reads back as exactly its
      lines: the header line followed by one line for each of the first
      min(2, rows) data rows. */
  lemma PreviewReadsBack(data: seq<seq<Cell>>, headers: seq<string>)
    requires SingleLineContents(data, headers)
    ensures var lines := Split(Join("\n", PreviewLines(data, headers)), '\n');
            && lines == PreviewLines(data, headers)
            && |lines| == 1 + Min(2, |data|)
            && lines[0] == HeaderLine(headers)
            && forall k :: 1 <= k < |lines| ==> lines[k] == RowLine(k - 1, data[k - 1])
  {
    var lines := PreviewLines(data, headers);
    PreviewLinesShape(data, headers);
    PreviewLinesSingle(data, headers);
    assert "\n" == ['\n'];
    SplitJoin(lines, '\n');
  }
}
