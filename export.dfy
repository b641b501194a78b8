/** The CSV file name each detected table is written to
    (f"{base_name}_{sheet_name}_{table_id}.csv" in `convert_tables_to_csv`). */
module Export {
  import opened Text
  import opened TableDetection

  /** `s.replace(' ', '_')`: every space becomes an underscore, nothing else changes. */
  function ReplaceSpaces(s: string): (r: string)
    ensures |r| == |s|
    ensures forall i :: 0 <= i < |s| ==> r[i] == (if s[i] == ' ' then '_' else s[i])
  {
    if s == [] then [] else [if s[0] == ' ' then '_' else s[0]] + ReplaceSpaces(s[1..])
  }

  /** The file name for a table, from the workbook's file stem, the table's sheet
      name and its identifier. */
  function ExportFileName(stem: string, sheetName: string, tableId: string): string
  {
    stem + "_" + ReplaceSpaces(sheetName) + "_" + tableId + ".csv"
  }

  /** The loop of `convert_tables_to_csv` as far as names go: the `csv_file`
      name each table receives, in table order. */
  method ExportFileNames(stem: string, tables: seq<Table>) returns (csvFileNames: seq<string>)
    ensures |csvFileNames| == |tables|
    ensures forall k :: 0 <= k < |tables| ==>
              csvFileNames[k] == ExportFileName(stem, tables[k].sheetName, tables[k].tableId)
  {
    csvFileNames := [];
    for k := 0 to |tables|
      invariant |csvFileNames| == k
      invariant forall j :: 0 <= j < k ==>
                  csvFileNames[j] == ExportFileName(stem, tables[j].sheetName, tables[j].tableId)
    {
      var table := tables[k];
      var baseName := stem;
      var sheetName := ReplaceSpaces(table.sheetName);
      var tableId := table.tableId;
      var csvFilename := baseName + "_" + sheetName + "_" + tableId + ".csv";
      csvFileNames := csvFileNames + [csvFilename];
    }
  }

  /** The name ends in ".csv", starts with the stem and an underscore, and its
      sheet part holds no space. */
  lemma ExportFileNameShape(stem: string, sheetName: string, tableId: string)
    ensures var f := ExportFileName(stem, sheetName, tableId);
            && f[..|stem| + 1] == stem + "_"
            && f[|f| - 4..] == ".csv"
            && ' ' !in f[|stem| + 1..|stem| + 1 + |sheetName|]
  {
    var f := ExportFileName(stem, sheetName, tableId);
    var r := ReplaceSpaces(sheetName);
    assert f == (stem + "_") + r + ("_" + tableId + ".csv");
    assert f[|stem| + 1..|stem| + 1 + |sheetName|] == r;
  }

  /** For one workbook and sheet, different table numbers give different file names. */
  lemma ExportFileNameDistinct(stem: string, sheetName: string, m: nat, n: nat)
    requires ExportFileName(stem, sheetName, TableId(m)) == ExportFileName(stem, sheetName, TableId(n))
    ensures m == n
  {
    var p := stem + "_" + ReplaceSpaces(sheetName) + "_";
    var a := TableId(m);
    var b := TableId(n);
    assert ExportFileName(stem, sheetName, a) == p + (a + ".csv");
    assert ExportFileName(stem, sheetName, b) == p + (b + ".csv");
    assert (p + (a + ".csv"))[|p|..] == a + ".csv";
    assert (p + (b + ".csv"))[|p|..] == b + ".csv";
    assert |a| == |b|;
    assert a == (a + ".csv")[..|a|];
    assert b == (b + ".csv")[..|b|];
    TableIdInjective(m, n);
  }

  /** The tables of one sheet, numbered 1, 2, ... by the detection, are written
      to pairwise different files. */
  lemma SheetExportNamesDistinct(stem: string, sheetName: string, tables: seq<Table>, j: nat, k: nat)
    requires forall i :: 0 <= i < |tables| ==> tables[i].tableId == TableId(i + 1) && tables[i].sheetName == sheetName
    requires j < k < |tables|
    ensures ExportFileName(stem, tables[j].sheetName, tables[j].tableId)
              != ExportFileName(stem, tables[k].sheetName, tables[k].tableId)
  {
    if ExportFileName(stem, sheetName, TableId(j + 1)) == ExportFileName(stem, sheetName, TableId(k + 1)) {
      ExportFileNameDistinct(stem, sheetName, j + 1, k + 1);
    }
  }

  /** Names are not unique across sheets: two sheets whose names differ only in
      a space against an underscore ("Q1 data" and "Q1_data") write their
      tables with the same number to the same file, so the later export
      overwrites the earlier one. */
  lemma SheetNamesCollide(stem: string, x: string, y: string, tableId: string)
    ensures x + " " + y != x + "_" + y
    ensures ExportFileName(stem, x + " " + y, tableId) == ExportFileName(stem, x + "_" + y, tableId)
  {
    var spaced := x + " " + y;
    var underscored := x + "_" + y;
    assert spaced[|x|] != underscored[|x|];
    var a := ReplaceSpaces(spaced);
    var b := ReplaceSpaces(underscored);
    forall i | 0 <= i < |a|
      ensures a[i] == b[i]
    {
      if i != |x| {
        assert spaced[i] == underscored[i];
      }
    }
    assert a == b;
  }
}
