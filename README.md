# Excel multi-table analysis helper, modelled in Dafny

This project models the core of the Excel analysis helper
(`user_agents/excel_analysis_helper.py`). The helper takes a sheet read as an
untyped grid of cells and does four things:

- **Table detection** (`detect_tables_in_sheet`). It finds several tables on one
  sheet:
  - rows that are mostly text become header candidates;
  - each candidate's table ends one row before the first pair of consecutive blank rows after it (see Table end below);
  - the table spans from the first to the last column holding a value;
  - all-missing rows and columns are trimmed away;
  - a trimmed region is accepted when a header and at least one data row remain;
  - accepted tables are numbered `table_1`, `table_2`, ….
- **Text-quality analysis** (`analyze_text_quality`). For one column it reports:
  - the missing count;
  - the accented letters;
  - the special characters;
  - the groups of values that differ only in case or surrounding whitespace;
  - any whitespace anomalies.
- **Table preview** (`create_table_preview`): a header line and the first two
  data rows, with each data cell cut to 50 characters.
- **Export file names**: `<stem>_<sheet with spaces as underscores>_<table id>.csv`.

The modules follow that structure:

| file | module | contents |
|---|---|---|
| `text.dfy` | `Text` | These model Python's `str` behaviour: `Option`, `str.isspace` (its 29 code points), `strip`, decimal rendering of integers, `join`/`split`, slicing `[:n]`, and `in` for substrings. |
| `cells.dfy` | `Cells` | Cells are missing, text, or a number kept as its rendered text. The file also has rows, grids and the blank-row test. |
| `table_detection.dfy` | `TableDetection` | It holds the detection loops as methods: `FindHeaderCandidates`, `FindDataEnd`, `FindNonEmptyColumns`, `ScanCandidate` and `DetectTables`. Each is proved against specification functions, `HeaderCandidates`, `DataEnd`, `RawRegion`, `KeptRows`/`KeptColumns`, `CandidateTable` and `AcceptedHeaderRows`, plus lemmas about those functions. |
| `text_quality.dfy` | `TextQuality` | It has the character, grouping and whitespace loops and `AnalyzeTextQuality`. They are proved against set and map definitions that describe the column directly. |
| `preview.dfy` | `Preview` | `CreateTablePreview`, and the proof that the preview reads back line by line. |
| `export.dfy` | `Export` | The file-name expression, the name loop, and which names can collide. |

The Unicode tables (letter category, `isnumeric`, canonical decomposition, `lower`) are a parameter, `TextQuality.UnicodeData`. Some results assume only that ASCII characters decompose to themselves (`AsciiStable`).

Four behaviours of the code worth knowing:

- **Location letters.** The location string uses `chr(65 + column)`. Columns past Z render as `[`, `\`, … (`TableDetection.ColumnLetterRange`).
- **Missing header cells.** A missing header cell becomes the text `nan` through `astype(str)` (`Cells.CellText`).
- **File-name collisions.** Two sheets can share file names. Sheets "Q1 data" and "Q1_data" write their first tables to the same file, so one export overwrites the other (`Export.SheetNamesCollide`). Within one sheet the names are distinct (`Export.SheetExportNamesDistinct`).
- **Table end.** When a blank pair ends a table, `data_end` also drops the last non-blank row before the pair (`TableDetection.DataEndDropsRowBeforeBlankRun`). So a header with exactly one data row followed by two blank rows never becomes a table (`TableDetection.SingleDataRowLost`).

## Model

| member | source | states |
|---|---|---|
| Text.IsSpace | 523df774/user_agents/excel_analysis_helper.py:143 | A character is whitespace for `str.isspace`/`strip` exactly when it is one of Python's 29 whitespace code points. |
| Text.Strip | 523df774/user_agents/excel_analysis_helper.py:125 | `str.strip()`: the text without its leading and trailing whitespace (as in lines 26, 125 and 143). |
| Text.NatToDecimal | 523df774/user_agents/excel_analysis_helper.py:71 | The decimal digits an f-string prints for a natural number (also lines 73 and 166). |
| Text.Join | 523df774/user_agents/excel_analysis_helper.py:161 | `sep.join(parts)`: the parts with the separator between consecutive ones (also lines 165 and 168). |
| Text.Contains | 523df774/user_agents/excel_analysis_helper.py:145 | `sub in s`: the substring occurs at some position of the text. |
| Text.Split | 523df774/user_agents/test_excel_analyzer.py:42 | `s.split(c)` on one character: the pieces between separators, empty pieces kept, one more piece than separators. |
| Cells.AllMissing | 523df774/user_agents/excel_analysis_helper.py:46 | `row.isna().all()`: every cell of the row is missing. |
| Cells.AllEmptyText | 523df774/user_agents/excel_analysis_helper.py:46 | `(row == '').all()`: every cell of the row is the empty string. |
| TableDetection.IsText | 523df774/user_agents/excel_analysis_helper.py:26 | A cell counts as text when it is a string whose strip is non-empty. |
| TableDetection.HeaderCandidates | 523df774/user_agents/excel_analysis_helper.py:23-30 | `potential_headers`: the indices of the rows passing the header test, in row order. |
| TableDetection.ColumnHasValue | 523df774/user_agents/excel_analysis_helper.py:58 | A column has a value in rows [lo, hi) when some cell there is not missing; an empty string counts. |
| TableDetection.NonEmptyColumns | 523df774/user_agents/excel_analysis_helper.py:55-59 | `non_empty_cols`: the indices of the columns with a value in the rows from the header to the data end, ascending. |
| TableDetection.Extract | 523df774/user_agents/excel_analysis_helper.py:61-67 | A candidate's untrimmed region together with the rows and columns the two `dropna` calls keep, or nothing when it has no region. |
| TableDetection.TableId | 523df774/user_agents/excel_analysis_helper.py:71 | `table_<n>` with n in decimal. |
| TableDetection.ColumnLetter | 523df774/user_agents/excel_analysis_helper.py:73 | `chr(65 + c)`: the character c places after 'A'. |
| TextQuality.IsAccented | 523df774/user_agents/excel_analysis_helper.py:109 | A character is accented when it is a letter and differs from the ASCII part of its canonical decomposition. |
| TextQuality.IsAlnum | 523df774/user_agents/excel_analysis_helper.py:111 | `isalnum` on a character: a letter or a numeric character. |
| TextQuality.TextValues | 523df774/user_agents/excel_analysis_helper.py:98 | `series.dropna().astype(str)`: the text of every present cell, in column order. |
| TextQuality.AccentedIn | 523df774/user_agents/excel_analysis_helper.py:108-110 | The characters of one text that the accent test flags, in order, repeats kept. |
| TextQuality.SpecialIn | 523df774/user_agents/excel_analysis_helper.py:108-112 | The characters of one text that the `elif` adds to `special_chars`: special and not accented. |
| TextQuality.AccentedInAll | 523df774/user_agents/excel_analysis_helper.py:104-110 | `accented_chars`: the accented characters of every text, text after text. |
| TextQuality.SpecialInAll | 523df774/user_agents/excel_analysis_helper.py:105-112 | `special_chars`: the union of the special characters of every text. |
| TextQuality.AddToGroup | 523df774/user_agents/excel_analysis_helper.py:126-130 | One grouping step: the text is appended to its key's list, or opens a new list for that key. |
| TextQuality.GroupTexts | 523df774/user_agents/excel_analysis_helper.py:122-130 | `normalized_texts`: each normalized form mapped to the texts having it, in column order. |
| TextQuality.InconsistentGroups | 523df774/user_agents/excel_analysis_helper.py:132-135 | `inconsistent_cases`: the groups with more than one distinct text, each mapped to its set of distinct texts. |
| TextQuality.WhitespaceIssueList | 523df774/user_agents/excel_analysis_helper.py:141-146 | `whitespace_issues`: the tags of every text, text after text, repeats kept. |
| Cells.CellText | 523df774/user_agents/excel_analysis_helper.py:74 | The text of a cell as `astype(str)` gives it: a missing cell reads `nan`, a text cell its string, a number its rendering. |
| Cells.IsBlankRow | 523df774/user_agents/excel_analysis_helper.py:46 | A row is empty when every cell is missing or every cell is the empty string; a row mixing the two is not. |
| TableDetection.IsHeaderRow | 523df774/user_agents/excel_analysis_helper.py:29 | A row is a header candidate when it has a present cell and text cells make up more than half of its present cells. |
| TableDetection.KeptRows | 523df774/user_agents/excel_analysis_helper.py:67 | The rows of [header row, data end) that keep a present cell inside the region's columns, ascending. |
| TableDetection.KeptColumns | 523df774/user_agents/excel_analysis_helper.py:67 | The region's columns that keep a present cell in one of the kept rows, ascending. |
| TableDetection.Accepts | 523df774/user_agents/excel_analysis_helper.py:69 | A candidate is accepted when it has a region, its trimmed region has a row and a column, and more than one row remains. |
| TableDetection.Location | 523df774/user_agents/excel_analysis_helper.py:73 | The untrimmed region as `<column char><header row + 1>:<column char><data end>`, with the column characters `chr(65 + c)`. |
| TableDetection.BuildTable | 523df774/user_agents/excel_analysis_helper.py:70-78 | The record: id `table_<n>`, sheet name, location, the first chosen row's cells as text for headers, the remaining chosen rows at the chosen columns as data, and their counts. |
| TableDetection.MakeTable | 523df774/user_agents/excel_analysis_helper.py:70-78 | The record of an accepted candidate, built from its untrimmed region and the rows and columns the trim keeps. |
| TableDetection.CandidateTable | 523df774/user_agents/excel_analysis_helper.py:69-79 | A candidate yields its record as the n-th table when accepted, and nothing otherwise. |
| TextQuality.MissingCount | 523df774/user_agents/excel_analysis_helper.py:91 | The number of missing cells in the column. |
| TextQuality.IsSpecialChar | 523df774/user_agents/excel_analysis_helper.py:111 | A character is special when it is neither alphanumeric nor whitespace and is not one of `.,!?`. |
| TextQuality.NormKey | 523df774/user_agents/excel_analysis_helper.py:125 | The normalized form of a text: lower-cased, then stripped of surrounding whitespace. |
| TextQuality.WhitespaceTagsOf | 523df774/user_agents/excel_analysis_helper.py:143-146 | A text contributes the edge tag when it differs from its strip, then the multiple-spaces tag when it contains two adjacent spaces. |
| Preview.HeaderLine | 523df774/user_agents/excel_analysis_helper.py:161 | `HEADERS: ` followed by the header texts, whole, joined by ` | `. |
| Preview.RowLine | 523df774/user_agents/excel_analysis_helper.py:165-166 | `Row <idx + 1>: ` followed by the row's preview cells joined by ` | `. |
| Export.ExportFileName | 523df774/user_agents/excel_analysis_helper.py:182 | The workbook stem, `_`, the sheet name with spaces replaced by underscores, `_`, the table id and `.csv`. |
| TableDetection.NonNullCount | 523df774/user_agents/excel_analysis_helper.py:27 | The number of present cells is at most the row's width. It is zero exactly when every cell is missing. |
| TableDetection.TextCount | 523df774/user_agents/excel_analysis_helper.py:26 | Text cells with non-blank content never outnumber the present cells. |
| TableDetection.HeaderRowByCounts | 523df774/user_agents/excel_analysis_helper.py:26-30 | A row is a header candidate iff twice its text count exceeds its present-cell count. So an all-missing row, or a row exactly half text, never qualifies. |
| TableDetection.FindHeaderCandidates | 523df774/user_agents/excel_analysis_helper.py:23-30 | The candidate list holds exactly the rows passing the header test, in strictly ascending order. |
| TableDetection.FirstBlankPair | 523df774/user_agents/excel_analysis_helper.py:43-52 | It finds the first pair of adjacent blank rows at or after a position. No pair lies before it, and when it finds none, no pair exists. |
| TableDetection.DataEnd | 523df774/user_agents/excel_analysis_helper.py:39-50 | The data end lies between the header row and the grid's length. |
| TableDetection.FindDataEnd | 523df774/user_agents/excel_analysis_helper.py:39-52 | With no blank pair after the header, the end is the grid length. Otherwise, when the first blank pair after the header starts at row p, the end is p - 1. A single blank row does not end the table. |
| TableDetection.SingleDataRowLost | 523df774/user_agents/excel_analysis_helper.py:46-61 | A header followed by exactly one data row and then two blank rows has its data end at the data start, so it has no region and is never accepted. |
| TableDetection.DataEndDropsRowBeforeBlankRun | 523df774/user_agents/excel_analysis_helper.py:46-50 | When a blank pair ends the table, the two rows after the data end are blank. The row at the data end is itself left out, and when it lies past the header row it is not blank (off by one). |
| TableDetection.FindNonEmptyColumns | 523df774/user_agents/excel_analysis_helper.py:55-59 | A column is listed iff some row of the slice has a non-missing cell in it. An empty string counts as a value. |
| TableDetection.RawRegion | 523df774/user_agents/excel_analysis_helper.py:61-63 | A region keeps its header row, ends within the grid, and has colStart <= colEnd < width. |
| TableDetection.RawRegionSpec | 523df774/user_agents/excel_analysis_helper.py:55-63 | A region exists iff the data end is past the row after the header and some column has a value. Its column bounds are then the least and greatest such columns. |
| TableDetection.Project | 523df774/user_agents/excel_analysis_helper.py:66 | The sub-grid has one row per chosen row and one cell per chosen column, equal to the grid's cell there. |
| TableDetection.KeptRowsSpec | 523df774/user_agents/excel_analysis_helper.py:67 | The row trim keeps exactly the rows of [header, data end) with a value inside the region's columns, interior rows included. |
| TableDetection.KeptColumnsSpec | 523df774/user_agents/excel_analysis_helper.py:67 | The column trim keeps exactly the region's columns that have a value in some kept row. |
| TableDetection.HeaderRowFirst | 523df774/user_agents/excel_analysis_helper.py:66-67 | A header row with a value inside the region's columns survives the row trim as its first row. |
| TableDetection.HeaderRowKept | 523df774/user_agents/excel_analysis_helper.py:66-67 | The candidate's header row survives the trim and is the first kept row. |
| TableDetection.FirstColumnKept | 523df774/user_agents/excel_analysis_helper.py:66-67 | The region's first column survives the trim and is the first kept column. |
| TableDetection.KeptRowsHaveValues | 523df774/user_agents/excel_analysis_helper.py:67 | Every kept row has a present cell in some kept column. |
| TableDetection.KeptColumnsHaveValues | 523df774/user_agents/excel_analysis_helper.py:67 | Every kept column has a present cell in some kept row. |
| TableDetection.TableIdInjective | 523df774/user_agents/excel_analysis_helper.py:71 | Different table numbers give different `table_<n>` identifiers. |
| TableDetection.ColumnLetterRange | 523df774/user_agents/excel_analysis_helper.py:73 | `chr(65 + c)` is a letter A–Z exactly for the first 26 columns. Column 26 gives '['. |
| TableDetection.ParseCellPair | 523df774/user_agents/excel_analysis_helper.py:73 | Two column-character-and-digits halves joined by a colon read back as the two characters' columns and the two numbers. |
| TableDetection.LocationRoundTrip | 523df774/user_agents/excel_analysis_helper.py:73 | Parsing the location string gives back the start column, the 1-based header row, the end column and the data end. |
| TableDetection.LocationInjective | 523df774/user_agents/excel_analysis_helper.py:73 | Different regions have different location strings. |
| TableDetection.MakeTableRecord | 523df774/user_agents/excel_analysis_helper.py:69-77 | For an accepted table: `table_<n>`, the sheet name, and the untrimmed location. `rows` = data rows = trimmed rows - 1 >= 1, and `columns` = headers = kept columns >= 1. The headers are the header row's kept cells as text, and each data row is the grid row at the kept columns. |
| TableDetection.MakeTableDataRowsHaveValues | 523df774/user_agents/excel_analysis_helper.py:67-75 | No data row of an accepted table is all missing. |
| TableDetection.MakeTableColumnsHaveValues | 523df774/user_agents/excel_analysis_helper.py:67-77 | No column of an accepted table is all missing in its header and data together. |
| TableDetection.CandidateTableNumbered | 523df774/user_agents/excel_analysis_helper.py:71-72 | A table a candidate yields as the n-th carries `table_<n>` and its sheet's name. |
| TableDetection.Filter | 523df774/user_agents/excel_analysis_helper.py:69-79 | Every selected candidate is one of the given candidates and passes the test. |
| TableDetection.FilterSpec | 523df774/user_agents/excel_analysis_helper.py:37-79 | The selection holds exactly the candidates that pass, ascending whenever the candidates are. |
| TableDetection.CollectSpec | 523df774/user_agents/excel_analysis_helper.py:35-79 | When a candidate's yielding a table depends only on the candidate, the k-th collected table is what the k-th passing candidate yields as number k + 1. |
| TableDetection.CandidateFnYields | 523df774/user_agents/excel_analysis_helper.py:69-79 | A candidate yields a table exactly when it passes the acceptance test, whatever its number. |
| TableDetection.CollectedTables | 523df774/user_agents/excel_analysis_helper.py:35-79 | The tables collected from a sheet's header candidates are one per accepted header row, the k-th being that row's record numbered k + 1. |
| TableDetection.AcceptedHeaderRowsSpec | 523df774/user_agents/excel_analysis_helper.py:23-79 | A row heads a table iff it passes the header test and its trimmed region is accepted. These rows ascend, and a rejected candidate takes no number. |
| TableDetection.ScanCandidate | 523df774/user_agents/excel_analysis_helper.py:37-79 | One pass accepts iff the acceptance test holds. It yields exactly the record that the candidate's specification gives for the current number. |
| TableDetection.DetectTables | 523df774/user_agents/excel_analysis_helper.py:15-81 | There is one table per accepted header row. The k-th table is the record of the k-th accepted row, numbered k + 1. |
| TableDetection.DetectedTablesNumbered | 523df774/user_agents/excel_analysis_helper.py:35-79 | The tables of a sheet are numbered table_1, table_2, … consecutively, and each names the sheet. |
| Text.StripUnchanged | 523df774/user_agents/excel_analysis_helper.py:143 | `strip()` leaves a text unchanged iff it neither starts nor ends with whitespace. |
| Text.DecimalRoundTrip | 523df774/user_agents/excel_analysis_helper.py:73 | The decimal rendering of a number reads back as that number. |
| Text.SplitJoin | 523df774/user_agents/excel_analysis_helper.py:168 | Splitting a newline-join again gives the lines back when no line contains a newline. |
| Text.Truncate | 523df774/user_agents/excel_analysis_helper.py:165 | `[:50]` gives a prefix of at most 50 characters. A shorter text is kept whole. |
| TextQuality.AsciiIgnore | 523df774/user_agents/excel_analysis_helper.py:109 | The ASCII fold yields only ASCII characters and leaves an all-ASCII text unchanged. |
| TextQuality.AccentedIsNonAsciiLetter | 523df774/user_agents/excel_analysis_helper.py:109 | Under ASCII-stable tables, the accent test flags exactly non-ASCII letters. That includes Greek, Cyrillic and CJK letters, not only accented Latin ones. |
| TextQuality.TextValuesCount | 523df774/user_agents/excel_analysis_helper.py:91-98 | The missing count plus the number of analysed values is the column length. |
| TextQuality.TextValuesSpec | 523df774/user_agents/excel_analysis_helper.py:98 | The analysed values are exactly the texts of the present cells. |
| TextQuality.ScanCharacters | 523df774/user_agents/excel_analysis_helper.py:104-112 | The nested loop builds the accented-character list and the special-character set of the column. |
| TextQuality.AccentedInSpec | 523df774/user_agents/excel_analysis_helper.py:108-110 | A character is collected from a text iff it occurs there and is accented. |
| TextQuality.SpecialInSpec | 523df774/user_agents/excel_analysis_helper.py:108-112 | A character is collected as special iff it occurs and is special. The `elif` never hides one, because accented characters are letters. |
| TextQuality.AccentedInAllSpec | 523df774/user_agents/excel_analysis_helper.py:107-110 | The accented list holds exactly the accented characters occurring anywhere in the column. |
| TextQuality.SpecialInAllSpec | 523df774/user_agents/excel_analysis_helper.py:107-112 | The special set is exactly the column's non-alphanumeric, non-whitespace characters outside ".,!?". |
| TextQuality.ScanCharactersSets | 523df774/user_agents/excel_analysis_helper.py:104-118 | Deduplicated, the loop results are the two sets the report holds. |
| TextQuality.AccentsAndSpecialsDisjoint | 523df774/user_agents/excel_analysis_helper.py:109-112 | No character is reported both as an accent and as special. |
| TextQuality.AccentsAreNonAsciiLetters | 523df774/user_agents/excel_analysis_helper.py:109-110 | Under ASCII-stable tables, the accents found are exactly the non-ASCII letters of the column. |
| TextQuality.TextsWithKeySpec | 523df774/user_agents/excel_analysis_helper.py:124-130 | A text is filed under key k iff it is in the column and its lower-then-strip form is k. |
| TextQuality.GroupTextsSpec | 523df774/user_agents/excel_analysis_helper.py:122-130 | A normalized form is a key iff some text has it. Its list is those texts in column order, repeats kept. |
| TextQuality.GroupTextsStep | 523df774/user_agents/excel_analysis_helper.py:126-130 | One more text appends to its key's list, or opens the list when the key is new. |
| TextQuality.GroupByNormalizedText | 523df774/user_agents/excel_analysis_helper.py:122-130 | The grouping loop builds the `normalized_texts` dictionary. |
| TextQuality.InconsistentCases | 523df774/user_agents/excel_analysis_helper.py:132-135 | The selection loop keeps exactly the groups with more than one distinct text, each as its set of distinct texts. |
| TextQuality.GroupKeys | 523df774/user_agents/excel_analysis_helper.py:122-130 | The grouping's keys are exactly the normalized forms occurring in the column. |
| TextQuality.GroupVariants | 523df774/user_agents/excel_analysis_helper.py:133-135 | The distinct texts under a key are the column's texts with that form. |
| TextQuality.GroupedInconsistency | 523df774/user_agents/excel_analysis_helper.py:121-138 | Grouping then selecting yields the case-inconsistency map defined directly on the column. |
| TextQuality.CaseInconsistencySpec | 523df774/user_agents/excel_analysis_helper.py:121-138 | A form is reported iff two different texts share it. It maps to exactly the texts having it, so "Apple", "apple" and "APPLE" report "apple" and a lone "Banana" reports nothing. |
| TextQuality.LeadingTagSpec | 523df774/user_agents/excel_analysis_helper.py:142-144 | `leading_trailing_spaces` is appended iff some text differs from its strip. |
| TextQuality.MultipleTagSpec | 523df774/user_agents/excel_analysis_helper.py:142-146 | `multiple_spaces` is appended iff some text contains two adjacent spaces. |
| TextQuality.WhitespaceIssues | 523df774/user_agents/excel_analysis_helper.py:141-146 | The whitespace loop builds the tag list. |
| TextQuality.EdgeSpaceIffStripChanges | 523df774/user_agents/excel_analysis_helper.py:143 | "Some text differs from its strip" is the same as "some text starts or ends with whitespace". |
| TextQuality.WhitespaceIssueListSpec | 523df774/user_agents/excel_analysis_helper.py:141-149 | A tag is in the list iff the column shows that issue, as stated on the texts' edges and contents. |
| TextQuality.EmptyColumnNoIssues | 523df774/user_agents/excel_analysis_helper.py:100-101 | A column with no present value has no issue of any kind. |
| TextQuality.ReportEntries | 523df774/user_agents/excel_analysis_helper.py:114-149 | The lists and sets the loops build are the report's sets. They are empty exactly when the corresponding issue does not occur. |
| TextQuality.AnalyzeTextQuality | 523df774/user_agents/excel_analysis_helper.py:84-151 | The report has the column name and the number of missing cells. Each issue entry is present iff that issue occurs and holds everything that shows it. |
| Preview.PreviewCell | 523df774/user_agents/excel_analysis_helper.py:165 | A missing cell shows as "". Any other cell shows a prefix of at most 50 characters of its text, the whole text when it fits. |
| Preview.PreviewLines | 523df774/user_agents/excel_analysis_helper.py:158-166 | The preview lines are one header line plus one line for each of the first min(2, rows) rows. |
| Preview.CreateTablePreview | 523df774/user_agents/excel_analysis_helper.py:154-168 | The preview is the newline-join of the header line and one numbered line per sampled row. |
| Preview.RowLineSingle | 523df774/user_agents/excel_analysis_helper.py:165-166 | A row line spans one line when none of its cells holds a newline. |
| Preview.PreviewReadsBack | 523df774/user_agents/excel_analysis_helper.py:161-168 | Without line breaks in the contents, the preview splits into the header line and min(2, rows) row lines, in order. |
| Export.ReplaceSpaces | 523df774/user_agents/excel_analysis_helper.py:180 | It keeps the length, turns every space into an underscore, and changes nothing else. |
| Export.ExportFileNames | 523df774/user_agents/excel_analysis_helper.py:177-182 | There is one name per table, each built from the stem, the table's sheet and its identifier. |
| Export.ExportFileNameShape | 523df774/user_agents/excel_analysis_helper.py:179-182 | A name starts with the stem and "_" and ends in ".csv". The sheet part has no spaces. |
| Export.ExportFileNameDistinct | 523df774/user_agents/excel_analysis_helper.py:178-182 | For one workbook and sheet, different table numbers give different file names. |
| Export.SheetExportNamesDistinct | 523df774/user_agents/excel_analysis_helper.py:178-182 | The tables detected on one sheet are written to pairwise different files. |
| Export.SheetNamesCollide | 523df774/user_agents/excel_analysis_helper.py:180-182 | Two different sheet names that differ only in a space against an underscore (such as "Q1 data" and "Q1_data") give tables with the same identifier the same file name. |

## Left out

- Reading the workbook (`pd.read_excel`, line 207), writing CSV files (`to_csv`, line 190) and printing JSON (line 272) are I/O. The sheet arrives as a grid, and the export is modelled only as far as the file names.
- Row labels are taken to be positions 0, 1, …. That is what `read_excel(header=None)` gives, so `iterrows` labels and `iloc` positions agree.
- The `analyze_excel_file` orchestration (lines 199–265) is dictionary plumbing around the core. Two things about it are not modelled:
  - quality reports are keyed by header text (line 246), so duplicate headers overwrite each other;
  - `csv_file` is patched into the table dictionaries afterwards (lines 194, 263).
- Export.ExportFileNames: the output directory join and the returned `str(csv_path)` (lines 183, 191) are file-system paths, so the method returns the bare file names that line 194 records.
- The missing-value percentage string (line 92) is left out. It uses float division and `.1f` formatting, and an empty column gives NaN.
- TableDetection.IsHeaderRow: the text ratio is exact rational arithmetic, where the source compares a float. For any realistic row width the two agree.
- The Unicode tables are a parameter, not a concrete table: general category L, `isnumeric`, NFD and `lower` (`TextQuality.UnicodeData`). Whitespace is written out exactly.
- The order of `list(set(...))` is unspecified in the source, so those lists are modelled as sets.
- `normalized_texts` and `inconsistent_cases` (lines 122-135) list their keys in the order each normalized form first appears in the column. The model keeps them as maps, which drops that key order; the texts under each key keep their column order in `GroupTexts`.
- Numbers in cells are opaque: only the text `str()` gives them is kept (`Cells.Num`).
- The `case_variations` set (lines 121, 127) is built but never read, so it is not modelled.
- The unused `current_table_start` and loop index `i` (lines 34, 37) are not modelled.
- Location strings are modelled for sheets of at most 16,384 columns, Excel's column limit (`TableDetection.MaxColumns`).
- The repository's test scripts are not part of this model. They make no assertions and need a real workbook or the `claude_sync_extended` module.
