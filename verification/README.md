# excel-group: the grouped export, modelled in Dafny

excel-group splits one spreadsheet into several. The caller names a group
column. The exporter writes one workbook per distinct value of that column
and packs the workbooks into one zip archive. Each workbook holds the header
row and the rows carrying that value. Its name is the value's text, reduced
to letters, digits, spaces, `_` and `-`, followed by `.xlsx`. Each column is
as wide as its longest cell or header text, plus two. Any failure aborts the
whole export with one error, `Error processing file: <cause>`, and no
archive is produced.

The model is a set of pure functions over an immutable table:

- `results.dfy` (`Results`): `Option` and `Result`.
- `cells.dfy` (`Cells`): tagged cell values and their display text. A blank
  cell displays as `nan`. An `Other` cell is a value the spreadsheet writer
  refuses; it carries the error message the writer raises.
- `grouping.dfy` (`Grouping`): generic grouping of rows by a parallel key
  sequence.
  - `Distinct`: what `unique()` gives.
  - `Select`: the boolean-mask filter.
  - `Positions`: the same filter on row indices.
  - `UniqueValues`: the hash-set scan that computes `Distinct`.
  - Partition lemmas.
- `sheet.dfy` (`Sheet`): the table, column lookup, and the groups of one key
  column.
- `names.dfy` (`Names`): the sanitised entry name.
- `widths.dfy` (`Widths`): the column-width rule, as a definition and as a
  loop.
- `exporter.dfy` (`Exporter`): one workbook per group, the archive, the
  error wrapping, and the end-to-end export `ProcessExcelFile`.
- `scenarios.dfy` (`Scenarios`): worked examples, on tables described by
  their key column and their refused cells.

The archive is modelled as the sequence of entries in the order they are
written. Each entry holds its name, header, rows and column widths; the
bytes of the workbook and of the zip container are not modelled.

## Model

| member | source | states |
|---|---|---|
| Grouping.Select | utils.py:30 | The filtered group is no longer than the table and holds only rows of the table |
| Grouping.Distinct | utils.py:26 | The distinct key list has no duplicates, contains a value exactly when the key column does, and is no longer than the column |
| Grouping.DistinctInFirstOccurrenceOrder | utils.py:26 | The distinct values appear in the order of their first occurrence in the key column |
| Grouping.DistinctUnique | utils.py:26 | Any list that has no duplicates, holds exactly the column's values and follows first-occurrence order is the distinct list, so these properties pin down `unique()` |
| Grouping.DistinctAppend | utils.py:26 | The one-step case of the definition of the distinct list: one more key is appended exactly when it has not been seen before |
| Grouping.UniqueValues | utils.py:26 | The single pass with a set of seen values returns the distinct list |
| Grouping.Positions | utils.py:30 | The matching row indices are strictly increasing and are exactly the indices whose key equals the value |
| Grouping.SelectIsPick | utils.py:30 | The filtered group is exactly the rows at the matching indices, in table order |
| Grouping.SelectContains | utils.py:30 | Every row lies in the group of its own key |
| Grouping.SelectEmptyIff | utils.py:30 | A group is empty exactly when its value does not occur in the key column |
| Grouping.SelectSizeIsCount | utils.py:30 | A group has as many rows as its value has occurrences in the key column |
| Grouping.PositionsAreSelectedIndices | utils.py:30 | The matching indices are the filter applied to the row numbers |
| Grouping.GroupsPartitionRows | utils.py:26-30 | The groups of the distinct values, taken in order, hold every row exactly as many times as the table does |
| Grouping.GroupSizesSumToRowCount | utils.py:26-30 | The group sizes add up to the number of rows |
| Grouping.EachIndexInExactlyOneGroup | utils.py:26-30 | Every row index belongs to the group of exactly one distinct value |
| Grouping.IndicesPartitioned | utils.py:26-30 | Every row index occurs exactly once across all groups |
| Grouping.GroupsNonEmpty | utils.py:26-30 | Every group of a value taken from the column is non-empty |
| Sheet.ColumnIndex | utils.py:26 | The column lookup fails exactly when the name is not in the header; otherwise it yields the first column with that name |
| Sheet.KeyColumn | utils.py:26 | The key column has one cell per row, the cell of that row in the group column |
| Sheet.GroupValues | utils.py:26 | The values `unique()` yields for the group column have no duplicates, are no more than the rows, and are absent exactly when the table has no rows |
| Sheet.GroupRows | utils.py:30 | A group taken with the mask is never larger than the table |
| Sheet.GroupSizeIsCount | utils.py:30 | A group has one row per occurrence of its value in the key column, and is empty exactly when the value does not occur |
| Sheet.GroupValuesCoverKeys | utils.py:26 | The table's group values have no duplicates, include the key of every row, and include nothing else |
| Sheet.GroupValuesInTableOrder | utils.py:26 | The table's group values follow the order in which each first appears in the key column |
| Sheet.GroupRowsAreMatchingRows | utils.py:30 | A group is the table's rows at the increasing positions of its value |
| Sheet.GroupHoldsMatchingRow | utils.py:30 | Each row of the table is in the group of its key cell |
| Sheet.GroupRowsComeFromTable | utils.py:30 | Each row of a group is a row of the table, has the table's width, and carries the group's value in the key column |
| Sheet.GroupsPartitionTable | utils.py:26-30 | The groups of a table partition its rows and none of them is empty |
| Cells.IntToString | utils.py:33 | The text of an integer is canonical decimal: digits with no leading zero unless the text is `0`, preceded by `-` exactly when the integer is negative, and never `-0` |
| Cells.IntTextUnique | utils.py:33 | Any canonical decimal text that reads back as an integer is that integer's text, so canonical form and value pin the text down |
| Cells.IntToStringValue | utils.py:33 | Reading the decimal text of an integer back gives the integer |
| Cells.IntToStringInjective | utils.py:33 | Two integers have the same text exactly when they are equal |
| Cells.Render | utils.py:33 | A text cell displays as itself, an integer as canonical decimal text that reads back as the integer (by `IntTextUnique`, exactly `str()` of it), a boolean as `True` or `False`, and a blank as `nan` |
| Names.Sanitize | utils.py:35 | The cleaned text holds only letters, digits, spaces, `_` and `-`, and is no longer than the input |
| Names.SanitizeIsSubsequence | utils.py:35 | The cleaned text is the input with some characters deleted, the rest in their original order |
| Names.SanitizeKeepsExactlyAllowed | utils.py:35 | Every allowed character is kept as often as it occurs, and no other character survives |
| Names.SanitizeFixedPoints | utils.py:35 | A text is left unchanged by cleaning exactly when all its characters are allowed |
| Names.SanitizeIdempotent | utils.py:35 | Cleaning twice gives the same text as cleaning once |
| Names.SanitizeConcat | utils.py:35 | Cleaning distributes over concatenation |
| Names.SanitizeDropsAll | utils.py:35 | A text with no allowed character cleans to the empty name |
| Names.SanitizeRuns | utils.py:35 | Runs of allowed characters are kept and runs of other characters are dropped |
| Names.EntryName | utils.py:33-36 | An entry name ends in `.xlsx`, and the part before it holds only allowed characters |
| Names.SameNameIffSameSanitizedText | utils.py:33-36 | Two keys get the same entry name exactly when their cleaned texts agree |
| Names.IntegerKeyNameIsItsText | utils.py:33-36 | An integer key keeps its whole decimal text, minus sign included, so the name's stem reads back as the key |
| Names.SlashAndAsteriskStripped | utils.py:33-36 | The key `North/East*2023` gets the name `NorthEast2023.xlsx` |
| Names.DistinctKeysMayShareAName | utils.py:33-36 | Different keys can share one entry name (`A/B` and `AB`), so names are not unique |
| Widths.MaxCellLength | utils.py:53-54 | The longest cell text of a column bounds every cell, is attained by some cell, and is 0 when there are no rows |
| Widths.ColumnWidth | utils.py:53-57 | A column's width is at least the header length plus 2 and at least every cell length plus 2, and it equals one of these |
| Widths.ColumnWidths | utils.py:50-57 | There is one width per column, and each is that column's width |
| Widths.ColumnWidthUnique | utils.py:53-57 | Any width with those three properties is the column width |
| Widths.LongestCell | utils.py:53-54 | The scan over a column returns a length no cell exceeds, attained by some cell unless it is 0 |
| Widths.ComputeWidths | utils.py:50-57 | The column loop computes one width per column, and each equals the defined column width |
| Exporter.RowError | utils.py:42-44 | Writing a row fails exactly when it holds a refused cell, and the error is the message of one such cell |
| Exporter.WriteError | utils.py:42-44 | Writing a group fails exactly when it holds a refused cell, and the error is the message of one such cell |
| Exporter.WriteWorkbook | utils.py:39-67 | A group is written exactly when no cell is refused, giving the sanitised name, the header, the group's rows and the column widths; otherwise the writer's error is returned |
| Exporter.EntryFor | utils.py:33-57 | The entry written for a value has one width per header column, and every row it holds is as wide as the header |
| Exporter.WriteEntries | utils.py:28-71 | Writing the groups succeeds exactly when no group holds a refused cell, giving one entry per value in order. A failure carries the error of the first group that holds a refused cell; every group before it is writable |
| Exporter.UnwritableTableIffUnwritableGroup | utils.py:26-44 | The table holds a refused cell exactly when some group does |
| Exporter.ProcessExcelFile | utils.py:7-78 | The export succeeds exactly when the group column exists and no cell is refused. Every error starts with `Error processing file: `. A missing column gives the wrapped key error `'<column>'`; otherwise a failure wraps the message of a refused cell, and that cell lies in the first group, in first-occurrence order, that holds one. On success there is one well-formed entry per distinct value, in first-occurrence order |
| Exporter.ExportFollowsGroupValues | utils.py:26-36 | On success there is one entry per distinct value, in first-occurrence order, named after its value and carrying the table's header |
| Exporter.ExportEntriesMatchTheirKey | utils.py:26-30 | On success every entry holds at least one row, and each of its rows carries the entry's key value |
| Exporter.ArchiveRows | utils.py:28-71 | The rows of an archive are exactly the rows of its entries |
| Exporter.ExportPartitionsTable | utils.py:26-71 | On success the entries together hold every row of the table exactly once |
| Exporter.EmptyTableGivesEmptyArchive | utils.py:26-28 | A table without rows gives an archive without entries |
| Scenarios.RegionGroups | utils.py:26-30 | A key column reading A, B, A, B, A gives the groups A then B, of three and two rows |
| Scenarios.RegionScenario | utils.py:26-36 | Exporting a table whose Region column, at any position, reads A, B, A, B, A gives `A.xlsx` with three rows, then `B.xlsx` with two |
| Scenarios.SingleRowScenario | utils.py:26-71 | A one-row table gives a single entry holding that row under the header |
| Scenarios.OnlyRefusedCellIsReported | utils.py:77-78 | When exactly one cell is refused, the export fails with `Error processing file: ` followed by that cell's error, whichever group holds it |
| Scenarios.MissingColumnAborts | utils.py:77-78 | A missing group column aborts with `Error processing file: 'Region'` |

## Left out

- The upload page, the preview and the download button (`main.py`) are not
  modelled. Its check for an empty upload (main.py:105-107) needs no
  counterpart: the model handles an empty table and yields an empty archive.
- Reading the spreadsheet file, writing workbook bytes through the
  spreadsheet engine, and the zip container and its compression are left
  out. An entry records its name, header, rows and widths instead of bytes.
- The header styling is cosmetic and changes no cell value, so it is left
  out. This covers the `Headline 1` style, the bold font and the `F0F2F6`
  fill.
- Missing-value semantics are not modelled. Keys are compared structurally,
  so blank keys form one group. In pandas a blank key is `NaN`, which
  `unique()` lists but which equals nothing. Its group would then be empty,
  and rows with a blank key would land in no workbook.
- Floating-point and date cells are not modelled. Their text rendering is
  library-defined. Cells are text, integers, booleans, blanks and refused
  values.
- Keys are compared structurally. In Python `1 == True` and `0 == False`, so
  `unique()` and the mask put an integer 1 and a boolean true in one group,
  and likewise 0 and false. The model keeps them apart: a key column
  holding `Integer(1)` and `Boolean(true)` gives two entries in the model
  and one in the program. Mixed integer and boolean columns are rare in
  spreadsheets.
- Cells.Render: an integer renders as plain decimal text, such as `5`.
  When a column holds only integers and blanks, pandas reads it as floating
  point. Its integers then render as `5.0`, which changes both entry names
  and column widths: the key 1 gives `10.xlsx` rather than `1.xlsx`.
  Floating-point rendering is not modelled.
- A missing group column raises a key error at utils.py:26, which is
  wrapped like any other failure.
- Cells.Writable: every `Text`, `Integer`, `Boolean` and blank cell is
  writable. The spreadsheet writer also refuses a text holding a control
  character (`\x00`-`\x08`, `\x0b`, `\x0c`, `\x0e`-`\x1f`). Such a text
  must be given to the model as an `Other` cell carrying the writer's
  message; a `Text` cell holding one is exported, where the program fails.
- Names.IsAlnum: ASCII letters and digits only. Python's `str.isalnum` also
  accepts other Unicode letters and digits, which the model strips.
- Exporter.ProcessExcelFile: the failure contract names the first group,
  in first-occurrence order, that holds a refused cell. It does not say
  which refused cell of that group is reported. Which cell the writer meets
  first is up to the spreadsheet library. The model reports the first
  refused cell of the group in row order.
- Exporter.ProcessExcelFile: a missing column is quoted as `'<column>'`
  without Python's `repr` escaping of quotes and backslashes.
- Failures other than a missing column and a refused cell are not modelled,
  for example out-of-memory or I/O errors inside the zip writer. Their
  wrapping is the same `Error processing file: ` prefix.
- Duplicate entry names are kept. The zip writer appends a second entry with
  the same name rather than replacing the first, so the model keeps both
  entries in order. It makes no promise that names are unique; see
  `Names.DistinctKeysMayShareAName`.
- Duplicate column names: pandas renames them on read, while the model
  picks the first header match.
- Widths.MaxCellLength, Widths.LongestCell, Widths.ColumnWidth: for a
  column without rows the longest cell is 0 and the width is the header
  length plus 2, where pandas gives `NaN` for both. In the model this case
  never arises, because every group is non-empty (`Grouping.GroupsNonEmpty`).
  In the program it arises for the empty group of a blank key, whose widths
  become `NaN`; this belongs to the missing-value semantics left out above.
- Names.SlashAndAsteriskStripped: takes the key as a parameter equal to
  `North/East*2023`, rather than being stated on the literal.
- Concurrency, timeouts and cancellation are not modelled. The export is
  one synchronous call.
