# DayZ mod list reports, modelled in Dafny

This project models the core of the DayZ mod list tool, which lives in
`utils/file_handler.py`. The tool finds the mods in a DayZ mods folder; each
mod is a subdirectory whose name usually starts with `@`. It marks every
mod "New" or "Unchanged" against the mod names read back from the previous
spreadsheet report. It then writes the list three ways:

- an Excel workbook: one sheet "Mods", columns chosen by flags, the columns
  auto-sized, and, when colouring is on, every data cell whose value is
  "New" or "Unchanged" coloured, in whatever column it stands;
- an HTML page rendered from a template;
- a Markdown table with a fixed three-column header.

The spreadsheet and Markdown writers also report how many mods were added,
removed and unchanged.

Modules, one per part of the program:

- `ModStatus` (status.dfy): the status rule (`mod in previous_mods`) and
  counting by status. No "Removed" status exists, and the removed counter
  stays 0.
- `ReportColumns` (columns.dfy): the three columns, their keys, header labels
  and cells. Also the two ways a writer reads the column map, reduced to one
  boolean per column:
  - `ByFlag` is `columns.get(key, False)` for all three keys, used by the
    spreadsheet writer (the Markdown writer reads only the version flag,
    through `Flag(columns, "mod_version")`);
  - `ByPresence` is `key in columns`, used by the HTML template.

  Also here: the header and data rows built by appending the shown columns in
  the fixed order.
- `ModEnumerator` (mod_names.dfy): `get_mod_names`, a loop over a directory
  listing that keeps the entries whose joined path is a directory.
- `ExcelWriter` (excel_writer.dfy): `write_mod_list_to_excel`. It covers the
  header block (three conditional appends), the row loop with its counters,
  the width loop (longest text in a column plus 2), and the fill loop (rows
  after the header; a cell's fill depends only on its value).
- `HtmlWriter` (html_writer.dfy): the table that the template of
  `write_mod_list_to_html` fills in.
- `MarkdownWriter` (markdown_writer.dfy): `write_mod_list_to_markdown`, which
  accumulates the text line by line and counts every mod.
- `ReportAgreement` (report_agreement.dfy): how the three reports relate.

Each loop of the enumerator and of the three writers is a `method` with a
loop. The method is proved against a specification function:
`Subdirectories`, `Header`, `Rows`, `MarkdownLines`, `CountStatus`, or the
width and fill predicates. Lemmas then prove the properties of those
functions. Two loops are exceptions, each modelled by a recursive function:
- the HTML template's `{% for mod in mod_names %}`, which is not Python code
  that updates state, is `Rows` inside `RenderTable`;
- the read-back loop of the previous report (utils/file_handler.py:29-30),
  whose reader is otherwise not modelled, is `FirstCells`.

## Model

| member | source | states |
|---|---|---|
| ModEnumerator.GetModNames | utils/file_handler.py:13-20 | The enumerator loop returns exactly the listing's directory entries, in listing order, by their bare names. |
| ModEnumerator.SubdirectoryPositions | utils/file_handler.py:15-20 | The result is an order-preserving subsequence of the listing: each name is the entry at a strictly increasing position, and a position is used exactly when its joined path is a directory. |
| ModEnumerator.SubdirectoryMembership | utils/file_handler.py:16-19 | A name is returned if and only if it is in the listing and its joined path is a directory, so files are never returned. |
| ModStatus.CountStatusIsNumberOfPositions | utils/file_handler.py:54-71 | The running count of one status equals the number of list positions whose mod has that status; duplicates count once per position. |
| ModStatus.CountsPartition | utils/file_handler.py:145-155 | Each mod is either New or Unchanged, so the added and unchanged counters add up to the number of mods. |
| ModStatus.AllRecordedAllUnchanged | utils/file_handler.py:66-71 | When every mod occurs in the previous list, all are counted Unchanged and none New. |
| ModStatus.NoPreviousAllNew | utils/file_handler.py:24-35 | With no previous list (the file is missing or unreadable), every mod is New and none is Unchanged. |
| ReportColumns.FlagImpliesPresence | utils/file_handler.py:45-50 | A column shown by flag is also shown by presence. A column is shown by presence but not by flag exactly when its key is present and mapped to false. |
| ReportColumns.ChosenInFixedOrder | utils/file_handler.py:44-50 | The shown columns are exactly those that pass the test, one entry per shown column, in the fixed order name, version, status. |
| ReportColumns.HeaderShape | utils/file_handler.py:44-50 | The header is "Mod Name", "Version", "Status", each included only when its column is shown, in that order. |
| ReportColumns.RowShape | utils/file_handler.py:60-71 | A data row is the mod name, "Unknown Version", and the status label, each included only when its column is shown, in that order. |
| ReportColumns.HeaderLabelsExactly | utils/file_handler.py:114-116 | The header has one entry per shown column and contains a column's label if and only if the column is shown. |
| ReportColumns.HeaderNamesColumns | utils/file_handler.py:44-50 | A header contains a column's label if and only if the column is among the header's columns. |
| ReportColumns.RowMatchesHeader | utils/file_handler.py:59-72 | A row is as long as its header. The cell under "Mod Name" is the mod name verbatim, the cell under "Version" is "Unknown Version", and the cell under "Status" is the mod's status. |
| ReportColumns.HeaderRowAt | utils/file_handler.py:59-72 | Entry j of a header is the label of column j, and entry j of a row is that column's value for the mod. |
| ReportColumns.RowsAt | utils/file_handler.py:59-72 | There is one data row per mod, and row i is the row of mod i. |
| ReportColumns.StatusIsLastColumn | utils/file_handler.py:65-71 | When the status column is shown, it is the last column, and every row ends with the mod's status. |
| ExcelWriter.HeaderCells | utils/file_handler.py:44-50 | The header block yields the labels of the columns whose flag is true, in the fixed order. |
| ExcelWriter.ModRow | utils/file_handler.py:60-71 | One turn of the row loop yields the mod's row. It adds one to the unchanged or the added counter, according to membership, only when the status flag is true. |
| ExcelWriter.BuildTable | utils/file_handler.py:44-72 | The sheet is the header followed by one row per mod, in order, and the removed counter is 0. With the status flag on, the counters are the counts by status and sum to the number of mods. With the flag off, both are 0. |
| ExcelWriter.MaxRowLength | utils/file_handler.py:75 | The number of used columns is at least every row's length, and is 0 or attained by some row. |
| ExcelWriter.ColumnWidths | utils/file_handler.py:75-85 | There is one width per used column, and at least one column. Each width is at least 2, is at least every text in its column plus 2, and is attained by some cell's text plus 2 (or is exactly 2). |
| ExcelWriter.ColourFills | utils/file_handler.py:88-94 | With colouring on, a cell below the header is green if and only if its value is "New", and gray if and only if its value is "Unchanged", in any column. The header row is never filled, and with colouring off no cell is. |
| ExcelWriter.StatusCellOfRow | utils/file_handler.py:65-71 | With the status column on, the last cell of data row i is mod i's status. With colouring also on, that cell's fill is gray exactly when the mod was in the previous list and green otherwise; with colouring off it has no fill (see WriteModListToExcel). |
| ExcelWriter.WriteModListToExcel | utils/file_handler.py:37-101 | The result is a sheet titled "Mods" holding the header and rows, the column widths, the fills (the value's fill below the header when colouring is on, otherwise none), and the counters as in BuildTable. |
| ExcelWriter.SecondRunAllUnchanged | utils/file_handler.py:29-30 | With the name column on, the first cells of the saved data rows give back the mod list. A second run on the same mods therefore counts all of them Unchanged and none New. |
| ExcelWriter.FirstCellsAreNames | utils/file_handler.py:61-62 | When the name column comes first, the first cell of every data row is its mod name. |
| HtmlWriter.PageHeader | utils/file_handler.py:113-117 | The page header is "Mod Name", "Version", "Status", each included exactly when its key is present, whatever the key's value, in that order. It has one cell per present key. |
| HtmlWriter.RenderTable | utils/file_handler.py:105-126 | The title and heading are "Mod List". The header is the labels of the present keys, in the fixed order, and contains a label exactly when its key is present, whatever the key's value. There is one row per mod, holding that mod's cells for the present keys. |
| MarkdownWriter.MarkdownRow | utils/file_handler.py:150-156 | One turn of the Markdown loop yields the mod's line with the version cell and status, and adds one to exactly one counter, according to membership. |
| MarkdownWriter.WriteModListToMarkdown | utils/file_handler.py:139-156 | The text is the fixed heading, header and separator, followed by one line per mod, in order. Both counters always count (removed is 0) and sum to the number of mods. |
| MarkdownWriter.MarkdownLinesAt | utils/file_handler.py:149-156 | Line i is "\| name \| version \| status \|" for mod i. |
| MarkdownWriter.OnlyVersionFlagMatters | utils/file_handler.py:150 | The version cell is empty exactly when the version flag is off; the cell is blanked, never dropped. The text depends on no flag other than the version flag. |
| ReportAgreement.StatusAgreesAcrossFormats | utils/file_handler.py:65-71 | Every report that writes a status for mod i writes the same one: the Markdown line always, the spreadsheet's last cell when the status flag is true, and the page's last cell when the status key is present. |
| ReportAgreement.SpreadsheetColumnsAppearInPage | utils/file_handler.py:114-116 | Every column the spreadsheet shows, the page shows too, so the page has at least as many columns. |
| ReportAgreement.FalseFlagStillRenderedInPage | utils/file_handler.py:114-124 | A key that is present but mapped to false drops its label from the spreadsheet header and keeps it in the page header, for any mod list: the column is left out of every spreadsheet row and kept in every page row. |
| ReportAgreement.PageMatchesSpreadsheetWithoutFalseFlags | utils/file_handler.py:44-72 | When none of the three column keys is mapped to false (other keys do not matter), the page's header and rows equal the spreadsheet's. Together with FalseFlagStillRenderedInPage, the two reports agree exactly when no column key is mapped to false. |

## Left out

- `load_config` (utils/file_handler.py:7-11): reading JSON from a file is I/O. The column map and the colour switch are parameters instead.
- `load_previous_mods_xlsx` (utils/file_handler.py:22-35): opening the workbook and the error handling are I/O. The previous list is a parameter of type sequence of strings, so the `None` that a row with an empty first cell would give is not modelled. `ExcelWriter.FirstCells` models only the first-column read-back, and gives "" for an empty row.
- Directory listing and `os.path.isdir`: these query the file system. They are the parameters `listing` and `isDir`. `JoinPath` is POSIX `os.path.join` for a bare entry name.
- The spreadsheet library: the workbook, its cells and in-place style mutation are not modelled. The sheet is a sequence of rows of text cells. The widths and the fills (encoded as RGB numbers 0xAAFFAA and 0xDDDDDD) are returned beside it instead of being set on cell objects.
- `ExcelWriter.ColumnWidths`: width cells are always text here. The `try/except` around `len(cell.value)` is modelled only by the rule that a cell a row does not reach contributes nothing. For an empty sheet, the one column A the library still visits gets width 2.
- The template engine and the page text: only the decisions the template makes are modelled, that is, which header and data cells it renders and what they hold. The surrounding HTML, whitespace and escaping are not.
- Writing the files and the `print` of the counters: these are I/O. The counters are returned instead.
- `ExcelWriter.HeaderCells` is the source's header block, and `ExcelWriter.ModRow` and `MarkdownWriter.MarkdownRow` are the bodies of its row loops, split out as methods.
- `main.py` is not part of this model. It only orchestrates the calls.
- Markdown text is not escaped: a mod name containing `|` breaks the table. The model writes the name verbatim, as the source does, and states nothing about how the table parses.
