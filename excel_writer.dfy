/** The spreadsheet report: a header row and one data row per mod, the
    column widths, the optional colour fills and the counters.

    The workbook object of the spreadsheet library is not modelled; its one
    sheet is a sequence of rows of text cells, built by appending rows, and
    the widths and fills it would receive are returned beside it. */
module ExcelWriter {
  import opened ModStatus
  import opened ReportColumns

  /** The columns of the spreadsheet: those whose flag is true. */
  function ExcelColumns(columns: map<string, bool>): seq<Column>
  {
    Chosen(ByFlag(columns))
  }

  /** The header row shown in the spreadsheet. */
  function ExcelHeader(columns: map<string, bool>): seq<string>
  {
    Header(ExcelColumns(columns))
  }

  /** The data row of one mod in the spreadsheet. */
  function ExcelRow(mod: string, previous: seq<string>, columns: map<string, bool>): seq<string>
  {
    Row(ExcelColumns(columns), mod, previous)
  }

  /** One more mod of the list adds its row at the end. */
  lemma RowsPrefixStep(cols: seq<Column>, mods: seq<string>, i: nat, previous: seq<string>)
    requires i < |mods|
    ensures Rows(cols, mods[..i + 1], previous) == Rows(cols, mods[..i], previous) + [Row(cols, mods[i], previous)]
  {
    assert mods[..i + 1][..i] == mods[..i];
  }

  /** Appending the row of the next mod to a sheet that holds the header
      and the rows of the mods so far gives the sheet one mod further on. */
  lemma SheetStep(header: seq<string>, cols: seq<Column>, mods: seq<string>, i: nat, previous: seq<string>,
                  sheet: seq<seq<string>>, row: seq<string>)
    requires i < |mods|
    requires sheet == [header] + Rows(cols, mods[..i], previous)
    requires row == Row(cols, mods[i], previous)
    ensures sheet + [row] == [header] + Rows(cols, mods[..i + 1], previous)
  {
    RowsPrefixStep(cols, mods, i, previous);
  }

  /** The header row of the spreadsheet: the label of each enabled column,
      in the fixed order. */
  method HeaderCells(columns: map<string, bool>) returns (headers: seq<string>)
    ensures headers == ExcelHeader(columns)
  {
    headers := [];
    if Flag(columns, "mod_name") {
      headers := headers + ["Mod Name"];
    }
    assert headers == Optional(Flag(columns, "mod_name"), "Mod Name");
    if Flag(columns, "mod_version") {
      headers := headers + ["Version"];
    }
    assert headers == Optional(Flag(columns, "mod_name"), "Mod Name") + Optional(Flag(columns, "mod_version"), "Version");
    if Flag(columns, "status") {
      headers := headers + ["Status"];
    }
    HeaderShape(ByFlag(columns));
  }

  /** The body of the row loop: the row of one mod, holding its enabled
      cells, and the counters after it; a counter moves only while the
      status column is written. */
  method ModRow(modName: string, previousMods: seq<string>, columns: map<string, bool>,
                addedCount: nat, unchangedCount: nat)
    returns (row: seq<string>, addedAfter: nat, unchangedAfter: nat)
    ensures row == ExcelRow(modName, previousMods, columns)
    ensures addedAfter == addedCount + (if Flag(columns, "status") && modName !in previousMods then 1 else 0)
    ensures unchangedAfter == unchangedCount + (if Flag(columns, "status") && modName in previousMods then 1 else 0)
  {
    row, addedAfter, unchangedAfter := [], addedCount, unchangedCount;
    if Flag(columns, "mod_name") {
      row := row + [modName];
    }
    assert row == Optional(Flag(columns, "mod_name"), modName);
    if Flag(columns, "mod_version") {
      row := row + ["Unknown Version"];
    }
    assert row == Optional(Flag(columns, "mod_name"), modName) + Optional(Flag(columns, "mod_version"), UnknownVersion);
    if Flag(columns, "status") {
      if modName in previousMods {
        row := row + ["Unchanged"];
        unchangedAfter := unchangedAfter + 1;
      } else {
        row := row + ["New"];
        addedAfter := addedAfter + 1;
      }
    }
    RowShape(ByFlag(columns), modName, previousMods);
  }

  /** The header/row loop of the spreadsheet writer: append the header row,
      then for each mod a row holding the enabled cells, counting the mods
      by status while the status column is written. */
  method BuildTable(modNames: seq<string>, previousMods: seq<string>, columns: map<string, bool>)
    returns (sheet: seq<seq<string>>, counts: Counts)
    ensures sheet == [ExcelHeader(columns)] + Rows(ExcelColumns(columns), modNames, previousMods)
    ensures counts.removedCount == 0
    ensures Flag(columns, "status") ==>
              && counts.addedCount == CountStatus(modNames, previousMods, New)
              && counts.unchangedCount == CountStatus(modNames, previousMods, Unchanged)
              && counts.addedCount + counts.unchangedCount == |modNames|
    ensures !Flag(columns, "status") ==> counts.addedCount == 0 && counts.unchangedCount == 0
  {
    var headers := HeaderCells(columns);
    ghost var cols := ExcelColumns(columns);
    ghost var counting := Flag(columns, "status");
    sheet := [headers];
    assert modNames[..0] == [];

    var addedCount: nat, removedCount: nat, unchangedCount: nat := 0, 0, 0;
    for i := 0 to |modNames|
      invariant sheet == [headers] + Rows(cols, modNames[..i], previousMods)
      invariant removedCount == 0
      invariant counting ==>
                  && addedCount == CountStatus(modNames[..i], previousMods, New)
                  && unchangedCount == CountStatus(modNames[..i], previousMods, Unchanged)
      invariant !counting ==> addedCount == 0 && unchangedCount == 0
    {
      var row;
      row, addedCount, unchangedCount := ModRow(modNames[i], previousMods, columns, addedCount, unchangedCount);
      SheetStep(headers, cols, modNames, i, previousMods, sheet, row);
      CountStatusPrefixStep(modNames, i, previousMods);
      sheet := sheet + [row];
    }
    assert modNames[..|modNames|] == modNames;
    CountsPartition(modNames, previousMods);
    counts := Counts(addedCount, removedCount, unchangedCount);
  }

  // ----- Column widths -----

  /** The length of the longest row: openpyxl's last used column. */
  function MaxRowLength(sheet: seq<seq<string>>): (m: nat)
    ensures forall r :: 0 <= r < |sheet| ==> |sheet[r]| <= m
    ensures m == 0 || exists r :: 0 <= r < |sheet| && |sheet[r]| == m
  {
    if sheet == [] then 0
    else
      var m := MaxRowLength(sheet[..|sheet| - 1]);
      if |sheet[|sheet| - 1]| > m then |sheet[|sheet| - 1]| else m
  }

  /** The columns the width loop visits: every used column, and at least one
      (an empty sheet still has its first column). */
  function ColumnCount(sheet: seq<seq<string>>): nat
  {
    if MaxRowLength(sheet) == 0 then 1 else MaxRowLength(sheet)
  }

  /** `w` is the width the writer gives column `c`: two more than the
      longest text in that column, header included, where a row too short to
      reach the column contributes nothing. */
  ghost predicate IsWidthOf(sheet: seq<seq<string>>, c: nat, w: nat)
  {
    && (forall r :: 0 <= r < |sheet| && c < |sheet[r]| ==> |sheet[r][c]| + 2 <= w)
    && (w == 2 || exists r :: 0 <= r < |sheet| && c < |sheet[r]| && |sheet[r][c]| + 2 == w)
  }

  /** The auto-size loop: for each column, the longest cell text plus 2. */
  method ColumnWidths(sheet: seq<seq<string>>) returns (widths: seq<nat>)
    ensures |widths| == ColumnCount(sheet)
    ensures forall c :: 0 <= c < |widths| ==> 2 <= widths[c]
    ensures forall c :: 0 <= c < |widths| ==> IsWidthOf(sheet, c, widths[c])
  {
    widths := [];
    for c := 0 to ColumnCount(sheet)
      invariant |widths| == c
      invariant forall k :: 0 <= k < c ==> 2 <= widths[k] && IsWidthOf(sheet, k, widths[k])
    {
      var maxLength: nat := 0;
      for r := 0 to |sheet|
        invariant forall q :: 0 <= q < r && c < |sheet[q]| ==> |sheet[q][c]| <= maxLength
        invariant maxLength == 0 || exists q :: 0 <= q < r && c < |sheet[q]| && |sheet[q][c]| == maxLength
      {
        if c < |sheet[r]| && |sheet[r][c]| > maxLength {
          maxLength := |sheet[r][c]|;
        }
      }
      widths := widths + [maxLength + 2];
    }
  }

  // ----- Colour fills -----

  /** A cell's background: none, or a solid fill of an RGB colour. */
  datatype Fill = NoFill | SolidFill(rgb: nat)

  /** Green for a New mod, light gray for an Unchanged one. */
  const NewFill: Fill := SolidFill(0xAAFFAA)
  const UnchangedFill: Fill := SolidFill(0xDDDDDD)

  /** The fill a data cell receives from its value when colouring is on. */
  function FillFor(value: string): Fill
  {
    if value == "New" then NewFill
    else if value == "Unchanged" then UnchangedFill
    else NoFill
  }

  /** A grid of unfilled cells the shape of `sheet`: a fresh sheet. */
  function Unfilled(sheet: seq<seq<string>>): seq<seq<Fill>>
  {
    seq(|sheet|, r requires 0 <= r < |sheet| => seq(|sheet[r]|, c => NoFill))
  }

  /** The colouring loop: when colouring is on, every cell after the header
      row whose value is "New" gets the green fill and every one whose value
      is "Unchanged" the gray fill, whatever its column; all other cells,
      and every cell when colouring is off, stay unfilled. */
  method ColourFills(sheet: seq<seq<string>>, useColor: bool) returns (fills: seq<seq<Fill>>)
    ensures |fills| == |sheet|
    ensures forall r :: 0 <= r < |sheet| ==> |fills[r]| == |sheet[r]|
    ensures forall r, c :: 0 <= r < |sheet| && 0 <= c < |sheet[r]| ==>
              && (fills[r][c] == NewFill <==> useColor && 1 <= r && sheet[r][c] == "New")
              && (fills[r][c] == UnchangedFill <==> useColor && 1 <= r && sheet[r][c] == "Unchanged")
              && (fills[r][c] == NoFill <==> !(useColor && 1 <= r && sheet[r][c] in ["New", "Unchanged"]))
  {
    fills := Unfilled(sheet);
    if useColor {
      var r := 1;
      while r < |sheet|
        invariant 1 <= r
        invariant |fills| == |sheet|
        invariant forall q :: 0 <= q < |sheet| ==> |fills[q]| == |sheet[q]|
        invariant forall q, c :: 0 <= q < |sheet| && 0 <= c < |sheet[q]| ==>
                    fills[q][c] == if 1 <= q < r then FillFor(sheet[q][c]) else NoFill
      {
        for c := 0 to |sheet[r]|
          invariant |fills| == |sheet|
          invariant forall q :: 0 <= q < |sheet| ==> |fills[q]| == |sheet[q]|
          invariant forall q, k :: 0 <= q < |sheet| && 0 <= k < |sheet[q]| ==>
                      fills[q][k] == if 1 <= q < r || (q == r && k < c) then FillFor(sheet[q][k]) else NoFill
        {
          var value := sheet[r][c];
          if value == "New" {
            fills := fills[r := fills[r][c := NewFill]];
          } else if value == "Unchanged" {
            fills := fills[r := fills[r][c := UnchangedFill]];
          }
        }
        r := r + 1;
      }
    }
  }

  // ----- The whole spreadsheet writer -----

  /** What the writer saves: the sheet's title, its rows, the width of each
      column and the fill of each cell; and the counters it prints. */
  datatype ExcelReport = ExcelReport(
    title: string,
    sheet: seq<seq<string>>,
    widths: seq<nat>,
    fills: seq<seq<Fill>>,
    counts: Counts)

  /** With the status column on, the last cell of each data row is the
      status text of its mod, so with colouring on it is green exactly for a
      New mod and gray exactly for an Unchanged one. */
  lemma StatusCellOfRow(modNames: seq<string>, previousMods: seq<string>, columns: map<string, bool>, i: nat)
    requires Flag(columns, "status") && i < |modNames|
    ensures var sheet := [ExcelHeader(columns)] + Rows(ExcelColumns(columns), modNames, previousMods);
      && |sheet| == |modNames| + 1
      && 1 <= |sheet[0]| == |sheet[i + 1]|
      && sheet[i + 1][|sheet[0]| - 1] == Label(Classify(modNames[i], previousMods))
      && FillFor(sheet[i + 1][|sheet[0]| - 1]) == if modNames[i] in previousMods then UnchangedFill else NewFill
  {
    var cs := ExcelColumns(columns);
    StatusIsLastColumn(ByFlag(columns), modNames[i], previousMods);
    RowsAt(cs, modNames, previousMods);
  }

  /** The spreadsheet writer: the sheet "Mods" with its header and rows, the
      auto-sized columns, the fills when colouring is on, and the counters. */
  method WriteModListToExcel(modNames: seq<string>, previousMods: seq<string>, columns: map<string, bool>, useColor: bool)
    returns (report: ExcelReport)
    ensures report.title == "Mods"
    ensures report.sheet == [ExcelHeader(columns)] + Rows(ExcelColumns(columns), modNames, previousMods)
    ensures |report.widths| == ColumnCount(report.sheet)
    ensures forall c :: 0 <= c < |report.widths| ==> 2 <= report.widths[c] && IsWidthOf(report.sheet, c, report.widths[c])
    ensures |report.fills| == |report.sheet|
    ensures forall r :: 0 <= r < |report.sheet| ==> |report.fills[r]| == |report.sheet[r]|
    ensures forall r, c :: 0 <= r < |report.sheet| && 0 <= c < |report.sheet[r]| ==>
              report.fills[r][c] == if useColor && 1 <= r then FillFor(report.sheet[r][c]) else NoFill
    ensures report.counts.removedCount == 0
    ensures Flag(columns, "status") ==>
              && report.counts.addedCount == CountStatus(modNames, previousMods, New)
              && report.counts.unchangedCount == CountStatus(modNames, previousMods, Unchanged)
              && report.counts.addedCount + report.counts.unchangedCount == |modNames|
    ensures !Flag(columns, "status") ==> report.counts.addedCount == 0 && report.counts.unchangedCount == 0
  {
    var sheet, counts := BuildTable(modNames, previousMods, columns);
    var widths := ColumnWidths(sheet);
    var fills := ColourFills(sheet, useColor);
    report := ExcelReport("Mods", sheet, widths, fills, counts);
  }

  /** The names a later run reads back from the data rows of a saved sheet:
      the first cell of every row (an empty row gives the empty name here;
      the reader itself is not part of this model). */
  function FirstCells(rows: seq<seq<string>>): seq<string>
  {
    if rows == [] then []
    else
      var last := rows[|rows| - 1];
      FirstCells(rows[..|rows| - 1]) + [if |last| > 0 then last[0] else ""]
  }

  /** Running twice on an unchanged mods folder: with the name column on, the
      first column of the saved sheet below its header gives back the mod
      list itself, so on the second run every mod is Unchanged and none is
      New. */
  lemma SecondRunAllUnchanged(modNames: seq<string>, previousMods: seq<string>, columns: map<string, bool>)
    requires Flag(columns, "mod_name")
    ensures var sheet := [ExcelHeader(columns)] + Rows(ExcelColumns(columns), modNames, previousMods);
      var recorded := FirstCells(sheet[1..]);
      && recorded == modNames
      && CountStatus(modNames, recorded, Unchanged) == |modNames|
      && CountStatus(modNames, recorded, New) == 0
  {
    var cs := ExcelColumns(columns);
    FirstCellsAreNames(cs, modNames, previousMods);
    assert ([ExcelHeader(columns)] + Rows(cs, modNames, previousMods))[1..] == Rows(cs, modNames, previousMods);
    AllRecordedAllUnchanged(modNames, modNames);
  }

  /** When the name column comes first, the first cell of each data row is
      its mod name. */
  lemma {:induction false} FirstCellsAreNames(cs: seq<Column>, modNames: seq<string>, previousMods: seq<string>)
    requires |cs| >= 1 && cs[0] == ModName
    ensures FirstCells(Rows(cs, modNames, previousMods)) == modNames
  {
    if modNames != [] {
      var n := |modNames| - 1;
      var rows := Rows(cs, modNames, previousMods);
      var last := Row(cs, modNames[n], previousMods);
      assert rows[..n] == Rows(cs, modNames[..n], previousMods);
      assert rows[n] == last;
      assert last[0] == modNames[n] by {
        HeaderRowAt(cs, modNames[n], previousMods);
      }
      FirstCellsAreNames(cs, modNames[..n], previousMods);
      assert modNames == modNames[..n] + [modNames[n]];
    }
  }
}
