/** How the three reports relate to each other: they give every mod the
    same status, and they differ only in how they read the column map. */
module ReportAgreement {
  import opened ModStatus
  import opened ReportColumns
  import opened ExcelWriter
  import opened HtmlWriter
  import opened MarkdownWriter

  /** Every report that writes a status for mod `i` writes the same one: the
      Markdown line always, the spreadsheet's last cell when the status flag
      is true, the page's last cell when the status key is present. */
  lemma StatusAgreesAcrossFormats(modNames: seq<string>, previousMods: seq<string>, columns: map<string, bool>, i: nat)
    requires i < |modNames|
    ensures var status := Label(Classify(modNames[i], previousMods));
      && MarkdownLines(modNames, previousMods, columns)[i]
           == MarkdownLine(modNames[i], VersionCell(columns), status)
      && (Flag(columns, "status") ==>
            var sheet := [ExcelHeader(columns)] + Rows(ExcelColumns(columns), modNames, previousMods);
            1 <= |sheet[i + 1]| && sheet[i + 1][|sheet[i + 1]| - 1] == status)
      && ("status" in columns ==>
            var row := RenderTable(modNames, previousMods, columns).rows[i];
            1 <= |row| && row[|row| - 1] == status)
  {
    MarkdownLinesAt(modNames, previousMods, columns);
    if Flag(columns, "status") {
      StatusCellOfRow(modNames, previousMods, columns, i);
    }
    if "status" in columns {
      StatusIsLastColumn(ByPresence(columns), modNames[i], previousMods);
    }
  }

  /** Every column the spreadsheet shows, the page shows too. */
  lemma SpreadsheetColumnsAppearInPage(columns: map<string, bool>)
    ensures forall c :: c in ExcelColumns(columns) ==> c in HtmlColumns(columns)
    ensures |ExcelColumns(columns)| <= |HtmlColumns(columns)|
  {
    ChosenInFixedOrder(ByFlag(columns));
    ChosenInFixedOrder(ByPresence(columns));
  }

  /** A column whose key is present but mapped to false is left out of the
      spreadsheet and still rendered on the page, whatever the mods: its
      label is missing from the spreadsheet header and in the page header,
      and the column is among the page's columns but not the sheet's. */
  lemma FalseFlagStillRenderedInPage(modNames: seq<string>, previousMods: seq<string>,
                                     columns: map<string, bool>, c: Column)
    requires Key(c) in columns && !columns[Key(c)]
    ensures HeaderLabel(c) !in ExcelHeader(columns)
    ensures HeaderLabel(c) in RenderTable(modNames, previousMods, columns).header
    ensures c !in ExcelColumns(columns) && c in HtmlColumns(columns)
  {
    FlagImpliesPresence(columns, c);
    HeaderLabelsExactly(ByFlag(columns));
    ChosenInFixedOrder(ByFlag(columns));
    ChosenInFixedOrder(ByPresence(columns));
  }

  /** When no column key is mapped to false (other keys do not matter), the
      page shows the same header and the same rows as the spreadsheet. */
  lemma PageMatchesSpreadsheetWithoutFalseFlags(modNames: seq<string>, previousMods: seq<string>, columns: map<string, bool>)
    requires forall c: Column :: Key(c) in columns ==> columns[Key(c)]
    ensures RenderTable(modNames, previousMods, columns).header == ExcelHeader(columns)
    ensures RenderTable(modNames, previousMods, columns).rows == Rows(ExcelColumns(columns), modNames, previousMods)
  {
    assert ByPresence(columns) == ByFlag(columns) by {
      FlagImpliesPresence(columns, ModName);
      FlagImpliesPresence(columns, ModVersion);
      FlagImpliesPresence(columns, StatusColumn);
    }
  }
}
