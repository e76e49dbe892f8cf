/** The web-page report: which cells the page's table holds.

    The page is rendered by a template engine from a fixed template; the
    engine and the page text are not modelled. What is modelled is the
    template's decisions: a column is rendered when its key is PRESENT in
    the column map, whatever its value, and each mod's row holds the same
    cells as in the other reports. */
module HtmlWriter {
  import opened ModStatus
  import opened ReportColumns

  /** The columns the template renders. */
  function HtmlColumns(columns: map<string, bool>): seq<Column>
  {
    Chosen(ByPresence(columns))
  }

  /** The texts of the page: title, heading, the <th> cells of the header
      row and the <td> cells of each mod's row. */
  datatype HtmlTable = HtmlTable(title: string, heading: string, header: seq<string>, rows: seq<seq<string>>)

  /** The header row of the page: one <th> per present key, in the fixed
      order, whatever the key's value. */
  lemma PageHeader(columns: map<string, bool>)
    ensures var h := Header(HtmlColumns(columns));
      && |h| == NumberShown(ByPresence(columns))
      && h == Optional("mod_name" in columns, "Mod Name")
            + Optional("mod_version" in columns, "Version")
            + Optional("status" in columns, "Status")
      && forall c :: HeaderLabel(c) in h <==> Key(c) in columns
  {
    HeaderLabelsExactly(ByPresence(columns));
    HeaderShape(ByPresence(columns));
    forall c ensures Shown(c, ByPresence(columns)) <==> Key(c) in columns {
      FlagImpliesPresence(columns, c);
    }
  }

  /** The table the template fills in. */
  function RenderTable(modNames: seq<string>, previousMods: seq<string>, columns: map<string, bool>): (t: HtmlTable)
    ensures t.title == "Mod List" && t.heading == "Mod List"
    ensures |t.header| == NumberShown(ByPresence(columns))
    ensures t.header == Optional("mod_name" in columns, "Mod Name")
                      + Optional("mod_version" in columns, "Version")
                      + Optional("status" in columns, "Status")
    ensures forall c :: HeaderLabel(c) in t.header <==> Key(c) in columns
    ensures |t.rows| == |modNames|
    ensures forall i :: 0 <= i < |modNames| ==> t.rows[i] == Row(HtmlColumns(columns), modNames[i], previousMods)
  {
    var cs := HtmlColumns(columns);
    PageHeader(columns);
    RowsAt(cs, modNames, previousMods);
    HtmlTable("Mod List", "Mod List", Header(cs), Rows(cs, modNames, previousMods))
  }
}
