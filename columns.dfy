/** The report columns and the two ways the writers decide which of them to
    show.

    The configuration carries a map from the column keys "mod_name",
    "mod_version" and "status" to booleans. The spreadsheet and Markdown
    writers read a flag as `columns.get(key, False)`, so a missing key counts
    as false; the HTML template tests only whether the key is present, so a
    key mapped to false still shows its column there. */
module ReportColumns {
  import opened ModStatus

  /** The three columns, declared in the fixed order every writer uses. */
  datatype Column = ModName | ModVersion | StatusColumn

  const AllColumns: seq<Column> := [ModName, ModVersion, StatusColumn]

  /** No version is extracted from a mod: every version cell holds this text. */
  const UnknownVersion: string := "Unknown Version"

  /** The configuration key of a column. */
  function Key(c: Column): string
  {
    match c
    case ModName => "mod_name"
    case ModVersion => "mod_version"
    case StatusColumn => "status"
  }

  /** The header label of a column. */
  function HeaderLabel(c: Column): string
  {
    match c
    case ModName => "Mod Name"
    case ModVersion => "Version"
    case StatusColumn => "Status"
  }

  /** Different columns have different labels (they differ in length). */
  lemma HeaderLabelInjective(c: Column, d: Column)
    ensures HeaderLabel(c) == HeaderLabel(d) ==> c == d
  {
    assert |HeaderLabel(ModName)| == 8 && |HeaderLabel(ModVersion)| == 7 && |HeaderLabel(StatusColumn)| == 6;
  }

  /** The place of a column in the fixed order. */
  function Position(c: Column): nat
  {
    match c
    case ModName => 0
    case ModVersion => 1
    case StatusColumn => 2
  }

  /** The value a data row holds in column `c` for one mod. */
  function Cell(c: Column, mod: string, previous: seq<string>): string
  {
    match c
    case ModName => mod
    case ModVersion => UnknownVersion
    case StatusColumn => Label(Classify(mod, previous))
  }

  /** `columns.get(key, False)`. */
  function Flag(columns: map<string, bool>, key: string): bool
  {
    if key in columns then columns[key] else false
  }

  /** Which of the three columns a report shows, read off the column map
      once. */
  datatype Shows = Shows(name: bool, version: bool, status: bool)

  /** Whether column `c` is among those shown. */
  predicate Shown(c: Column, s: Shows)
  {
    match c
    case ModName => s.name
    case ModVersion => s.version
    case StatusColumn => s.status
  }

  /** The spreadsheet and Markdown test: the key maps to true. */
  function ByFlag(columns: map<string, bool>): Shows
  {
    Shows(Flag(columns, "mod_name"), Flag(columns, "mod_version"), Flag(columns, "status"))
  }

  /** The HTML template's test: the key occurs in the map. */
  function ByPresence(columns: map<string, bool>): Shows
  {
    Shows("mod_name" in columns, "mod_version" in columns, "status" in columns)
  }

  /** A flag that is true belongs to a key that is present, so the HTML
      template shows every column the other two reports show, and more
      exactly when some key is mapped to false. */
  lemma FlagImpliesPresence(columns: map<string, bool>, c: Column)
    ensures Shown(c, ByFlag(columns)) <==> Flag(columns, Key(c))
    ensures Shown(c, ByPresence(columns)) <==> Key(c) in columns
    ensures Shown(c, ByFlag(columns)) ==> Shown(c, ByPresence(columns))
    ensures Shown(c, ByPresence(columns)) && !Shown(c, ByFlag(columns)) <==> Key(c) in columns && !columns[Key(c)]
  {
  }

  /** One element if `on`, else nothing: how a writer adds an optional
      column. */
  function Optional<T>(on: bool, x: T): seq<T>
  {
    if on then [x] else []
  }

  /** The shown columns of a report: each of the three, in the fixed order,
      when it is shown. */
  function Chosen(s: Shows): seq<Column>
  {
    Optional(s.name, ModName) + Optional(s.version, ModVersion) + Optional(s.status, StatusColumn)
  }

  /** The columns of a sequence appear in increasing fixed-order position. */
  predicate InFixedOrder(cols: seq<Column>)
  {
    forall i, j :: 0 <= i < j < |cols| ==> Position(cols[i]) < Position(cols[j])
  }

  /** A header row: the labels of `cols`, in order. */
  function Header(cols: seq<Column>): (h: seq<string>)
    ensures |h| == |cols|
  {
    if cols == [] then []
    else Header(cols[..|cols| - 1]) + [HeaderLabel(cols[|cols| - 1])]
  }

  /** The data row of one mod: its value in each of `cols`, in order. */
  function Row(cols: seq<Column>, mod: string, previous: seq<string>): (r: seq<string>)
    ensures |r| == |cols|
  {
    if cols == [] then []
    else Row(cols[..|cols| - 1], mod, previous) + [Cell(cols[|cols| - 1], mod, previous)]
  }

  /** Entry `j` of a header is the label of column `j`, and entry `j` of a
      data row is that column's value. */
  lemma {:induction false} HeaderRowAt(cols: seq<Column>, mod: string, previous: seq<string>)
    ensures |Header(cols)| == |cols| && |Row(cols, mod, previous)| == |cols|
    ensures forall j :: 0 <= j < |cols| ==>
              Header(cols)[j] == HeaderLabel(cols[j]) && Row(cols, mod, previous)[j] == Cell(cols[j], mod, previous)
  {
    if cols != [] {
      var n := |cols| - 1;
      HeaderRowAt(cols[..n], mod, previous);
      forall j | 0 <= j < |cols|
        ensures Header(cols)[j] == HeaderLabel(cols[j]) && Row(cols, mod, previous)[j] == Cell(cols[j], mod, previous)
      {
        if j < n {
          assert cols[..n][j] == cols[j];
        }
      }
    }
  }

  /** The data rows of a report: one row per mod, in list order. */
  function Rows(cols: seq<Column>, mods: seq<string>, previous: seq<string>): (rows: seq<seq<string>>)
    ensures |rows| == |mods|
  {
    if mods == [] then []
    else Rows(cols, mods[..|mods| - 1], previous) + [Row(cols, mods[|mods| - 1], previous)]
  }

  /** There is exactly one data row per mod, and the row at position `i` is
      the row of the `i`-th mod. */
  lemma {:induction false} RowsAt(cols: seq<Column>, mods: seq<string>, previous: seq<string>)
    ensures |Rows(cols, mods, previous)| == |mods|
    ensures forall i :: 0 <= i < |mods| ==> Rows(cols, mods, previous)[i] == Row(cols, mods[i], previous)
  {
    if mods != [] {
      var n := |mods| - 1;
      RowsAt(cols, mods[..n], previous);
      assert forall i :: 0 <= i < n ==> mods[..n][i] == mods[i];
    }
  }

  /** When the status column is shown it is the last shown column, so the
      last cell of every data row is the mod's status. */
  lemma StatusIsLastColumn(s: Shows, mod: string, previous: seq<string>)
    requires s.status
    ensures var cs := Chosen(s);
      && |cs| >= 1 && cs[|cs| - 1] == StatusColumn
      && Row(cs, mod, previous)[|cs| - 1] == Label(Classify(mod, previous))
  {
    var cs := Chosen(s);
    assert cs == cs[..|cs| - 1] + [StatusColumn];
  }

  /** Number of shown columns. */
  function NumberShown(s: Shows): nat
  {
    (if s.name then 1 else 0) + (if s.version then 1 else 0) + (if s.status then 1 else 0)
  }

  /** The shown columns are exactly the columns that pass the test, each
      once, in the fixed order "Mod Name", "Version", "Status". */
  lemma ChosenInFixedOrder(s: Shows)
    ensures var cs := Chosen(s);
      && |cs| == NumberShown(s)
      && (forall c :: c in cs <==> Shown(c, s))
      && InFixedOrder(cs)
  {
  }

  /** Adding one column at the end adds its label to the header and its
      cell to a data row. */
  lemma HeaderRowSnoc(cols: seq<Column>, c: Column, mod: string, previous: seq<string>)
    ensures Header(cols + [c]) == Header(cols) + [HeaderLabel(c)]
    ensures Row(cols + [c], mod, previous) == Row(cols, mod, previous) + [Cell(c, mod, previous)]
  {
    assert (cols + [c])[..|cols|] == cols;
  }

  /** The header of a report, each label added when its column is shown, in
      the fixed order: the list the writers build by appending. */
  lemma HeaderShape(s: Shows)
    ensures Header(Chosen(s)) == Optional(s.name, "Mod Name") + Optional(s.version, "Version") + Optional(s.status, "Status")
  {
    var cols: seq<Column> := [];
    if s.name {
      HeaderRowSnoc(cols, ModName, "", []);
      cols := cols + [ModName];
    }
    if s.version {
      HeaderRowSnoc(cols, ModVersion, "", []);
      cols := cols + [ModVersion];
    }
    if s.status {
      HeaderRowSnoc(cols, StatusColumn, "", []);
      cols := cols + [StatusColumn];
    }
    assert cols == Chosen(s);
  }

  /** A data row of a report, each cell added when its column is shown, in
      the fixed order. */
  lemma RowShape(s: Shows, mod: string, previous: seq<string>)
    ensures Row(Chosen(s), mod, previous)
         == Optional(s.name, mod) + Optional(s.version, UnknownVersion) + Optional(s.status, Label(Classify(mod, previous)))
  {
    var cols: seq<Column> := [];
    if s.name {
      HeaderRowSnoc(cols, ModName, mod, previous);
      cols := cols + [ModName];
    }
    if s.version {
      HeaderRowSnoc(cols, ModVersion, mod, previous);
      cols := cols + [ModVersion];
    }
    if s.status {
      HeaderRowSnoc(cols, StatusColumn, mod, previous);
      cols := cols + [StatusColumn];
    }
    assert cols == Chosen(s);
  }

  /** A header names a column exactly when the column is among `cols`. */
  lemma {:induction false} HeaderNamesColumns(cols: seq<Column>, c: Column)
    ensures HeaderLabel(c) in Header(cols) <==> c in cols
  {
    if cols != [] {
      var n := |cols| - 1;
      HeaderNamesColumns(cols[..n], c);
      HeaderLabelInjective(cols[n], c);
      assert cols == cols[..n] + [cols[n]];
    }
  }

  /** A header row names exactly the shown columns, in the fixed order, and
      has one entry per shown column. */
  lemma HeaderLabelsExactly(s: Shows)
    ensures var h := Header(Chosen(s));
      && |h| == NumberShown(s)
      && (forall c :: HeaderLabel(c) in h <==> Shown(c, s))
  {
    ChosenInFixedOrder(s);
    forall c ensures HeaderLabel(c) in Header(Chosen(s)) <==> c in Chosen(s) {
      HeaderNamesColumns(Chosen(s), c);
    }
  }

  /** Every data row lines up with its header: same length, and the cell
      under "Mod Name" is the mod name verbatim, the cell under "Version" is
      the placeholder, and the cell under "Status" is the mod's status. */
  lemma RowMatchesHeader(cols: seq<Column>, mod: string, previous: seq<string>)
    ensures var h, r := Header(cols), Row(cols, mod, previous);
      && |r| == |h|
      && forall j :: 0 <= j < |h| ==>
           && (h[j] == "Mod Name" ==> r[j] == mod)
           && (h[j] == "Version" ==> r[j] == UnknownVersion)
           && (h[j] == "Status" ==> r[j] == Label(Classify(mod, previous)))
  {
    HeaderRowAt(cols, mod, previous);
  }
}
