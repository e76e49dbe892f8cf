/** The Markdown report: a pipe table with a fixed three-column header,
    built by appending text, one line per mod.

    Unlike the other reports this one never drops a column: with the version
    column off, the version cell is left empty; the name and status cells are
    always written, whatever their flags say. */
module MarkdownWriter {
  import opened ModStatus
  import opened ReportColumns

  /** The heading, the header row and the separator row, always the same. */
  const MarkdownPreamble: string := "# Mod List\n\n" + "| Mod Name | Version | Status |\n" + "| --- | --- | --- |\n"

  /** The version cell of every line: the placeholder, or empty when the
      version column is off. */
  function VersionCell(columns: map<string, bool>): string
  {
    if Flag(columns, "mod_version") then UnknownVersion else ""
  }

  /** One table line. */
  function MarkdownLine(mod: string, version: string, status: string): string
  {
    "| " + mod + " | " + version + " | " + status + " |\n"
  }

  /** The lines of the table body, one per mod, in list order. */
  function MarkdownLines(mods: seq<string>, previous: seq<string>, columns: map<string, bool>): (lines: seq<string>)
    ensures |lines| == |mods|
  {
    if mods == [] then []
    else
      var mod := mods[|mods| - 1];
      MarkdownLines(mods[..|mods| - 1], previous, columns)
        + [MarkdownLine(mod, VersionCell(columns), Label(Classify(mod, previous)))]
  }

  /** The text of a sequence of lines, one after the other. */
  function Concat(lines: seq<string>): string
  {
    if lines == [] then "" else Concat(lines[..|lines| - 1]) + lines[|lines| - 1]
  }

  /** The body of the line loop: the line of one mod, with its name, the
      version cell and its status, and the counters after it. */
  method MarkdownRow(mod: string, previousMods: seq<string>, columns: map<string, bool>,
                     addedCount: nat, unchangedCount: nat)
    returns (line: string, addedAfter: nat, unchangedAfter: nat)
    ensures line == MarkdownLine(mod, VersionCell(columns), Label(Classify(mod, previousMods)))
    ensures addedAfter == addedCount + (if mod in previousMods then 0 else 1)
    ensures unchangedAfter == unchangedCount + (if mod in previousMods then 1 else 0)
  {
    var modVersion := VersionCell(columns);
    var status := if mod in previousMods then "Unchanged" else "New";
    addedAfter, unchangedAfter := addedCount, unchangedCount;
    // The two status texts differ in length, so the test below tells them apart.
    assert |"New"| != |"Unchanged"|;
    if status == "Unchanged" {
      unchangedAfter := unchangedAfter + 1;
    } else {
      addedAfter := addedAfter + 1;
    }
    line := MarkdownLine(mod, modVersion, status);
  }

  /** The Markdown writer: accumulate the text and count the mods by status
      (for every mod, whatever the status flag says). */
  method WriteModListToMarkdown(modNames: seq<string>, previousMods: seq<string>, columns: map<string, bool>)
    returns (content: string, counts: Counts)
    ensures content == MarkdownPreamble + Concat(MarkdownLines(modNames, previousMods, columns))
    ensures counts == Counts(CountStatus(modNames, previousMods, New), 0, CountStatus(modNames, previousMods, Unchanged))
    ensures counts.addedCount + counts.unchangedCount == |modNames|
  {
    var markdownContent := "# Mod List\n\n";
    markdownContent := markdownContent + "| Mod Name | Version | Status |\n";
    markdownContent := markdownContent + "| --- | --- | --- |\n";

    var addedCount: nat, removedCount: nat, unchangedCount: nat := 0, 0, 0;
    assert modNames[..0] == [];
    for i := 0 to |modNames|
      invariant markdownContent == MarkdownPreamble + Concat(MarkdownLines(modNames[..i], previousMods, columns))
      invariant removedCount == 0
      invariant addedCount == CountStatus(modNames[..i], previousMods, New)
      invariant unchangedCount == CountStatus(modNames[..i], previousMods, Unchanged)
    {
      var line;
      line, addedCount, unchangedCount := MarkdownRow(modNames[i], previousMods, columns, addedCount, unchangedCount);
      ContentStep(MarkdownPreamble, modNames, i, previousMods, columns, markdownContent, line);
      markdownContent := markdownContent + line;
      CountStatusPrefixStep(modNames, i, previousMods);
    }
    assert modNames[..|modNames|] == modNames;
    CountsPartition(modNames, previousMods);
    content, counts := markdownContent, Counts(addedCount, removedCount, unchangedCount);
  }

  /** One more mod of the list adds its line at the end of the text. */
  lemma LinesPrefixStep(mods: seq<string>, i: nat, previous: seq<string>, columns: map<string, bool>)
    requires i < |mods|
    ensures Concat(MarkdownLines(mods[..i + 1], previous, columns))
         == Concat(MarkdownLines(mods[..i], previous, columns))
          + MarkdownLine(mods[i], VersionCell(columns), Label(Classify(mods[i], previous)))
  {
    assert mods[..i + 1][..i] == mods[..i];
    var lines := MarkdownLines(mods[..i + 1], previous, columns);
    assert lines[..|lines| - 1] == MarkdownLines(mods[..i], previous, columns);
  }

  /** Appending the line of the next mod to the text written so far (after
      some fixed `prefix`) gives the text one mod further on. */
  lemma ContentStep(prefix: string, mods: seq<string>, i: nat, previous: seq<string>, columns: map<string, bool>,
                    content: string, line: string)
    requires i < |mods|
    requires content == prefix + Concat(MarkdownLines(mods[..i], previous, columns))
    requires line == MarkdownLine(mods[i], VersionCell(columns), Label(Classify(mods[i], previous)))
    ensures content + line == prefix + Concat(MarkdownLines(mods[..i + 1], previous, columns))
  {
    var done := Concat(MarkdownLines(mods[..i], previous, columns));
    assert (prefix + done) + line == prefix + (done + line);
    assert Concat(MarkdownLines(mods[..i + 1], previous, columns)) == done + line by {
      LinesPrefixStep(mods, i, previous, columns);
    }
  }

  /** There is exactly one line per mod, in list order: line `i` names mod
      `i`, its version cell and its status. */
  lemma {:induction false} MarkdownLinesAt(mods: seq<string>, previous: seq<string>, columns: map<string, bool>)
    ensures |MarkdownLines(mods, previous, columns)| == |mods|
    ensures forall i :: 0 <= i < |mods| ==>
              MarkdownLines(mods, previous, columns)[i]
                == MarkdownLine(mods[i], VersionCell(columns), Label(Classify(mods[i], previous)))
  {
    if mods != [] {
      var n := |mods| - 1;
      var lines := MarkdownLines(mods, previous, columns);
      MarkdownLinesAt(mods[..n], previous, columns);
      forall i | 0 <= i < |mods|
        ensures lines[i] == MarkdownLine(mods[i], VersionCell(columns), Label(Classify(mods[i], previous)))
      {
        if i < n {
          assert mods[..n][i] == mods[i];
        }
      }
    }
  }

  /** The version cell is blanked, never dropped: it is empty exactly when
      the version flag is off, and the text depends on no other flag. */
  lemma {:induction false} OnlyVersionFlagMatters(mods: seq<string>, previous: seq<string>,
                                                  columns: map<string, bool>, other: map<string, bool>)
    requires Flag(columns, "mod_version") == Flag(other, "mod_version")
    ensures MarkdownLines(mods, previous, columns) == MarkdownLines(mods, previous, other)
    ensures VersionCell(columns) == "" <==> !Flag(columns, "mod_version")
  {
    if mods != [] {
      OnlyVersionFlagMatters(mods[..|mods| - 1], previous, columns, other);
    }
  }
}
