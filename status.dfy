/** The status rule that every report writer applies to a mod, and the
    counting of mods by status that the writers report.

    A mod is "Unchanged" when its name occurs, by exact string equality, in
    the list of mod names recovered from the previous report; otherwise it is
    "New". No "Removed" status exists: the writers declare a removed counter
    but never increase it, so it is always zero. */
module ModStatus {

  datatype Status = New | Unchanged

  /** The counters a writer reports after it has written its file. */
  datatype Counts = Counts(addedCount: nat, removedCount: nat, unchangedCount: nat)

  /** The text a writer puts into a status cell. */
  function Label(s: Status): string
  {
    match s
    case New => "New"
    case Unchanged => "Unchanged"
  }

  /** The status of one mod against the previous list. */
  function Classify(mod: string, previous: seq<string>): Status
  {
    if mod in previous then Unchanged else New
  }

  /** How many entries of `mods` (duplicates included) have status `s`,
      counted in list order as the writers' loops do. */
  function CountStatus(mods: seq<string>, previous: seq<string>, s: Status): (n: nat)
    ensures n <= |mods|
  {
    if mods == [] then 0
    else
      CountStatus(mods[..|mods| - 1], previous, s)
        + (if Classify(mods[|mods| - 1], previous) == s then 1 else 0)
  }

  /** Counting one more mod adds one exactly when it has status `s`. */
  lemma CountStatusSnoc(mods: seq<string>, mod: string, previous: seq<string>, s: Status)
    ensures CountStatus(mods + [mod], previous, s)
         == CountStatus(mods, previous, s) + (if Classify(mod, previous) == s then 1 else 0)
  {
    assert (mods + [mod])[..|mods|] == mods;
  }

  /** Counting one more mod of the list, for both statuses. */
  lemma CountStatusPrefixStep(mods: seq<string>, i: nat, previous: seq<string>)
    requires i < |mods|
    ensures CountStatus(mods[..i + 1], previous, New)
         == CountStatus(mods[..i], previous, New) + (if mods[i] in previous then 0 else 1)
    ensures CountStatus(mods[..i + 1], previous, Unchanged)
         == CountStatus(mods[..i], previous, Unchanged) + (if mods[i] in previous then 1 else 0)
  {
    assert mods[..i + 1] == mods[..i] + [mods[i]];
    CountStatusSnoc(mods[..i], mods[i], previous, New);
    CountStatusSnoc(mods[..i], mods[i], previous, Unchanged);
  }

  /** The positions of `mods` whose status is `s`. */
  ghost function PositionsWith(mods: seq<string>, previous: seq<string>, s: Status): set<int>
  {
    set i | 0 <= i < |mods| && Classify(mods[i], previous) == s
  }

  /** The running count agrees with an independent definition: the number of
      positions of the list whose mod has that status. */
  lemma {:induction false} CountStatusIsNumberOfPositions(mods: seq<string>, previous: seq<string>, s: Status)
    ensures CountStatus(mods, previous, s) == |PositionsWith(mods, previous, s)|
  {
    if mods != [] {
      var n := |mods| - 1;
      var front := mods[..n];
      CountStatusIsNumberOfPositions(front, previous, s);
      var before := PositionsWith(front, previous, s);
      var after := PositionsWith(mods, previous, s);
      if Classify(mods[n], previous) == s {
        assert after == before + {n};
        assert n !in before;
      } else {
        assert after == before;
      }
    }
  }

  /** Every mod is either New or Unchanged, so the two counts add up to the
      length of the list. */
  lemma {:induction false} CountsPartition(mods: seq<string>, previous: seq<string>)
    ensures CountStatus(mods, previous, New) + CountStatus(mods, previous, Unchanged) == |mods|
  {
    if mods != [] {
      CountsPartition(mods[..|mods| - 1], previous);
    }
  }

  /** When every mod of the list occurs in the previous list (for instance the
      list itself), every mod is Unchanged and none is New. */
  lemma {:induction false} AllRecordedAllUnchanged(mods: seq<string>, previous: seq<string>)
    requires forall i :: 0 <= i < |mods| ==> mods[i] in previous
    ensures CountStatus(mods, previous, Unchanged) == |mods|
    ensures CountStatus(mods, previous, New) == 0
  {
    if mods != [] {
      AllRecordedAllUnchanged(mods[..|mods| - 1], previous);
    }
  }

  /** Without a previous report every mod is New. */
  lemma {:induction false} NoPreviousAllNew(mods: seq<string>)
    ensures CountStatus(mods, [], New) == |mods|
    ensures CountStatus(mods, [], Unchanged) == 0
  {
    if mods != [] {
      NoPreviousAllNew(mods[..|mods| - 1]);
    }
  }
}
