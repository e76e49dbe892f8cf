/** Enumeration of the mods: the immediate subdirectories of the mods folder,
    by their bare names, in the order the directory listing gives them.

    The directory listing and the "is this path a directory" test are
    file-system queries; here they are the parameters `listing` and `isDir`. */
module ModEnumerator {

  /** `os.path.join(folder, name)` on POSIX for a bare entry name (a listing
      entry never contains a slash): a separator is inserted unless the folder
      is empty or already ends with one. */
  function JoinPath(folder: string, name: string): string
  {
    if folder == [] || folder[|folder| - 1] == '/' then folder + name
    else folder + "/" + name
  }

  /** The entries of `listing` whose joined path is a directory, in listing
      order. */
  ghost function Subdirectories(folder: string, listing: seq<string>, isDir: string -> bool): seq<string>
  {
    if listing == [] then []
    else
      var last := listing[|listing| - 1];
      Subdirectories(folder, listing[..|listing| - 1], isDir)
        + (if isDir(JoinPath(folder, last)) then [last] else [])
  }

  /** The loop of the enumerator: walk the listing, append each entry whose
      path is a directory. */
  method GetModNames(modsFolder: string, listing: seq<string>, isDir: string -> bool)
    returns (modNames: seq<string>)
    ensures modNames == Subdirectories(modsFolder, listing, isDir)
  {
    modNames := [];
    for i := 0 to |listing|
      invariant modNames == Subdirectories(modsFolder, listing[..i], isDir)
    {
      var mod := listing[i];
      var modPath := JoinPath(modsFolder, mod);
      if isDir(modPath) {
        modNames := modNames + [mod];
      }
      assert listing[..i + 1][..i] == listing[..i];
    }
    assert listing[..|listing|] == listing;
  }

  /** The result is the order-preserving subsequence of the listing made of
      its directory entries: `idx` gives, for each name returned, the
      position of the entry it was taken from. Positions strictly increase,
      each name is the entry itself, unaltered, and a position is used
      exactly when that entry is a directory (so files are left out). */
  lemma {:induction false} SubdirectoryPositions(folder: string, listing: seq<string>, isDir: string -> bool)
    returns (idx: seq<nat>)
    ensures var names := Subdirectories(folder, listing, isDir);
      && |idx| == |names|
      && (forall k :: 0 <= k < |idx| ==> idx[k] < |listing| && names[k] == listing[idx[k]])
      && (forall k, l :: 0 <= k < l < |idx| ==> idx[k] < idx[l])
      && (forall j :: 0 <= j < |listing| ==> (j in idx <==> isDir(JoinPath(folder, listing[j]))))
  {
    if listing == [] {
      idx := [];
    } else {
      var n := |listing| - 1;
      var front := listing[..n];
      var before := SubdirectoryPositions(folder, front, isDir);
      var names := Subdirectories(folder, listing, isDir);
      var namesBefore := Subdirectories(folder, front, isDir);
      assert n !in before;
      if isDir(JoinPath(folder, listing[n])) {
        idx := before + [n];
        assert names == namesBefore + [listing[n]];
        forall k | 0 <= k < |idx| ensures idx[k] < |listing| && names[k] == listing[idx[k]] {
          if k < |before| {
            assert idx[k] == before[k] && names[k] == namesBefore[k] && front[before[k]] == listing[before[k]];
          }
        }
        forall j | 0 <= j < |listing| ensures j in idx <==> isDir(JoinPath(folder, listing[j])) {
          if j < n {
            assert listing[j] == front[j];
          }
        }
      } else {
        idx := before;
        assert names == namesBefore;
        forall k | 0 <= k < |idx| ensures idx[k] < |listing| && names[k] == listing[idx[k]] {
          assert front[before[k]] == listing[before[k]];
        }
        forall j | 0 <= j < |listing| ensures j in idx <==> isDir(JoinPath(folder, listing[j])) {
          if j < n {
            assert listing[j] == front[j];
          }
        }
      }
    }
  }

  /** A name is returned exactly when it is in the listing and its path is a
      directory. */
  lemma SubdirectoryMembership(folder: string, listing: seq<string>, isDir: string -> bool, name: string)
    ensures name in Subdirectories(folder, listing, isDir)
            <==> name in listing && isDir(JoinPath(folder, name))
  {
    var idx := SubdirectoryPositions(folder, listing, isDir);
    var names := Subdirectories(folder, listing, isDir);
    if name in names {
      var k :| 0 <= k < |names| && names[k] == name;
      assert listing[idx[k]] == name;
    }
    if name in listing && isDir(JoinPath(folder, name)) {
      var j :| 0 <= j < |listing| && listing[j] == name;
      assert j in idx;
      var k :| 0 <= k < |idx| && idx[k] == j;
      assert names[k] == name;
    }
  }
}
