/** The structural validation of a root, as loops over growing sets. */
module ResourceChecks {
  import opened Binary
  import opened Paths
  import opened Resources

  lemma SubsetSize<T>(a: set<T>, b: set<T>)
    requires a <= b
    ensures |a| <= |b|
  {
    assert b == a + (b - a);
  }

  lemma {:induction false} ClosureAppend(directories: seq<Directory>, last: Directory)
    ensures Closure(directories + [last]) == Closure(directories) + Ancestors(last.path)
    decreases |directories|
  {
    if directories == [] {
      assert Closure([last]) == Ancestors(last.path) + Closure([]);
    } else {
      ClosureAppend(directories[1..], last);
      assert (directories + [last])[1..] == directories[1..] + [last];
    }
  }

  lemma {:induction false} FilesInAppend(path: bytes, entries: seq<Entry>, last: Entry)
    ensures FilesIn(path, entries + [last]) == FilesIn(path, entries) + FilesIn(path, [last])
    decreases |entries|
  {
    assert FilesIn(path, []) == {};
    if entries != [] {
      FilesInAppend(path, entries[1..], last);
      assert (entries + [last])[1..] == entries[1..] + [last];
    } else {
      assert entries + [last] == [last];
    }
  }

  lemma {:induction false} FilesAppend(directories: seq<Directory>, last: Directory)
    ensures Files(directories + [last]) == Files(directories) + FilesIn(last.path, last.entries)
    decreases |directories|
  {
    if directories == [] {
      assert Files([last]) == FilesIn(last.path, last.entries) + Files([]);
    } else {
      FilesAppend(directories[1..], last);
      assert (directories + [last])[1..] == directories[1..] + [last];
    }
  }

  /** A set of paths that contains everything above each of them. */
  ghost predicate Closed(paths: set<bytes>) {
    forall path :: path in paths ==> Ancestors(path) <= paths
  }

  lemma {:induction false} AncestorsAreAbove(path: bytes, above: bytes)
    requires above in Ancestors(path)
    ensures |above| <= |path| && Ancestors(above) <= Ancestors(path)
    decreases |path|
  {
    if above != path {
      AncestorsAreAbove(Parent(path), above);
    }
  }

  lemma {:induction false} ClosureIsClosed(directories: seq<Directory>)
    ensures Closed(Closure(directories))
    decreases |directories|
  {
    if directories != [] {
      ClosureIsClosed(directories[1..]);
      forall path | path in Ancestors(directories[0].path) ensures Ancestors(path) <= Closure(directories) {
        AncestorsAreAbove(directories[0].path, path);
      }
    }
  }

  lemma AncestorsStep(path: bytes, current: bytes)
    requires current in Ancestors(path)
    ensures current != [] && Ancestors(current) == {current} + Ancestors(Parent(current))
    ensures Parent(current) == [] || Parent(current) in Ancestors(path)
  {
    AncestorsAreClosed(path, current);
  }

  lemma AncestorsOfRoot()
    ensures Ancestors([]) == {}
    ensures forall path :: path != [] ==> path in Ancestors(path)
  {
  }

  /** Everything from `path` down to just above `current` has been inserted. */
  ghost predicate Climbing(known: set<bytes>, path: bytes, found: set<bytes>, current: bytes) {
    && known <= found
    && found + Ancestors(current) == known + Ancestors(path)
    && (forall other :: other in found && other !in known ==> |other| > |current|)
    && (current in Ancestors(path) || current == [])
  }

  lemma ClimbStarts(known: set<bytes>, path: bytes)
    ensures Climbing(known, path, known, path)
  {
  }

  lemma ClimbStep(known: set<bytes>, path: bytes, found: set<bytes>, current: bytes)
    requires Climbing(known, path, found, current) && current !in found && [] in known
    ensures Climbing(known, path, found + {current}, Parent(current)) && |Parent(current)| < |current|
    ensures found + {current} <= known + Ancestors(path) && current !in known && current in Ancestors(path)
  {
    hide Ancestors;
    AncestorsStep(path, current);
  }

  lemma ClimbEnds(known: set<bytes>, path: bytes, found: set<bytes>, current: bytes)
    requires Climbing(known, path, found, current) && current in found && Closed(known)
    ensures found == known + Ancestors(path)
  {
    hide Ancestors;
    assert current in known;
    assert Ancestors(current) <= known;
  }

  /** Inserts a path and its parents, stopping at the first one already present. */
  method AddParents(known: set<bytes>, path: bytes, limits: Limits) returns (ok: bool, found: set<bytes>)
    requires Closed(known) && [] in known
    ensures ok ==> found == known + Ancestors(path)
    ensures ok <==> known + Ancestors(path) == known || limits.Elements(|known + Ancestors(path)|)
  {
    hide Ancestors, Climbing, Closed;
    ClimbStarts(known, path);
    found := known;
    var current := path;
    while true
      invariant Climbing(known, path, found, current)
      invariant found == known || limits.Elements(|found|)
      decreases |current|
    {
      if current in found {
        ClimbEnds(known, path, found, current);
        return true, found;
      }
      ClimbStep(known, path, found, current);
      found := found + {current};
      SubsetSize(found, known + Ancestors(path));
      if !limits.Elements(|found|) {
        return false, found;
      }
      current := Parent(current);
    }
  }

  // ---------- Entries of one directory ----------

  /** The checks on one entry, including its order after the one before it. */
  predicate EntryChecked(directory: Directory, i: nat, limits: Limits)
    requires i < |directory.entries|
  {
    && ValidEntry(directory.entries[i], limits)
    && limits.Bytes(|Joined(directory.path, directory.entries[i].name)|)
    && (i > 0 ==> Before(directory.entries[i - 1].name, directory.entries[i].name))
  }

  ghost predicate EntriesChecked(directory: Directory, count: nat, limits: Limits)
    requires count <= |directory.entries|
  {
    forall i :: 0 <= i < count ==> EntryChecked(directory, i, limits)
  }

  lemma EntriesCheckedMeaning(directory: Directory, limits: Limits)
    ensures ValidDirectory(directory, limits) <==>
              ValidPath(directory.path, true, false, limits) && ValidMetadata(directory.metadata, false, true)
              && limits.Elements(|directory.entries|) && EntriesChecked(directory, |directory.entries|, limits)
  {
    hide ValidPath, ValidMetadata, ValidEntry, Joined, Before;
    if EntriesChecked(directory, |directory.entries|, limits) {
      forall i | 0 <= i < |directory.entries|
        ensures ValidEntry(directory.entries[i], limits) && limits.Bytes(|Joined(directory.path, directory.entries[i].name)|)
        ensures i > 0 ==> Before(directory.entries[i - 1].name, directory.entries[i].name)
      {
        assert EntryChecked(directory, i, limits);
      }
    }
  }

  lemma {:induction false} FilesInPrefix(path: bytes, entries: seq<Entry>, count: nat)
    requires count <= |entries|
    ensures FilesIn(path, entries[..count]) <= FilesIn(path, entries)
    decreases |entries|
  {
    if count > 0 {
      FilesInPrefix(path, entries[1..], count - 1);
      assert entries[..count][1..] == entries[1..][..count - 1];
    }
  }

  lemma NoFiles(path: bytes)
    ensures FilesIn(path, []) == {}
  {
  }

  lemma OneFile(path: bytes, entry: Entry)
    ensures FilesIn(path, [entry]) == if entry.Tombstone? then {} else {Joined(path, entry.name)}
  {
    NoFiles(path);
    assert [entry][1..] == [];
  }

  /** The paths known after the first `count` entries. */
  ghost function Seen(directory: Directory, count: nat, files: set<bytes>): set<bytes>
    requires count <= |directory.entries|
  {
    files + FilesIn(directory.path, directory.entries[..count])
  }

  lemma SeenEnds(directory: Directory, files: set<bytes>)
    ensures Seen(directory, 0, files) == files
    ensures Seen(directory, |directory.entries|, files) == files + FilesIn(directory.path, directory.entries)
  {
    assert directory.entries[..0] == [] && directory.entries[..|directory.entries|] == directory.entries;
    NoFiles(directory.path);
  }

  lemma FilesGrow(directory: Directory, i: nat, files: set<bytes>)
    requires i < |directory.entries|
    ensures var entry := directory.entries[i];
            Seen(directory, i + 1, files)
            == Seen(directory, i, files) + if entry.Tombstone? then {} else {Joined(directory.path, entry.name)}
    ensures |Seen(directory, i + 1, files)| <= |files + FilesIn(directory.path, directory.entries)|
  {
    hide FilesIn;
    assert directory.entries[..i + 1] == directory.entries[..i] + [directory.entries[i]];
    FilesInAppend(directory.path, directory.entries[..i], directory.entries[i]);
    OneFile(directory.path, directory.entries[i]);
    FilesInPrefix(directory.path, directory.entries, i + 1);
    SubsetSize(files + FilesIn(directory.path, directory.entries[..i + 1]), files + FilesIn(directory.path, directory.entries));
  }

  /** Checks a directory's entries and collects their paths. */
  method CheckEntries(directory: Directory, files: set<bytes>, limits: Limits) returns (ok: bool, all: set<bytes>)
    requires limits.Elements(|files|)
    ensures ok ==> all == files + FilesIn(directory.path, directory.entries)
    ensures ok <==> EntriesChecked(directory, |directory.entries|, limits)
                    && limits.Elements(|files + FilesIn(directory.path, directory.entries)|)
  {
    hide EntryChecked, FilesIn, Joined, Seen;
    all := files;
    SeenEnds(directory, files);
    for i := 0 to |directory.entries|
      invariant EntriesChecked(directory, i, limits)
      invariant all == Seen(directory, i, files) && limits.Elements(|all|)
    {
      if !EntryChecked(directory, i, limits) {
        return false, all;
      }
      FilesGrow(directory, i, files);
      if !directory.entries[i].Tombstone? {
        all := all + {Joined(directory.path, directory.entries[i].name)};
        if !limits.Elements(|all|) {
          return false, all;
        }
      } else {
        assert Seen(directory, i, files) + {} == Seen(directory, i, files);
      }
    }
    ok := true;
  }

  // ---------- A whole layer ----------

  predicate HeaderChecked(layer: Layer, i: nat, limits: Limits)
    requires i < |layer.directories|
  {
    var directory := layer.directories[i];
    && ValidPath(directory.path, true, false, limits) && ValidMetadata(directory.metadata, false, true)
    && limits.Elements(|directory.entries|)
    && (i > 0 ==> Before(layer.directories[i - 1].path, directory.path))
  }

  ghost predicate DirectoriesChecked(layer: Layer, count: nat, limits: Limits)
    requires count <= |layer.directories|
  {
    forall i :: 0 <= i < count ==>
      HeaderChecked(layer, i, limits) && EntriesChecked(layer.directories[i], |layer.directories[i].entries|, limits)
  }

  lemma HeaderAndEntries(layer: Layer, i: nat, limits: Limits)
    requires i < |layer.directories|
    requires HeaderChecked(layer, i, limits) && EntriesChecked(layer.directories[i], |layer.directories[i].entries|, limits)
    ensures ValidDirectory(layer.directories[i], limits)
  {
    hide ValidPath, ValidMetadata, ValidDirectory, EntriesChecked, Before;
    EntriesCheckedMeaning(layer.directories[i], limits);
  }

  /** The rules of a layer, as the loop meets them. */
  lemma LayerCheckedMeaning(layer: Layer, limits: Limits)
    ensures ValidLayer(layer, limits) <==>
              limits.Elements(|layer.directories|) && DirectoriesChecked(layer, |layer.directories|, limits)
              && Roomy(layer, |layer.directories|, limits) && Closure(layer.directories) !! Files(layer.directories)
  {
    hide ValidPath, ValidMetadata, ValidDirectory, EntriesChecked, Before, Closure, Files;
    var directories := layer.directories;
    assert directories[..|directories|] == directories;
    if ValidLayer(layer, limits) {
      forall i | 0 <= i < |directories|
        ensures HeaderChecked(layer, i, limits) && EntriesChecked(directories[i], |directories[i].entries|, limits)
      {
        EntriesCheckedMeaning(directories[i], limits);
        assert i > 0 ==> Before(directories[i - 1].path, directories[i].path);
      }
    }
    if DirectoriesChecked(layer, |directories|, limits) {
      forall i | 0 <= i < |directories|
        ensures ValidDirectory(directories[i], limits) && (i > 0 ==> Before(directories[i - 1].path, directories[i].path))
      {
        assert HeaderChecked(layer, i, limits);
        EntriesCheckedMeaning(directories[i], limits);
      }
    }
  }

  lemma {:induction false} ClosurePrefix(directories: seq<Directory>, count: nat)
    requires count <= |directories|
    ensures Closure(directories[..count]) <= Closure(directories)
    ensures Files(directories[..count]) <= Files(directories)
    decreases |directories|
  {
    if count > 0 {
      ClosurePrefix(directories[1..], count - 1);
      assert directories[..count][1..] == directories[1..][..count - 1];
    }
  }

  lemma {:induction false} RootIsNotListed(directories: seq<Directory>)
    ensures [] !in Closure(directories)
    ensures |{[]} + Closure(directories)| == |Closure(directories)| + 1
    decreases |directories|
  {
    if directories != [] {
      RootIsNotListed(directories[1..]);
      if [] in Ancestors(directories[0].path) {
        AncestorsAreClosed(directories[0].path, []);
      }
    }
    var root: set<bytes> := {[]};
    assert |root + Closure(directories)| == |root| + |Closure(directories)|;
  }

  /** Room for the paths that the first `count` directories need. */
  ghost predicate Roomy(layer: Layer, count: nat, limits: Limits)
    requires count <= |layer.directories|
  {
    && (Closure(layer.directories[..count]) == {} || limits.Elements(|Closure(layer.directories[..count])| + 1))
    && limits.Elements(|Files(layer.directories[..count])|)
  }

  lemma RoomyEarlier(layer: Layer, count: nat, limits: Limits)
    requires count <= |layer.directories|
    ensures Roomy(layer, |layer.directories|, limits) ==> Roomy(layer, count, limits)
  {
    hide Closure, Files;
    assert layer.directories[..|layer.directories|] == layer.directories;
    ClosurePrefix(layer.directories, count);
    SubsetSize(Closure(layer.directories[..count]), Closure(layer.directories));
    SubsetSize(Files(layer.directories[..count]), Files(layer.directories));
  }

  lemma KnownGrows(layer: Layer, i: nat, known: set<bytes>, files: set<bytes>)
    requires i < |layer.directories|
    requires known == {[]} + Closure(layer.directories[..i]) && files == Files(layer.directories[..i])
    ensures var d := layer.directories[i];
            && known + Ancestors(d.path) == {[]} + Closure(layer.directories[..i + 1])
            && files + FilesIn(d.path, d.entries) == Files(layer.directories[..i + 1])
    ensures Closed(known) && |{[]} + Closure(layer.directories[..i + 1])| == |Closure(layer.directories[..i + 1])| + 1
    ensures known + Ancestors(layer.directories[i].path) == known <==> Closure(layer.directories[..i + 1]) == Closure(layer.directories[..i])
  {
    hide Closure, Files, FilesIn, Ancestors;
    var d := layer.directories[i];
    assert layer.directories[..i + 1] == layer.directories[..i] + [d];
    ClosureAppend(layer.directories[..i], d);
    FilesAppend(layer.directories[..i], d);
    RootIsNotListed(layer.directories[..i]);
    RootIsNotListed(layer.directories[..i + 1]);
    ClosureIsClosed(layer.directories[..i]);
    AncestorsOfRoot();
  }

  /** The two set limits that the loop checks are the ones that matter. */
  lemma RoomyNext(layer: Layer, i: nat, known: set<bytes>, files: set<bytes>, limits: Limits)
    requires i < |layer.directories| && Roomy(layer, i, limits)
    requires known == {[]} + Closure(layer.directories[..i]) && files == Files(layer.directories[..i])
    ensures var d := layer.directories[i];
            Roomy(layer, i + 1, limits) <==>
              (known + Ancestors(d.path) == known || limits.Elements(|known + Ancestors(d.path)|))
              && limits.Elements(|files + FilesIn(d.path, d.entries)|)
    ensures limits.Elements(|files|)
  {
    hide Closure, Files, FilesIn, Ancestors;
    KnownGrows(layer, i, known, files);
  }

  lemma NothingNeeded(layer: Layer, limits: Limits)
    ensures Closure(layer.directories[..0]) == {} && Files(layer.directories[..0]) == {} && Roomy(layer, 0, limits)
  {
  }

  lemma {:induction false} RootIsNotAFile(directories: seq<Directory>, limits: Limits)
    requires forall i :: 0 <= i < |directories| ==> ValidDirectory(directories[i], limits)
    ensures [] !in Files(directories)
    decreases |directories|
  {
    hide ValidPath, ValidMetadata, Before;
    if directories != [] {
      RootIsNotAFile(directories[1..], limits);
      NamesAreNotRoot(directories[0].path, directories[0].entries, limits);
    }
  }

  lemma {:induction false} NamesAreNotRoot(path: bytes, entries: seq<Entry>, limits: Limits)
    requires forall i :: 0 <= i < |entries| ==> ValidEntry(entries[i], limits)
    ensures [] !in FilesIn(path, entries)
    decreases |entries|
  {
    hide ValidPath, ValidMetadata;
    if entries != [] {
      NamesAreNotRoot(path, entries[1..], limits);
      JoinedSplits(path, entries[0].name);
    }
  }

  /** One layer passes exactly when it breaks none of the rules. */
  method ValidateLayer(layer: Layer, limits: Limits) returns (ok: bool)
    ensures ok <==> ValidLayer(layer, limits)
  {
    hide Closure, Files, FilesIn, Ancestors, HeaderChecked, EntriesChecked, Closed, ValidLayer, Roomy;
    LayerCheckedMeaning(layer, limits);
    if !limits.Elements(|layer.directories|) {
      return false;
    }
    var known: set<bytes>, files: set<bytes> := {[]}, {};
    NothingNeeded(layer, limits);
    for i := 0 to |layer.directories|
      invariant DirectoriesChecked(layer, i, limits) && Roomy(layer, i, limits)
      invariant known == {[]} + Closure(layer.directories[..i]) && files == Files(layer.directories[..i])
    {
      var directory := layer.directories[i];
      KnownGrows(layer, i, known, files);
      RoomyNext(layer, i, known, files, limits);
      if !HeaderChecked(layer, i, limits) {
        return false;
      }
      var room, more := AddParents(known, directory.path, limits);
      if !room {
        RoomyEarlier(layer, i + 1, limits);
        return false;
      }
      known := more;
      var good, all := CheckEntries(directory, files, limits);
      if !good {
        RoomyEarlier(layer, i + 1, limits);
        return false;
      }
      files := all;
    }
    assert layer.directories[..|layer.directories|] == layer.directories;
    forall i | 0 <= i < |layer.directories| ensures ValidDirectory(layer.directories[i], limits) {
      HeaderAndEntries(layer, i, limits);
    }
    RootIsNotAFile(layer.directories, limits);
    ok := known !! files;
  }
}
