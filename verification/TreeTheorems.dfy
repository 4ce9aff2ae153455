/** Merging is a per-path fold over layers, whatever the order of directories within a layer. */
module TreeTheorems {
  import opened Binary
  import opened Cbor
  import opened Paths
  import opened Resources
  import opened ResourceChecks
  import opened Trees
  import opened TreeProofs

  /** Room for everything that a layer adds; nothing is checked when it adds nothing. */
  predicate LayerSpace(base: Tree, directories: seq<Directory>, limits: Limits) {
    Space(base, Closure(directories), Nodes(directories).Keys, limits)
  }

  lemma OverlayKeys(base: Tree, directories: seq<Directory>)
    requires IsDir(base, [])
    ensures Overlay(base, directories).Keys == base.Keys + Closure(directories) + Nodes(directories).Keys
  {
    hide Closure, Nodes, Records;
    forall path | path in Records(directories) ensures path == [] || path in Closure(directories) {
      RecordsAreNeeded(directories, path);
    }
  }

  lemma SpaceStep(base: set<bytes>, dirs: set<bytes>, leaves: set<bytes>, more: set<bytes>, added: set<bytes>, limit: nat)
    ensures var here := base + dirs + leaves;
            var all := base + (dirs + more) + (leaves + added);
            ((dirs <= base && leaves == {}) || |here| <= limit) && ((more <= here && added == {}) || |here + more + added| <= limit)
            <==> ((dirs + more <= base && leaves + added == {}) || |all| <= limit)
  {
    var here := base + dirs + leaves;
    var all := base + (dirs + more) + (leaves + added);
    assert here + more + added == all;
    SubsetSize(here, all);
    if more <= here && added == {} {
      assert all == here;
    }
    if dirs <= base && leaves == {} {
      assert here == base;
    }
  }

  lemma LayerSpaceStep(base: Tree, directories: seq<Directory>, limits: Limits)
    requires TreeShape(base) && Coherent(directories) && directories != []
    ensures var front, last := directories[..|directories| - 1], directories[|directories| - 1];
            LayerSpace(base, front, limits)
            && Space(Overlay(base, front), Ancestors(last.path), NodesIn(last.path, last.entries).Keys, limits)
            <==> LayerSpace(base, directories, limits)
  {
    hide Closure, Nodes, Records, Ancestors, NodesIn, Coherent, Overlay;
    CoherentFront(directories);
    var front, last := directories[..|directories| - 1], directories[|directories| - 1];
    OverlayKeys(base, front);
    SpaceStep(base.Keys, Closure(front), Nodes(front).Keys, Ancestors(last.path), NodesIn(last.path, last.entries).Keys, limits.maxElements);
    assert Nodes(directories).Keys == Nodes(front).Keys + NodesIn(last.path, last.entries).Keys;
  }

  lemma RecordsStep(base: Tree, directories: seq<Directory>, limits: Limits)
    requires TreeShape(base) && Coherent(directories) && directories != []
    requires Clear(base, directories[..|directories| - 1]) && LayerSpace(base, directories[..|directories| - 1], limits)
    ensures var front, last := directories[..|directories| - 1], directories[|directories| - 1];
            var next := WithRecord(Overlay(base, front), last, limits);
            && (next.Some? <==> Clear(base, directories) && LayerSpace(base, directories, limits))
            && (next.Some? ==> next.value == Overlay(base, directories))
  {
    hide TreeShape, Clear, LayerSpace, Overlay, Recorded, WithRecord, Space, Closure, Nodes, NodesIn, Ancestors, DirsOnly, NoDirs, ComponentNames;
    var front, last := directories[..|directories| - 1], directories[|directories| - 1];
    CoherentFront(directories);
    OverlayKeepsShape(base, front);
    OverlayStep(base, directories);
    LayerSpaceStep(base, directories, limits);
    RecordMeaning(Overlay(base, front), last, limits);
  }

  lemma LayerSpaceFront(base: Tree, directories: seq<Directory>, limits: Limits)
    requires TreeShape(base) && Coherent(directories) && directories != []
    ensures Coherent(directories[..|directories| - 1])
    ensures LayerSpace(base, directories, limits) ==> LayerSpace(base, directories[..|directories| - 1], limits)
    ensures Clear(base, directories) ==> Clear(base, directories[..|directories| - 1])
  {
    hide LayerSpace, Space, Clear, Closure, Nodes;
    CoherentFront(directories);
    LayerSpaceStep(base, directories, limits);
    ClearFront(base, directories);
  }

  lemma NoRecords(base: Tree, limits: Limits)
    ensures Overlay(base, []) == base && Clear(base, []) && LayerSpace(base, [], limits)
  {
  }

  /** The records of a coherent layer apply exactly when they are clear and fit, and then overlay the tree. */
  lemma {:induction false} RecordsMeaning(base: Tree, directories: seq<Directory>, limits: Limits)
    requires TreeShape(base) && Coherent(directories)
    ensures WithRecords(base, directories, limits).Some? <==> Clear(base, directories) && LayerSpace(base, directories, limits)
    ensures WithRecords(base, directories, limits).Some? ==> WithRecords(base, directories, limits).value == Overlay(base, directories)
    decreases |directories|
  {
    hide TreeShape, Coherent, Clear, LayerSpace, Overlay, WithRecord;
    if directories == [] {
      NoRecords(base, limits);
    } else {
      LayerSpaceFront(base, directories, limits);
      RecordsMeaning(base, directories[..|directories| - 1], limits);
      if Clear(base, directories[..|directories| - 1]) && LayerSpace(base, directories[..|directories| - 1], limits) {
        RecordsStep(base, directories, limits);
      }
    }
  }

  lemma ClearFront(base: Tree, directories: seq<Directory>)
    requires Coherent(directories) && directories != []
    ensures Clear(base, directories) ==> Clear(base, directories[..|directories| - 1])
  {
    hide Closure, Nodes, Coherent;
    CoherentFront(directories);
  }

  // ---------- One layer ----------

  lemma CutLookup(nodes: Tree, directories: seq<Directory>, path: bytes)
    ensures Lookup(Cut(nodes, Tombs(directories)), path) == Kept(directories, path, Lookup(nodes, path))
  {
  }

  /** No path of the layer conflicts with what the earlier layers left. */
  ghost predicate NoConflict(nodes: Tree, directories: seq<Directory>) {
    forall path: bytes :: After(directories, path, Lookup(nodes, path)).Some?
  }

  lemma NoConflictMeaning(nodes: Tree, directories: seq<Directory>)
    requires TreeShape(nodes) && Coherent(directories)
    ensures NoConflict(nodes, directories) <==> Clear(Cut(nodes, Tombs(directories)), directories)
  {
    hide Closure, Nodes, Records, Tombs, ComponentNames;
    var base := Cut(nodes, Tombs(directories));
    forall path: bytes
      ensures After(directories, path, Lookup(nodes, path)).Some?
              <==> (path in Closure(directories) && path in base ==> base[path].Dir?) && (path in Nodes(directories) ==> !IsDir(base, path))
    {
      CutLookup(nodes, directories, path);
      RootIsNotLeaf(directories);
      if path in Records(directories) {
        RecordsAreNeeded(directories, path);
      }
    }
    if NoConflict(nodes, directories) {
      assert forall path :: path in Closure(directories) && path in base ==> base[path].Dir?;
    }
  }

  lemma OverlayLookup(nodes: Tree, directories: seq<Directory>, path: bytes)
    requires TreeShape(nodes) && Coherent(directories) && Clear(Cut(nodes, Tombs(directories)), directories)
    ensures After(directories, path, Lookup(nodes, path)) == Some(Lookup(Overlay(Cut(nodes, Tombs(directories)), directories), path))
  {
    hide Closure, Nodes, Records, Tombs, ComponentNames;
    var base := Cut(nodes, Tombs(directories));
    CutLookup(nodes, directories, path);
    RootIsNotLeaf(directories);
    if path in Records(directories) {
      RecordsAreNeeded(directories, path);
    }
  }

  /**
   * Merging a layer gives each path its own outcome. It fails exactly when some path conflicts or the
   * merged tree has too many nodes.
   */
  lemma LayerMeaning(nodes: Tree, directories: seq<Directory>, limits: Limits)
    requires TreeShape(nodes) && Coherent(directories)
    ensures WithLayer(nodes, directories, limits).Some? <==>
              NoConflict(nodes, directories) && LayerSpace(Cut(nodes, Tombs(directories)), directories, limits)
    ensures WithLayer(nodes, directories, limits).Some? ==>
              var merged := WithLayer(nodes, directories, limits).value;
              && TreeShape(merged)
              && (forall path: bytes :: After(directories, path, Lookup(nodes, path)) == Some(Lookup(merged, path)))
              && (forall path :: IsDir(nodes, path) ==> IsDir(merged, path))
  {
    hide TreeShape, Coherent, Clear, LayerSpace, Overlay, WithRecords, Tombs, NoConflict, Cut, After;
    var base := Cut(nodes, Tombs(directories));
    TombstonesCut(nodes, directories);
    CutKeepsShape(nodes, Tombs(directories));
    RecordsMeaning(base, directories, limits);
    NoConflictMeaning(nodes, directories);
    if WithLayer(nodes, directories, limits).Some? {
      OverlayKeepsShape(base, directories);
      forall path: bytes ensures After(directories, path, Lookup(nodes, path)) == Some(Lookup(Overlay(base, directories), path)) {
        OverlayLookup(nodes, directories, path);
      }
      forall path | IsDir(nodes, path) ensures IsDir(Overlay(base, directories), path) {
        assert After(directories, path, Lookup(nodes, path)) == Some(Lookup(Overlay(base, directories), path));
        DirsStay(directories, path, nodes[path]);
      }
    }
  }

  lemma DirsStay(directories: seq<Directory>, path: bytes, node: Node)
    requires node.Dir? && After(directories, path, Some(node)).Some?
    ensures After(directories, path, Some(node)).value.Some? && After(directories, path, Some(node)).value.value.Dir?
  {
    hide Closure, Nodes, Records, Tombs;
  }

  // ---------- All layers ----------

  /** The fold of one path over the layers that match. */
  function Folded(layers: seq<Layer>, matches: Item -> Option<bool>, path: bytes): Option<Option<Node>> {
    if layers == [] then Some(Lookup(EMPTY_TREE, path))
    else
      var last := layers[|layers| - 1];
      match Folded(layers[..|layers| - 1], matches, path)
      case None => None
      case Some(before) => if matches(last.condition) == Some(true) then After(last.directories, path, before) else Some(before)
  }

  /** No path conflicts in any layer. */
  ghost predicate AllFold(layers: seq<Layer>, matches: Item -> Option<bool>) {
    forall path: bytes :: Folded(layers, matches, path).Some?
  }

  ghost predicate AllCoherent(layers: seq<Layer>) {
    forall i :: 0 <= i < |layers| ==> Coherent(layers[i].directories)
  }

  /** Every condition can be evaluated, and the tree fits after each matching layer. */
  ghost predicate Evaluates(layers: seq<Layer>, matches: Item -> Option<bool>, limits: Limits) {
    forall i :: 0 <= i < |layers| ==>
      matches(layers[i].condition).Some?
      && (matches(layers[i].condition) == Some(true) ==> FitsAfter(layers[..i], layers[i], matches, limits))
  }

  ghost predicate FitsAfter(earlier: seq<Layer>, layer: Layer, matches: Item -> Option<bool>, limits: Limits) {
    Merged(earlier, matches, limits).Some? ==>
      LayerSpace(Cut(Merged(earlier, matches, limits).value, Tombs(layer.directories)), layer.directories, limits)
  }

  lemma EmptyTreeShape()
    ensures TreeShape(EMPTY_TREE)
  {
  }

  /**
   * A merged tree holds at each path exactly what the fold of that path gives; its root is a directory and
   * every node's parent is a directory.
   */
  lemma {:induction false} MergedIsFold(layers: seq<Layer>, matches: Item -> Option<bool>, limits: Limits)
    requires AllCoherent(layers) && Merged(layers, matches, limits).Some?
    ensures TreeShape(Merged(layers, matches, limits).value)
    ensures forall path: bytes :: Folded(layers, matches, path) == Some(Lookup(Merged(layers, matches, limits).value, path))
    decreases |layers|
  {
    hide WithLayer, After, TreeShape, Coherent, Lookup, NoConflict, LayerSpace;
    if layers == [] {
      EmptyTreeShape();
    } else {
      var front, last := layers[..|layers| - 1], layers[|layers| - 1];
      MergedIsFold(front, matches, limits);
      var before := Merged(front, matches, limits).value;
      LayerMeaning(before, last.directories, limits);
      forall path: bytes ensures Folded(layers, matches, path) == Some(Lookup(Merged(layers, matches, limits).value, path)) {
        assert Folded(front, matches, path) == Some(Lookup(before, path));
      }
    }
  }

  /** Merging succeeds exactly when every condition evaluates, no path's fold conflicts, and the trees fit. */
  lemma {:induction false} MergedExactlyWithoutConflict(layers: seq<Layer>, matches: Item -> Option<bool>, limits: Limits)
    requires AllCoherent(layers)
    ensures Merged(layers, matches, limits).Some? <==>
              Evaluates(layers, matches, limits) && AllFold(layers, matches)
    decreases |layers|
  {
    hide WithLayer, After, TreeShape, Coherent, Lookup, LayerSpace, FitsAfter;
    if layers != [] {
      var front, last := layers[..|layers| - 1], layers[|layers| - 1];
      MergedExactlyWithoutConflict(front, matches, limits);
      EvaluatesStep(layers, matches, limits);
      if Merged(front, matches, limits).Some? {
        MergedIsFold(front, matches, limits);
        var before := Merged(front, matches, limits).value;
        LayerMeaning(before, last.directories, limits);
        FitsAfterMeaning(front, last, matches, limits);
        if matches(last.condition) == Some(true) {
          forall path: bytes ensures Folded(layers, matches, path) == After(last.directories, path, Lookup(before, path)) {
            assert Folded(front, matches, path) == Some(Lookup(before, path));
          }
          FoldedConflict(layers, matches, before);
        } else {
          forall path: bytes ensures Folded(layers, matches, path) == Some(Lookup(before, path)) {
            assert Folded(front, matches, path) == Some(Lookup(before, path));
          }
        }
      } else if AllFold(layers, matches) {
        FoldedFront(layers, matches);
      }
    }
  }

  lemma FoldedFront(layers: seq<Layer>, matches: Item -> Option<bool>)
    requires layers != [] && AllFold(layers, matches)
    ensures AllFold(layers[..|layers| - 1], matches)
  {
    hide After, Lookup;
    var front := layers[..|layers| - 1];
    forall path: bytes ensures Folded(front, matches, path).Some? {
      assert Folded(layers, matches, path).Some?;
    }
  }

  lemma FoldedConflict(layers: seq<Layer>, matches: Item -> Option<bool>, before: Tree)
    requires layers != []
    requires forall path: bytes :: Folded(layers, matches, path) == After(layers[|layers| - 1].directories, path, Lookup(before, path))
    ensures AllFold(layers, matches) <==> NoConflict(before, layers[|layers| - 1].directories)
  {
    hide Folded, After, Lookup;
    var directories := layers[|layers| - 1].directories;
    if NoConflict(before, directories) {
      forall path: bytes ensures Folded(layers, matches, path).Some? {
        assert After(directories, path, Lookup(before, path)).Some?;
      }
    } else {
      var path: bytes :| !After(directories, path, Lookup(before, path)).Some?;
      assert !Folded(layers, matches, path).Some?;
    }
  }

  lemma FitsAfterMeaning(earlier: seq<Layer>, layer: Layer, matches: Item -> Option<bool>, limits: Limits)
    requires Merged(earlier, matches, limits).Some?
    ensures FitsAfter(earlier, layer, matches, limits)
            <==> LayerSpace(Cut(Merged(earlier, matches, limits).value, Tombs(layer.directories)), layer.directories, limits)
  {
  }

  lemma EvaluatesStep(layers: seq<Layer>, matches: Item -> Option<bool>, limits: Limits)
    requires layers != []
    ensures var front, last := layers[..|layers| - 1], layers[|layers| - 1];
            Evaluates(layers, matches, limits) <==>
              Evaluates(front, matches, limits) && matches(last.condition).Some?
              && (matches(last.condition) == Some(true) ==> FitsAfter(front, last, matches, limits))
  {
    hide FitsAfter;
    var front := layers[..|layers| - 1];
    assert forall i :: 0 <= i < |front| ==> front[i] == layers[i] && front[..i] == layers[..i];
  }

  /** A path that is a directory after some layers is a directory after all of them. */
  lemma {:induction false} DirectoriesAreNeverRemoved(layers: seq<Layer>, count: nat, matches: Item -> Option<bool>, limits: Limits, path: bytes)
    requires AllCoherent(layers) && count <= |layers|
    requires Merged(layers, matches, limits).Some? && Merged(layers[..count], matches, limits).Some?
    requires IsDir(Merged(layers[..count], matches, limits).value, path)
    ensures IsDir(Merged(layers, matches, limits).value, path)
    decreases |layers|
  {
    hide WithLayer, TreeShape, Coherent, After, NoConflict, LayerSpace;
    if count == |layers| {
      assert layers[..count] == layers;
    } else {
      var front, last := layers[..|layers| - 1], layers[|layers| - 1];
      assert front[..count] == layers[..count];
      DirectoriesAreNeverRemoved(front, count, matches, limits, path);
      MergedIsFold(front, matches, limits);
      LayerMeaning(Merged(front, matches, limits).value, last.directories, limits);
    }
  }

  // ---------- Valid layers ----------

  lemma {:induction false} NodesInAreFiles(path: bytes, entries: seq<Entry>)
    ensures NodesIn(path, entries).Keys == FilesIn(path, entries)
    decreases |entries|
  {
    hide Joined;
    NoFiles(path);
    if entries != [] {
      var front, last := entries[..|entries| - 1], entries[|entries| - 1];
      assert entries == front + [last];
      NodesInAreFiles(path, front);
      FilesInAppend(path, front, last);
      OneFile(path, last);
    }
  }

  lemma {:induction false} NodesAreFiles(directories: seq<Directory>)
    ensures Nodes(directories).Keys == Files(directories)
    decreases |directories|
  {
    hide NodesIn, FilesIn;
    if directories != [] {
      var front, last := directories[..|directories| - 1], directories[|directories| - 1];
      assert directories == front + [last];
      NodesAreFiles(front);
      FilesAppend(front, last);
      NodesInAreFiles(last.path, last.entries);
    }
  }

  /** Structural validation is what merging relies on. */
  lemma ValidIsCoherent(layer: Layer, limits: Limits)
    requires ValidLayer(layer, limits)
    ensures Coherent(layer.directories)
  {
    hide Closure, Files, Nodes, ValidPath, ValidMetadata, Before;
    NodesAreFiles(layer.directories);
    forall i, j | 0 <= i < |layer.directories| && 0 <= j < |layer.directories[i].entries|
      ensures Component(layer.directories[i].entries[j].name)
    {
      assert ValidDirectory(layer.directories[i], limits);
      assert ValidEntry(layer.directories[i].entries[j], limits);
    }
  }

  /** Every tree merged from a valid root has its shape, and holds each path's fold. */
  lemma ValidRootMerges(root: Root, matches: Item -> Option<bool>, limits: Limits)
    requires ValidRoot(root, limits)
    ensures Merged(root.layers, matches, limits).Some? <==> Evaluates(root.layers, matches, limits) && AllFold(root.layers, matches)
    ensures Merged(root.layers, matches, limits).Some? ==>
              var merged := Merged(root.layers, matches, limits).value;
              TreeShape(merged) && forall path: bytes :: Folded(root.layers, matches, path) == Some(Lookup(merged, path))
  {
    hide ValidLayer, Coherent, Evaluates, AllFold, Merged, Folded, TreeShape, ValidRootMetadata, Lookup;
    forall i | 0 <= i < |root.layers| ensures Coherent(root.layers[i].directories) {
      ValidIsCoherent(root.layers[i], limits);
    }
    MergedExactlyWithoutConflict(root.layers, matches, limits);
    if Merged(root.layers, matches, limits).Some? {
      MergedIsFold(root.layers, matches, limits);
    }
  }

  // ---------- The order of directories ----------

  ghost predicate DistinctPaths(directories: seq<Directory>) {
    forall i, j :: 0 <= i < j < |directories| ==> directories[i].path != directories[j].path
  }

  ghost predicate SameDirectories(a: seq<Directory>, b: seq<Directory>) {
    forall directory :: directory in a <==> directory in b
  }

  lemma {:induction false} ClosureHas(directories: seq<Directory>, path: bytes)
    ensures path in Closure(directories) <==> exists directory :: directory in directories && path in Ancestors(directory.path)
    decreases |directories|
  {
    hide Ancestors;
    if directories != [] {
      ClosureHas(directories[1..], path);
      assert forall directory :: directory in directories <==> directory == directories[0] || directory in directories[1..];
    }
  }

  lemma SnocHas(directories: seq<Directory>)
    requires directories != []
    ensures forall directory :: directory in directories
              <==> directory == directories[|directories| - 1] || directory in directories[..|directories| - 1]
  {
    assert directories == directories[..|directories| - 1] + [directories[|directories| - 1]];
  }

  lemma {:induction false} TombsHas(directories: seq<Directory>, path: bytes)
    ensures path in Tombs(directories) <==> exists directory :: directory in directories && path in TombsIn(directory.path, directory.entries)
    decreases |directories|
  {
    hide TombsIn;
    if directories != [] {
      TombsHas(directories[..|directories| - 1], path);
      SnocHas(directories);
    }
  }

  lemma DistinctFront(directories: seq<Directory>)
    requires DistinctPaths(directories) && directories != []
    ensures DistinctPaths(directories[..|directories| - 1])
    ensures forall directory :: directory in directories[..|directories| - 1] ==> directory.path != directories[|directories| - 1].path
  {
  }

  lemma {:induction false} RecordsHas(directories: seq<Directory>, path: bytes, metadata: Item)
    requires DistinctPaths(directories)
    ensures path in Records(directories) && Records(directories)[path] == metadata
            <==> exists directory :: directory in directories && directory.path == path && directory.metadata == metadata
    decreases |directories|
  {
    hide DistinctPaths;
    if directories != [] {
      DistinctFront(directories);
      RecordsHas(directories[..|directories| - 1], path, metadata);
      SnocHas(directories);
    }
  }

  lemma {:induction false} NodesHas(directories: seq<Directory>, leaf: bytes, node: Node)
    requires DistinctPaths(directories) && ComponentNames(directories)
    ensures leaf in Nodes(directories) && Nodes(directories)[leaf] == node
            <==> exists directory :: directory in directories && leaf in NodesIn(directory.path, directory.entries)
                                     && NodesIn(directory.path, directory.entries)[leaf] == node
    decreases |directories|
  {
    hide DistinctPaths, NodesIn;
    if directories != [] {
      var front, last := directories[..|directories| - 1], directories[|directories| - 1];
      DistinctFront(directories);
      NodesHas(front, leaf, node);
      SnocHas(directories);
      forall directory | directory in directories && leaf in NodesIn(directory.path, directory.entries) ensures directory.path == Parent(leaf) {
        var i :| 0 <= i < |directories| && directories[i] == directory;
        LeavesAreBelow(directory.path, directory.entries, leaf);
      }
    }
  }

  lemma ComponentNamesHas(a: seq<Directory>, b: seq<Directory>)
    requires SameDirectories(a, b) && ComponentNames(a)
    ensures ComponentNames(b)
  {
    forall i, j | 0 <= i < |b| && 0 <= j < |b[i].entries| ensures Component(b[i].entries[j].name) {
      assert b[i] in a;
    }
  }

  lemma RecordsWithin(a: seq<Directory>, b: seq<Directory>)
    requires SameDirectories(a, b) && DistinctPaths(a) && DistinctPaths(b)
    ensures forall path :: path in Records(a) ==> path in Records(b) && Records(b)[path] == Records(a)[path]
  {
    hide Records, DistinctPaths, SameDirectories;
    SameMembers(a, b);
    forall path | path in Records(a) ensures path in Records(b) && Records(b)[path] == Records(a)[path] {
      RecordsHas(a, path, Records(a)[path]);
      RecordsHas(b, path, Records(a)[path]);
    }
  }

  lemma SameRecords(a: seq<Directory>, b: seq<Directory>)
    requires SameDirectories(a, b) && DistinctPaths(a) && DistinctPaths(b)
    ensures Records(a) == Records(b)
  {
    hide Records, DistinctPaths;
    RecordsWithin(a, b);
    RecordsWithin(b, a);
  }

  lemma SameMembers(a: seq<Directory>, b: seq<Directory>)
    requires SameDirectories(a, b)
    ensures forall directory :: directory in a <==> directory in b
  {
  }

  lemma NodesWithin(a: seq<Directory>, b: seq<Directory>)
    requires SameDirectories(a, b) && DistinctPaths(a) && DistinctPaths(b) && ComponentNames(a) && ComponentNames(b)
    ensures forall leaf :: leaf in Nodes(a) ==> leaf in Nodes(b) && Nodes(b)[leaf] == Nodes(a)[leaf]
  {
    hide Nodes, NodesIn, DistinctPaths, SameDirectories, ComponentNames;
    SameMembers(a, b);
    forall leaf | leaf in Nodes(a) ensures leaf in Nodes(b) && Nodes(b)[leaf] == Nodes(a)[leaf] {
      NodesHas(a, leaf, Nodes(a)[leaf]);
      NodesHas(b, leaf, Nodes(a)[leaf]);
    }
  }

  lemma SameNodes(a: seq<Directory>, b: seq<Directory>)
    requires SameDirectories(a, b) && DistinctPaths(a) && DistinctPaths(b) && ComponentNames(a) && ComponentNames(b)
    ensures Nodes(a) == Nodes(b)
  {
    hide Nodes, DistinctPaths, ComponentNames;
    NodesWithin(a, b);
    NodesWithin(b, a);
  }

  lemma SameSets(a: seq<Directory>, b: seq<Directory>)
    requires SameDirectories(a, b)
    ensures Closure(a) == Closure(b) && Tombs(a) == Tombs(b)
  {
    hide Closure, Tombs, TombsIn, Ancestors;
    forall path: bytes ensures (path in Closure(a) <==> path in Closure(b)) && (path in Tombs(a) <==> path in Tombs(b)) {
      ClosureHas(a, path);
      ClosureHas(b, path);
      TombsHas(a, path);
      TombsHas(b, path);
    }
  }

  /** Rearranging the directories of a layer changes neither its result nor whether there is one. */
  lemma DirectoryOrderIsIrrelevant(nodes: Tree, a: seq<Directory>, b: seq<Directory>, limits: Limits)
    requires TreeShape(nodes) && Coherent(a) && DistinctPaths(a) && DistinctPaths(b) && SameDirectories(a, b)
    ensures WithLayer(nodes, a, limits) == WithLayer(nodes, b, limits)
  {
    hide TreeShape, Clear, WithRecords, Closure, Nodes, Records, Tombs, ComponentNames, DistinctPaths, SameDirectories;
    ComponentNamesHas(a, b);
    SameSets(a, b);
    SameNodes(a, b);
    SameRecords(a, b);
    CutKeepsShape(nodes, Tombs(a));
    TombstonesCut(nodes, a);
    TombstonesCut(nodes, b);
    RecordsMeaning(Cut(nodes, Tombs(a)), a, limits);
    RecordsMeaning(Cut(nodes, Tombs(b)), b, limits);
    SameOverlay(Cut(nodes, Tombs(a)), a, b, limits);
  }

  lemma SameOverlay(base: Tree, a: seq<Directory>, b: seq<Directory>, limits: Limits)
    requires Closure(a) == Closure(b) && Nodes(a) == Nodes(b) && Records(a) == Records(b)
    ensures Overlay(base, a) == Overlay(base, b)
    ensures Clear(base, a) <==> Clear(base, b)
    ensures LayerSpace(base, a, limits) <==> LayerSpace(base, b, limits)
  {
    hide Closure, Nodes, Records;
  }
}
