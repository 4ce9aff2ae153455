/** What merging a layer means for each path on its own. */
module TreeProofs {
  import opened Binary
  import opened Cbor
  import opened Paths
  import opened Resources
  import opened ResourceChecks
  import opened Trees

  // ---------- What a layer says about each path ----------

  function NodesIn(path: bytes, entries: seq<Entry>): Tree {
    if entries == [] then map[]
    else
      var last := entries[|entries| - 1];
      var before := NodesIn(path, entries[..|entries| - 1]);
      if last.Tombstone? then before else before[Joined(path, last.name) := NodeOf(last)]
  }

  function Nodes(directories: seq<Directory>): Tree {
    if directories == [] then map[]
    else
      var last := directories[|directories| - 1];
      Nodes(directories[..|directories| - 1]) + NodesIn(last.path, last.entries)
  }

  function Records(directories: seq<Directory>): map<bytes, Item> {
    if directories == [] then map[]
    else
      var last := directories[|directories| - 1];
      Records(directories[..|directories| - 1])[last.path := last.metadata]
  }

  function TombsIn(path: bytes, entries: seq<Entry>): set<bytes> {
    if entries == [] then {}
    else
      var last := entries[|entries| - 1];
      TombsIn(path, entries[..|entries| - 1]) + if last.Tombstone? then {Joined(path, last.name)} else {}
  }

  function Tombs(directories: seq<Directory>): set<bytes> {
    if directories == [] then {}
    else
      var last := directories[|directories| - 1];
      Tombs(directories[..|directories| - 1]) + TombsIn(last.path, last.entries)
  }

  function Lookup(nodes: Tree, path: bytes): Option<Node> {
    if path in nodes then Some(nodes[path]) else None
  }

  /** What a tombstone leaves of a node. */
  function Kept(directories: seq<Directory>, path: bytes, before: Option<Node>): Option<Node> {
    if path in Tombs(directories) && before.Some? && !before.value.Dir? then None else before
  }

  /**
   * A layer's effect on one path: its tombstone first, then the directories it needs, then its entry.
   * Nothing means that the path conflicts.
   */
  function After(directories: seq<Directory>, path: bytes, before: Option<Node>): Option<Option<Node>> {
    var kept := Kept(directories, path, before);
    if path in Closure(directories) || path in Records(directories) then
      if kept.Some? && !kept.value.Dir? then None
      else if path in Records(directories) then Some(Some(Dir(Some(Records(directories)[path]))))
      else Some(Some(if kept.Some? then kept.value else Dir(None)))
    else if path in Nodes(directories) then
      if kept.Some? && kept.value.Dir? then None else Some(Some(Nodes(directories)[path]))
    else Some(kept)
  }

  /** The root is a directory, and so is the parent of every node. */
  ghost predicate TreeShape(nodes: Tree) {
    IsDir(nodes, []) && forall path :: path in nodes && path != [] ==> IsDir(nodes, Parent(path))
  }

  predicate ComponentNames(directories: seq<Directory>) {
    forall i, j :: 0 <= i < |directories| && 0 <= j < |directories[i].entries| ==> Component(directories[i].entries[j].name)
  }

  /** No path of the layer is both a directory and something else. */
  ghost predicate Coherent(directories: seq<Directory>) {
    ComponentNames(directories) && Closure(directories) !! Nodes(directories).Keys
  }

  // ---------- Tombstones ----------

  function Cut(nodes: Tree, names: set<bytes>): Tree {
    map path | path in nodes && !(path in names && !nodes[path].Dir?) :: nodes[path]
  }

  lemma CutTwice(nodes: Tree, a: set<bytes>, b: set<bytes>)
    ensures Cut(Cut(nodes, a), b) == Cut(nodes, a + b)
  {
  }

  lemma {:induction false} NamesCut(nodes: Tree, path: bytes, entries: seq<Entry>)
    ensures WithoutNames(nodes, path, entries) == Cut(nodes, TombsIn(path, entries))
    decreases |entries|
  {
    if entries == [] {
      assert Cut(nodes, {}) == nodes;
    } else {
      var front, last := entries[..|entries| - 1], entries[|entries| - 1];
      NamesCut(nodes, path, front);
      var before := Cut(nodes, TombsIn(path, front));
      if last.Tombstone? {
        CutTwice(nodes, TombsIn(path, front), {Joined(path, last.name)});
        assert Cut(before, {Joined(path, last.name)})
               == if IsDir(before, Joined(path, last.name)) then before else before - {Joined(path, last.name)};
      }
      assert TombsIn(path, front) + {} == TombsIn(path, front);
    }
  }

  lemma {:induction false} TombstonesCut(nodes: Tree, directories: seq<Directory>)
    ensures WithoutTombstones(nodes, directories) == Cut(nodes, Tombs(directories))
    decreases |directories|
  {
    if directories == [] {
      assert Cut(nodes, {}) == nodes;
    } else {
      var front, last := directories[..|directories| - 1], directories[|directories| - 1];
      TombstonesCut(nodes, front);
      NamesCut(Cut(nodes, Tombs(front)), last.path, last.entries);
      CutTwice(nodes, Tombs(front), TombsIn(last.path, last.entries));
    }
  }

  lemma CutKeepsShape(nodes: Tree, names: set<bytes>)
    requires TreeShape(nodes)
    ensures TreeShape(Cut(nodes, names))
  {
  }

  // ---------- Implicit directories ----------

  function Filled(nodes: Tree, paths: set<bytes>): (r: Tree)
    ensures r.Keys == nodes.Keys + paths
  {
    map path | path in nodes.Keys + paths :: if path in nodes then nodes[path] else Dir(None)
  }

  /** Below an existing directory on the way up, everything exists already. */
  ghost predicate ShapeAlong(nodes: Tree, path: bytes) {
    forall q, r :: q in Ancestors(path) && IsDir(nodes, q) && r in Ancestors(q) ==> IsDir(nodes, r)
  }

  lemma {:induction false} DirsAbove(nodes: Tree, path: bytes, above: bytes)
    requires TreeShape(nodes) && IsDir(nodes, path) && above in Ancestors(path)
    ensures IsDir(nodes, above)
    decreases |path|
  {
    if above != path {
      DirsAbove(nodes, Parent(path), above);
    }
  }

  lemma ShapeIsAlong(nodes: Tree, path: bytes)
    requires TreeShape(nodes)
    ensures ShapeAlong(nodes, path)
  {
    hide TreeShape, Ancestors;
    forall q, r | q in Ancestors(path) && IsDir(nodes, q) && r in Ancestors(q) ensures IsDir(nodes, r) {
      DirsAbove(nodes, q, r);
    }
  }

  predicate DirsOnly(nodes: Tree, paths: set<bytes>) {
    forall path :: path in paths && path in nodes ==> nodes[path].Dir?
  }

  predicate Room(nodes: Tree, paths: set<bytes>, limits: Limits) {
    paths <= nodes.Keys || limits.Elements(|nodes.Keys + paths|)
  }

  lemma FilledAlready(nodes: Tree, paths: set<bytes>)
    requires paths <= nodes.Keys
    ensures Filled(nodes, paths) == nodes && nodes.Keys + paths == nodes.Keys
  {
  }

  /** Parents can be added exactly when nothing else stands there and there is room. */
  lemma {:induction false} DirectoryMeaning(nodes: Tree, path: bytes, limits: Limits)
    requires ShapeAlong(nodes, path)
    ensures WithDirectory(nodes, path, limits).Some? <==> DirsOnly(nodes, Ancestors(path)) && Room(nodes, Ancestors(path), limits)
    ensures WithDirectory(nodes, path, limits).Some? ==> WithDirectory(nodes, path, limits).value == Filled(nodes, Ancestors(path))
    decreases |path|
  {
    hide Filled, Room;
    if path == [] {
      FilledAlready(nodes, {});
      RoomAlready(nodes, {}, limits);
    } else if path in nodes {
      assert path in Ancestors(path);
      if nodes[path].Dir? {
        assert forall r :: r in Ancestors(path) ==> IsDir(nodes, r);
        FilledAlready(nodes, Ancestors(path));
        RoomAlready(nodes, Ancestors(path), limits);
      }
    } else {
      hide ShapeAlong, DirsOnly;
      StepShape(nodes, path);
      StepRoom(nodes, path, limits);
      if limits.Elements(|nodes[path := Dir(None)]|) {
        DirectoryMeaning(nodes[path := Dir(None)], Parent(path), limits);
      }
    }
  }

  lemma RoomAlready(nodes: Tree, paths: set<bytes>, limits: Limits)
    requires paths <= nodes.Keys
    ensures Room(nodes, paths, limits)
  {
  }

  lemma NotAboveItself(path: bytes, above: bytes)
    requires path != [] && above in Ancestors(Parent(path))
    ensures above != path && above in Ancestors(path)
  {
    AncestorsAreAbove(Parent(path), above);
  }

  lemma StepShape(nodes: Tree, path: bytes)
    requires ShapeAlong(nodes, path) && path != [] && path !in nodes
    ensures var more := nodes[path := Dir(None)];
            && ShapeAlong(more, Parent(path))
            && (DirsOnly(more, Ancestors(Parent(path))) <==> DirsOnly(nodes, Ancestors(path)))
            && Filled(more, Ancestors(Parent(path))) == Filled(nodes, Ancestors(path))
  {
    hide Ancestors;
    var more, above := nodes[path := Dir(None)], Ancestors(Parent(path));
    AncestorsUnfold(path);
    forall q, r | q in above && IsDir(more, q) && r in Ancestors(q) ensures IsDir(more, r) {
      NotAboveItself(path, q);
      assert IsDir(nodes, q);
      assert IsDir(nodes, r);
    }
    forall q | q in above ensures q != path {
      NotAboveItself(path, q);
    }
  }

  lemma AncestorsUnfold(path: bytes)
    requires path != []
    ensures Ancestors(path) == {path} + Ancestors(Parent(path))
  {
  }

  /** Room for one more key and then for the rest is room for all of them. */
  lemma RoomStep(keys: set<bytes>, path: bytes, above: set<bytes>, limits: Limits)
    requires path !in keys
    ensures limits.Elements(|keys + {path}|) && (above <= keys + {path} || limits.Elements(|keys + {path} + above|))
            <==> {path} + above <= keys || limits.Elements(|keys + ({path} + above)|)
  {
    assert keys + {path} + above == keys + ({path} + above);
    SubsetSize(keys + {path}, keys + ({path} + above));
    if above <= keys + {path} {
      assert keys + {path} + above == keys + {path};
    }
  }

  lemma StepRoom(nodes: Tree, path: bytes, limits: Limits)
    requires path != [] && path !in nodes
    ensures var more := nodes[path := Dir(None)];
            limits.Elements(|more|) && Room(more, Ancestors(Parent(path)), limits) <==> Room(nodes, Ancestors(path), limits)
  {
    hide Ancestors;
    AncestorsUnfold(path);
    KeysWith(nodes, path, Dir(None));
    RoomStep(nodes.Keys, path, Ancestors(Parent(path)), limits);
  }

  lemma KeysWith(nodes: Tree, path: bytes, node: Node)
    ensures var more := nodes[path := node];
            more.Keys == nodes.Keys + {path} && |more| == |nodes.Keys + {path}|
  {
    var more := nodes[path := node];
    assert more.Keys == nodes.Keys + {path};
    assert |more| == |more.Keys|;
  }

  // ---------- Files and links ----------

  predicate NoDirs(nodes: Tree, paths: set<bytes>) {
    forall path :: path in paths ==> !IsDir(nodes, path)
  }

  lemma {:induction false} NodesAreLeaves(path: bytes, entries: seq<Entry>)
    ensures forall other :: other in NodesIn(path, entries) ==> !NodesIn(path, entries)[other].Dir?
    decreases |entries|
  {
    if entries != [] {
      NodesAreLeaves(path, entries[..|entries| - 1]);
    }
  }

  /** None of the leaves replaces a directory, and there is room for them. */
  predicate LeavesFit(nodes: Tree, leaves: Tree, limits: Limits) {
    NoDirs(nodes, leaves.Keys) && (leaves == map[] || limits.Elements(|nodes.Keys + leaves.Keys|))
  }

  /** Entries can be added exactly when they fit. */
  lemma {:induction false} EntriesMeaning(nodes: Tree, path: bytes, entries: seq<Entry>, limits: Limits)
    ensures WithEntries(nodes, path, entries, limits).Some? <==> LeavesFit(nodes, NodesIn(path, entries), limits)
    ensures WithEntries(nodes, path, entries, limits).Some? ==>
              WithEntries(nodes, path, entries, limits).value == nodes + NodesIn(path, entries)
    decreases |entries|
  {
    if entries == [] {
      assert nodes + map[] == nodes;
    } else {
      hide LeavesFit;
      var front, last := entries[..|entries| - 1], entries[|entries| - 1];
      EntriesMeaning(nodes, path, front, limits);
      if !last.Tombstone? {
        NodesAreLeaves(path, front);
        LeafStep(nodes, NodesIn(path, front), Joined(path, last.name), NodeOf(last), limits);
      }
    }
  }

  lemma UnionUpdate<K, V>(m: map<K, V>, n: map<K, V>, key: K, value: V)
    ensures (m + n)[key := value] == m + n[key := value]
  {
  }

  lemma UnionSize<K, V>(m: map<K, V>, n: map<K, V>)
    ensures |m + n| == |m.Keys + n.Keys|
  {
    assert (m + n).Keys == m.Keys + n.Keys;
    assert |m + n| == |(m + n).Keys|;
  }

  lemma LeafSizes(nodes: Tree, leaves: Tree, at: bytes, leaf: Node)
    ensures var more := (nodes + leaves)[at := leaf];
            && more == nodes + leaves[at := leaf]
            && |more| == |nodes.Keys + leaves[at := leaf].Keys|
            && |nodes.Keys + leaves.Keys| <= |more|
  {
    var all := leaves[at := leaf];
    UnionUpdate(nodes, leaves, at, leaf);
    UnionSize(nodes, all);
    assert leaves.Keys <= all.Keys;
    SubsetSize(nodes.Keys + leaves.Keys, nodes.Keys + all.Keys);
  }

  lemma LeafReplaces(nodes: Tree, leaves: Tree, at: bytes, leaf: Node)
    requires forall other :: other in leaves ==> !leaves[other].Dir?
    ensures NoDirs(nodes, leaves[at := leaf].Keys) <==> NoDirs(nodes, leaves.Keys) && !IsDir(nodes + leaves, at)
  {
    var all := leaves[at := leaf];
    assert at in all.Keys;
    assert NoDirs(nodes, all.Keys) <==> NoDirs(nodes, leaves.Keys) && !IsDir(nodes, at);
  }

  lemma LeafStep(nodes: Tree, leaves: Tree, at: bytes, leaf: Node, limits: Limits)
    requires forall other :: other in leaves ==> !leaves[other].Dir?
    ensures var more := (nodes + leaves)[at := leaf];
            && more == nodes + leaves[at := leaf]
            && (LeavesFit(nodes, leaves[at := leaf], limits)
                <==> LeavesFit(nodes, leaves, limits) && !IsDir(nodes + leaves, at) && limits.Elements(|more|))
  {
    hide NoDirs, IsDir;
    LeafSizes(nodes, leaves, at, leaf);
    LeafReplaces(nodes, leaves, at, leaf);
    assert at in leaves[at := leaf];
  }

  // ---------- One directory record ----------

  lemma {:induction false} LeavesAreBelow(path: bytes, entries: seq<Entry>, leaf: bytes)
    requires forall i :: 0 <= i < |entries| ==> Component(entries[i].name)
    requires leaf in NodesIn(path, entries)
    ensures Parent(leaf) == path && leaf != [] && leaf != path && leaf !in Ancestors(path)
    decreases |entries|
  {
    hide Ancestors, Joined;
    var last := entries[|entries| - 1];
    if leaf in NodesIn(path, entries[..|entries| - 1]) {
      LeavesAreBelow(path, entries[..|entries| - 1], leaf);
    } else {
      JoinedSplits(path, last.name);
      if leaf in Ancestors(path) {
        AncestorsAreAbove(path, leaf);
      }
    }
  }

  predicate Space(nodes: Tree, dirs: set<bytes>, leaves: set<bytes>, limits: Limits) {
    (dirs <= nodes.Keys && leaves == {}) || limits.Elements(|nodes.Keys + dirs + leaves|)
  }

  /** A directory record with everything it brings. */
  function Recorded(nodes: Tree, directory: Directory): Tree {
    Filled(nodes, Ancestors(directory.path))[directory.path := Dir(Some(directory.metadata))]
    + NodesIn(directory.path, directory.entries)
  }

  lemma RecordMeaning(nodes: Tree, directory: Directory, limits: Limits)
    requires TreeShape(nodes) && forall i :: 0 <= i < |directory.entries| ==> Component(directory.entries[i].name)
    ensures var leaves := NodesIn(directory.path, directory.entries).Keys;
            WithRecord(nodes, directory, limits).Some? <==>
              DirsOnly(nodes, Ancestors(directory.path)) && NoDirs(nodes, leaves) && Space(nodes, Ancestors(directory.path), leaves, limits)
    ensures WithRecord(nodes, directory, limits).Some? ==> WithRecord(nodes, directory, limits).value == Recorded(nodes, directory)
  {
    hide TreeShape, WithDirectory, WithEntries, DirsOnly, LeavesFit, Room, Space, NodesIn, Ancestors, Filled, NoDirs;
    var above, leaves := Ancestors(directory.path), NodesIn(directory.path, directory.entries);
    ShapeIsAlong(nodes, directory.path);
    DirectoryMeaning(nodes, directory.path, limits);
    var filled := Filled(nodes, above)[directory.path := Dir(Some(directory.metadata))];
    EntriesMeaning(filled, directory.path, directory.entries, limits);
    assert forall leaf :: leaf in leaves ==> leaf != directory.path && leaf !in above by {
      forall leaf | leaf in leaves ensures leaf != directory.path && leaf !in above {
        LeavesAreBelow(directory.path, directory.entries, leaf);
      }
    }
    assert directory.path in above || directory.path in nodes by { PathIsListed(nodes, directory.path); }
    FilledFits(nodes, above, directory.path, Dir(Some(directory.metadata)), leaves, limits);
  }

  lemma PathIsListed(nodes: Tree, path: bytes)
    requires TreeShape(nodes)
    ensures path in Ancestors(path) || path in nodes
  {
  }

  lemma FilledFits(nodes: Tree, above: set<bytes>, path: bytes, node: Node, leaves: Tree, limits: Limits)
    requires path in above || path in nodes
    requires forall leaf :: leaf in leaves ==> leaf != path && leaf !in above
    ensures Room(nodes, above, limits) && LeavesFit(Filled(nodes, above)[path := node], leaves, limits)
            <==> NoDirs(nodes, leaves.Keys) && Space(nodes, above, leaves.Keys, limits)
  {
    var filled := Filled(nodes, above)[path := node];
    assert filled.Keys == nodes.Keys + above;
    assert NoDirs(filled, leaves.Keys) <==> NoDirs(nodes, leaves.Keys);
    SubsetSize(nodes.Keys + above, nodes.Keys + above + leaves.Keys);
    if leaves == map[] {
      assert nodes.Keys + above + leaves.Keys == nodes.Keys + above;
    } else {
      assert leaves.Keys != {};
    }
  }

  // ---------- All records of a layer ----------

  /** The pointwise union: records, then files and links, then what was there, then implicit parents. */
  function Overlay(base: Tree, directories: seq<Directory>): (r: Tree)
    ensures r.Keys == base.Keys + Closure(directories) + Records(directories).Keys + Nodes(directories).Keys
  {
    map path | path in base.Keys + Closure(directories) + Records(directories).Keys + Nodes(directories).Keys ::
      if path in Records(directories) then Dir(Some(Records(directories)[path]))
      else if path in Nodes(directories) then Nodes(directories)[path]
      else if path in base then base[path]
      else Dir(None)
  }

  lemma {:induction false} RecordsAreNeeded(directories: seq<Directory>, path: bytes)
    requires path in Records(directories)
    ensures path == [] || path in Closure(directories)
    decreases |directories|
  {
    var front, last := directories[..|directories| - 1], directories[|directories| - 1];
    assert directories == front + [last];
    ClosureAppend(front, last);
    if path != last.path {
      RecordsAreNeeded(front, path);
    }
  }

  lemma {:induction false} NeededParents(directories: seq<Directory>, path: bytes)
    requires path in Closure(directories)
    ensures path != [] && (Parent(path) == [] || Parent(path) in Closure(directories))
    decreases |directories|
  {
    hide Ancestors;
    if path in Ancestors(directories[0].path) {
      AncestorsAreClosed(directories[0].path, path);
    } else {
      NeededParents(directories[1..], path);
    }
  }

  lemma {:induction false} LeavesHaveRecords(directories: seq<Directory>, leaf: bytes)
    requires ComponentNames(directories) && leaf in Nodes(directories)
    ensures leaf != [] && Parent(leaf) in Records(directories) && !Nodes(directories)[leaf].Dir?
    decreases |directories|
  {
    var front, last := directories[..|directories| - 1], directories[|directories| - 1];
    if leaf in NodesIn(last.path, last.entries) {
      LeavesAreBelow(last.path, last.entries, leaf);
      NodesAreLeaves(last.path, last.entries);
    } else {
      LeavesHaveRecords(front, leaf);
    }
  }

  /** Nothing already there is in the way of the layer. */
  ghost predicate Clear(base: Tree, directories: seq<Directory>) {
    DirsOnly(base, Closure(directories)) && NoDirs(base, Nodes(directories).Keys)
  }

  /** A clear, coherent layer keeps every parent a directory. */
  lemma OverlayKeepsShape(base: Tree, directories: seq<Directory>)
    requires TreeShape(base) && Coherent(directories) && Clear(base, directories)
    ensures TreeShape(Overlay(base, directories))
  {
    hide Closure, Records, Nodes, ComponentNames;
    var whole := Overlay(base, directories);
    RootIsNotLeaf(directories);
    forall path | path in whole && path != [] ensures IsDir(whole, Parent(path)) {
      ParentInOverlay(base, directories, path);
    }
  }

  lemma RootIsNotLeaf(directories: seq<Directory>)
    requires ComponentNames(directories)
    ensures [] !in Nodes(directories)
  {
    if [] in Nodes(directories) {
      LeavesHaveRecords(directories, []);
    }
  }

  lemma ParentInOverlay(base: Tree, directories: seq<Directory>, path: bytes)
    requires TreeShape(base) && Coherent(directories) && Clear(base, directories)
    requires path in Overlay(base, directories) && path != []
    ensures IsDir(Overlay(base, directories), Parent(path))
  {
    hide Closure, Records, Nodes, ComponentNames;
    RootIsNotLeaf(directories);
    if path in Nodes(directories) {
      LeavesHaveRecords(directories, path);
    } else if path in base {
      assert IsDir(base, Parent(path));
    } else {
      if path in Records(directories) {
        RecordsAreNeeded(directories, path);
      }
      NeededParents(directories, path);
    }
  }

  lemma CoherentFront(directories: seq<Directory>)
    requires Coherent(directories) && directories != []
    ensures var front, last := directories[..|directories| - 1], directories[|directories| - 1];
            && Coherent(front)
            && Closure(directories) == Closure(front) + Ancestors(last.path)
            && Nodes(directories) == Nodes(front) + NodesIn(last.path, last.entries)
            && Records(directories) == Records(front)[last.path := last.metadata]
            && forall i :: 0 <= i < |last.entries| ==> Component(last.entries[i].name)
  {
    hide Ancestors, NodesIn;
    var front, last := directories[..|directories| - 1], directories[|directories| - 1];
    assert directories == front + [last];
    ClosureAppend(front, last);
  }

  /** How the paths of a last record lie relative to the earlier ones. */
  ghost predicate Apart(base: Tree, front: seq<Directory>, last: Directory) {
    var above, leaves := Ancestors(last.path), NodesIn(last.path, last.entries).Keys;
    && above !! Nodes(front).Keys && above !! leaves
    && leaves !! Closure(front) && leaves !! Records(front).Keys
    && last.path !in Nodes(front) && last.path !in leaves
    && IsDir(base, [])
    && (forall leaf :: leaf in Nodes(front) ==> !Nodes(front)[leaf].Dir?)
    && (forall path :: path in Records(front) ==> path == [] || path in Closure(front))
    && (last.path == [] || last.path in above)
  }

  lemma LastIsApart(base: Tree, directories: seq<Directory>)
    requires TreeShape(base) && Coherent(directories) && directories != []
    ensures Apart(base, directories[..|directories| - 1], directories[|directories| - 1])
  {
    hide Closure, Records, Nodes, NodesIn, Ancestors, ComponentNames, TreeShape;
    CoherentFront(directories);
    LayerFacts(base, directories);
    var front, last := directories[..|directories| - 1], directories[|directories| - 1];
    var leaves := NodesIn(last.path, last.entries);
    forall path | path in Ancestors(last.path) ensures path !in Nodes(front) && path !in leaves {
      assert path in Closure(directories);
    }
    forall path | path in leaves ensures path !in Closure(front) && path !in Records(front) {
      assert path in Nodes(directories);
    }
    assert forall leaf :: leaf in leaves ==> leaf in Nodes(directories);
    assert forall leaf :: leaf in Nodes(front) ==> leaf in Nodes(directories);
  }

  lemma StepClear(base: Tree, front: seq<Directory>, last: Directory)
    requires Apart(base, front, last) && Clear(base, front)
    ensures var before, leaves := Overlay(base, front), NodesIn(last.path, last.entries).Keys;
            && (DirsOnly(before, Ancestors(last.path)) <==> DirsOnly(base, Ancestors(last.path)))
            && (NoDirs(before, leaves) <==> NoDirs(base, leaves))
  {
    hide Closure, Records, Nodes, NodesIn, Ancestors;
  }

  lemma StepOverlay(base: Tree, front: seq<Directory>, last: Directory, directories: seq<Directory>)
    requires Apart(base, front, last)
    requires Closure(directories) == Closure(front) + Ancestors(last.path)
    requires Nodes(directories) == Nodes(front) + NodesIn(last.path, last.entries)
    requires Records(directories) == Records(front)[last.path := last.metadata]
    ensures Recorded(Overlay(base, front), last) == Overlay(base, directories)
  {
    hide Closure, Records, Nodes, NodesIn, Ancestors;
    var left, right := Recorded(Overlay(base, front), last), Overlay(base, directories);
    StepOverlayKeys(base, front, last, directories);
    forall path | path in left ensures left[path] == right[path] {
      if path !in NodesIn(last.path, last.entries) && path != last.path {
        assert left[path] == if path in Overlay(base, front) then Overlay(base, front)[path] else Dir(None);
      }
    }
  }

  lemma StepOverlayKeys(base: Tree, front: seq<Directory>, last: Directory, directories: seq<Directory>)
    requires Apart(base, front, last)
    requires Closure(directories) == Closure(front) + Ancestors(last.path)
    requires Nodes(directories) == Nodes(front) + NodesIn(last.path, last.entries)
    requires Records(directories) == Records(front)[last.path := last.metadata]
    ensures Recorded(Overlay(base, front), last).Keys == Overlay(base, directories).Keys
  {
    hide Closure, Records, Nodes, NodesIn, Ancestors;
    assert Records(directories).Keys == Records(front).Keys + {last.path};
  }

  /** What a further record adds to an overlay is what it adds to the base. */
  lemma OverlayStep(base: Tree, directories: seq<Directory>)
    requires TreeShape(base) && Coherent(directories) && directories != []
    requires Clear(base, directories[..|directories| - 1])
    ensures var front, last := directories[..|directories| - 1], directories[|directories| - 1];
            var before, leaves := Overlay(base, front), NodesIn(last.path, last.entries).Keys;
            && (DirsOnly(before, Ancestors(last.path)) <==> DirsOnly(base, Ancestors(last.path)))
            && (NoDirs(before, leaves) <==> NoDirs(base, leaves))
            && (Clear(base, directories) <==> DirsOnly(base, Ancestors(last.path)) && NoDirs(base, leaves))
            && Recorded(before, last) == Overlay(base, directories)
  {
    hide Closure, Records, Nodes, NodesIn, Ancestors, Coherent, TreeShape, Overlay, Recorded, Apart;
    var front, last := directories[..|directories| - 1], directories[|directories| - 1];
    CoherentFront(directories);
    LastIsApart(base, directories);
    StepClear(base, front, last);
    StepOverlay(base, front, last, directories);
  }

  /** The facts about a coherent layer that the step uses. */
  lemma LayerFacts(base: Tree, directories: seq<Directory>)
    requires TreeShape(base) && Coherent(directories) && directories != []
    ensures Closure(directories) !! Nodes(directories).Keys && [] !in Nodes(directories) && IsDir(base, [])
    ensures var front := directories[..|directories| - 1];
            && (forall leaf :: leaf in Nodes(front) ==> !Nodes(front)[leaf].Dir?)
            && (forall path :: path in Records(front) ==> path == [] || path in Closure(front))
    ensures directories[|directories| - 1].path == [] || directories[|directories| - 1].path in Ancestors(directories[|directories| - 1].path)
  {
    hide Closure, Records, Nodes, ComponentNames;
    var front := directories[..|directories| - 1];
    RootIsNotLeaf(directories);
    CoherentFront(directories);
    forall leaf | leaf in Nodes(front) ensures !Nodes(front)[leaf].Dir? {
      LeavesHaveRecords(front, leaf);
    }
    forall path | path in Records(front) ensures path == [] || path in Closure(front) {
      RecordsAreNeeded(front, path);
    }
  }
}
