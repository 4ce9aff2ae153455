/** Resolution on merged trees: canonical results, and the loop that computes them. */
module ResolutionTheorems {
  import opened Binary
  import opened Cbor
  import opened Paths
  import opened Resources
  import opened ResourceChecks
  import opened Trees
  import opened TreeProofs
  import opened TreeTheorems
  import opened Resolution

  // ---------- Merged trees ----------

  /** The tree is within the element limit, or has only its root. */
  predicate TreeFits(nodes: Tree, limits: Limits) {
    limits.Elements(|nodes|) || nodes.Keys == {[]}
  }

  /** Every node has a canonical path. */
  ghost predicate GoodPaths(nodes: Tree) {
    forall path :: path in nodes ==> CanonicalPath(path)
  }

  /** What resolution relies on. */
  ghost predicate Resolvable(nodes: Tree, limits: Limits) {
    TreeShape(nodes) && GoodLinks(nodes) && GoodPaths(nodes) && TreeFits(nodes, limits)
  }

  ghost predicate GoodTargets(entries: seq<Entry>) {
    forall i :: 0 <= i < |entries| && entries[i].Link? ==> Components(Split(entries[i].target))
  }

  lemma {:induction false} NodesInGood(path: bytes, entries: seq<Entry>)
    requires GoodTargets(entries)
    ensures GoodLinks(NodesIn(path, entries))
    decreases |entries|
  {
    hide Split, Joined;
    if entries != [] {
      NodesInGood(path, entries[..|entries| - 1]);
    }
  }

  lemma {:induction false} NodesGood(directories: seq<Directory>)
    requires forall i :: 0 <= i < |directories| ==> GoodTargets(directories[i].entries)
    ensures GoodLinks(Nodes(directories))
    decreases |directories|
  {
    hide Split, NodesIn, GoodTargets;
    if directories != [] {
      NodesGood(directories[..|directories| - 1]);
      NodesInGood(directories[|directories| - 1].path, directories[|directories| - 1].entries);
    }
  }

  lemma ValidTargets(layer: Layer, limits: Limits)
    requires ValidLayer(layer, limits)
    ensures forall i :: 0 <= i < |layer.directories| ==> GoodTargets(layer.directories[i].entries)
  {
    hide Closure, Files, ValidMetadata, Before, Split;
    forall i, j | 0 <= i < |layer.directories| && 0 <= j < |layer.directories[i].entries| && layer.directories[i].entries[j].Link?
      ensures Components(Split(layer.directories[i].entries[j].target))
    {
      assert ValidDirectory(layer.directories[i], limits);
      assert ValidEntry(layer.directories[i].entries[j], limits);
    }
  }

  lemma {:induction false} ClosureIsCanonical(directories: seq<Directory>, path: bytes)
    requires forall i :: 0 <= i < |directories| ==> CanonicalPath(directories[i].path)
    requires path in Closure(directories)
    ensures CanonicalPath(path)
    decreases |directories|
  {
    hide CanonicalPath, Ancestors;
    if path in Ancestors(directories[0].path) {
      CanonicalAncestors(directories[0].path, path);
    } else {
      ClosureIsCanonical(directories[1..], path);
    }
  }

  lemma {:induction false} NodesInAreCanonical(path: bytes, entries: seq<Entry>)
    requires CanonicalPath(path) && forall i :: 0 <= i < |entries| ==> Plain(entries[i].name)
    ensures GoodPaths(NodesIn(path, entries))
    decreases |entries|
  {
    hide CanonicalPath, Joined, Plain;
    if entries != [] {
      NodesInAreCanonical(path, entries[..|entries| - 1]);
      CanonicalJoins(path, entries[|entries| - 1].name);
    }
  }

  lemma {:induction false} NodesAreCanonical(directories: seq<Directory>)
    requires forall i :: 0 <= i < |directories| ==> CanonicalPath(directories[i].path)
    requires forall i, j :: 0 <= i < |directories| && 0 <= j < |directories[i].entries| ==> Plain(directories[i].entries[j].name)
    ensures GoodPaths(Nodes(directories))
    decreases |directories|
  {
    hide CanonicalPath, NodesIn, Plain;
    if directories != [] {
      NodesAreCanonical(directories[..|directories| - 1]);
      NodesInAreCanonical(directories[|directories| - 1].path, directories[|directories| - 1].entries);
    }
  }

  lemma ValidPaths(layer: Layer, limits: Limits)
    requires ValidLayer(layer, limits)
    ensures var directories := layer.directories;
            && (forall i :: 0 <= i < |directories| ==> CanonicalPath(directories[i].path))
            && (forall i, j :: 0 <= i < |directories| && 0 <= j < |directories[i].entries| ==> Plain(directories[i].entries[j].name))
  {
    hide Closure, Files, ValidMetadata, Before, CanonicalPath, ValidPath, Plain;
    forall i | 0 <= i < |layer.directories| ensures CanonicalPath(layer.directories[i].path) {
      assert ValidDirectory(layer.directories[i], limits);
      ValidIsCanonical(layer.directories[i].path, limits);
    }
    forall i, j | 0 <= i < |layer.directories| && 0 <= j < |layer.directories[i].entries|
      ensures Plain(layer.directories[i].entries[j].name)
    {
      assert ValidDirectory(layer.directories[i], limits);
      assert ValidEntry(layer.directories[i].entries[j], limits);
    }
  }

  lemma OverlayPaths(nodes: Tree, layer: Layer, limits: Limits)
    requires GoodPaths(nodes) && ValidLayer(layer, limits)
    ensures GoodPaths(Overlay(Cut(nodes, Tombs(layer.directories)), layer.directories))
  {
    hide Nodes, Closure, Records, Tombs, CanonicalPath, ValidLayer, Plain;
    var directories := layer.directories;
    var base := Cut(nodes, Tombs(directories));
    ValidPaths(layer, limits);
    NodesAreCanonical(directories);
    forall path | path in Overlay(base, directories) ensures CanonicalPath(path) {
      if path in Records(directories) {
        RecordsAreNeeded(directories, path);
      }
      if path in Closure(directories) {
        ClosureIsCanonical(directories, path);
      }
      RootIsCanonical();
    }
  }

  lemma RootIsCanonical()
    ensures CanonicalPath([])
  {
  }

  /** One layer keeps a tree resolvable. */
  lemma LayerKeepsResolvable(nodes: Tree, layer: Layer, limits: Limits)
    requires Resolvable(nodes, limits) && ValidLayer(layer, limits) && WithLayer(nodes, layer.directories, limits).Some?
    ensures Resolvable(WithLayer(nodes, layer.directories, limits).value, limits)
  {
    hide TreeShape, Coherent, LayerSpace, Overlay, WithRecords, WithoutTombstones, Tombs, ValidLayer, NoConflict, After, Lookup, Clear,
         GoodLinks, GoodPaths, TreeFits, Cut;
    var directories := layer.directories;
    var base := Cut(nodes, Tombs(directories));
    ValidIsCoherent(layer, limits);
    ValidTargets(layer, limits);
    NodesGood(directories);
    TombstonesCut(nodes, directories);
    CutKeepsShape(nodes, Tombs(directories));
    RecordsMeaning(base, directories, limits);
    LayerMeaning(nodes, directories, limits);
    OverlayGood(nodes, directories);
    OverlayPaths(nodes, layer, limits);
    OverlayFits(nodes, directories, limits);
  }

  lemma OverlayGood(nodes: Tree, directories: seq<Directory>)
    requires GoodLinks(nodes) && GoodLinks(Nodes(directories))
    ensures GoodLinks(Overlay(Cut(nodes, Tombs(directories)), directories))
  {
    hide Split, Nodes, Closure, Records, Tombs;
  }

  lemma OverlayFits(nodes: Tree, directories: seq<Directory>, limits: Limits)
    requires TreeFits(nodes, limits) && TreeShape(nodes)
    requires LayerSpace(Cut(nodes, Tombs(directories)), directories, limits)
    ensures TreeFits(Overlay(Cut(nodes, Tombs(directories)), directories), limits)
  {
    hide Nodes, Closure, Records, Tombs, Overlay;
    var base := Cut(nodes, Tombs(directories));
    CutKeepsShape(nodes, Tombs(directories));
    OverlayKeys(base, directories);
    var after := Overlay(base, directories);
    assert |after| == |after.Keys| && |nodes| == |nodes.Keys|;
    if Closure(directories) <= base.Keys && Nodes(directories).Keys == {} {
      assert after.Keys == base.Keys;
      SubsetSize(base.Keys, nodes.Keys);
      if nodes.Keys == {[]} {
        assert base.Keys == {[]};
      }
    }
  }

  /** Every tree merged from a valid root can be resolved in. */
  lemma {:induction false} MergedIsResolvable(root: Root, count: nat, matches: Item -> Option<bool>, limits: Limits)
    requires ValidRoot(root, limits) && count <= |root.layers| && Merged(root.layers[..count], matches, limits).Some?
    ensures Resolvable(Merged(root.layers[..count], matches, limits).value, limits)
    decreases count
  {
    hide Resolvable, ValidLayer, WithLayer, ValidRootMetadata;
    if count == 0 {
      EmptyIsResolvable(limits);
    } else {
      assert root.layers[..count][..count - 1] == root.layers[..count - 1];
      MergedIsResolvable(root, count - 1, matches, limits);
      if matches(root.layers[count - 1].condition) == Some(true) {
        LayerKeepsResolvable(Merged(root.layers[..count - 1], matches, limits).value, root.layers[count - 1], limits);
      }
    }
  }

  lemma EmptyIsResolvable(limits: Limits)
    ensures Resolvable(EMPTY_TREE, limits)
  {
  }

  // ---------- Canonical results ----------

  function Prefixes(position: seq<bytes>): set<bytes> {
    {Join(position)} + if position == [] then {} else Prefixes(position[..|position| - 1])
  }

  /** A position of `n` components stands above `n` further nodes. */
  lemma {:induction false} PositionIsCounted(nodes: Tree, limits: Limits, position: seq<bytes>)
    requires TreeShape(nodes) && Stands(nodes, limits, position)
    ensures Prefixes(position) <= nodes.Keys && |Prefixes(position)| == |position| + 1
    ensures forall path :: path in Prefixes(position) ==> |path| <= |Join(position)|
    decreases |position|
  {
    hide TreeShape, Stands;
    assert Join(position) in nodes by { StandsInTree(nodes, limits, position); }
    if position != [] {
      StandsAbove(nodes, limits, position);
      PositionIsCounted(nodes, limits, position[..|position| - 1]);
      assert Join(position) !in Prefixes(position[..|position| - 1]);
    }
  }

  lemma StandsInTree(nodes: Tree, limits: Limits, position: seq<bytes>)
    requires Stands(nodes, limits, position)
    ensures Join(position) in nodes && !nodes[Join(position)].LinkNode?
  {
  }

  /** A canonical path is itself a valid path under the same limits. */
  lemma CanonicalIsValid(nodes: Tree, limits: Limits, position: seq<bytes>)
    requires Resolvable(nodes, limits) && Stands(nodes, limits, position)
    ensures ValidPath(Join(position), true, true, limits) && PartsOf(Join(position)) == position
  {
    hide TreeShape, GoodLinks, GoodPaths, Join;
    PlainAreComponents(position);
    JoinIsRoot(position);
    if position != [] {
      SplitJoin(position);
      PositionIsCounted(nodes, limits, position);
      SubsetSize(Prefixes(position), nodes.Keys);
      StandsInTree(nodes, limits, position);
      assert Join(position) in nodes.Keys && |nodes.Keys| == |nodes|;
    }
  }

  lemma PathWalks(nodes: Tree, limits: Limits, path: bytes)
    requires Resolvable(nodes, limits) && ValidPath(path, true, true, limits)
    requires Walk(nodes, limits, PartsOf(path), [], limits.maxDepth, limits.maxElements).Some?
    ensures Stands(nodes, limits, Walk(nodes, limits, PartsOf(path), [], limits.maxDepth, limits.maxElements).value.0)
  {
    hide TreeShape, GoodLinks, GoodPaths, Stands, Walk;
    ValidPathParts(path, true, true, limits);
    RootStands(nodes, limits);
    WalkStands(nodes, limits, PartsOf(path), [], limits.maxDepth, limits.maxElements);
  }

  /** Every completed walk ends at a node of the tree: the last lookup of a resolution cannot fail. */
  lemma LastLookupSucceeds(nodes: Tree, limits: Limits, path: bytes)
    requires Resolvable(nodes, limits) && ValidPath(path, true, true, limits)
    ensures Resolved(nodes, limits, path).Some?
            <==> Walk(nodes, limits, PartsOf(path), [], limits.maxDepth, limits.maxElements).Some?
  {
    hide Resolvable, Walk, ValidPath;
    if Walk(nodes, limits, PartsOf(path), [], limits.maxDepth, limits.maxElements).Some? {
      PathWalks(nodes, limits, path);
      StandsInTree(nodes, limits, Walk(nodes, limits, PartsOf(path), [], limits.maxDepth, limits.maxElements).value.0);
    }
  }

  /**
   * The result is the canonical path of a node that is not a link. It resolves to itself under the same
   * limits, and even when no link may be followed.
   */
  lemma ResolvedIsCanonical(nodes: Tree, limits: Limits, path: bytes)
    requires Resolvable(nodes, limits) && Resolved(nodes, limits, path).Some?
    ensures var canonical := Resolved(nodes, limits, path).value;
            && canonical in nodes && !nodes[canonical].LinkNode?
            && AllPlain(PartsOf(canonical)) && Join(PartsOf(canonical)) == canonical
            && Resolved(nodes, limits, canonical) == Some(canonical)
            && Resolved(nodes, limits.(maxDepth := 0), canonical) == Some(canonical)
  {
    hide Resolvable, Walk, ValidPath, Join, IsDir, PartsOf;
    var position := Walk(nodes, limits, PartsOf(path), [], limits.maxDepth, limits.maxElements).value.0;
    var canonical := Resolved(nodes, limits, path).value;
    PathWalks(nodes, limits, path);
    CanonicalIsValid(nodes, limits, position);
    ShapeOf(nodes, limits);
    CanonicalWalks(nodes, limits, position, 0, limits.maxDepth, limits.maxElements);
    CanonicalWalks(nodes, limits.(maxDepth := 0), position, 0, 0, limits.maxElements);
    assert position[0..] == position && position[..0] == [];
    SamePathRules(canonical, limits);
  }

  lemma ShapeOf(nodes: Tree, limits: Limits)
    requires Resolvable(nodes, limits)
    ensures TreeShape(nodes) && GoodLinks(nodes)
  {
  }

  lemma SamePathRules(path: bytes, limits: Limits)
    requires ValidPath(path, true, true, limits)
    ensures ValidPath(path, true, true, limits.(maxDepth := 0))
  {
  }

  /** Links resolve before a following `..`, which then names the canonical parent. */
  lemma DotDotIsCanonicalParent(nodes: Tree, limits: Limits, parts: seq<bytes>, budget: nat, room: int)
    requires TreeShape(nodes) && GoodLinks(nodes) && Components(parts)
    requires Walk(nodes, limits, parts, [], budget, room).Some?
    ensures var (position, links) := Walk(nodes, limits, parts, [], budget, room).value;
            Walk(nodes, limits, parts + [DOT_DOT], [], budget, room + 1)
            == if position == [] || !IsDir(nodes, Join(position)) then None else Some((position[..|position| - 1], links))
  {
    hide TreeShape, GoodLinks, Join;
    RootStands(nodes, limits);
    WalkStands(nodes, limits, parts, [], budget, room);
    WalkComposes(nodes, limits, parts, [DOT_DOT], [], budget, room + 1);
    var (position, links) := Walk(nodes, limits, parts, [], budget, room).value;
    var last := [DOT_DOT];
    assert last[0] == DOT_DOT && last[1..] == [] && DOT_DOT != DOT;
    if position != [] {
      assert Walk(nodes, limits, [], position[..|position| - 1], budget - links, room + 1) == Some((position[..|position| - 1], 0));
    }
  }

  // ---------- The loop ----------

  /** Computes `Resolved` with a queue of pending components and the position reached so far. */
  method Resolve(tree: ResourceTree, path: bytes) returns (r: Option<bytes>)
    ensures r == Resolved(tree.nodes, tree.limits, path)
  {
    hide Join, Joined, Split, ValidPath;
    if !ValidPath(path, true, true, tree.limits) {
      return None;
    }
    var pending: seq<bytes>, current: seq<bytes>, followed: nat := PartsOf(path), [], 0;
    ghost var whole := Walk(tree.nodes, tree.limits, pending, [], tree.limits.maxDepth, tree.limits.maxElements);
    while pending != []
      invariant followed <= tree.limits.maxDepth
      invariant whole == After(followed, Walk(tree.nodes, tree.limits, pending, current, tree.limits.maxDepth - followed, tree.limits.maxElements))
      decreases tree.limits.maxDepth - followed, |pending|
    {
      var component := pending[0];
      pending := pending[1..];
      var parent := Join(current);
      if !(parent in tree.nodes && tree.nodes[parent].Dir?) {
        return None;
      }
      if component == DOT {
        continue;
      }
      if component == DOT_DOT {
        if current == [] {
          return None;
        }
        current := current[..|current| - 1];
        continue;
      }
      var candidate := Joined(parent, component);
      if !tree.limits.Bytes(|candidate|) || candidate !in tree.nodes {
        return None;
      }
      match tree.nodes[candidate]
      case LinkNode(target, _) =>
        if followed == tree.limits.maxDepth || |pending| + |Split(target)| > tree.limits.maxElements {
          return None;
        }
        followed := followed + 1;
        pending := Split(target) + pending;
      case _ =>
        current := current + [component];
    }
    r := if Join(current) in tree.nodes then Some(Join(current)) else None;
  }

  /** An outcome reached after some links had been followed. */
  function After(links: nat, outcome: Option<(seq<bytes>, nat)>): Option<(seq<bytes>, nat)> {
    match outcome
    case None => None
    case Some((position, more)) => Some((position, links + more))
  }
}
