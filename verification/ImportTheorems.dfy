/** One merge for the largest version covers every runtime, and the highest matching version wins. */
module ImportTheorems {
  import opened Binary
  import opened Cbor
  import opened Text
  import opened Paths
  import opened Contents
  import opened Resources
  import opened ResourceChecks
  import opened Trees
  import opened TreeProofs
  import opened TreeTheorems
  import opened Conditions
  import opened Imports
  import opened Orders
  import Versions

  // ---------- What an imported layer holds ----------

  /** Paths relative to the root, as validation of archive names guarantees. */
  ghost predicate Rooted(group: Group) {
    forall path :: path in group && path != [] ==> path[0] != SLASH
  }

  ghost predicate AllRooted(items: seq<(bytes, Resource)>) {
    forall i :: 0 <= i < |items| ==> RootedName(items[i].0)
  }

  /** No part between slashes is empty, except in the root itself. */
  predicate RootedName(name: bytes) {
    name == [] || (name[0] != SLASH && forall i :: 0 <= i < |name| - 1 ==> !(name[i] == SLASH && name[i + 1] == SLASH))
  }

  function LeafOf(resource: Resource): Node
    requires !resource.DirectoryItem?
  {
    match resource
    case FileItem(data, metadata) => FileNode(InlineContent(data), metadata)
    case LinkItem(target, metadata) => LinkNode(target, metadata)
  }

  predicate IsLeaf(group: Group, path: bytes) {
    path in group && !group[path].DirectoryItem?
  }

  lemma RootedSplits(path: bytes)
    requires path != [] && path[0] != SLASH
    ensures Joined(Parent(path), NameOf(path)) == path
  {
    SplitClassName(path);
  }

  lemma {:induction false} EntriesHold(group: Group, directory: bytes, names: seq<bytes>, leaf: bytes)
    ensures leaf in NodesIn(directory, EntriesFor(group, directory, names)) ==>
              IsLeaf(group, leaf) && NodesIn(directory, EntriesFor(group, directory, names))[leaf] == LeafOf(group[leaf])
    ensures IsLeaf(group, leaf) && (exists name :: name in names && leaf == Joined(directory, name)) ==>
              leaf in NodesIn(directory, EntriesFor(group, directory, names))
    decreases |names|
  {
    hide Joined;
    if names != [] {
      var front, name := names[..|names| - 1], names[|names| - 1];
      assert names == front + [name];
      EntriesHold(group, directory, front, leaf);
      var path := Joined(directory, name);
      var before := EntriesFor(group, directory, front);
      if IsLeaf(group, path) {
        var last := EntryFor(name, group[path]);
        assert (before + [last])[..|before|] == before;
        assert NodeOf(last) == LeafOf(group[path]);
      } else {
        assert before + [] == before;
      }
    }
  }

  lemma {:induction false} NoTombs(group: Group, directory: bytes, names: seq<bytes>)
    ensures TombsIn(directory, EntriesFor(group, directory, names)) == {}
    decreases |names|
  {
    hide Joined;
    if names != [] {
      var before := EntriesFor(group, directory, names[..|names| - 1]);
      NoTombs(group, directory, names[..|names| - 1]);
      assert before + [] == before;
      forall last: Entry ensures (before + [last])[..|before|] == before {
      }
    }
  }

  lemma {:induction false} DirectoriesHold(group: Group, paths: seq<bytes>, leaf: bytes)
    requires Rooted(group)
    ensures leaf in Nodes(DirectoriesFor(group, paths)) ==>
              IsLeaf(group, leaf) && Nodes(DirectoriesFor(group, paths))[leaf] == LeafOf(group[leaf])
    ensures IsLeaf(group, leaf) && leaf != [] && Parent(leaf) in paths ==> leaf in Nodes(DirectoriesFor(group, paths))
    ensures Tombs(DirectoriesFor(group, paths)) == {}
    decreases |paths|
  {
    hide Joined, Parent, NameOf, NamesUnder, EntriesFor, NodesIn, TombsIn;
    if paths != [] {
      var front, path := paths[..|paths| - 1], paths[|paths| - 1];
      assert paths == front + [path];
      DirectoriesHold(group, front, leaf);
      var before, last := DirectoriesFor(group, front), DirectoryFor(group, path);
      assert (before + [last])[..|before|] == before;
      var names := Sorted(NamesUnder(group, path));
      EntriesHold(group, path, names, leaf);
      NoTombs(group, path, names);
      if IsLeaf(group, leaf) && leaf != [] && Parent(leaf) == path {
        NameIsListed(group, leaf);
        RootedSplits(leaf);
      }
    }
  }

  lemma NameIsListed(group: Group, leaf: bytes)
    requires IsLeaf(group, leaf)
    ensures NameOf(leaf) in NamesUnder(group, Parent(leaf))
  {
    hide NameOf, Parent;
  }

  /** A layer supplies exactly the files and links of its group, and removes nothing. */
  lemma LayerHolds(version: nat, group: Group, leaf: bytes)
    requires Rooted(group) && [] !in Nodes(LayerFor(version, group).directories)
    ensures Tombs(LayerFor(version, group).directories) == {}
    ensures leaf != [] ==> (leaf in Nodes(LayerFor(version, group).directories) <==> IsLeaf(group, leaf))
    ensures leaf in Nodes(LayerFor(version, group).directories) ==> leaf != []
    ensures leaf in Nodes(LayerFor(version, group).directories) ==>
              Nodes(LayerFor(version, group).directories)[leaf] == LeafOf(group[leaf])
  {
    hide Parent, DirectoriesFor, Rooted, Nodes;
    DirectoriesHold(group, Sorted(DirectoryPaths(group)), leaf);
    if IsLeaf(group, leaf) {
      assert Parent(leaf) in DirectoryPaths(group);
    }
  }

  // ---------- Matching layers form a prefix ----------

  /** Layer `i` is the one of version `versions[i]`; the first is the unconditional base. */
  ghost predicate Thresholds(layers: seq<Layer>, versions: seq<nat>) {
    && |layers| == |versions| && Increasing(versions)
    && forall i :: 0 <= i < |layers| ==>
         if i == 0 then versions[0] == 0 && layers[0].condition == EMPTY_MAP
         else 9 <= versions[i] <= Versions.MAX_NUMBER && layers[i].condition == Threshold(versions[i])
  }

  lemma EmptyConditionMatches(context: Context)
    ensures Evaluator(context)(EMPTY_MAP) == Some(true)
  {
  }

  lemma LayerEvaluates(layers: seq<Layer>, versions: seq<nat>, i: nat, context: Context)
    requires Thresholds(layers, versions) && i < |layers| && Comparable(context)
    ensures Evaluator(context)(layers[i].condition) == Some(i == 0 || Reaches(context, versions[i]))
  {
    hide Threshold, Accepts, Matches, Reaches;
    if i == 0 {
      EmptyConditionMatches(context);
    } else {
      ThresholdMeaning(versions[i], context);
    }
  }

  /** How many leading layers match a context. */
  function Matching(versions: seq<nat>, context: Context): (r: nat)
    requires Comparable(context)
    ensures r <= |versions|
  {
    if versions == [] then 0
    else if |versions| == 1 || Reaches(context, versions[|versions| - 1]) then |versions|
    else Matching(versions[..|versions| - 1], context)
  }

  /** The matching layers are exactly the first few. */
  lemma {:induction false} MatchingIsPrefix(layers: seq<Layer>, versions: seq<nat>, context: Context, i: nat)
    requires Thresholds(layers, versions) && Comparable(context) && i < |layers|
    ensures Evaluator(context)(layers[i].condition) == Some(i < Matching(versions, context))
    decreases |versions|
  {
    hide Threshold, Reaches, Evaluator;
    LayerEvaluates(layers, versions, i, context);
    var last := |versions| - 1;
    if last > 0 {
      if Reaches(context, versions[last]) {
        ThresholdsNest(context, versions[i], versions[last]);
      } else if i < last {
        assert layers[..last][i] == layers[i] && versions[..last][i] == versions[i];
        MatchingIsPrefix(layers[..last], versions[..last], context, i);
      }
      if !Reaches(context, versions[last]) && i == last {
        MatchingIsShorter(versions, context);
      }
    }
  }

  lemma MatchingIsShorter(versions: seq<nat>, context: Context)
    requires Comparable(context) && |versions| > 1 && !Reaches(context, versions[|versions| - 1])
    ensures Matching(versions, context) < |versions|
  {
  }

  // ---------- Merging a prefix ----------

  lemma {:induction false} MergingAPrefix(layers: seq<Layer>, count: nat, context: Context, all: Context, limits: Limits)
    requires count <= |layers|
    requires forall i :: 0 <= i < |layers| ==> Evaluator(context)(layers[i].condition) == Some(i < count)
    requires forall i :: 0 <= i < |layers| ==> Evaluator(all)(layers[i].condition) == Some(true)
    ensures Merged(layers, Evaluator(context), limits) == Merged(layers[..count], Evaluator(all), limits)
    decreases |layers|
  {
    hide Evaluator, WithLayer;
    if layers == [] {
      assert layers[..count] == [];
    } else {
      var front, last := layers[..|layers| - 1], layers[|layers| - 1];
      if count == |layers| {
        MergingAPrefix(front, count - 1, context, all, limits);
        assert front[..count - 1] == front && layers[..count] == layers;
      } else {
        MergingAPrefix(front, count, context, all, limits);
        assert front[..count] == layers[..count];
      }
    }
  }

  lemma ReachesLatest(version: nat)
    requires version <= Versions.MAX_NUMBER
    ensures Comparable(LATEST) && Reaches(LATEST, version)
  {
    assert Versions.CompareNumbers([Versions.MAX_NUMBER], [version], 1) == 0;
  }

  lemma {:induction false} LatestMatchesAll(versions: seq<nat>)
    requires Increasing(versions) && forall i :: 0 <= i < |versions| ==> versions[i] <= Versions.MAX_NUMBER
    ensures Comparable(LATEST) && Matching(versions, LATEST) == |versions|
  {
    ReachesLatest(0);
    if versions != [] {
      ReachesLatest(versions[|versions| - 1]);
    }
  }

  /** The largest version present among the first layers decides a path. */
  lemma {:induction false} HighestWins(layers: seq<Layer>, matches: Item -> Option<bool>, winner: nat, leaf: bytes)
    requires AllCoherent(layers) && winner < |layers| && leaf in Nodes(layers[winner].directories)
    requires forall i :: 0 <= i < |layers| ==> matches(layers[i].condition) == Some(true) && Tombs(layers[i].directories) == {}
    requires forall i :: winner < i < |layers| ==> leaf !in Nodes(layers[i].directories)
    requires Folded(layers, matches, leaf).Some?
    ensures Folded(layers, matches, leaf) == Some(Some(Nodes(layers[winner].directories)[leaf]))
    decreases |layers|
  {
    hide Closure, Nodes, Records, Tombs, ComponentNames;
    var front, last := layers[..|layers| - 1], layers[|layers| - 1];
    assert Coherent(last.directories);
    if winner == |layers| - 1 {
      LeafIsNotNeeded(last.directories, leaf);
    } else {
      HighestWins(front, matches, winner, leaf);
      LeafIsLeaf(layers[winner].directories, leaf);
    }
  }

  lemma LeafIsNotNeeded(directories: seq<Directory>, leaf: bytes)
    requires Coherent(directories) && leaf in Nodes(directories)
    ensures leaf !in Closure(directories) && leaf !in Records(directories)
  {
    hide Closure, Nodes, Records, ComponentNames;
    RootIsNotLeaf(directories);
    if leaf in Records(directories) {
      RecordsAreNeeded(directories, leaf);
    }
  }

  lemma LeafIsLeaf(directories: seq<Directory>, leaf: bytes)
    requires Coherent(directories) && leaf in Nodes(directories)
    ensures !Nodes(directories)[leaf].Dir?
  {
    hide Closure, Nodes, Records;
    LeavesHaveRecords(directories, leaf);
  }

  // ---------- Imported layers ----------

  lemma {:induction false} LayersForAre(groups: map<nat, Group>, versions: seq<nat>, i: nat)
    requires i < |versions|
    ensures LayersFor(groups, versions)[i] == LayerFor(versions[i], GroupAt(groups, versions[i]))
    decreases |versions|
  {
    hide LayerFor;
    if i < |versions| - 1 {
      LayersForAre(groups, versions[..|versions| - 1], i);
    }
  }

  /** Only the base and valid feature versions occur, and every logical path is rooted. */
  lemma {:induction false} GroupsAreValid(items: seq<(bytes, Resource)>, multiRelease: bool)
    requires Grouped(items, multiRelease).Some? && AllRooted(items)
    ensures var groups := Grouped(items, multiRelease).value;
            && 0 in groups
            && (forall version :: version in groups ==> version == 0 || 9 <= version <= Versions.MAX_NUMBER)
            && (forall version :: version in groups ==> Rooted(groups[version]))
    decreases |items|
  {
    hide VersionOf, Rooted, RootedName;
    if items == [] {
      NothingIsRooted();
    } else {
      var (name, resource) := items[|items| - 1];
      GroupsAreValid(items[..|items| - 1], multiRelease);
      var groups := Grouped(items[..|items| - 1], multiRelease).value;
      var (version, logical) := VersionOf(name, resource, multiRelease).value;
      PlaceIsValid(name, resource, multiRelease);
      NothingIsRooted();
      RootedMore(GroupAt(groups, version), logical, resource);
    }
  }

  lemma NothingIsRooted()
    ensures Rooted(map[])
  {
  }

  lemma RootedMore(group: Group, path: bytes, resource: Resource)
    requires Rooted(group) && (path == [] || path[0] != SLASH)
    ensures Rooted(group[path := resource])
  {
  }

  lemma PlaceIsValid(name: bytes, resource: Resource, multiRelease: bool)
    requires RootedName(name) && VersionOf(name, resource, multiRelease).Some?
    ensures var (version, logical) := VersionOf(name, resource, multiRelease).value;
            && (version == 0 || 9 <= version <= Versions.MAX_NUMBER)
            && (logical == [] || logical[0] != SLASH)
  {
    hide Versions.FromDigits, Versions.Numeric;
    if multiRelease && VERSIONS <= name {
      var tail := name[|VERSIONS|..];
      var (number, rest) := VersionText.Cut(tail, SLASH);
      if rest.Some? && rest.value != [] {
        assert rest.value[0] == tail[|number| + 1] == name[|VERSIONS| + |number| + 1];
        assert name[|VERSIONS| + |number|] == tail[|number|] == SLASH;
      }
    }
  }

  lemma {:induction false} ImportedAreThresholds(items: seq<(bytes, Resource)>, multiRelease: bool, limits: Limits)
    requires AllRooted(items) && ImportedLayers(items, multiRelease, limits).Some?
    ensures Thresholds(ImportedLayers(items, multiRelease, limits).value, Ascending(Grouped(items, multiRelease).value.Keys))
  {
    hide Grouped, LayersFor, ValidRoot, Merged, AllRooted, Ascending, Increasing, Threshold;
    var groups := Grouped(items, multiRelease).value;
    var versions := Ascending(groups.Keys);
    GroupsAreValid(items, multiRelease);
    AscendingIncreases(groups.Keys);
    FirstIsBase(versions);
    forall i | 0 <= i < |versions|
      ensures if i == 0 then versions[0] == 0 && LayersFor(groups, versions)[0].condition == EMPTY_MAP
              else 9 <= versions[i] <= Versions.MAX_NUMBER && LayersFor(groups, versions)[i].condition == Threshold(versions[i])
    {
      LayersForAre(groups, versions, i);
      assert versions[i] in versions;
      LaterIsNotBase(versions, i);
    }
  }

  lemma FirstIsBase(versions: seq<nat>)
    requires Increasing(versions) && 0 in versions
    ensures versions[0] == 0
  {
    var i :| 0 <= i < |versions| && versions[i] == 0;
  }

  lemma LaterIsNotBase(versions: seq<nat>, i: nat)
    requires Increasing(versions) && i < |versions|
    ensures i > 0 ==> versions[i] > 0
  {
    assert i > 0 ==> versions[0] < versions[i];
  }

  /**
   * The single check suffices: for every context in which versions can be compared, the matching layers are
   * a prefix, merging them succeeds under the same limits, and it is a step of the merge that was checked.
   */
  lemma OneCheckSuffices(items: seq<(bytes, Resource)>, multiRelease: bool, limits: Limits, context: Context)
    requires AllRooted(items) && ImportedLayers(items, multiRelease, limits).Some? && Comparable(context)
    ensures var layers := ImportedLayers(items, multiRelease, limits).value;
            var count := Matching(Ascending(Grouped(items, multiRelease).value.Keys), context);
            && count <= |layers|
            && (forall i :: 0 <= i < |layers| ==> Evaluator(context)(layers[i].condition) == Some(i < count))
            && Merged(layers, Evaluator(context), limits).Some?
            && Merged(layers, Evaluator(context), limits) == Merged(layers[..count], Evaluator(LATEST), limits)
  {
    hide Grouped, LayersFor, ValidRoot, Merged, AllRooted, Ascending, Evaluator, Matching;
    var layers := ImportedLayers(items, multiRelease, limits).value;
    var versions := Ascending(Grouped(items, multiRelease).value.Keys);
    ImportedAreThresholds(items, multiRelease, limits);
    var count := Matching(versions, context);
    LatestMatches(layers, versions);
    forall i | 0 <= i < |layers| ensures Evaluator(context)(layers[i].condition) == Some(i < count) {
      MatchingIsPrefix(layers, versions, context, i);
    }
    MergingAPrefix(layers, count, context, LATEST, limits);
    LayersFail(layers, count, Evaluator(LATEST), limits);
  }

  lemma LatestMatches(layers: seq<Layer>, versions: seq<nat>)
    requires Thresholds(layers, versions)
    ensures forall i :: 0 <= i < |layers| ==> Evaluator(LATEST)(layers[i].condition) == Some(true)
  {
    hide Evaluator, Threshold, Matching;
    ReachesLatest(0);
    LatestMatchesAll(versions);
    forall i | 0 <= i < |layers| ensures Evaluator(LATEST)(layers[i].condition) == Some(true) {
      MatchingIsPrefix(layers, versions, LATEST, i);
    }
  }

  /** A Java runtime of unknown version can use an import only when nothing is versioned. */
  lemma UnknownVersionFails(items: seq<(bytes, Resource)>, multiRelease: bool, limits: Limits, context: Context)
    requires AllRooted(items) && ImportedLayers(items, multiRelease, limits).Some? && !Comparable(context)
    ensures Merged(ImportedLayers(items, multiRelease, limits).value, Evaluator(context), limits).Some?
            <==> |ImportedLayers(items, multiRelease, limits).value| == 1
  {
    hide Grouped, LayersFor, ValidRoot, Merged, AllRooted, Ascending, Threshold;
    var layers := ImportedLayers(items, multiRelease, limits).value;
    var versions := Ascending(Grouped(items, multiRelease).value.Keys);
    ImportedAreThresholds(items, multiRelease, limits);
    GroupsAreValid(items, multiRelease);
    assert 0 in versions;
    EmptyConditionMatches(context);
    EmptyConditionMatches(LATEST);
    if |layers| > 1 {
      ThresholdMeaning(versions[|layers| - 1], context);
      assert Evaluator(context)(layers[|layers| - 1].condition) == None;
      LastFails(layers, Evaluator(context), limits);
    } else {
      OneLayer(layers, Evaluator(context), Evaluator(LATEST), limits);
    }
  }

  lemma LastFails(layers: seq<Layer>, matches: Item -> Option<bool>, limits: Limits)
    requires layers != [] && matches(layers[|layers| - 1].condition) == None
    ensures Merged(layers, matches, limits) == None
  {
  }

  lemma OneLayer(layers: seq<Layer>, a: Item -> Option<bool>, b: Item -> Option<bool>, limits: Limits)
    requires |layers| == 1 && a(layers[0].condition) == b(layers[0].condition)
    ensures Merged(layers, a, limits) == Merged(layers, b, limits)
  {
    hide WithLayer;
    assert layers[..0] == [];
  }

  /**
   * For every runtime, a path holds the file or link of the highest version that the runtime reaches and
   * that supplies the path.
   */
  lemma HighestVersionWins(items: seq<(bytes, Resource)>, multiRelease: bool, limits: Limits, context: Context, winner: nat, leaf: bytes)
    requires AllRooted(items) && ImportedLayers(items, multiRelease, limits).Some? && Comparable(context)
    requires var groups := Grouped(items, multiRelease).value;
             var versions := Ascending(groups.Keys);
             && winner < Matching(versions, context) && leaf != [] && IsLeaf(groups[versions[winner]], leaf)
             && forall i :: winner < i < Matching(versions, context) ==> !IsLeaf(groups[versions[i]], leaf)
    ensures var groups := Grouped(items, multiRelease).value;
            var merged := Merged(ImportedLayers(items, multiRelease, limits).value, Evaluator(context), limits);
            merged.Some? && Lookup(merged.value, leaf) == Some(LeafOf(groups[Ascending(groups.Keys)[winner]][leaf]))
  {
    hide Grouped, ImportedLayers, Merged, AllRooted, Ascending, Evaluator, Matching, IsLeaf, AllCoherent, Lookup, Supplied, Thresholds;
    var layers := ImportedLayers(items, multiRelease, limits).value;
    ImportedIsGrouped(items, multiRelease, limits);
    var groups := Grouped(items, multiRelease).value;
    var versions := Ascending(groups.Keys);
    var count := Matching(versions, context);
    OneCheckSuffices(items, multiRelease, limits, context);
    ImportedAreThresholds(items, multiRelease, limits);
    LatestMatches(layers, versions);
    ImportedAreCoherent(items, multiRelease, limits);
    ImportedAreSupplied(items, multiRelease, limits, leaf);
    PrefixWins(layers, count, groups, versions, winner, leaf, limits);
  }

  // ---------- Directories ----------

  /** The directory that a resource is or lies in. */
  function DirectoryOf(group: Group, path: bytes): bytes
    requires path in group
  {
    if group[path].DirectoryItem? then path else Parent(path)
  }

  /** A group implies its directories, the parents of its other resources, and all directories above these. */
  ghost predicate Implies(group: Group, path: bytes) {
    exists other :: other in group && path in Ancestors(DirectoryOf(group, other))
  }

  lemma {:induction false} DirectoriesRecord(group: Group, paths: seq<bytes>, path: bytes)
    ensures path in Records(DirectoriesFor(group, paths)) <==> path in paths
    ensures path in paths ==> Records(DirectoriesFor(group, paths))[path] == MetadataFor(group, path)
    ensures path in Closure(DirectoriesFor(group, paths)) <==> exists directory :: directory in paths && path in Ancestors(directory)
    decreases |paths|
  {
    hide MetadataFor, NamesUnder, EntriesFor, Ancestors;
    if paths != [] {
      var front, last := paths[..|paths| - 1], DirectoryFor(group, paths[|paths| - 1]);
      assert paths == front + [paths[|paths| - 1]];
      DirectoriesRecord(group, front, path);
      ClosureAppend(DirectoriesFor(group, front), last);
      assert (DirectoriesFor(group, front) + [last])[..|DirectoriesFor(group, front)|] == DirectoriesFor(group, front);
    }
  }

  /** What the layer of a group records, and which directories it implies. */
  lemma LayerRecords(version: nat, group: Group, path: bytes)
    ensures var directories := LayerFor(version, group).directories;
            && (path in Records(directories) <==> path in DirectoryPaths(group))
            && (path in DirectoryPaths(group) ==> Records(directories)[path] == MetadataFor(group, path))
            && (path in Closure(directories) <==> Implies(group, path))
  {
    hide MetadataFor, Parent, Ancestors, Records, Closure, DirectoriesFor;
    DirectoriesRecord(group, Sorted(DirectoryPaths(group)), path);
    if Implies(group, path) {
      var other :| other in group && path in Ancestors(DirectoryOf(group, other));
      assert DirectoryOf(group, other) in DirectoryPaths(group);
    }
    if directory :| directory in DirectoryPaths(group) && path in Ancestors(directory) {
      assert exists other :: other in group && DirectoryOf(group, other) == directory;
    }
  }

  /** Layer `i` records this path, and no later one does. */
  ghost predicate LastRecord(layers: seq<Layer>, i: nat, path: bytes)
    requires i < |layers|
  {
    path in Records(layers[i].directories) && forall j :: i < j < |layers| ==> path !in Records(layers[j].directories)
  }

  /** What becomes of a path at which no layer has a file or a link. */
  ghost predicate DirectoryAt(layers: seq<Layer>, path: bytes, node: Option<Node>) {
    && (node.Some? <==> path == [] || exists i :: 0 <= i < |layers| && path in Closure(layers[i].directories))
    && (node.Some? ==> node.value.Dir?)
    && (forall i :: 0 <= i < |layers| && LastRecord(layers, i, path) ==> node == Some(Dir(Some(Records(layers[i].directories)[path]))))
    && ((forall i :: 0 <= i < |layers| ==> path !in Records(layers[i].directories)) && node.Some? ==> node == Some(Dir(None)))
  }

  lemma {:induction false} NobodyWins(layers: seq<Layer>, matches: Item -> Option<bool>, path: bytes)
    requires forall i :: 0 <= i < |layers| ==> matches(layers[i].condition) == Some(true) && path !in Nodes(layers[i].directories)
    requires forall i :: 0 <= i < |layers| ==> Tombs(layers[i].directories) == {}
    requires Folded(layers, matches, path).Some?
    ensures DirectoryAt(layers, path, Folded(layers, matches, path).value)
    decreases |layers|
  {
    hide Closure, Nodes, Records, Tombs, DirectoryAt;
    if layers == [] {
      NothingAt(path);
    } else {
      var front, last := layers[..|layers| - 1], layers[|layers| - 1];
      NobodyWins(front, matches, path);
      DirectoryStep(layers, path, Folded(front, matches, path).value, Folded(layers, matches, path).value);
    }
  }

  lemma NothingAt(path: bytes)
    ensures DirectoryAt([], path, Lookup(EMPTY_TREE, path))
  {
  }

  lemma DirectoryStep(layers: seq<Layer>, path: bytes, before: Option<Node>, node: Option<Node>)
    requires layers != [] && DirectoryAt(layers[..|layers| - 1], path, before)
    requires var last := layers[|layers| - 1].directories;
             After(last, path, before) == Some(node) && path !in Nodes(last) && Tombs(last) == {}
    ensures DirectoryAt(layers, path, node)
  {
    hide Closure, Nodes, Records, Tombs;
    var front, last := layers[..|layers| - 1], layers[|layers| - 1];
    assert layers == front + [last];
    if path in Records(last.directories) {
      RecordsAreNeeded(last.directories, path);
    } else {
      forall i | 0 <= i < |front| ensures LastRecord(front, i, path) <==> LastRecord(layers, i, path) {
      }
    }
  }

  /**
   * The converse of `HighestVersionWins`: where no version that the runtime reaches supplies a file or a link,
   * there is a directory if one of them implies it, with the metadata of the last version that records it,
   * and nothing otherwise. Together they determine the merged tree at every path.
   */
  lemma UnsuppliedIsDirectory(items: seq<(bytes, Resource)>, multiRelease: bool, limits: Limits, context: Context, path: bytes)
    requires AllRooted(items) && ImportedLayers(items, multiRelease, limits).Some? && Comparable(context)
    requires var groups := Grouped(items, multiRelease).value;
             var versions := Ascending(groups.Keys);
             forall i :: 0 <= i < Matching(versions, context) ==> !IsLeaf(groups[versions[i]], path)
    ensures var groups := Grouped(items, multiRelease).value;
            var versions := Ascending(groups.Keys);
            var count := Matching(versions, context);
            var merged := Merged(ImportedLayers(items, multiRelease, limits).value, Evaluator(context), limits);
            && merged.Some?
            && ImpliedAt(groups, versions[..count], path, Lookup(merged.value, path))
  {
    hide Grouped, ImportedLayers, Merged, AllRooted, Ascending, Evaluator, Matching, IsLeaf, AllCoherent, Lookup, Supplied, Thresholds, Recording, ImpliedAt;
    var layers := ImportedLayers(items, multiRelease, limits).value;
    ImportedIsGrouped(items, multiRelease, limits);
    var groups := Grouped(items, multiRelease).value;
    var versions := Ascending(groups.Keys);
    var count := Matching(versions, context);
    OneCheckSuffices(items, multiRelease, limits, context);
    ImportedAreThresholds(items, multiRelease, limits);
    LatestMatches(layers, versions);
    ImportedAreCoherent(items, multiRelease, limits);
    ImportedAreRecorded(items, multiRelease, limits, path);
    PrefixIsDirectory(layers, count, groups, versions, path, limits);
  }

  /** The same in terms of the versions' own resources. */
  ghost predicate ImpliedAt(groups: map<nat, Group>, versions: seq<nat>, path: bytes, node: Option<Node>)
    requires forall version :: version in versions ==> version in groups
  {
    && (node.Some? <==> path == [] || exists i :: 0 <= i < |versions| && Implies(groups[versions[i]], path))
    && (node.Some? ==> node.value.Dir?)
    && (forall i :: 0 <= i < |versions| && LastNamed(groups, versions, i, path) ==> node == Some(Dir(Some(MetadataFor(groups[versions[i]], path)))))
    && ((forall i :: 0 <= i < |versions| ==> path !in DirectoryPaths(groups[versions[i]])) && node.Some? ==> node == Some(Dir(None)))
  }

  /** Version `i` names this directory, as its own or as a parent, and no later one does. */
  ghost predicate LastNamed(groups: map<nat, Group>, versions: seq<nat>, i: nat, path: bytes)
    requires i < |versions| && forall version :: version in versions ==> version in groups
  {
    path in DirectoryPaths(groups[versions[i]]) && forall j :: i < j < |versions| ==> path !in DirectoryPaths(groups[versions[j]])
  }

  /** Each layer records and implies what its group does, and removes nothing. */
  ghost predicate Recording(layers: seq<Layer>, groups: map<nat, Group>, versions: seq<nat>, path: bytes) {
    |layers| == |versions| && forall i :: 0 <= i < |layers| ==>
      && versions[i] in groups && Tombs(layers[i].directories) == {}
      && (path in Nodes(layers[i].directories) ==> IsLeaf(groups[versions[i]], path))
      && (path in Records(layers[i].directories) <==> path in DirectoryPaths(groups[versions[i]]))
      && (path in Records(layers[i].directories) ==> Records(layers[i].directories)[path] == MetadataFor(groups[versions[i]], path))
      && (path in Closure(layers[i].directories) <==> Implies(groups[versions[i]], path))
  }

  lemma ImportedIsGrouped(items: seq<(bytes, Resource)>, multiRelease: bool, limits: Limits)
    requires ImportedLayers(items, multiRelease, limits).Some?
    ensures Grouped(items, multiRelease).Some?
  {
  }

  /** Each layer has the leaf exactly when its group does, and removes nothing. */
  ghost predicate Supplied(layers: seq<Layer>, groups: map<nat, Group>, versions: seq<nat>, leaf: bytes) {
    |layers| == |versions| && forall i :: 0 <= i < |layers| ==>
      && versions[i] in groups && Tombs(layers[i].directories) == {}
      && (leaf in Nodes(layers[i].directories) <==> IsLeaf(groups[versions[i]], leaf))
      && (leaf in Nodes(layers[i].directories) ==> Nodes(layers[i].directories)[leaf] == LeafOf(groups[versions[i]][leaf]))
  }

  lemma ImportedAreSupplied(items: seq<(bytes, Resource)>, multiRelease: bool, limits: Limits, leaf: bytes)
    requires AllRooted(items) && ImportedLayers(items, multiRelease, limits).Some? && leaf != []
    ensures var groups := Grouped(items, multiRelease).value;
            Supplied(ImportedLayers(items, multiRelease, limits).value, groups, Ascending(groups.Keys), leaf)
  {
    hide Grouped, ValidRoot, Merged, AllRooted, Ascending, Nodes, Tombs, Coherent, LayerFor, Rooted;
    var layers := ImportedLayers(items, multiRelease, limits).value;
    var groups := Grouped(items, multiRelease).value;
    var versions := Ascending(groups.Keys);
    GroupsAreValid(items, multiRelease);
    ImportedAreCoherent(items, multiRelease, limits);
    forall i | 0 <= i < |layers|
      ensures versions[i] in groups && Tombs(layers[i].directories) == {}
      ensures leaf in Nodes(layers[i].directories) <==> IsLeaf(groups[versions[i]], leaf)
      ensures IsLeaf(groups[versions[i]], leaf) ==> Nodes(layers[i].directories)[leaf] == LeafOf(groups[versions[i]][leaf])
    {
      assert versions[i] in versions;
      LayersForAre(groups, versions, i);
      LeavesAreNotRoot(layers[i].directories);
      LayerHolds(versions[i], groups[versions[i]], leaf);
    }
  }

  lemma ImportedAreRecorded(items: seq<(bytes, Resource)>, multiRelease: bool, limits: Limits, path: bytes)
    requires AllRooted(items) && ImportedLayers(items, multiRelease, limits).Some?
    ensures var groups := Grouped(items, multiRelease).value;
            Recording(ImportedLayers(items, multiRelease, limits).value, groups, Ascending(groups.Keys), path)
  {
    hide Grouped, ValidRoot, Merged, AllRooted, Ascending, Nodes, Tombs, Records, Closure, Coherent, LayerFor, Rooted, Implies, DirectoryPaths, MetadataFor,
         IsLeaf;
    var layers := ImportedLayers(items, multiRelease, limits).value;
    var groups := Grouped(items, multiRelease).value;
    var versions := Ascending(groups.Keys);
    GroupsAreValid(items, multiRelease);
    ImportedAreCoherent(items, multiRelease, limits);
    forall i | 0 <= i < |layers|
      ensures versions[i] in groups && layers[i] == LayerFor(versions[i], groups[versions[i]])
      ensures Tombs(layers[i].directories) == {} && (path in Nodes(layers[i].directories) ==> IsLeaf(groups[versions[i]], path))
    {
      assert versions[i] in versions;
      LayersForAre(groups, versions, i);
      LeavesAreNotRoot(layers[i].directories);
      LayerHolds(versions[i], groups[versions[i]], path);
    }
    forall i | 0 <= i < |layers|
      ensures path in Records(layers[i].directories) <==> path in DirectoryPaths(groups[versions[i]])
      ensures path in Records(layers[i].directories) ==> Records(layers[i].directories)[path] == MetadataFor(groups[versions[i]], path)
      ensures path in Closure(layers[i].directories) <==> Implies(groups[versions[i]], path)
    {
      LayerRecords(versions[i], groups[versions[i]], path);
    }
  }

  lemma PrefixIsDirectory(layers: seq<Layer>, count: nat, groups: map<nat, Group>, versions: seq<nat>, path: bytes, limits: Limits)
    requires AllCoherent(layers) && Recording(layers, groups, versions, path) && count <= |layers|
    requires forall i :: 0 <= i < |layers| ==> Evaluator(LATEST)(layers[i].condition) == Some(true)
    requires Merged(layers[..count], Evaluator(LATEST), limits).Some?
    requires forall version :: version in versions ==> version in groups
    requires forall i :: 0 <= i < count ==> !IsLeaf(groups[versions[i]], path)
    ensures ImpliedAt(groups, versions[..count], path, Lookup(Merged(layers[..count], Evaluator(LATEST), limits).value, path))
  {
    hide Merged, Evaluator, Folded, Nodes, Tombs, Records, Closure, Coherent, Lookup, TreeShape, IsLeaf, DirectoryPaths, Implies, MetadataFor, DirectoryAt;
    var prefix, reached := layers[..count], versions[..count];
    MergedIsFold(prefix, Evaluator(LATEST), limits);
    var node := Lookup(Merged(prefix, Evaluator(LATEST), limits).value, path);
    assert Folded(prefix, Evaluator(LATEST), path) == Some(node);
    NobodyWins(prefix, Evaluator(LATEST), path);
    assert Recording(prefix, groups, reached, path);
    DirectoryIsImplied(prefix, groups, reached, path, node);
  }

  lemma DirectoryIsImplied(layers: seq<Layer>, groups: map<nat, Group>, versions: seq<nat>, path: bytes, node: Option<Node>)
    requires Recording(layers, groups, versions, path) && DirectoryAt(layers, path, node)
    requires forall version :: version in versions ==> version in groups
    ensures ImpliedAt(groups, versions, path, node)
  {
    hide Nodes, Tombs, Records, Closure, IsLeaf, DirectoryPaths, Implies, MetadataFor;
    forall i | 0 <= i < |versions| ensures LastNamed(groups, versions, i, path) <==> LastRecord(layers, i, path) {
    }
  }

  lemma PrefixWins(layers: seq<Layer>, count: nat, groups: map<nat, Group>, versions: seq<nat>, winner: nat, leaf: bytes, limits: Limits)
    requires AllCoherent(layers) && Supplied(layers, groups, versions, leaf) && winner < count <= |layers|
    requires forall i :: 0 <= i < |layers| ==> Evaluator(LATEST)(layers[i].condition) == Some(true)
    requires Merged(layers[..count], Evaluator(LATEST), limits).Some?
    requires IsLeaf(groups[versions[winner]], leaf) && forall i :: winner < i < count ==> !IsLeaf(groups[versions[i]], leaf)
    ensures Lookup(Merged(layers[..count], Evaluator(LATEST), limits).value, leaf) == Some(LeafOf(groups[versions[winner]][leaf]))
  {
    hide Merged, Evaluator, Folded, Nodes, Tombs, Coherent, Lookup, TreeShape;
    var prefix := layers[..count];
    MergedIsFold(prefix, Evaluator(LATEST), limits);
    assert Folded(prefix, Evaluator(LATEST), leaf) == Some(Lookup(Merged(prefix, Evaluator(LATEST), limits).value, leaf));
    HighestWins(prefix, Evaluator(LATEST), winner, leaf);
  }

  lemma LeavesAreNotRoot(directories: seq<Directory>)
    requires Coherent(directories)
    ensures [] !in Nodes(directories)
  {
    hide Closure, Nodes;
    RootIsNotLeaf(directories);
  }

  lemma ImportedAreCoherent(items: seq<(bytes, Resource)>, multiRelease: bool, limits: Limits)
    requires ImportedLayers(items, multiRelease, limits).Some?
    ensures AllCoherent(ImportedLayers(items, multiRelease, limits).value)
  {
    hide Grouped, LayersFor, Merged, Ascending, ValidLayer, Coherent, ValidRootMetadata;
    var layers := ImportedLayers(items, multiRelease, limits).value;
    forall i | 0 <= i < |layers| ensures Coherent(layers[i].directories) {
      assert ValidLayer(layers[i], limits);
      ValidIsCoherent(layers[i], limits);
    }
  }
}
