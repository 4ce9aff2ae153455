/** Merging layers into a resource tree: removals, explicit and implicit directories, and entries. */
module Trees {
  import opened Binary
  import opened Cbor
  import opened Paths
  import opened Contents
  import opened Resources

  /** A merged node; an implicit directory has no metadata. */
  datatype Node =
    | Dir(metadata: Option<Item>)
    | FileNode(content: Content, fields: Item)
    | LinkNode(target: bytes, fields: Item)

  /** Nodes by canonical path; the empty path is the root. */
  type Tree = map<bytes, Node>

  const EMPTY_TREE: Tree := map[[] := Dir(None)]

  function NodeOf(entry: Entry): Node
    requires !entry.Tombstone?
  {
    match entry
    case File(_, content, metadata) => FileNode(content, metadata)
    case Link(_, target, metadata) => LinkNode(target, metadata)
  }

  predicate IsDir(nodes: Tree, path: bytes) {
    path in nodes && nodes[path].Dir?
  }

  // ---------- The steps, in the order they are taken ----------

  /** Removes the files and links that tombstones of one directory name. */
  function WithoutNames(nodes: Tree, path: bytes, entries: seq<Entry>): Tree {
    if entries == [] then nodes
    else
      var before := WithoutNames(nodes, path, entries[..|entries| - 1]);
      var last := entries[|entries| - 1];
      if last.Tombstone? && !IsDir(before, Joined(path, last.name)) then before - {Joined(path, last.name)} else before
  }

  function WithoutTombstones(nodes: Tree, directories: seq<Directory>): Tree {
    if directories == [] then nodes
    else
      var last := directories[|directories| - 1];
      WithoutNames(WithoutTombstones(nodes, directories[..|directories| - 1]), last.path, last.entries)
  }

  /** Adds implicit parents up to the first existing directory. */
  function WithDirectory(nodes: Tree, path: bytes, limits: Limits): Option<Tree>
    decreases |path|
  {
    if path == [] then Some(nodes)
    else if path in nodes then if nodes[path].Dir? then Some(nodes) else None
    else
      var more := nodes[path := Dir(None)];
      if limits.Elements(|more|) then WithDirectory(more, Parent(path), limits) else None
  }

  function WithEntries(nodes: Tree, path: bytes, entries: seq<Entry>, limits: Limits): Option<Tree> {
    if entries == [] then Some(nodes)
    else
      match WithEntries(nodes, path, entries[..|entries| - 1], limits)
      case None => None
      case Some(before) =>
        var last := entries[|entries| - 1];
        if last.Tombstone? then Some(before)
        else if IsDir(before, Joined(path, last.name)) then None
        else
          var more := before[Joined(path, last.name) := NodeOf(last)];
          if limits.Elements(|more|) then Some(more) else None
  }

  function WithRecord(nodes: Tree, directory: Directory, limits: Limits): Option<Tree> {
    match WithDirectory(nodes, directory.path, limits)
    case None => None
    case Some(more) => WithEntries(more[directory.path := Dir(Some(directory.metadata))], directory.path, directory.entries, limits)
  }

  function WithRecords(nodes: Tree, directories: seq<Directory>, limits: Limits): Option<Tree> {
    if directories == [] then Some(nodes)
    else
      match WithRecords(nodes, directories[..|directories| - 1], limits)
      case None => None
      case Some(before) => WithRecord(before, directories[|directories| - 1], limits)
  }

  /** One layer: tombstones apply before additions. */
  function WithLayer(nodes: Tree, directories: seq<Directory>, limits: Limits): Option<Tree> {
    WithRecords(WithoutTombstones(nodes, directories), directories, limits)
  }

  /** The layers that match, in order; a condition may also fail to evaluate. */
  function Merged(layers: seq<Layer>, matches: Item -> Option<bool>, limits: Limits): Option<Tree> {
    if layers == [] then Some(EMPTY_TREE)
    else
      match Merged(layers[..|layers| - 1], matches, limits)
      case None => None
      case Some(before) =>
        var last := layers[|layers| - 1];
        match matches(last.condition)
        case None => None
        case Some(applies) => if applies then WithLayer(before, last.directories, limits) else Some(before)
  }

  // ---------- The tree as it is built ----------

  class ResourceTree {
    var nodes: Tree
    const limits: Limits

    constructor (limits: Limits)
      ensures nodes == EMPTY_TREE && this.limits == limits
    {
      this.nodes, this.limits := EMPTY_TREE, limits;
    }

    /** Computes `WithDirectory` on the node map, from the path upwards. */
    method AddDirectory(path: bytes) returns (ok: bool)
      modifies this
      ensures ok <==> WithDirectory(old(nodes), path, limits).Some?
      ensures ok ==> Some(nodes) == WithDirectory(old(nodes), path, limits)
    {
      var current := path;
      while current != []
        invariant WithDirectory(nodes, current, limits) == WithDirectory(old(nodes), path, limits)
        decreases |current|
      {
        if current in nodes {
          return nodes[current].Dir?;
        }
        nodes := nodes[current := Dir(None)];
        if !limits.Elements(|nodes|) {
          return false;
        }
        current := Parent(current);
      }
      ok := true;
    }

    method RemoveTombstones(directory: Directory)
      modifies this
      ensures nodes == WithoutNames(old(nodes), directory.path, directory.entries)
    {
      ghost var entries := directory.entries;
      assert entries[..0] == [];
      for i := 0 to |directory.entries|
        invariant nodes == WithoutNames(old(nodes), directory.path, entries[..i])
      {
        assert entries[..i + 1][..i] == entries[..i];
        if directory.entries[i].Tombstone? {
          var path := Joined(directory.path, directory.entries[i].name);
          if !(path in nodes && nodes[path].Dir?) {
            nodes := nodes - {path};
          }
        }
      }
      assert entries[..|entries|] == entries;
    }

    /** Adds one explicit directory and its files and links. */
    method AddRecord(directory: Directory) returns (ok: bool)
      modifies this
      ensures ok <==> WithRecord(old(nodes), directory, limits).Some?
      ensures ok ==> Some(nodes) == WithRecord(old(nodes), directory, limits)
    {
      hide WithDirectory;
      var added := AddDirectory(directory.path);
      if !added {
        return false;
      }
      nodes := nodes[directory.path := Dir(Some(directory.metadata))];
      ghost var start, entries := nodes, directory.entries;
      assert entries[..0] == [];
      for i := 0 to |directory.entries|
        invariant WithEntries(start, directory.path, entries[..i], limits) == Some(nodes)
      {
        EntriesFail(start, directory.path, entries, i + 1, limits);
        assert entries[..i + 1][..i] == entries[..i];
        var entry := directory.entries[i];
        if !entry.Tombstone? {
          var path := Joined(directory.path, entry.name);
          if path in nodes && nodes[path].Dir? {
            return false;
          }
          nodes := nodes[path := NodeOf(entry)];
          if !limits.Elements(|nodes|) {
            return false;
          }
        }
      }
      assert entries[..|entries|] == entries;
      ok := true;
    }

    method AddLayer(directories: seq<Directory>) returns (ok: bool)
      modifies this
      ensures ok <==> WithLayer(old(nodes), directories, limits).Some?
      ensures ok ==> Some(nodes) == WithLayer(old(nodes), directories, limits)
    {
      hide WithoutNames, WithRecord;
      assert directories[..0] == [];
      for i := 0 to |directories|
        invariant nodes == WithoutTombstones(old(nodes), directories[..i])
      {
        assert directories[..i + 1][..i] == directories[..i];
        RemoveTombstones(directories[i]);
      }
      assert directories[..|directories|] == directories;
      ghost var start := nodes;
      for i := 0 to |directories|
        invariant WithRecords(start, directories[..i], limits) == Some(nodes)
      {
        RecordsFail(start, directories, i + 1, limits);
        assert directories[..i + 1][..i] == directories[..i];
        var added := AddRecord(directories[i]);
        if !added {
          return false;
        }
      }
      ok := true;
    }
  }

  /** Applies matching layers to a fresh tree. */
  method Merge(layers: seq<Layer>, matches: Item -> Option<bool>, limits: Limits) returns (r: Option<ResourceTree>)
    ensures r.Some? <==> Merged(layers, matches, limits).Some?
    ensures r.Some? ==> fresh(r.value) && r.value.limits == limits && Some(r.value.nodes) == Merged(layers, matches, limits)
  {
    hide WithLayer;
    var tree := new ResourceTree(limits);
    assert layers[..0] == [];
    for i := 0 to |layers|
      invariant Merged(layers[..i], matches, limits) == Some(tree.nodes) && tree.limits == limits
    {
      LayersFail(layers, i + 1, matches, limits);
      assert layers[..i + 1][..i] == layers[..i];
      var applies := matches(layers[i].condition);
      if applies == None {
        return None;
      }
      if applies.value {
        var added := tree.AddLayer(layers[i].directories);
        if !added {
          return None;
        }
      }
    }
    assert layers[..|layers|] == layers;
    r := Some(tree);
  }

  // ---------- A failed step fails the whole ----------

  lemma {:induction false} EntriesFail(nodes: Tree, path: bytes, entries: seq<Entry>, count: nat, limits: Limits)
    requires count <= |entries|
    ensures WithEntries(nodes, path, entries[..count], limits) == None ==> WithEntries(nodes, path, entries, limits) == None
    decreases |entries|
  {
    if count < |entries| {
      var front := entries[..|entries| - 1];
      assert front[..count] == entries[..count];
      EntriesFail(nodes, path, front, count, limits);
    } else {
      assert entries[..count] == entries;
    }
  }

  lemma {:induction false} RecordsFail(nodes: Tree, directories: seq<Directory>, count: nat, limits: Limits)
    requires count <= |directories|
    ensures WithRecords(nodes, directories[..count], limits) == None ==> WithRecords(nodes, directories, limits) == None
    decreases |directories|
  {
    hide WithRecord;
    if count < |directories| {
      var front := directories[..|directories| - 1];
      assert front[..count] == directories[..count];
      RecordsFail(nodes, front, count, limits);
    } else {
      assert directories[..count] == directories;
    }
  }

  lemma {:induction false} LayersFail(layers: seq<Layer>, count: nat, matches: Item -> Option<bool>, limits: Limits)
    requires count <= |layers|
    ensures Merged(layers[..count], matches, limits) == None ==> Merged(layers, matches, limits) == None
    decreases |layers|
  {
    hide WithLayer;
    if count < |layers| {
      var front := layers[..|layers| - 1];
      assert front[..count] == layers[..count];
      LayersFail(front, count, matches, limits);
    } else {
      assert layers[..count] == layers;
    }
  }
}
