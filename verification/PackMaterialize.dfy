/** A packed root merges, resolves and materializes as the layers it was packed from. */
module PackedArchives {
  import opened Binary
  import opened Text
  import opened Cbor
  import opened CborValues
  import opened Paths
  import opened Resources
  import opened ResourceReader
  import opened Trees
  import opened TreeProofs
  import opened Resolution
  import opened ResolutionTheorems
  import opened Materialization
  import opened MaterializationProofs
  import opened MaterializationTheorems
  import opened MaterializationExactness
  import opened BlobStores
  import opened Pack
  import opened PackTheorems
  import opened PackFitting
  import opened PackReading
  import opened Orders
  import Blobs
  import BlobBuilder
  import Manifests

  // ---------- Nodes that read alike ----------

  ghost predicate NodeReads(view: Blobs.View, before: Node, after: Node, pool: seq<bytes>) {
    if !before.FileNode? then after == before
    else after.FileNode? && FileReads(view, before.content, before.fields, after.content, after.fields, pool)
  }

  /** The same paths, with nodes that read alike. */
  ghost predicate TreeReads(view: Blobs.View, before: Tree, after: Tree, pool: seq<bytes>) {
    before.Keys == after.Keys && forall path :: path in before ==> NodeReads(view, before[path], after[path], pool)
  }

  /** Both fail, or both give trees that read alike. */
  ghost predicate Alike(view: Blobs.View, before: Option<Tree>, after: Option<Tree>, pool: seq<bytes>) {
    match (before, after)
    case (None, None) => true
    case (Some(a), Some(b)) => TreeReads(view, a, b, pool)
    case _ => false
  }

  lemma ReadsSize(view: Blobs.View, before: Tree, after: Tree, pool: seq<bytes>)
    requires TreeReads(view, before, after, pool)
    ensures |before| == |after|
    ensures forall path :: IsDir(before, path) <==> IsDir(after, path)
  {
    hide FileReads;
    assert |before| == |before.Keys| && |after| == |after.Keys|;
  }

  lemma ReadsMore(view: Blobs.View, before: Tree, after: Tree, pool: seq<bytes>, path: bytes, a: Node, b: Node)
    requires TreeReads(view, before, after, pool) && NodeReads(view, a, b, pool)
    ensures TreeReads(view, before[path := a], after[path := b], pool)
  {
    hide NodeReads;
  }

  lemma DirReads(view: Blobs.View, metadata: Option<Item>, pool: seq<bytes>)
    ensures NodeReads(view, Dir(metadata), Dir(metadata), pool)
  {
  }

  lemma {:induction false} NamesReadAlike(view: Blobs.View, before: Tree, after: Tree, path: bytes, a: seq<Entry>, b: seq<Entry>, pool: seq<bytes>)
    requires TreeReads(view, before, after, pool) && |a| == |b| && forall i :: 0 <= i < |a| ==> EntryReads(view, a[i], b[i], pool)
    ensures TreeReads(view, WithoutNames(before, path, a), WithoutNames(after, path, b), pool)
    decreases |a|
  {
    hide TreeReads, FileReads, Joined, IsDir;
    if a != [] {
      var front, last := |a| - 1, a[|a| - 1];
      NamesReadAlike(view, before, after, path, a[..front], b[..front], pool);
      assert EntryReads(view, last, b[front], pool);
      CutReads(view, WithoutNames(before, path, a[..front]), WithoutNames(after, path, b[..front]), pool, Joined(path, last.name));
    }
  }

  lemma CutReads(view: Blobs.View, before: Tree, after: Tree, pool: seq<bytes>, path: bytes)
    requires TreeReads(view, before, after, pool)
    ensures TreeReads(view, before - {path}, after - {path}, pool)
    ensures IsDir(before, path) <==> IsDir(after, path)
  {
    hide FileReads;
  }

  lemma {:induction false} TombstonesReadAlike(view: Blobs.View, before: Tree, after: Tree, a: seq<Directory>, b: seq<Directory>, pool: seq<bytes>)
    requires TreeReads(view, before, after, pool) && |a| == |b| && forall i :: 0 <= i < |a| ==> DirectoryReads(view, a[i], b[i], pool)
    ensures TreeReads(view, WithoutTombstones(before, a), WithoutTombstones(after, b), pool)
    decreases |a|
  {
    hide TreeReads, EntryReads, WithoutNames;
    if a != [] {
      var front := |a| - 1;
      TombstonesReadAlike(view, before, after, a[..front], b[..front], pool);
      assert DirectoryReads(view, a[front], b[front], pool);
      NamesReadAlike(view, WithoutTombstones(before, a[..front]), WithoutTombstones(after, b[..front]), a[front].path,
                     a[front].entries, b[front].entries, pool);
    }
  }

  lemma {:induction false} ParentsReadAlike(view: Blobs.View, before: Tree, after: Tree, path: bytes, limits: Limits, pool: seq<bytes>)
    requires TreeReads(view, before, after, pool)
    ensures Alike(view, WithDirectory(before, path, limits), WithDirectory(after, path, limits), pool)
    decreases |path|
  {
    if path != [] {
      if path in before {
        assert before[path].Dir? <==> after[path].Dir?;
      } else {
        hide NodeReads;
        var a, b := before[path := Dir(None)], after[path := Dir(None)];
        DirReads(view, None, pool);
        ReadsMore(view, before, after, pool, path, Dir(None), Dir(None));
        SameCount(a, b);
        if limits.Elements(|a|) {
          ParentsReadAlike(view, a, b, Parent(path), limits, pool);
        }
      }
    }
  }

  lemma SameCount(a: Tree, b: Tree)
    requires a.Keys == b.Keys
    ensures |a| == |b|
  {
    assert |a| == |a.Keys| && |b| == |b.Keys|;
  }

  lemma {:induction false} EntriesReadAlike(view: Blobs.View, before: Tree, after: Tree, path: bytes, a: seq<Entry>, b: seq<Entry>, limits: Limits,
                                            pool: seq<bytes>)
    requires TreeReads(view, before, after, pool) && |a| == |b| && forall i :: 0 <= i < |a| ==> EntryReads(view, a[i], b[i], pool)
    ensures Alike(view, WithEntries(before, path, a, limits), WithEntries(after, path, b, limits), pool)
    decreases |a|
  {
    hide TreeReads, FileReads, Joined, IsDir;
    if a != [] {
      var front, last := |a| - 1, a[|a| - 1];
      EntriesReadAlike(view, before, after, path, a[..front], b[..front], limits, pool);
      assert EntryReads(view, last, b[front], pool);
      if WithEntries(before, path, a[..front], limits).Some? && !last.Tombstone? {
        var m, n := WithEntries(before, path, a[..front], limits).value, WithEntries(after, path, b[..front], limits).value;
        CutReads(view, m, n, pool, Joined(path, last.name));
        ReadsMore(view, m, n, pool, Joined(path, last.name), NodeOf(last), NodeOf(b[front]));
        ReadsSize(view, m[Joined(path, last.name) := NodeOf(last)], n[Joined(path, last.name) := NodeOf(b[front])], pool);
      }
    }
  }

  lemma RecordReadsAlike(view: Blobs.View, before: Tree, after: Tree, a: Directory, b: Directory, limits: Limits, pool: seq<bytes>)
    requires TreeReads(view, before, after, pool) && DirectoryReads(view, a, b, pool)
    ensures Alike(view, WithRecord(before, a, limits), WithRecord(after, b, limits), pool)
  {
    hide TreeReads, EntryReads, WithDirectory, WithEntries, NodeReads;
    ParentsReadAlike(view, before, after, a.path, limits, pool);
    if WithDirectory(before, a.path, limits).Some? {
      var m, n := WithDirectory(before, a.path, limits).value, WithDirectory(after, a.path, limits).value;
      var node := Dir(Some(a.metadata));
      DirReads(view, Some(a.metadata), pool);
      ReadsMore(view, m, n, pool, a.path, node, node);
      EntriesReadAlike(view, m[a.path := node], n[a.path := node], a.path, a.entries, b.entries, limits, pool);
    }
  }

  lemma {:induction false} RecordsReadAlike(view: Blobs.View, before: Tree, after: Tree, a: seq<Directory>, b: seq<Directory>, limits: Limits,
                                            pool: seq<bytes>)
    requires TreeReads(view, before, after, pool) && |a| == |b| && forall i :: 0 <= i < |a| ==> DirectoryReads(view, a[i], b[i], pool)
    ensures Alike(view, WithRecords(before, a, limits), WithRecords(after, b, limits), pool)
    decreases |a|
  {
    hide TreeReads, DirectoryReads, WithRecord;
    if a != [] {
      var front := |a| - 1;
      RecordsReadAlike(view, before, after, a[..front], b[..front], limits, pool);
      if WithRecords(before, a[..front], limits).Some? {
        RecordReadsAlike(view, WithRecords(before, a[..front], limits).value, WithRecords(after, b[..front], limits).value, a[front], b[front],
                         limits, pool);
      }
    }
  }

  /** Merging layers that read alike succeeds or fails alike, and gives trees that read alike at every path. */
  lemma {:induction false} MergedReadAlike(view: Blobs.View, before: seq<Layer>, after: seq<Layer>, matches: Item -> Option<bool>, limits: Limits,
                                           pool: seq<bytes>)
    requires LayersRead(view, before, after, pool)
    ensures Alike(view, Merged(before, matches, limits), Merged(after, matches, limits), pool)
    decreases |before|
  {
    hide DirectoryReads, NodeReads, WithRecords, WithoutTombstones;
    if before == [] {
      DirReads(view, None, pool);
    } else {
      hide TreeReads;
      var front := |before| - 1;
      var a, b := before[front], after[front];
      assert LayerReads(view, a, b, pool);
      MergedReadAlike(view, before[..front], after[..front], matches, limits, pool);
      if Merged(before[..front], matches, limits).Some? {
        var m, n := Merged(before[..front], matches, limits).value, Merged(after[..front], matches, limits).value;
        TombstonesReadAlike(view, m, n, a.directories, b.directories, pool);
        RecordsReadAlike(view, WithoutTombstones(m, a.directories), WithoutTombstones(n, b.directories), a.directories, b.directories, limits, pool);
      }
    }
  }

  // ---------- Links ----------

  /** Links lead to the same place: what a file holds does not matter. */
  lemma {:induction false} WalksAlike(view: Blobs.View, before: Tree, after: Tree, pool: seq<bytes>, limits: Limits, pending: seq<bytes>,
                                      current: seq<bytes>, budget: nat, room: int)
    requires TreeReads(view, before, after, pool)
    ensures Walk(before, limits, pending, current, budget, room) == Walk(after, limits, pending, current, budget, room)
    decreases budget, |pending|
  {
    hide Join, Joined, Split, FileReads;
    if pending != [] {
      var component, rest := pending[0], pending[1..];
      var candidate := Joined(Join(current), component);
      if component == DOT {
        WalksAlike(view, before, after, pool, limits, rest, current, budget, room);
      } else if component == DOT_DOT {
        if current != [] {
          WalksAlike(view, before, after, pool, limits, rest, current[..|current| - 1], budget, room);
        }
      } else if candidate in before && before[candidate].LinkNode? {
        assert after[candidate] == before[candidate];
        if budget > 0 {
          WalksAlike(view, before, after, pool, limits, Split(before[candidate].target) + rest, current, budget - 1, room);
        }
      } else {
        WalksAlike(view, before, after, pool, limits, rest, current + [component], budget, room);
      }
    }
  }

  lemma ResolvesAlike(view: Blobs.View, before: Tree, after: Tree, pool: seq<bytes>, limits: Limits, path: bytes)
    requires TreeReads(view, before, after, pool)
    ensures Resolved(before, limits, path) == Resolved(after, limits, path)
  {
    hide Walk, ValidPath, NodeReads;
    if ValidPath(path, true, true, limits) {
      WalksAlike(view, before, after, pool, limits, PartsOf(path), [], limits.maxDepth, limits.maxElements);
    }
  }

  // ---------- Two jobs ----------

  /** What the tree's reader gives for a path: it resolves links first, and only files have bytes. */
  function FileBytes(view: Blobs.View, nodes: Tree, pool: seq<bytes>, path: bytes): Option<bytes> {
    match Resolved(nodes, view.limits, path)
    case None => None
    case Some(canonical) =>
      if nodes[canonical].FileNode? then ReadFile(view, nodes[canonical].content, nodes[canonical].fields, pool) else None
  }

  /** The manifest that a runtime sees, if the stored one can be parsed. */
  function RuntimeManifest(data: bytes, limits: Limits): Option<bytes> {
    match Manifests.Parsed(data, limits)
    case None => None
    case Some(manifest) => Some(Manifests.RuntimeText(manifest))
  }

  /** Expanding a merged tree whose files are read from blobs. */
  function JobOf(view: Blobs.View, nodes: Tree, pool: seq<bytes>, maxBytes: nat): Job {
    Job(nodes, Sorted(nodes.Keys), view.limits, view.limits, maxBytes,
        path => FileBytes(view, nodes, pool, path), data => RuntimeManifest(data, view.limits))
  }

  /** The imported bytes behind a path, if the reader admits the descriptor that replaces them. */
  function ImportedBytes(limits: Limits, imported: Tree, packed: Tree, path: bytes): Option<bytes>
    requires imported.Keys == packed.Keys
  {
    match Resolved(imported, limits, path)
    case None => None
    case Some(canonical) =>
      if imported[canonical].FileNode? && packed[canonical].FileNode? && imported[canonical].content.source.Inline?
         && AdmitsFile(packed[canonical].content, imported[canonical].content.source.data, limits)
      then Some(imported[canonical].content.source.data) else None
  }

  /** The expansion of the imported tree, which needs no blobs. */
  function ImportJob(limits: Limits, imported: Tree, packed: Tree, maxBytes: nat): Job
    requires imported.Keys == packed.Keys
  {
    Job(imported, Sorted(imported.Keys), limits, limits, maxBytes,
        path => ImportedBytes(limits, imported, packed, path), data => RuntimeManifest(data, limits))
  }

  lemma SortedIsReady(view: Blobs.View, nodes: Tree, pool: seq<bytes>, maxBytes: nat)
    requires Resolvable(nodes, view.limits)
    ensures Ready(JobOf(view, nodes, pool, maxBytes))
  {
    hide Resolvable, Sorted;
    Orders.SortedIsDistinct(nodes.Keys);
  }

  lemma ImportIsReady(view: Blobs.View, imported: Tree, packed: Tree, pool: seq<bytes>, maxBytes: nat)
    requires TreeReads(view, imported, packed, pool) && Resolvable(packed, view.limits)
    ensures Ready(ImportJob(view.limits, imported, packed, maxBytes))
  {
    hide Resolvable, Sorted, NodeReads;
    Orders.SortedIsDistinct(imported.Keys);
    ResolvableAlike(view, imported, packed, pool);
  }

  lemma ResolvableAlike(view: Blobs.View, before: Tree, after: Tree, pool: seq<bytes>)
    requires TreeReads(view, before, after, pool) && Resolvable(after, view.limits)
    ensures Resolvable(before, view.limits)
  {
    hide FileReads, CanonicalPath, Parent, Components, Split;
    ReadsSize(view, before, after, pool);
  }

  /** Reading through blobs gives the imported bytes of exactly the files that the reader admits. */
  lemma BytesAlike(view: Blobs.View, imported: Tree, packed: Tree, pool: seq<bytes>, path: bytes)
    requires TreeReads(view, imported, packed, pool)
    ensures FileBytes(view, packed, pool, path) == ImportedBytes(view.limits, imported, packed, path)
  {
    hide Resolved, ReadFile, AdmitsFile, Get;
    ResolvesAlike(view, imported, packed, pool, view.limits, path);
    var canonical := Resolved(imported, view.limits, path);
    if canonical.Some? {
      ResolvedIsThere(imported, view.limits, path);
      assert NodeReads(view, imported[canonical.value], packed[canonical.value], pool);
    }
  }

  lemma ResolvedIsThere(nodes: Tree, limits: Limits, path: bytes)
    ensures Resolved(nodes, limits, path).Some? ==> Resolved(nodes, limits, path).value in nodes
  {
    hide Walk, ValidPath;
  }

  /** Jobs that differ only in what stands behind their files. */
  ghost predicate Agree(a: Job, b: Job) {
    && a.paths == b.paths && a.limits == b.limits && a.maxBytes == b.maxBytes && a.nodes.Keys == b.nodes.Keys
    && (forall path :: path in a.nodes ==> SameKind(a.nodes[path], b.nodes[path]))
    && (forall path :: Resolved(a.nodes, a.treeLimits, path) == Resolved(b.nodes, b.treeLimits, path))
    && (forall path :: a.read(path) == b.read(path)) && (forall data :: a.rewrite(data) == b.rewrite(data))
  }

  predicate SameKind(a: Node, b: Node) {
    (a.Dir? <==> b.Dir?) && (a.FileNode? <==> b.FileNode?)
  }

  lemma {:induction false} AllExpandAlike(a: Job, b: Job, children: seq<bytes>, output: bytes, depth: nat, active: set<bytes>, st: Progress)
    requires Agree(a, b) && depth <= a.limits.maxDepth
    ensures ExpandedAll(a, children, output, depth, active, st) == ExpandedAll(b, children, output, depth, active, st)
    decreases Levels(a, depth), 0, |children| + 1
  {
    hide Agree, ExpandedOne;
    SameLimits(a, b);
    if children != [] {
      OneExpandsAlike(a, b, children[0], output, depth, active, st);
      var one := ExpandedOne(a, children[0], output, depth, active, st);
      if one.Some? {
        AllExpandAlike(a, b, children[1..], output, depth, active, one.value.1);
      }
    }
  }

  lemma SameLimits(a: Job, b: Job)
    requires Agree(a, b)
    ensures a.limits == b.limits && a.paths == b.paths
  {
  }

  lemma {:induction false} OneExpandsAlike(a: Job, b: Job, path: bytes, output: bytes, depth: nat, active: set<bytes>, st: Progress)
    requires Agree(a, b) && depth <= a.limits.maxDepth
    ensures ExpandedOne(a, path, output, depth, active, st) == ExpandedOne(b, path, output, depth, active, st)
    decreases Levels(a, depth), 0, 0
  {
    hide Resolved, IsManifest, JarSignature, Joined, ChildrenOf, ExpandedAll;
    var destination, resolved := Joined(output, NameOf(path)), Resolved(a.nodes, a.treeLimits, path);
    assert resolved == Resolved(b.nodes, b.treeLimits, path);
    if resolved.Some? && resolved.value in a.nodes {
      var canonical, next := resolved.value, Progress(st.count + 1, st.bytes);
      assert SameKind(a.nodes[canonical], b.nodes[canonical]);
      assert a.read(canonical) == b.read(canonical);
      if a.nodes[canonical].Dir? && depth < a.limits.maxDepth {
        AllExpandAlike(a, b, ChildrenOf(a.paths, canonical), destination, depth + 1, active + {canonical}, next);
      }
    }
  }

  lemma JobsAgree(view: Blobs.View, imported: Tree, packed: Tree, pool: seq<bytes>, maxBytes: nat)
    requires TreeReads(view, imported, packed, pool)
    ensures Agree(JobOf(view, packed, pool, maxBytes), ImportJob(view.limits, imported, packed, maxBytes))
  {
    hide Resolved, FileBytes, ImportedBytes, RuntimeManifest, Sorted;
    forall path: bytes
      ensures Resolved(packed, view.limits, path) == Resolved(imported, view.limits, path)
      ensures FileBytes(view, packed, pool, path) == ImportedBytes(view.limits, imported, packed, path)
    {
      ResolvesAlike(view, imported, packed, pool, view.limits, path);
      BytesAlike(view, imported, packed, pool, path);
    }
    forall path | path in packed ensures SameKind(packed[path], imported[path]) {
      assert NodeReads(view, imported[path], packed[path], pool);
    }
  }

  // ---------- The archive ----------

  /** A written file holds the imported bytes of its source, or the runtime form of the imported manifest. */
  ghost predicate HoldsImport(imported: Tree, limits: Limits, out: Output) {
    out.FileOut? ==>
      && out.source in imported && imported[out.source].FileNode? && imported[out.source].content.source.Inline?
      && var data := imported[out.source].content.source.data;
         Some(out.data) == if IsManifest(out.path) then RuntimeManifest(data, limits) else Some(data)
  }

  lemma SelfResolves(nodes: Tree, limits: Limits, path: bytes)
    requires Resolvable(nodes, limits) && CanonicalPath(path) && path in nodes && !nodes[path].LinkNode?
    requires Resolved(nodes, limits, path).Some?
    ensures Resolved(nodes, limits, path) == Some(path)
  {
    hide TreeShape, GoodLinks, GoodPaths, TreeFits, Join, Walk;
    var position := PartsOf(path);
    assert Resolution.Stands(nodes, limits, position);
    CanonicalWalks(nodes, limits, position, 0, limits.maxDepth, limits.maxElements);
    assert position[0..] == position && position[..0] == [];
  }

  lemma OutputHoldsImport(view: Blobs.View, imported: Tree, packed: Tree, pool: seq<bytes>, maxBytes: nat, out: Output)
    requires TreeReads(view, imported, packed, pool) && Resolvable(packed, view.limits)
    requires Faithful(JobOf(view, packed, pool, maxBytes), out)
    ensures HoldsImport(imported, view.limits, out)
  {
    hide Resolved, Resolvable, Denotes, CanonicalPath, AdmitsFile, RuntimeManifest, IsManifest, ReadFile, Sorted;
    if out.FileOut? {
      SelfResolves(packed, view.limits, out.source);
      BytesAlike(view, imported, packed, pool, out.source);
      ResolvesAlike(view, imported, packed, pool, view.limits, out.source);
    }
  }

  /** Expanding the packed tree through blobs is expanding the imported tree, which needs none. */
  lemma MaterializedAlike(view: Blobs.View, imported: Tree, packed: Tree, pool: seq<bytes>, maxBytes: nat)
    requires TreeReads(view, imported, packed, pool) && Resolvable(packed, view.limits)
    ensures Ready(JobOf(view, packed, pool, maxBytes)) && Ready(ImportJob(view.limits, imported, packed, maxBytes))
    ensures Materialized(JobOf(view, packed, pool, maxBytes)) == Materialized(ImportJob(view.limits, imported, packed, maxBytes))
    ensures Materialized(JobOf(view, packed, pool, maxBytes)).Some? ==>
              var outs := Materialized(JobOf(view, packed, pool, maxBytes)).value.0;
              forall i :: 0 <= i < |outs| ==> HoldsImport(imported, view.limits, outs[i])
  {
    hide JobOf, ImportJob, Ready, Agree, TreeReads, NodeReads, Resolvable, Faithful, HoldsImport, ExpandedAll, ChildrenOf,
         Complete, Acyclic, DistinctNames, HasParent, ChildrenSupplied, Avoids;
    SamePaths(view, imported, packed, pool);
    var through, direct := JobOf(view, packed, pool, maxBytes), ImportJob(view.limits, imported, packed, maxBytes);
    SortedIsReady(view, packed, pool, maxBytes);
    ImportIsReady(view, imported, packed, pool, maxBytes);
    JobsAgree(view, imported, packed, pool, maxBytes);
    SameLimits(through, direct);
    AllExpandAlike(through, direct, ChildrenOf(through.paths, []), [], 0, {} + {[]}, Progress(0, 0));
    if Materialized(through).Some? {
      MaterializedIsFaithful(through);
      var outs := Materialized(through).value.0;
      forall i | 0 <= i < |outs| ensures HoldsImport(imported, view.limits, outs[i]) {
        OutputHoldsImport(view, imported, packed, pool, maxBytes, outs[i]);
      }
    }
  }

  lemma SamePaths(view: Blobs.View, imported: Tree, packed: Tree, pool: seq<bytes>)
    requires TreeReads(view, imported, packed, pool)
    ensures imported.Keys == packed.Keys
  {
  }

  /**
   * The archive made through blobs is the one made from the imported tree. There is one exactly when every way
   * down the imported tree is good and the whole fits; then its files hold imported bytes, at names that denote
   * their sources.
   */
  ghost predicate ExpandsAsImported(view: Blobs.View, imported: Tree, packed: Tree, pool: seq<bytes>, maxBytes: nat)
    requires imported.Keys == packed.Keys
  {
    var through, direct := JobOf(view, packed, pool, maxBytes), ImportJob(view.limits, imported, packed, maxBytes);
    && Materialized(through) == Materialized(direct)
    && (Materialized(through).Some? <==>
          (forall trail :: trail != [] && Trail(direct, trail) ==> Good(direct, trail))
          && view.limits.Elements(|Outputs(direct)|) && Total(Outputs(direct)) <= maxBytes)
    && (Materialized(through).Some? ==>
          var outs := Materialized(through).value.0;
          AllFaithful(through, outs) && forall i :: 0 <= i < |outs| ==> HoldsImport(imported, view.limits, outs[i]))
  }

  lemma TreesExpandAlike(view: Blobs.View, imported: Tree, packed: Tree, pool: seq<bytes>, maxBytes: nat)
    requires TreeReads(view, imported, packed, pool) && Resolvable(packed, view.limits)
    ensures ExpandsAsImported(view, imported, packed, pool, maxBytes)
  {
    hide Ready, TreeReads, Resolvable, AllFaithful, HoldsImport, Materialized, Trail, Good, Outputs, Total, Complete, Acyclic, DistinctNames, HasParent,
         ChildrenSupplied, Avoids, FileBytes, ImportedBytes, RuntimeManifest, Sorted;
    SamePaths(view, imported, packed, pool);
    MaterializedAlike(view, imported, packed, pool, maxBytes);
    MaterializedExactly(ImportJob(view.limits, imported, packed, maxBytes));
    if Materialized(JobOf(view, packed, pool, maxBytes)).Some? {
      MaterializedIsFaithful(JobOf(view, packed, pool, maxBytes));
    }
  }

  /** Merging the packed layers is merging the imported ones, and then both expand to the same archive. */
  ghost predicate ArchivesAlike(view: Blobs.View, imported: Option<Tree>, packed: Option<Tree>, pool: seq<bytes>, maxBytes: nat) {
    && Alike(view, imported, packed, pool)
    && (imported.Some? ==> ExpandsAsImported(view, imported.value, packed.value, pool, maxBytes))
  }

  /**
   * From the imported layers to an archive: a packed root loads; under any evaluation of the conditions its layers
   * merge exactly when the imported ones do, and what is then expanded through a lazy store is the imported tree,
   * links, cycles, limits and runtime manifest included.
   */
  lemma PackedArchive(view: Blobs.View, accepts: Item -> bool, layers: seq<Layer>, name: bytes, cfg: Config,
                      matches: Item -> Option<bool>, maxBytes: nat)
    requires PackedRoot(layers, name, cfg).Some? && Holds(view, PackedRoot(layers, name, cfg).value, cfg)
    requires FitsImport(layers, name, accepts, cfg.transform, view.limits)
    ensures var built := PackedRoot(layers, name, cfg).value;
            && LoadedRoot(Trusted(view), accepts, built.reference) == Some((built.root, built.names.entries))
            && ArchivesAlike(Trusted(view), Merged(layers, matches, view.limits), Merged(built.root.layers, matches, view.limits),
                             built.names.entries, maxBytes)
  {
    hide PackedRoot, FitsImport, Trusted, Holds, LoadedRoot, LayersRead, Merged, ExpandsAsImported, TreeReads, Resolvable, ValidRoot, FitsRoot, AllDistinct;
    var built := PackedRoot(layers, name, cfg).value;
    PackedLoads(view, accepts, layers, name, cfg);
    MergedReadAlike(Trusted(view), layers, built.root.layers, matches, view.limits, built.names.entries);
    HeldDigests(view, built, cfg);
    PackedFits(layers, name, accepts, cfg, view.limits);
    TrustedCodec(view);
    var packed := Merged(built.root.layers, matches, view.limits);
    if packed.Some? {
      assert built.root.layers[..|built.root.layers|] == built.root.layers;
      MergedIsResolvable(built.root, |built.root.layers|, matches, view.limits);
      TreesExpandAlike(Trusted(view), Merged(layers, matches, view.limits).value, packed.value, built.names.entries, maxBytes);
    }
  }

  lemma HeldDigests(view: Blobs.View, built: PackedPool, cfg: Config)
    requires Holds(view, built, cfg)
    ensures BlobBuilder.DigestsFit(cfg.codec)
  {
    hide AdmitsPool;
    BlobBuilder.FaithfulDigests(cfg.codec, view.limits);
  }
}
