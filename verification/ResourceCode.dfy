/** Writing and reading roots in place, against a shared pool builder and a blob store. */
module ResourceCode {
  import opened Binary
  import opened Cbor
  import opened CborValues
  import opened DataPools
  import opened Paths
  import opened Names
  import opened Contents
  import opened Resources
  import opened ResourceChecks
  import opened BlobStores

  // ---------- Writing ----------

  /** Entries with nonempty names, as validation guarantees. */
  predicate Named(entry: Entry) {
    entry.name != [] && (entry.Link? ==> entry.target != [])
  }

  ghost predicate AllNamed(entries: seq<Entry>) {
    forall i :: 0 <= i < |entries| ==> Named(entries[i])
  }

  predicate WritableEntry(entry: Entry) {
    entry.File? ==> AllAdmissible(entry.content.steps)
  }

  /** Adds an entry to `out`, with the pool growth that `WrittenEntry` prescribes. */
  method WriteEntry(entry: Entry, pool: DataPoolBuilder, out: bytes) returns (r: Option<bytes>)
    requires pool.Valid() && Named(entry)
    modifies pool
    ensures pool.Valid() && (r.Some? <==> WritableEntry(entry))
    ensures r.Some? ==> (r.value, pool.State()) == (out + WrittenEntry(entry, old(pool.State())).0, WrittenEntry(entry, old(pool.State())).1)
  {
    hide WrittenName, ContentBytes, EncodeSized, PoolState.Consistent, Grows, AllAdmissible, SizedBody;
    var tag := match entry case File(_, _, _) => FILE_TAG case Link(_, _, _) => LINK_TAG case Tombstone(_) => TOMBSTONE_TAG;
    var named := WriteName(pool, entry.name, out + tag);
    ghost var name := WrittenName(entry.name, old(pool.State())).0;
    match entry {
      case File(_, content, metadata) =>
        r := WriteContent(named.value, content);
        if r.Some? {
          var written := WriteSized(r.value, SizedBody(metadata));
          assert written == out + (FILE_TAG + name + ContentBytes(content) + EncodeSized(metadata)) by { SizedIs(metadata); }
          r := Some(written);
        }
      case Link(_, target, metadata) =>
        ghost var middle := pool.State();
        r := WriteName(pool, target, named.value);
        var written := WriteSized(r.value, SizedBody(metadata));
        SizedIs(metadata);
        assert written == out + (LINK_TAG + name + WrittenName(target, middle).0 + EncodeSized(metadata));
        r := Some(written);
      case Tombstone(_) =>
        assert named.value == out + (TOMBSTONE_TAG + name);
        r := named;
    }
  }

  lemma SizedIs(item: Item)
    ensures EncodeSized(item) == Sized(SizedBody(item))
  {
  }

  /** All entries of a directory, or nothing when one cannot be written or they grow too long. */
  method WriteEntries(entries: seq<Entry>, pool: DataPoolBuilder, limits: Limits) returns (r: Option<bytes>)
    requires pool.Valid() && AllNamed(entries)
    modifies pool
    ensures pool.Valid()
    ensures r.Some? <==> WritableEntries(entries) && limits.Bytes(|WrittenEntries(entries, old(pool.State())).0|)
    ensures r.Some? ==> (r.value, pool.State()) == WrittenEntries(entries, old(pool.State()))
  {
    hide WrittenEntry, PoolState.Consistent, Grows, WritableEntry, Named;
    ghost var whole := WrittenEntries(entries, pool.State());
    var out: bytes := [];
    assert entries[0..] == entries && out + whole.0 == whole.0;
    for i := 0 to |entries|
      invariant pool.Valid() && limits.Bytes(|out|)
      invariant forall j :: 0 <= j < i ==> WritableEntry(entries[j])
      invariant whole == (out + WrittenEntries(entries[i..], pool.State()).0, WrittenEntries(entries[i..], pool.State()).1)
    {
      EntriesStep(entries, i, out, pool.State());
      var next := WriteEntry(entries[i], pool, out);
      if next == None || !limits.Bytes(|next.value|) {
        assert next == None ==> !WritableEntries(entries) by { WritableEach(entries, i); }
        return None;
      }
      out := next.value;
    }
    WritableEach(entries, 0);
    assert entries[|entries|..] == [] && out + [] == out;
    r := Some(out);
  }

  lemma WritableEach(entries: seq<Entry>, i: nat)
    ensures WritableEntries(entries) <==> forall j :: 0 <= j < |entries| ==> WritableEntry(entries[j])
    ensures i < |entries| && !WritableEntry(entries[i]) ==> !WritableEntries(entries)
  {
  }

  lemma AppendAssociates(out: bytes, first: bytes, rest: bytes)
    ensures out + (first + rest) == (out + first) + rest
  {
  }

  lemma EntriesUnfold(entries: seq<Entry>, p: PoolState)
    requires p.Consistent() && entries != []
    ensures var (first, q) := WrittenEntry(entries[0], p);
            var (rest, end) := WrittenEntries(entries[1..], q);
            WrittenEntries(entries, p) == (first + rest, end)
  {
    hide WrittenEntry, PoolState.Consistent, Grows;
  }

  lemma EntriesStep(entries: seq<Entry>, i: nat, out: bytes, p: PoolState)
    requires p.Consistent() && i < |entries|
    ensures var (first, q) := WrittenEntry(entries[i], p);
            && out + WrittenEntries(entries[i..], p).0 == (out + first) + WrittenEntries(entries[i + 1..], q).0
            && WrittenEntries(entries[i..], p).1 == WrittenEntries(entries[i + 1..], q).1
  {
    hide WrittenEntry, WrittenEntries, PoolState.Consistent, Grows;
    EntriesUnfold(entries[i..], p);
    assert entries[i..][0] == entries[i] && entries[i..][1..] == entries[i + 1..];
    var (first, q) := WrittenEntry(entries[i], p);
    AppendAssociates(out, first, WrittenEntries(entries[i + 1..], q).0);
  }

  ghost predicate DirectoriesNamed(directories: seq<Directory>) {
    forall i :: 0 <= i < |directories| ==> AllNamed(directories[i].entries)
  }

  /** The entries of a directory, written after its path. */
  ghost function EntryBytesOf(directory: Directory, p: PoolState): bytes
    requires p.Consistent()
  {
    InternedGrows(p, directory.path);
    WrittenEntries(directory.entries, Interned(p, directory.path).0).0
  }

  method WriteDirectory(directory: Directory, pool: DataPoolBuilder, limits: Limits, out: bytes) returns (r: Option<bytes>)
    requires pool.Valid() && AllNamed(directory.entries)
    modifies pool
    ensures pool.Valid()
    ensures r.Some? <==> WritableEntries(directory.entries) && limits.Bytes(|EntryBytesOf(directory, old(pool.State()))|)
    ensures |EntryBytesOf(directory, old(pool.State()))| <= |WrittenDirectory(directory, old(pool.State())).0|
    ensures r.Some? ==> (r.value, pool.State()) == (out + WrittenDirectory(directory, old(pool.State())).0, WrittenDirectory(directory, old(pool.State())).1)
  {
    hide WrittenEntries, WrittenDirectory, ContentBytes, PoolState.Consistent, Grows, Vuint, Sized, WritableEntries, AllNamed, SizedBody, Interned;
    ghost var p := pool.State();
    ghost var p1 := Interned(p, directory.path).0;
    DirectoryWritten(out, directory, p);
    var index := pool.Intern(directory.path);
    var head := WriteVuint(out, index);
    head := WriteSized(head, SizedBody(directory.metadata));
    head := WriteVuint(head, |directory.entries|);
    var entries := WriteEntries(directory.entries, pool, limits);
    if entries == None {
      return None;
    }
    assert AllAdmissible(InlineContent(entries.value).steps);
    r := WriteContent(head, InlineContent(entries.value));
  }

  lemma DirectoryWritten(out: bytes, directory: Directory, p: PoolState)
    requires p.Consistent()
    ensures Interned(p, directory.path).0.Consistent()
    ensures var (p1, index) := Interned(p, directory.path);
            var (entries, p2) := WrittenEntries(directory.entries, p1);
            && |entries| <= |WrittenDirectory(directory, p).0|
            && WrittenDirectory(directory, p).1 == p2
            && out + WrittenDirectory(directory, p).0
               == (out + Vuint(index) + Sized(SizedBody(directory.metadata)) + Vuint(|directory.entries|))
                  + ContentBytes(InlineContent(entries))
  {
    hide WrittenEntries, PoolState.Consistent, Grows, Vuint, Sized, SizedBody, ContentBytes, Interned;
    InternedGrows(p, directory.path);
    InlineIsLonger(WrittenEntries(directory.entries, Interned(p, directory.path).0).0);
  }

  lemma InlineIsLonger(data: bytes)
    ensures |ContentBytes(InlineContent(data))| >= |data|
  {
    hide Vuint;
  }

  /** Directories one after another; the running length is checked after each. */
  method WriteDirectories(directories: seq<Directory>, pool: DataPoolBuilder, limits: Limits, out: bytes) returns (r: Option<bytes>)
    requires pool.Valid() && DirectoriesNamed(directories)
    modifies pool
    ensures pool.Valid()
    ensures r.Some? ==> WritableDirectories(directories)
    ensures r == None && WritableDirectories(directories) ==> !limits.Bytes(|out| + |WrittenDirectories(directories, old(pool.State())).0|)
    ensures r.Some? ==> (r.value, pool.State()) == (out + WrittenDirectories(directories, old(pool.State())).0, WrittenDirectories(directories, old(pool.State())).1)
  {
    hide WrittenDirectory, PoolState.Consistent, Grows, WritableEntries, AllNamed;
    ghost var whole := WrittenDirectories(directories, pool.State());
    var written := out;
    assert directories[0..] == directories;
    for i := 0 to |directories|
      invariant pool.Valid()
      invariant forall j :: 0 <= j < i ==> WritableEntries(directories[j].entries)
      invariant out + whole.0 == written + WrittenDirectories(directories[i..], pool.State()).0
      invariant whole.1 == WrittenDirectories(directories[i..], pool.State()).1
    {
      DirectoriesStep(directories, i, written, pool.State());
      var next := WriteDirectory(directories[i], pool, limits, written);
      if next == None || !limits.Bytes(|next.value|) {
        return None;
      }
      written := next.value;
    }
    assert directories[|directories|..] == [] && written + [] == written;
    r := Some(written);
  }

  lemma DirectoriesUnfold(directories: seq<Directory>, p: PoolState)
    requires p.Consistent() && directories != []
    ensures var (first, q) := WrittenDirectory(directories[0], p);
            var (rest, end) := WrittenDirectories(directories[1..], q);
            WrittenDirectories(directories, p) == (first + rest, end)
  {
    hide WrittenDirectory, PoolState.Consistent, Grows;
  }

  lemma DirectoriesStep(directories: seq<Directory>, i: nat, out: bytes, p: PoolState)
    requires p.Consistent() && i < |directories|
    ensures var (first, q) := WrittenDirectory(directories[i], p);
            && out + WrittenDirectories(directories[i..], p).0 == (out + first) + WrittenDirectories(directories[i + 1..], q).0
            && WrittenDirectories(directories[i..], p).1 == WrittenDirectories(directories[i + 1..], q).1
  {
    hide WrittenDirectory, WrittenDirectories, PoolState.Consistent, Grows;
    DirectoriesUnfold(directories[i..], p);
    assert directories[i..][0] == directories[i] && directories[i..][1..] == directories[i + 1..];
    var (first, q) := WrittenDirectory(directories[i], p);
    AppendAssociates(out, first, WrittenDirectories(directories[i + 1..], q).0);
  }

  method WriteLayers(layers: seq<Layer>, pool: DataPoolBuilder, limits: Limits, out: bytes) returns (r: Option<bytes>)
    requires pool.Valid() && forall i :: 0 <= i < |layers| ==> DirectoriesNamed(layers[i].directories)
    modifies pool
    ensures pool.Valid()
    ensures r.Some? ==> Writable(layers)
    ensures r == None && Writable(layers) ==> !limits.Bytes(|out| + |WrittenLayers(layers, old(pool.State())).0|)
    ensures r.Some? ==> (r.value, pool.State()) == (out + WrittenLayers(layers, old(pool.State())).0, WrittenLayers(layers, old(pool.State())).1)
  {
    hide WrittenLayer, WrittenDirectories, PoolState.Consistent, Grows, WritableDirectories, DirectoriesNamed, Vuint, Sized, SizedBody;
    ghost var whole := WrittenLayers(layers, pool.State());
    var written := out;
    assert layers[0..] == layers;
    for i := 0 to |layers|
      invariant pool.Valid()
      invariant forall j :: 0 <= j < i ==> WritableDirectories(layers[j].directories)
      invariant out + whole.0 == written + WrittenLayers(layers[i..], pool.State()).0
      invariant whole.1 == WrittenLayers(layers[i..], pool.State()).1
    {
      LayersStep(layers, i, written, pool.State());
      var head := WriteSized(written, SizedBody(layers[i].condition));
      head := WriteVuint(head, |layers[i].directories|);
      var next := WriteDirectories(layers[i].directories, pool, limits, head);
      if next == None {
        return None;
      }
      written := next.value;
    }
    assert layers[|layers|..] == [] && written + [] == written;
    r := Some(written);
  }

  lemma LayersUnfold(layers: seq<Layer>, p: PoolState)
    requires p.Consistent() && layers != []
    ensures var (directories, q) := WrittenDirectories(layers[0].directories, p);
            var (rest, end) := WrittenLayers(layers[1..], q);
            var head := Sized(SizedBody(layers[0].condition)) + Vuint(|layers[0].directories|);
            WrittenLayers(layers, p) == (head + directories + rest, end)
  {
    hide WrittenDirectories, PoolState.Consistent, Grows, Vuint, Sized, SizedBody;
  }

  lemma LayersStep(layers: seq<Layer>, i: nat, out: bytes, p: PoolState)
    requires p.Consistent() && i < |layers|
    ensures var (directories, q) := WrittenDirectories(layers[i].directories, p);
            && out + WrittenLayers(layers[i..], p).0
               == (out + Sized(SizedBody(layers[i].condition)) + Vuint(|layers[i].directories|) + directories)
                  + WrittenLayers(layers[i + 1..], q).0
            && WrittenLayers(layers[i..], p).1 == WrittenLayers(layers[i + 1..], q).1
  {
    hide WrittenDirectories, WrittenLayers, PoolState.Consistent, Grows, Vuint, Sized, SizedBody;
    LayersUnfold(layers[i..], p);
    assert layers[i..][0] == layers[i] && layers[i..][1..] == layers[i + 1..];
    var (directories, q) := WrittenDirectories(layers[i].directories, p);
    var condition, count := Sized(SizedBody(layers[i].condition)), Vuint(|layers[i].directories|);
    AppendAssociates(out, condition + count + directories, WrittenLayers(layers[i + 1..], q).0);
    AppendAssociates(out, condition + count, directories);
    AppendAssociates(out, condition, count);
  }

  lemma ValidIsNamed(root: Root, limits: Limits)
    requires ValidRoot(root, limits)
    ensures forall i :: 0 <= i < |root.layers| ==> DirectoriesNamed(root.layers[i].directories)
  {
    hide ValidRootMetadata, ValidMetadata, Before, Closure, Files;
    forall i, j, k | 0 <= i < |root.layers| && 0 <= j < |root.layers[i].directories|
                     && 0 <= k < |root.layers[i].directories[j].entries|
      ensures Named(root.layers[i].directories[j].entries[k])
    {
      assert ValidLayer(root.layers[i], limits);
      assert ValidDirectory(root.layers[i].directories[j], limits);
      var entry := root.layers[i].directories[j].entries[k];
      assert ValidEntry(entry, limits);
      assert entry.Link? ==> Split(entry.target)[0] != [];
    }
  }

  /** Every rule of a root, layer by layer. */
  method ValidateRoot(root: Root, limits: Limits) returns (ok: bool)
    ensures ok <==> ValidRoot(root, limits)
  {
    hide ValidRootMetadata, ValidLayer;
    if !ValidRootMetadata(root.metadata) || !limits.Elements(|root.layers|) {
      return false;
    }
    for i := 0 to |root.layers|
      invariant forall j :: 0 <= j < i ==> ValidLayer(root.layers[j], limits)
    {
      var good := ValidateLayer(root.layers[i], limits);
      if !good {
        return false;
      }
    }
    ok := true;
  }

  /** Encodes a root with inline directory entries; names are interned into the builder. */
  method EncodeRoot(root: Root, pool: DataPoolBuilder, limits: Limits) returns (r: Option<bytes>)
    requires pool.Valid()
    modifies pool
    ensures pool.Valid()
    ensures match EncodedRoot(root, old(pool.State()), limits)
            case None => r == None
            case Some((s, q)) => r == Some(s) && pool.State() == q
  {
    hide ValidRoot, WrittenLayers, PoolState.Consistent, Grows, Writable, Vuint, SizedBody, DirectoriesNamed;
    var valid := ValidateRoot(root, limits);
    if !valid {
      return None;
    }
    ValidIsNamed(root, limits);
    var out := WriteVuint([], root.dataPool.pool);
    out := WriteVuint(out, root.dataPool.index);
    out := WriteSized(out, SizedBody(root.metadata));
    SizedIs(root.metadata);
    out := WriteVuint(out, |root.layers|);
    assert out == RefBytes(root.dataPool) + EncodeSized(root.metadata) + Vuint(|root.layers|);
    r := WriteLayers(root.layers, pool, limits, out);
    if r.Some? && !limits.Bytes(|r.value|) {
      r := None;
    }
  }
}
