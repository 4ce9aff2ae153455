/** Every written root reads back, against a pool that may have grown further. */
module ResourceProofs {
  import opened Binary
  import opened Cbor
  import opened CborValues
  import opened DataPools
  import opened Text
  import opened Names
  import opened Contents
  import opened Resources
  import Blobs

  lemma MetadataEnds(s: bytes, pos: nat, head: bytes, metadata: Item, limits: Limits)
    requires At(s, pos, head + EncodeSized(metadata)) && FitsItem(metadata, limits)
    ensures At(s, pos, head)
    ensures SizedItemAt(s, pos + |head|, limits) == Got(metadata, pos + |head + EncodeSized(metadata)|)
  {
    hide At, SizedItemAt, EncodeSized, Valid, SizedBody;
    AtConcat(s, pos, head, EncodeSized(metadata));
    SizedItemRoundTrip(s, pos + |head|, metadata, limits);
  }

  lemma TagAndName(s: bytes, pos: nat, tag: bytes, name: bytes, p: PoolState, pool: seq<bytes>, limits: Limits)
    requires |tag| == 4 && p.Consistent() && FitsName(name, limits)
    requires At(s, pos, tag + WrittenName(name, p).0)
    requires Within(WrittenName(name, p).1, pool) && |pool| <= U64_LIMIT
    ensures TakeAt(s, pos, 4) == Got(tag, pos + 4)
    ensures NameFrom(pool, s, pos + 4, limits) == Got(name, pos + 4 + |WrittenName(name, p).0|)
  {
    hide NameFrom, WrittenName, Within, PoolState.Consistent, Utf8;
    AtConcat(s, pos, tag, WrittenName(name, p).0);
    NameRoundTrip(name, p, s, pos + 4, pool, limits);
  }

  /** One entry of any kind reads back. */
  lemma EntryRoundTrip(s: bytes, pos: nat, entry: Entry, p: PoolState, pool: seq<bytes>, limits: Limits)
    requires p.Consistent() && FitsEntry(entry, limits)
    requires At(s, pos, WrittenEntry(entry, p).0)
    requires Within(WrittenEntry(entry, p).1, pool) && |pool| <= U64_LIMIT
    ensures DirectoryEntryAt(pool, s, pos, limits) == Got(entry, pos + |WrittenEntry(entry, p).0|)
  {
    hide At, NameFrom, WrittenName, ContentAt, ContentBytes, SizedItemAt, EncodeSized, Within, FitsName, FitsItem, FitsContent,
         PoolState.Consistent, Grows, TakeAt;
    var (name, p1) := WrittenName(entry.name, p);
    match entry
    case File(_, content, metadata) =>
      var body := ContentBytes(content);
      MetadataEnds(s, pos, FILE_TAG + name + body, metadata, limits);
      AtConcat(s, pos, FILE_TAG + name, body);
      TagAndName(s, pos, FILE_TAG, entry.name, p, pool, limits);
      ContentRoundTrip(s, pos + |FILE_TAG + name|, content, limits);
    case Link(_, target, metadata) =>
      var (text, p2) := WrittenName(target, p1);
      WithinEarlier(p1, p2, pool);
      MetadataEnds(s, pos, LINK_TAG + name + text, metadata, limits);
      AtConcat(s, pos, LINK_TAG + name, text);
      TagAndName(s, pos, LINK_TAG, entry.name, p, pool, limits);
      TargetReads(target, p1, s, pos + |LINK_TAG + name|, pool, limits);
    case Tombstone(_) =>
      TagAndName(s, pos, TOMBSTONE_TAG, entry.name, p, pool, limits);
  }

  lemma TargetReads(name: bytes, p: PoolState, s: bytes, pos: nat, pool: seq<bytes>, limits: Limits)
    requires p.Consistent() && FitsName(name, limits) && At(s, pos, WrittenName(name, p).0)
    requires Within(WrittenName(name, p).1, pool) && |pool| <= U64_LIMIT
    ensures NameFrom(pool, s, pos, limits) == Got(name, pos + |WrittenName(name, p).0|)
  {
    hide NameFrom, WrittenName, Within, PoolState.Consistent, Utf8, At;
    NameRoundTrip(name, p, s, pos, pool, limits);
  }

  lemma {:induction false} EntriesRoundTrip(s: bytes, pos: nat, entries: seq<Entry>, p: PoolState, pool: seq<bytes>, limits: Limits)
    requires p.Consistent() && forall i :: 0 <= i < |entries| ==> FitsEntry(entries[i], limits)
    requires At(s, pos, WrittenEntries(entries, p).0)
    requires Within(WrittenEntries(entries, p).1, pool) && |pool| <= U64_LIMIT
    ensures EntriesAt(pool, s, pos, |entries|, limits) == Got(entries, pos + |WrittenEntries(entries, p).0|)
    decreases |entries|
  {
    hide At, DirectoryEntryAt, WrittenEntry, Within, FitsEntry, PoolState.Consistent, Grows;
    if entries != [] {
      var (first, p1) := WrittenEntry(entries[0], p);
      var (rest, p2) := WrittenEntries(entries[1..], p1);
      WithinEarlier(p1, p2, pool);
      AtConcat(s, pos, first, rest);
      EntryRoundTrip(s, pos, entries[0], p, pool, limits);
      EntriesRoundTrip(s, pos + |first|, entries[1..], p1, pool, limits);
      assert entries == [entries[0]] + entries[1..];
    }
  }

  /** The inline content that carries a directory's entries is admitted and gives them back. */
  lemma InlineEntries(view: Blobs.View, entries: seq<Entry>, p: PoolState, pool: seq<bytes>)
    requires p.Consistent() && forall i :: 0 <= i < |entries| ==> FitsEntry(entries[i], view.limits)
    requires Within(WrittenEntries(entries, p).1, pool) && |pool| <= U64_LIMIT
    requires view.limits.Bytes(|WrittenEntries(entries, p).0|)
    ensures FitsContent(InlineContent(WrittenEntries(entries, p).0), view.limits)
    ensures EntriesOf(view, pool, InlineContent(WrittenEntries(entries, p).0), |entries|) == Some(entries)
  {
    hide EntriesAt, WrittenEntries, Within, FitsEntry, PoolState.Consistent, Grows;
    var data := WrittenEntries(entries, p).0;
    AtSelf(data);
    EntriesRoundTrip(data, 0, entries, p, pool, view.limits);
  }

  lemma DirectoryRoundTrip(view: Blobs.View, s: bytes, pos: nat, directory: Directory, p: PoolState, pool: seq<bytes>)
    requires p.Consistent() && FitsDirectory(directory, view.limits) && view.limits.Bytes(|s|)
    requires At(s, pos, WrittenDirectory(directory, p).0)
    requires Within(WrittenDirectory(directory, p).1, pool) && |pool| <= U64_LIMIT
    ensures DirectoryAt(view, pool, s, pos) == Got(directory, pos + |WrittenDirectory(directory, p).0|)
  {
    hide At, ContentAt, ContentBytes, SizedItemAt, EncodeSized, Within, FitsItem, FitsContent, FitsEntry, EntriesOf,
         PoolState.Consistent, Grows, WrittenEntries, VuintAt, Vuint, Utf8, Interned;
    var (p1, index) := Interned(p, directory.path);
    InternedGrows(p, directory.path);
    var (entries, p2) := WrittenEntries(directory.entries, p1);
    var head := Vuint(index) + EncodeSized(directory.metadata);
    var content := InlineContent(entries);
    AtConcat(s, pos, head + Vuint(|directory.entries|), ContentBytes(content));
    AtConcat(s, pos, head, Vuint(|directory.entries|));
    InlineIsShorter(s, pos + |head + Vuint(|directory.entries|)|, entries);
    InlineEntries(view, directory.entries, p1, pool);
    ContentRoundTrip(s, pos + |head + Vuint(|directory.entries|)|, content, view.limits);
    VuintRoundTrip(s, pos + |head|, |directory.entries|);
    MetadataEnds(s, pos, Vuint(index), directory.metadata, view.limits);
    WithinEarlier(p1, p2, pool);
    IndexOfInterned(p, directory.path, pool);
    VuintRoundTrip(s, pos, index);
    assert TextAt(pool, index) == Some(directory.path);
  }

  lemma InlineIsShorter(s: bytes, pos: nat, data: bytes)
    requires At(s, pos, ContentBytes(InlineContent(data)))
    ensures |data| <= |s|
  {
    hide Vuint, EncodeSized;
  }

  lemma {:induction false} DirectoriesRoundTrip(view: Blobs.View, s: bytes, pos: nat, directories: seq<Directory>, p: PoolState, pool: seq<bytes>)
    requires p.Consistent() && view.limits.Bytes(|s|)
    requires forall i :: 0 <= i < |directories| ==> FitsDirectory(directories[i], view.limits)
    requires At(s, pos, WrittenDirectories(directories, p).0)
    requires Within(WrittenDirectories(directories, p).1, pool) && |pool| <= U64_LIMIT
    ensures DirectoriesAt(view, pool, s, pos, |directories|) == Got(directories, pos + |WrittenDirectories(directories, p).0|)
    decreases |directories|
  {
    hide At, DirectoryAt, WrittenDirectory, Within, FitsDirectory, PoolState.Consistent, Grows;
    if directories != [] {
      var (first, p1) := WrittenDirectory(directories[0], p);
      var (rest, p2) := WrittenDirectories(directories[1..], p1);
      WithinEarlier(p1, p2, pool);
      AtConcat(s, pos, first, rest);
      DirectoryRoundTrip(view, s, pos, directories[0], p, pool);
      DirectoriesRoundTrip(view, s, pos + |first|, directories[1..], p1, pool);
      assert directories == [directories[0]] + directories[1..];
    }
  }

  lemma LayerRoundTrip(view: Blobs.View, accepts: Item -> bool, s: bytes, pos: nat, layer: Layer, p: PoolState, pool: seq<bytes>)
    requires p.Consistent() && FitsLayer(layer, accepts, view.limits) && view.limits.Bytes(|s|)
    requires At(s, pos, WrittenLayer(layer, p).0)
    requires Within(WrittenLayer(layer, p).1, pool) && |pool| <= U64_LIMIT
    ensures LayerAt(view, accepts, pool, s, pos) == Got(layer, pos + |WrittenLayer(layer, p).0|)
  {
    hide At, SizedItemAt, EncodeSized, Within, FitsItem, FitsDirectory, PoolState.Consistent, Grows, WrittenDirectories, VuintAt, Vuint,
         DirectoriesAt;
    var head, count := EncodeSized(layer.condition), Vuint(|layer.directories|);
    var (directories, q) := WrittenDirectories(layer.directories, p);
    AtConcat(s, pos, head + count, directories);
    AtConcat(s, pos, head, count);
    assert [] + head == head;
    MetadataEnds(s, pos, [], layer.condition, view.limits);
    VuintRoundTrip(s, pos + |head|, |layer.directories|);
    DirectoriesRoundTrip(view, s, pos + |head + count|, layer.directories, p, pool);
  }

  lemma {:induction false} LayersRoundTrip(view: Blobs.View, accepts: Item -> bool, s: bytes, pos: nat, layers: seq<Layer>, p: PoolState, pool: seq<bytes>)
    requires p.Consistent() && view.limits.Bytes(|s|)
    requires forall i :: 0 <= i < |layers| ==> FitsLayer(layers[i], accepts, view.limits)
    requires At(s, pos, WrittenLayers(layers, p).0)
    requires Within(WrittenLayers(layers, p).1, pool) && |pool| <= U64_LIMIT
    ensures LayersAt(view, accepts, pool, s, pos, |layers|) == Got(layers, pos + |WrittenLayers(layers, p).0|)
    decreases |layers|
  {
    hide At, LayerAt, WrittenLayer, Within, FitsLayer, PoolState.Consistent, Grows;
    if layers != [] {
      var (first, p1) := WrittenLayer(layers[0], p);
      var (rest, p2) := WrittenLayers(layers[1..], p1);
      WithinEarlier(p1, p2, pool);
      AtConcat(s, pos, first, rest);
      LayerRoundTrip(view, accepts, s, pos, layers[0], p, pool);
      LayersRoundTrip(view, accepts, s, pos + |first|, layers[1..], p1, pool);
      assert layers == [layers[0]] + layers[1..];
    }
  }

  /**
   * A root encoded against one pool and decoded with a pool that contains everything interned since
   * gives back the same layers, directories, entries, and metadata.
   */
  lemma RootRoundTrip(view: Blobs.View, accepts: Item -> bool, root: Root, p: PoolState, pool: seq<bytes>)
    requires p.Consistent() && FitsRoot(root, accepts, view.limits) && ValidRoot(root, view.limits)
    requires view.limits.Bytes(|WrittenRoot(root, p).0|)
    requires PoolAt(view, root.dataPool) == Some(pool)
    requires Within(WrittenRoot(root, p).1, pool) && |pool| <= U64_LIMIT
    ensures DecodedRoot(view, accepts, WrittenRoot(root, p).0) == Some((root, pool))
  {
    hide At, RefAt, RefBytes, SizedItemAt, EncodeSized, Within, FitsItem, FitsLayer, PoolState.Consistent, Grows, WrittenLayers, VuintAt, Vuint,
         LayersAt, PoolAt, ValidRoot;
    var s := WrittenRoot(root, p).0;
    var reference, metadata, count := RefBytes(root.dataPool), EncodeSized(root.metadata), Vuint(|root.layers|);
    var (layers, q) := WrittenLayers(root.layers, p);
    AtSelf(s);
    AtConcat(s, 0, reference + metadata + count, layers);
    AtConcat(s, 0, reference + metadata, count);
    MetadataEnds(s, 0, reference, root.metadata, view.limits);
    RefRoundTrip(s, 0, root.dataPool);
    VuintRoundTrip(s, |reference + metadata|, |root.layers|);
    LayersRoundTrip(view, accepts, s, |reference + metadata + count|, root.layers, p, pool);
  }

  /** Encoding never moves an entry: every index that existed before names the same bytes after. */
  lemma EncodingKeepsIndices(root: Root, p: PoolState, index: nat)
    requires p.Consistent() && index < |p.entries|
    ensures index < |WrittenRoot(root, p).1.entries| && WrittenRoot(root, p).1.entries[index] == p.entries[index]
  {
    var q := WrittenRoot(root, p).1;
    assert q.entries[..|p.entries|][index] == q.entries[index];
  }
}
