/** The end-to-end theorem: a packed root reads back as the imported files. */
module PackTheorems {
  import opened Binary
  import opened Cbor
  import opened CborValues
  import opened DataPools
  import opened Contents
  import opened Resources
  import opened ResourceProofs
  import opened BlobBuilder
  import opened BlobProofs
  import opened Pack
  import opened PackProofs
  import Blobs
  import ClassFile
  import ClassFileProofs

  // ---------- One file ----------

  /** The constant-pool slots that a class file states. */
  function SlotsOf(data: bytes): nat {
    if |data| >= 10 then FromBe16(data[8], data[9]) else 0
  }

  /** A reader admits a file behind a descriptor: its size, and its slots if it was transformed. */
  predicate AdmitsFile(content: Content, data: bytes, limits: Limits) {
    limits.Bytes(|data|) && (content.steps != [] ==> limits.Elements(SlotsOf(data)))
  }

  /** A transform made under the writer's limits is the one the reader's limits would give. */
  lemma TransformUnderReader(data: bytes, p: PoolState, writer: Limits, reader: Limits)
    requires p.Consistent() && ClassFile.Transform(data, p, writer).outcome.Ok?
    requires reader.Bytes(|data|) && reader.Elements(SlotsOf(data))
    ensures ClassFile.Transform(data, p, reader) == ClassFile.Transform(data, p, writer)
  {
    hide ClassFile.ScanFrom, ClassFile.TransformFrom, ClassFile.Classes, PoolState.Consistent, Grows;
  }

  lemma TransformHead(data: bytes, p: PoolState, writer: Limits, stored: bytes)
    requires p.Consistent() && ClassFile.Transform(data, p, writer).outcome == Ok(Some(stored))
    ensures ClassFile.CLASS_MAGIC <= data && |data| >= 10 && |stored| >= 10 && stored[4..10] == data[4..10] && |data| < U64_LIMIT
  {
    hide PoolState.Consistent, ClassFile.ScanFrom, ClassFile.TransformFrom, ClassFile.Classes;
    var Scanned(constants, bodyStart) := ClassFile.ScanPool(data, writer).value;
    var (pool, q) := ClassFile.TransformFrom(constants, 1, ClassFile.Classes(constants), p);
    assert stored == ClassFile.TRANSFORMED_MAGIC + data[4..10] + pool + data[bodyStart..];
  }

  /** Only class files are transformed. */
  lemma EncodedIsClass(data: bytes, stored: bytes, entries: seq<bytes>, writer: Limits)
    requires EncodedFrom(data, stored, entries, writer)
    ensures ClassFile.CLASS_MAGIC <= data
  {
    hide PoolState.Consistent, Within, Grows, ClassFile.Transform;
    var p: PoolState :| p.Consistent() && ClassFile.Transform(data, p, writer).outcome == Ok(Some(stored))
                        && Within(ClassFile.Transform(data, p, writer).pool, entries);
    TransformHead(data, p, writer, stored);
  }

  /** A transform only ever gives something shorter. */
  lemma EncodedIsShorter(data: bytes, stored: bytes, entries: seq<bytes>, writer: Limits)
    requires EncodedFrom(data, stored, entries, writer) && |entries| <= U64_LIMIT
    ensures |stored| < |data|
  {
    hide ClassFile.Restore, PoolState.Consistent, Within, Grows, ClassFile.Transform;
    var p: PoolState :| p.Consistent() && ClassFile.Transform(data, p, writer).outcome == Ok(Some(stored))
                        && Within(ClassFile.Transform(data, p, writer).pool, entries);
    ClassFileProofs.TransformRoundTrip(data, p, entries, writer);
  }

  /** A transformed file keeps the slot count that its class file states. */
  lemma EncodedSlots(data: bytes, stored: bytes, entries: seq<bytes>, writer: Limits)
    requires EncodedFrom(data, stored, entries, writer)
    ensures |stored| >= 10 && SlotsOf(stored) == SlotsOf(data) && |data| < U64_LIMIT
  {
    hide PoolState.Consistent, Within, Grows, ClassFile.Transform, FromBe16;
    var p: PoolState :| p.Consistent() && ClassFile.Transform(data, p, writer).outcome == Ok(Some(stored))
                        && Within(ClassFile.Transform(data, p, writer).pool, entries);
    TransformHead(data, p, writer, stored);
    assert stored[8] == stored[4..10][4] && stored[9] == stored[4..10][5];
    assert data[8] == data[4..10][4] && data[9] == data[4..10][5];
  }

  /** Undoing a transform needs room for the result, and for the slots that it states. */
  lemma UnadmittedFails(view: Blobs.View, content: Content, data: bytes, stored: bytes, entries: seq<bytes>, cfg: Config)
    requires EncodedFrom(data, stored, entries, cfg.limits) && !AdmitsFile(content, data, view.limits)
    requires content.steps == [Step(Count(|data|), CLASSFILE, EMPTY_MAP)]
    requires ResolveSource(view, content.source).Some? && view.limits.Bytes(|data|) ==> ResolveSource(view, content.source) == Some(stored)
    ensures ResolveFile(view, content, entries) == None
  {
    hide EncodedFrom, ResolveSource, ClassFile.RestoreFrom;
    EncodedSlots(data, stored, entries, cfg.limits);
    assert content.steps[0].ExplicitPool() == None;
  }

  lemma EncodedRestores(data: bytes, stored: bytes, entries: seq<bytes>, writer: Limits, reader: Limits)
    requires EncodedFrom(data, stored, entries, writer) && |entries| <= U64_LIMIT
    requires reader.Bytes(|data|) && reader.Elements(SlotsOf(data))
    ensures ClassFile.Restore(stored, entries, reader) == Some(data)
  {
    hide ClassFile.Transform, ClassFile.Restore, PoolState.Consistent, Within, Grows;
    var p: PoolState :| p.Consistent() && ClassFile.Transform(data, p, writer).outcome == Ok(Some(stored))
                        && Within(ClassFile.Transform(data, p, writer).pool, entries);
    TransformUnderReader(data, p, writer, reader);
    ClassFileProofs.TransformRoundTrip(data, p, entries, reader);
  }

  /** A published pool resolves a descriptor exactly when the reader admits the file, and then to the bytes it stands for. */
  lemma DescriptorReads(view: Blobs.View, b: Builder, contents: seq<bytes>, content: Content, data: bytes, entries: seq<bytes>, cfg: Config)
    requires Published(view, cfg.poolId, b, contents, 8) && AllStored(b)
    requires Means(content, data, contents, entries, cfg)
    requires |entries| <= U64_LIMIT
    ensures ResolveFile(view, content, entries) == if AdmitsFile(content, data, view.limits) then Some(data) else None
  {
    hide Published, EncodedFrom, ClassFile.Restore, Blobs.Resolve, AllStored;
    if data != [] {
      var i: nat :| MeansAt(i, content, data, contents, entries, cfg);
      PublishedCount(view, cfg.poolId, b, contents, 8);
      if content.steps == [] {
        StoredResolves(view, b, contents, i, cfg);
      } else {
        TransformedReads(view, b, contents, i, content, data, entries, cfg);
      }
    }
  }

  lemma StoredResolves(view: Blobs.View, b: Builder, contents: seq<bytes>, i: u64, cfg: Config)
    requires Published(view, cfg.poolId, b, contents, 8) && AllStored(b) && i < |contents|
    ensures Blobs.Resolve(view, Blobs.BlobRef(cfg.poolId, i), false)
            == if view.limits.Bytes(|contents[i]|) then Some(contents[i]) else None
  {
    hide Published, Blobs.Resolve, Blobs.EntryOf;
    PublishedCount(view, cfg.poolId, b, contents, 8);
    if view.limits.Bytes(|contents[i]|) {
      PublishedStored(view, cfg.poolId, b, contents, 8, i, false);
    } else {
      PublishedEntry(view, cfg.poolId, b, contents, 8, i);
      PublishedSize(view, cfg.poolId, b, contents, 8, i);
      TooLarge(view, Blobs.BlobRef(cfg.poolId, i), b.entries[i]);
    }
  }

  lemma TooLarge(view: Blobs.View, reference: Blobs.BlobRef, entry: Blobs.Entry)
    requires Blobs.EntryOf(view, reference) == Some(entry) && entry.Stored? && !view.limits.Bytes(entry.encoding.DecodedSize())
    ensures Blobs.Resolve(view, reference, false) == None
  {
    hide Blobs.EntryOf, Blobs.Decode, Blobs.Assemble, Blobs.ExtentFits;
  }

  lemma TransformedReads(view: Blobs.View, b: Builder, contents: seq<bytes>, i: u64, content: Content, data: bytes, entries: seq<bytes>, cfg: Config)
    requires Published(view, cfg.poolId, b, contents, 8) && AllStored(b) && |entries| <= U64_LIMIT
    requires MeansAt(i, content, data, contents, entries, cfg) && content.steps != []
    ensures ResolveFile(view, content, entries) == if AdmitsFile(content, data, view.limits) then Some(data) else None
  {
    hide Published, EncodedFrom, ClassFile.Restore, Blobs.Resolve, AllStored, UndoAll;
    StoredResolves(view, b, contents, i, cfg);
    EncodedIsShorter(data, contents[i], entries, cfg.limits);
    if AdmitsFile(content, data, view.limits) {
      EncodedRestores(data, contents[i], entries, cfg.limits, view.limits);
      StepUndoes(view, contents[i], data, entries);
    } else {
      UnadmittedFails(view, content, data, contents[i], entries, cfg);
    }
  }

  /** The step recorded for a transform uses the root's own pool. */
  lemma StepUndoes(view: Blobs.View, stored: bytes, data: bytes, entries: seq<bytes>)
    requires view.limits.Bytes(|data|) && ClassFile.Restore(stored, entries, view.limits) == Some(data)
    ensures UndoAll(view, stored, [Step(Count(|data|), CLASSFILE, EMPTY_MAP)], entries) == Some(data)
  {
    hide ClassFile.Restore;
    var steps := [Step(Count(|data|), CLASSFILE, EMPTY_MAP)];
    assert steps[0].ExplicitPool() == None;
    assert Admissible(steps[0]);
    assert Undo(view, stored, steps[0], entries) == Some(data);
    assert steps[..0] == [];
  }

  // ---------- Checksums ----------

  lemma {:induction false} WithoutChecksumKeeps(entries: seq<Pair>, entry: Pair)
    ensures entry in WithoutChecksum(entries) <==> entry in entries && entry.key != Unsigned(0)
  {
    if entries != [] {
      WithoutChecksumKeeps(entries[1..], entry);
      assert entry in entries <==> entry == entries[0] || entry in entries[1..];
    }
  }

  /** The written metadata holds the checksum of the original bytes and keeps every other field. */
  lemma ChecksummedMeans(metadata: Item, data: bytes, cfg: Config, key: u64)
    requires metadata.Map? && DistinctKeys(metadata.entries) && Checksummed(metadata, data, cfg).Some?
    ensures Get(Checksummed(metadata, data, cfg).value, key) == if key == 0 then Some(Checksum(data, cfg)) else Get(metadata, key)
  {
    hide MapOf, DistinctKeys, WithoutChecksum, Checksum;
    var last := Pair(Unsigned(0), Checksum(data, cfg));
    var fields := WithoutChecksum(metadata.entries) + [last];
    MapOfGet(fields, key);
    FindMeaning(metadata.entries, key);
    var written := Get(MapOf(fields).value, key);
    if key == 0 {
      assert fields[|fields| - 1] == last;
      assert last in fields;
    } else {
      forall value: Item ensures written == Some(value) <==> Get(metadata, key) == Some(value) {
        var entry := Pair(Unsigned(key), value);
        WithoutChecksumKeeps(metadata.entries, entry);
        assert entry in fields <==> entry in WithoutChecksum(metadata.entries) || entry == last;
      }
      OptionsAgree(written, Get(metadata, key));
    }
  }

  // ---------- A reader's view of the whole root ----------

  /** A descriptor with metadata reads as the imported file: its bytes if the reader admits them, and its other metadata. */
  ghost predicate FileReads(view: Blobs.View, before: Content, fields: Item, after: Content, metadata: Item, pool: seq<bytes>) {
    && before.source.Inline?
    && var data := before.source.data;
    && ReadFile(view, after, metadata, pool) == (if AdmitsFile(after, data, view.limits) then Some(data) else None)
    && Get(metadata, 0).Some?
    && forall key: u64 :: key != 0 ==> Get(metadata, key) == Get(fields, key)
  }

  /** The reader finds the same entry, and a file reads as the imported one. */
  ghost predicate EntryReads(view: Blobs.View, before: Entry, after: Entry, pool: seq<bytes>) {
    if !before.File? then after == before
    else after.File? && after.name == before.name && FileReads(view, before.content, before.metadata, after.content, after.metadata, pool)
  }

  ghost predicate DirectoryReads(view: Blobs.View, before: Directory, after: Directory, pool: seq<bytes>) {
    && after.path == before.path && after.metadata == before.metadata && |after.entries| == |before.entries|
    && forall i :: 0 <= i < |before.entries| ==> EntryReads(view, before.entries[i], after.entries[i], pool)
  }

  ghost predicate LayerReads(view: Blobs.View, before: Layer, after: Layer, pool: seq<bytes>) {
    && after.condition == before.condition && |after.directories| == |before.directories|
    && forall i :: 0 <= i < |before.directories| ==> DirectoryReads(view, before.directories[i], after.directories[i], pool)
  }

  ghost predicate LayersRead(view: Blobs.View, before: seq<Layer>, after: seq<Layer>, pool: seq<bytes>) {
    && |after| == |before|
    && forall i :: 0 <= i < |before| ==> LayerReads(view, before[i], after[i], pool)
  }

  /** Imported metadata is deterministic CBOR, so no key repeats. */
  ghost predicate DistinctMetadata(entry: Entry) {
    entry.File? && entry.metadata.Map? ==> DistinctKeys(entry.metadata.entries)
  }

  ghost predicate AllDistinct(layers: seq<Layer>) {
    forall i, j, k :: 0 <= i < |layers| && 0 <= j < |layers[i].directories| && 0 <= k < |layers[i].directories[j].entries| ==>
      DistinctMetadata(layers[i].directories[j].entries[k])
  }

  /** What holds of every reader of a published pool. */
  ghost predicate Reader(view: Blobs.View, b: Builder, contents: seq<bytes>, entries: seq<bytes>, cfg: Config) {
    Published(view, cfg.poolId, b, contents, 8) && AllStored(b) && view.codec == cfg.codec && |entries| <= U64_LIMIT
  }

  lemma EntryReadsBack(view: Blobs.View, b: Builder, contents: seq<bytes>, before: Entry, after: Entry, pool: seq<bytes>, cfg: Config)
    requires Reader(view, b, contents, pool, cfg) && EntryPacked(before, after, contents, pool, cfg)
    requires DistinctMetadata(before)
    ensures EntryReads(view, before, after, pool)
  {
    hide Published, Means, Checksummed, ResolveFile, Get, DistinctKeys, AdmitsFile, AllStored;
    if before.File? {
      var data := before.content.source.data;
      DescriptorReads(view, b, contents, after.content, data, pool, cfg);
      ChecksummedIsMap(before.metadata, data, cfg);
      forall key: u64 ensures Get(after.metadata, key) == if key == 0 then Some(Checksum(data, cfg)) else Get(before.metadata, key) {
        ChecksummedMeans(before.metadata, data, cfg, key);
      }
      FaithfulChecksum(view, b, contents, cfg, data);
    }
  }

  lemma ChecksummedIsMap(metadata: Item, data: bytes, cfg: Config)
    requires Checksummed(metadata, data, cfg).Some?
    ensures metadata.Map?
  {
  }

  lemma FaithfulChecksum(view: Blobs.View, b: Builder, contents: seq<bytes>, cfg: Config, data: bytes)
    requires Published(view, cfg.poolId, b, contents, 8) && view.codec == cfg.codec
    ensures var checksum := Checksum(data, cfg);
            checksum.ByteString? && Blobs.IsChecksum(checksum.data) && Blobs.Verifies(view.codec, checksum.data, data)
  {
    hide Represents, AdmitsTable, Finished;
    ChecksumVerifies(view.codec, XXH3_64, data);
  }

  lemma LayersReadBack(view: Blobs.View, b: Builder, contents: seq<bytes>, before: seq<Layer>, after: seq<Layer>, pool: seq<bytes>, cfg: Config)
    requires Reader(view, b, contents, pool, cfg) && LayersPacked(before, after, contents, pool, cfg)
    requires AllDistinct(before)
    ensures LayersRead(view, before, after, pool)
  {
    hide Reader, EntryPacked, EntryReads, DistinctMetadata;
    forall i | 0 <= i < |before| ensures LayerReads(view, before[i], after[i], pool) {
      assert LayerPacked(before[i], after[i], contents, pool, cfg);
      forall j | 0 <= j < |before[i].directories|
        ensures DirectoryReads(view, before[i].directories[j], after[i].directories[j], pool)
      {
        var from, to := before[i].directories[j], after[i].directories[j];
        assert DirectoryPacked(from, to, contents, pool, cfg);
        forall k | 0 <= k < |from.entries| ensures EntryReads(view, from.entries[k], to.entries[k], pool) {
          assert EntryPacked(from.entries[k], to.entries[k], contents, pool, cfg);
          EntryReadsBack(view, b, contents, from.entries[k], to.entries[k], pool, cfg);
        }
      }
    }
  }

  // ---------- The pool as a whole ----------

  /** The finished builder stands for every file, then the string pool, then the root. */
  ghost predicate Stands(built: PackedPool, layers: seq<Layer>, cfg: Config) {
    var contents := built.state.contents;
    && Represents(built.state.pool, cfg.codec, contents) && AllStored(built.state.pool)
    && |contents| >= 2
    && contents[|contents| - 2] == EncodePool(built.names.entries)
    && contents[|contents| - 1] == built.rootBytes
    && built.root.dataPool == Blobs.BlobRef(cfg.poolId, Count(|contents| - 2))
    && built.reference == Blobs.BlobRef(cfg.poolId, Count(|contents| - 1))
    && Finished(built.state.pool, cfg.codec, 8) == Some(built.section)
    && built.names.Consistent()
    && LayersPacked(layers, built.root.layers, contents, built.names.entries, cfg)
  }

  /** Also gives the string pool that the root's names were written against. */
  lemma FinishedRootStands(layers: seq<Layer>, packed: seq<Layer>, files: Packing, metadata: Item, cfg: Config) returns (strings: PoolState)
    requires Keeps(files, cfg) && LayersPacked(layers, packed, files.contents, files.strings.entries, cfg)
    requires FinishedRoot(packed, files, metadata, cfg).Some?
    ensures var built := FinishedRoot(packed, files, metadata, cfg).value;
            Stands(built, layers, cfg) && strings.Consistent() && WrittenRoot(built.root, strings) == (built.rootBytes, built.names)
  {
    hide Pushed, Represents, WrittenRoot, EncodePool, Finished, LayersPacked, ValidRoot, Writable, SharedMeans, LastIndices, PoolState.Consistent;
    var built := FinishedRoot(packed, files, metadata, cfg).value;
    KeepsIsConsistent(files, cfg);
    ReindexedIsConsistent(files.strings.entries);
    strings := Reindexed(files.strings.entries);
    var first := Push(files, EncodePool(built.names.entries), cfg);
    PushRepresents(files.pool, cfg.codec, files.contents, EncodePool(built.names.entries));
    PushRepresents(first.pool, cfg.codec, first.contents, built.rootBytes);
    PushedStaysStored(files.pool, cfg.codec, EncodePool(built.names.entries));
    PushedStaysStored(first.pool, cfg.codec, built.rootBytes);
    EntriesMatch(files.pool, cfg.codec, files.contents);
    GrownIsPrefix(strings, built.names);
    LayersPackedLater(layers, packed, files, built.state.(strings := built.names), cfg);
  }

  lemma KeepsIsConsistent(st: Packing, cfg: Config)
    requires Keeps(st, cfg)
    ensures st.strings.Consistent() && |st.strings.entries| >= 1 && st.strings.entries[0] == []
  {
  }

  lemma GrownIsPrefix(p: PoolState, q: PoolState)
    requires Grows(p, q)
    ensures p.entries <= q.entries
  {
  }

  lemma PackedRootStands(layers: seq<Layer>, name: bytes, cfg: Config) returns (strings: PoolState)
    requires PackedRoot(layers, name, cfg).Some?
    ensures var built := PackedRoot(layers, name, cfg).value;
            Stands(built, layers, cfg) && strings.Consistent() && WrittenRoot(built.root, strings) == (built.rootBytes, built.names)
  {
    hide PackedLayers, NameMetadata, LayersPacked, Stands, WrittenRoot, PoolState.Consistent, FinishedRoot, Keeps;
    EmptyKeeps(cfg);
    EmptyIsConsistent();
    PackedLayersKeep(layers, EMPTY_PACKING, cfg);
    var (packed, files) := PackedLayers(layers, EMPTY_PACKING, cfg).value;
    strings := FinishedRootStands(layers, packed, files, NameMetadata(name).value, cfg);
  }

  lemma EmptyIsConsistent()
    ensures EMPTY_PACKING.strings.Consistent()
  {
  }

  lemma LayersPackedLater(before: seq<Layer>, after: seq<Layer>, st: Packing, next: Packing, cfg: Config)
    requires LayersPacked(before, after, st.contents, st.strings.entries, cfg) && After(st, next)
    ensures LayersPacked(before, after, next.contents, next.strings.entries, cfg)
  {
    hide LayerPacked;
    forall i | 0 <= i < |before| ensures LayerPacked(before[i], after[i], next.contents, next.strings.entries, cfg) {
      LayerPackedLater(before[i], after[i], st, next, cfg);
    }
  }

  /** What a container must hold, and a reader admit, to read a packed root. */
  ghost predicate Readable(view: Blobs.View, accepts: Item -> bool, built: PackedPool, cfg: Config) {
    && view.codec == cfg.codec && Faithful(cfg.codec, view.limits)
    && cfg.poolId in view.sections
    && view.sections[cfg.poolId] == Blobs.Section(Blobs.BLOB_POOL, Some(built.section.typeInfo), built.section.data)
    && AdmitsPool(view.limits, built, cfg)
    && FitsRoot(built.root, accepts, view.limits) && ValidRoot(built.root, view.limits)
  }

  /** A reader admits the table of a packed pool, its names, and its root; the files are admitted one by one. */
  ghost predicate AdmitsPool(limits: Limits, built: PackedPool, cfg: Config) {
    && AdmitsTable(limits, built.state.pool, cfg.codec, 8)
    && limits.Bytes(|EncodePool(built.names.entries)|) && limits.Elements(|built.names.entries|)
    && limits.Bytes(|built.rootBytes|)
  }

  lemma StandingIsPublished(view: Blobs.View, accepts: Item -> bool, layers: seq<Layer>, built: PackedPool, cfg: Config)
    requires Stands(built, layers, cfg) && Readable(view, accepts, built, cfg)
    ensures Reader(view, built.state.pool, built.state.contents, built.names.entries, cfg)
    ensures FitsRoot(built.root, accepts, view.limits) && ValidRoot(built.root, view.limits)
  {
    hide Represents, EncodePool, Finished, LayersPacked, AdmitsTable, FitsRoot, ValidRoot, Faithful, PoolState.Consistent;
  }

  /**
   * Packing is lossless: a reader that can open the finished container finds the root at the returned
   * reference, decodes it with the final string pool, and reads back every file's imported bytes
   * through a verified checksum. Class transforms may be on or off, and digests may collide.
   */
  lemma PackingIsLossless(view: Blobs.View, accepts: Item -> bool, layers: seq<Layer>, name: bytes, cfg: Config)
    requires PackedRoot(layers, name, cfg).Some?
    requires Readable(view, accepts, PackedRoot(layers, name, cfg).value, cfg)
    requires AllDistinct(layers)
    ensures var built := PackedRoot(layers, name, cfg).value;
            && Blobs.Resolve(view, built.reference, false) == Some(built.rootBytes)
            && DecodedRoot(view, accepts, built.rootBytes) == Some((built.root, built.names.entries))
            && LayersRead(view, layers, built.root.layers, built.names.entries)
  {
    hide PackedRoot, Represents, WrittenRoot, EncodePool, Finished, LayersPacked, LayersRead, FitsRoot, ValidRoot, PoolState.Consistent, Published,
         AllDistinct, Blobs.Resolve, DecodePool, Within, Readable, AllStored;
    var built := PackedRoot(layers, name, cfg).value;
    var contents := built.state.contents;
    var strings := PackedRootStands(layers, name, cfg);
    StandingIsPublished(view, accepts, layers, built, cfg);
    PublishedCount(view, cfg.poolId, built.state.pool, contents, 8);
    ReadableIsAdmitted(view, accepts, layers, built, cfg);
    PublishedResolves(view, cfg.poolId, built.state.pool, contents, 8, |contents| - 1, false);
    PublishedResolves(view, cfg.poolId, built.state.pool, contents, 8, |contents| - 2, false);
    NamesDecode(built.names, view.limits);
    RootRoundTrip(view, accepts, built.root, strings, built.names.entries);
    LayersReadBack(view, built.state.pool, contents, layers, built.root.layers, built.names.entries, cfg);
  }

  lemma ReadableIsAdmitted(view: Blobs.View, accepts: Item -> bool, layers: seq<Layer>, built: PackedPool, cfg: Config)
    requires Readable(view, accepts, built, cfg) && Stands(built, layers, cfg)
    ensures var b, contents := built.state.pool, built.state.contents;
            && |contents| >= 2
            && AdmitsContent(view.limits, b, contents, |contents| - 1) && AdmitsContent(view.limits, b, contents, |contents| - 2)
    ensures view.limits.Elements(|built.names.entries|)
    ensures view.limits.Bytes(|EncodePool(built.names.entries)|) && view.limits.Bytes(|built.rootBytes|)
  {
    hide EncodePool, LayersPacked, AdmitsTable, FitsRoot, ValidRoot, Faithful, PoolState.Consistent, Finished;
    EntriesMatch(built.state.pool, cfg.codec, built.state.contents);
  }

  lemma NamesDecode(names: PoolState, limits: Limits)
    requires names.Consistent() && limits.Bytes(|EncodePool(names.entries)|) && limits.Elements(|names.entries|)
    ensures DecodePool(EncodePool(names.entries), limits) == Some(names.entries)
    ensures Within(names, names.entries)
  {
    hide DecodePool, EncodePool;
    PoolRoundTrip(names.entries, limits);
  }
}
