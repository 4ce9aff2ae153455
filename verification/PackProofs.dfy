/** Packing then reading any file gives the original bytes. */
module PackProofs {
  import opened Binary
  import opened Cbor
  import opened DataPools
  import opened Contents
  import opened Resources
  import opened BlobBuilder
  import opened Pack
  import Blobs
  import ClassFile

  // ---------- What a descriptor stands for while packing ----------

  /** `stored` is the transform of `data` against some earlier state of the string pool. */
  ghost predicate EncodedFrom(data: bytes, stored: bytes, strings: seq<bytes>, limits: Limits) {
    exists p: PoolState ::
      p.Consistent() && ClassFile.Transform(data, p, limits).outcome == Ok(Some(stored))
      && Within(ClassFile.Transform(data, p, limits).pool, strings)
  }

  ghost predicate MeansAt(i: nat, content: Content, data: bytes, contents: seq<bytes>, strings: seq<bytes>, cfg: Config) {
    && i < |contents|
    && content.source == Blob(Blobs.BlobRef(cfg.poolId, Count(i)))
    && if content.steps == [] then contents[i] == data
       else cfg.transform && content.steps == [Step(Count(|data|), CLASSFILE, EMPTY_MAP)] && EncodedFrom(data, contents[i], strings, cfg.limits)
  }

  /** The descriptor will restore `data` from what has been pushed and interned so far. */
  ghost predicate Means(content: Content, data: bytes, contents: seq<bytes>, strings: seq<bytes>, cfg: Config) {
    if data == [] then content == InlineContent([]) else exists i :: MeansAt(i, content, data, contents, strings, cfg)
  }

  lemma MeansLater(content: Content, data: bytes, contents: seq<bytes>, strings: seq<bytes>, cfg: Config,
                   moreContents: seq<bytes>, moreStrings: seq<bytes>)
    requires Means(content, data, contents, strings, cfg) && contents <= moreContents && strings <= moreStrings
    ensures Means(content, data, moreContents, moreStrings, cfg)
  {
    hide EncodedFrom;
    if data != [] {
      var i: nat :| MeansAt(i, content, data, contents, strings, cfg);
      if content.steps != [] {
        EncodedLater(data, contents[i], strings, cfg.limits, moreStrings);
      }
      assert MeansAt(i, content, data, moreContents, moreStrings, cfg);
    }
  }

  lemma EncodedLater(data: bytes, stored: bytes, strings: seq<bytes>, limits: Limits, more: seq<bytes>)
    requires EncodedFrom(data, stored, strings, limits) && strings <= more
    ensures EncodedFrom(data, stored, more, limits)
  {
    hide ClassFile.Transform, PoolState.Consistent, Within, Grows;
    var p: PoolState :| p.Consistent() && ClassFile.Transform(data, p, limits).outcome == Ok(Some(stored))
                        && Within(ClassFile.Transform(data, p, limits).pool, strings);
    WithinLater(ClassFile.Transform(data, p, limits).pool, strings, more);
  }

  lemma WithinLater(p: PoolState, strings: seq<bytes>, more: seq<bytes>)
    requires Within(p, strings) && strings <= more
    ensures Within(p, more)
  {
  }

  // ---------- The state of a run ----------

  ghost predicate SharedMeans(shared: map<bytes, seq<Shared>>, contents: seq<bytes>, strings: seq<bytes>, cfg: Config) {
    forall digest, i :: digest in shared && 0 <= i < |shared[digest]| ==>
      Means(shared[digest][i].content, shared[digest][i].data, contents, strings, cfg)
  }

  /** The pool stands for what was pushed, and every shared descriptor for its own bytes. */
  ghost predicate Keeps(st: Packing, cfg: Config) {
    && st.strings.Consistent()
    && Represents(st.pool, cfg.codec, st.contents)
    && SharedMeans(st.shared, st.contents, st.strings.entries, cfg)
    && AllStored(st.pool)
  }

  /** Packing makes no extents. */
  ghost predicate AllStored(b: Builder) {
    forall i :: 0 <= i < |b.entries| ==> b.entries[i].Stored?
  }

  lemma PushedStaysStored(b: Builder, codec: Blobs.Codec, content: bytes)
    requires AllStored(b)
    ensures AllStored(Pushed(b, codec, content))
  {
  }

  /** Later states only add blobs and strings. */
  ghost predicate After(st: Packing, next: Packing) {
    st.contents <= next.contents && st.strings.entries <= next.strings.entries
  }

  lemma EmptyKeeps(cfg: Config)
    ensures Keeps(EMPTY_PACKING, cfg)
  {
  }

  /** Sharing compares bytes, so equal digests of different files never share. */
  lemma {:induction false} FindSharedMeans(files: seq<Shared>, data: bytes, contents: seq<bytes>, strings: seq<bytes>, cfg: Config)
    requires forall i :: 0 <= i < |files| ==> Means(files[i].content, files[i].data, contents, strings, cfg)
    requires FindShared(files, data).Some?
    ensures Means(FindShared(files, data).value, data, contents, strings, cfg)
    decreases |files|
  {
    hide Means;
    if files[0].data != data {
      FindSharedMeans(files[1..], data, contents, strings, cfg);
    }
  }

  lemma EncodedFileMeans(name: bytes, data: bytes, strings: PoolState, cfg: Config)
    requires strings.Consistent() && EncodedFile(name, data, strings, cfg).Some?
    ensures var (encoded, next) := EncodedFile(name, data, strings, cfg).value;
            && strings.entries <= next.entries
            && (encoded.Some? ==> cfg.transform && EncodedFrom(data, encoded.value, next.entries, cfg.limits))
  {
    hide ClassFile.Transform, PoolState.Consistent;
    var (encoded, next) := EncodedFile(name, data, strings, cfg).value;
    if encoded.Some? {
      assert Within(ClassFile.Transform(data, strings, cfg.limits).pool, next.entries);
    }
  }

  /** Storing a file keeps every earlier descriptor's meaning and gives the new one its own. */
  lemma PackedFileKeeps(name: bytes, data: bytes, st: Packing, cfg: Config)
    requires Keeps(st, cfg) && PackedFile(name, data, st, cfg).Some?
    ensures var (content, next) := PackedFile(name, data, st, cfg).value;
            && Keeps(next, cfg) && After(st, next)
            && Means(content, data, next.contents, next.strings.entries, cfg)
  {
    hide EncodedFile, Represents, Means, PoolState.Consistent, Pushed, FindShared;
    var digest := cfg.codec.digest(XXH3_64, data);
    var files := SharedUnder(st.shared, digest);
    var (content, next) := PackedFile(name, data, st, cfg).value;
    if data == [] {
      EmptyMeans(next.contents, next.strings.entries, cfg);
    } else if FindShared(files, data).Some? {
      FindSharedMeans(files, data, st.contents, st.strings.entries, cfg);
    } else {
      var (encoded, strings) := EncodedFile(name, data, st.strings, cfg).value;
      EncodedFileMeans(name, data, st.strings, cfg);
      var stored := if encoded.Some? then encoded.value else data;
      PushRepresents(st.pool, cfg.codec, st.contents, stored);
      PushedStaysStored(st.pool, cfg.codec, stored);
      EntriesMatch(st.pool, cfg.codec, st.contents);
      NewDescriptorMeans(data, st.contents, encoded, strings.entries, cfg);
      SharedLater(st, content, data, next, cfg);
    }
  }

  lemma EmptyMeans(contents: seq<bytes>, strings: seq<bytes>, cfg: Config)
    ensures Means(InlineContent([]), [], contents, strings, cfg)
  {
  }

  lemma NewDescriptorMeans(data: bytes, contents: seq<bytes>, encoded: Option<bytes>, strings: seq<bytes>, cfg: Config)
    requires data != [] && (encoded.Some? ==> cfg.transform && EncodedFrom(data, encoded.value, strings, cfg.limits))
    ensures var stored := if encoded.Some? then encoded.value else data;
            Means(DescriptorOf(|contents|, data, encoded.Some?, cfg), data, contents + [stored], strings, cfg)
  {
    hide EncodedFrom;
    var stored := if encoded.Some? then encoded.value else data;
    assert MeansAt(|contents|, DescriptorOf(|contents|, data, encoded.Some?, cfg), data, contents + [stored], strings, cfg);
  }

  lemma SharedLater(st: Packing, content: Content, data: bytes, next: Packing, cfg: Config)
    requires SharedMeans(st.shared, st.contents, st.strings.entries, cfg) && After(st, next)
    requires Means(content, data, next.contents, next.strings.entries, cfg)
    requires var digest := cfg.codec.digest(XXH3_64, data);
             next.shared == st.shared[digest := SharedUnder(st.shared, digest) + [Shared(data, content)]]
    ensures SharedMeans(next.shared, next.contents, next.strings.entries, cfg)
  {
    hide Means;
    forall digest, i | digest in next.shared && 0 <= i < |next.shared[digest]|
      ensures Means(next.shared[digest][i].content, next.shared[digest][i].data, next.contents, next.strings.entries, cfg)
    {
      if digest in st.shared && i < |st.shared[digest]| {
        var file := st.shared[digest][i];
        MeansLater(file.content, file.data, st.contents, st.strings.entries, cfg, next.contents, next.strings.entries);
        assert next.shared[digest][i] == file;
      } else {
        assert next.shared[digest][i] == Shared(data, content);
      }
    }
  }

  // ---------- Whole layers ----------

  /** A packed entry stands for the imported one; everything but a file is unchanged. */
  ghost predicate EntryPacked(before: Entry, after: Entry, contents: seq<bytes>, strings: seq<bytes>, cfg: Config) {
    if !before.File? then after == before
    else
      && before.content.source.Inline? && before.content.steps == []
      && after.File? && after.name == before.name
      && Checksummed(before.metadata, before.content.source.data, cfg) == Some(after.metadata)
      && Means(after.content, before.content.source.data, contents, strings, cfg)
  }

  ghost predicate EntriesPacked(before: seq<Entry>, after: seq<Entry>, contents: seq<bytes>, strings: seq<bytes>, cfg: Config) {
    && |after| == |before|
    && forall i :: 0 <= i < |before| ==> EntryPacked(before[i], after[i], contents, strings, cfg)
  }

  ghost predicate DirectoryPacked(before: Directory, after: Directory, contents: seq<bytes>, strings: seq<bytes>, cfg: Config) {
    && after.path == before.path && after.metadata == before.metadata
    && EntriesPacked(before.entries, after.entries, contents, strings, cfg)
  }

  ghost predicate DirectoriesPacked(before: seq<Directory>, after: seq<Directory>, contents: seq<bytes>, strings: seq<bytes>, cfg: Config) {
    && |after| == |before|
    && forall i :: 0 <= i < |before| ==> DirectoryPacked(before[i], after[i], contents, strings, cfg)
  }

  ghost predicate LayerPacked(before: Layer, after: Layer, contents: seq<bytes>, strings: seq<bytes>, cfg: Config) {
    after.condition == before.condition && DirectoriesPacked(before.directories, after.directories, contents, strings, cfg)
  }

  ghost predicate LayersPacked(before: seq<Layer>, after: seq<Layer>, contents: seq<bytes>, strings: seq<bytes>, cfg: Config) {
    && |after| == |before|
    && forall i :: 0 <= i < |before| ==> LayerPacked(before[i], after[i], contents, strings, cfg)
  }

  lemma EntryPackedLater(before: Entry, after: Entry, st: Packing, next: Packing, cfg: Config)
    requires EntryPacked(before, after, st.contents, st.strings.entries, cfg) && After(st, next)
    ensures EntryPacked(before, after, next.contents, next.strings.entries, cfg)
  {
    hide Means, Checksummed;
    if before.File? {
      MeansLater(after.content, before.content.source.data, st.contents, st.strings.entries, cfg, next.contents, next.strings.entries);
    }
  }

  lemma DirectoryPackedLater(before: Directory, after: Directory, st: Packing, next: Packing, cfg: Config)
    requires DirectoryPacked(before, after, st.contents, st.strings.entries, cfg) && After(st, next)
    ensures DirectoryPacked(before, after, next.contents, next.strings.entries, cfg)
  {
    hide EntryPacked;
    forall i | 0 <= i < |before.entries|
      ensures EntryPacked(before.entries[i], after.entries[i], next.contents, next.strings.entries, cfg)
    {
      EntryPackedLater(before.entries[i], after.entries[i], st, next, cfg);
    }
  }

  lemma LayerPackedLater(before: Layer, after: Layer, st: Packing, next: Packing, cfg: Config)
    requires LayerPacked(before, after, st.contents, st.strings.entries, cfg) && After(st, next)
    ensures LayerPacked(before, after, next.contents, next.strings.entries, cfg)
  {
    hide DirectoryPacked;
    forall i | 0 <= i < |before.directories|
      ensures DirectoryPacked(before.directories[i], after.directories[i], next.contents, next.strings.entries, cfg)
    {
      DirectoryPackedLater(before.directories[i], after.directories[i], st, next, cfg);
    }
  }

  lemma PackedEntryKeeps(entry: Entry, st: Packing, cfg: Config)
    requires Keeps(st, cfg) && PackedEntry(entry, st, cfg).Some?
    ensures var (after, next) := PackedEntry(entry, st, cfg).value;
            Keeps(next, cfg) && After(st, next) && EntryPacked(entry, after, next.contents, next.strings.entries, cfg)
  {
    hide PackedFile, Means, Checksummed, Represents, SharedMeans, PoolState.Consistent;
    if entry.File? {
      PackedFileKeeps(entry.name, entry.content.source.data, st, cfg);
    }
  }

  lemma {:induction false} PackedEntriesKeep(entries: seq<Entry>, st: Packing, cfg: Config)
    requires Keeps(st, cfg) && PackedEntries(entries, st, cfg).Some?
    ensures var (after, next) := PackedEntries(entries, st, cfg).value;
            Keeps(next, cfg) && After(st, next) && EntriesPacked(entries, after, next.contents, next.strings.entries, cfg)
    decreases |entries|
  {
    hide PackedEntry, EntryPacked, Represents, SharedMeans, PoolState.Consistent;
    if entries != [] {
      var (first, middle) := PackedEntry(entries[0], st, cfg).value;
      PackedEntryKeeps(entries[0], st, cfg);
      PackedEntriesKeep(entries[1..], middle, cfg);
      var (rest, next) := PackedEntries(entries[1..], middle, cfg).value;
      EntryPackedLater(entries[0], first, middle, next, cfg);
      forall i | 0 <= i < |entries| ensures EntryPacked(entries[i], ([first] + rest)[i], next.contents, next.strings.entries, cfg) {
        if i > 0 {
          assert EntryPacked(entries[1..][i - 1], rest[i - 1], next.contents, next.strings.entries, cfg);
        }
      }
    }
  }

  lemma {:induction false} PackedDirectoriesKeep(directories: seq<Directory>, st: Packing, cfg: Config)
    requires Keeps(st, cfg) && PackedDirectories(directories, st, cfg).Some?
    ensures var (after, next) := PackedDirectories(directories, st, cfg).value;
            Keeps(next, cfg) && After(st, next) && DirectoriesPacked(directories, after, next.contents, next.strings.entries, cfg)
    decreases |directories|
  {
    hide PackedEntries, EntriesPacked, Represents, SharedMeans, PoolState.Consistent;
    if directories != [] {
      var (entries, middle) := PackedEntries(directories[0].entries, st, cfg).value;
      var first := directories[0].(entries := entries);
      PackedEntriesKeep(directories[0].entries, st, cfg);
      PackedDirectoriesKeep(directories[1..], middle, cfg);
      var (rest, next) := PackedDirectories(directories[1..], middle, cfg).value;
      DirectoryPackedLater(directories[0], first, middle, next, cfg);
      forall i | 0 <= i < |directories|
        ensures DirectoryPacked(directories[i], ([first] + rest)[i], next.contents, next.strings.entries, cfg)
      {
        if i > 0 {
          assert DirectoryPacked(directories[1..][i - 1], rest[i - 1], next.contents, next.strings.entries, cfg);
        }
      }
    }
  }

  lemma {:induction false} PackedLayersKeep(layers: seq<Layer>, st: Packing, cfg: Config)
    requires Keeps(st, cfg) && PackedLayers(layers, st, cfg).Some?
    ensures var (after, next) := PackedLayers(layers, st, cfg).value;
            Keeps(next, cfg) && After(st, next) && LayersPacked(layers, after, next.contents, next.strings.entries, cfg)
    decreases |layers|
  {
    hide PackedDirectories, DirectoriesPacked, Represents, SharedMeans, PoolState.Consistent;
    if layers != [] {
      var (directories, middle) := PackedDirectories(layers[0].directories, st, cfg).value;
      var first := layers[0].(directories := directories);
      PackedDirectoriesKeep(layers[0].directories, st, cfg);
      PackedLayersKeep(layers[1..], middle, cfg);
      var (rest, next) := PackedLayers(layers[1..], middle, cfg).value;
      LayerPackedLater(layers[0], first, middle, next, cfg);
      forall i | 0 <= i < |layers| ensures LayerPacked(layers[i], ([first] + rest)[i], next.contents, next.strings.entries, cfg) {
        if i > 0 {
          assert LayerPacked(layers[1..][i - 1], rest[i - 1], next.contents, next.strings.entries, cfg);
        }
      }
    }
  }
}
