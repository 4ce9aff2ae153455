/** What a reader must admit of the imported layers, and that it then admits what is packed from them. */
module PackFitting {
  import opened Binary
  import opened Text
  import opened Cbor
  import opened CborValues
  import DataPools
  import opened Contents
  import opened Paths
  import opened Resources
  import opened BlobBuilder
  import opened Pack
  import opened PackProofs
  import opened PackTheorems
  import Blobs
  import ClassFile

  // ---------- Metadata with a checksum ----------

  /** What a checksum adds at most: its key, nine bytes with their head, and the widest map head. */
  const ROOM: nat := 19

  /** A file's metadata is deterministic CBOR with room for a checksum. */
  predicate FitsWithChecksum(metadata: Item, limits: Limits) {
    && metadata.Map? && Valid(metadata, 0, limits) && limits.maxDepth >= 1
    && limits.Elements(|metadata.entries| + 1) && limits.Bytes(|Encode(metadata)| + ROOM)
  }

  lemma {:induction false} ValidEach(entries: seq<Pair>, previous: Option<bytes>, depth: nat, limits: Limits)
    requires ValidPairs(entries, previous, depth, limits)
    ensures StrictFrom(entries, previous) && forall entry :: entry in entries ==> ValidPair(entry, depth, limits)
    decreases |entries|
  {
    hide ValidPair, Follows;
    if entries != [] {
      ValidEach(entries[1..], Some(Encode(entries[0].key)), depth, limits);
      assert entries == [entries[0]] + entries[1..];
    }
  }

  function PairsLength(entries: seq<Pair>): nat {
    |EncodePairs(entries)|
  }

  lemma {:induction false} InsertLength(entry: Pair, sorted: seq<Pair>)
    ensures PairsLength(InsertPair(entry, sorted)) == |EncodePair(entry)| + PairsLength(sorted)
    decreases |sorted|
  {
    hide EncodePair, Less;
    var inserted := InsertPair(entry, sorted);
    if sorted == [] || !Less(Encode(sorted[0].key), Encode(entry.key)) {
      assert inserted[0] == entry && inserted[1..] == sorted;
    } else {
      InsertLength(entry, sorted[1..]);
      assert inserted[0] == sorted[0] && inserted[1..] == InsertPair(entry, sorted[1..]);
    }
  }

  lemma {:induction false} SortLength(entries: seq<Pair>)
    ensures PairsLength(SortPairs(entries)) == PairsLength(entries)
    decreases |entries|
  {
    hide EncodePair, InsertPair;
    if entries != [] {
      SortLength(entries[1..]);
      InsertLength(entries[0], SortPairs(entries[1..]));
    }
  }

  lemma {:induction false} WithoutIsShorter(entries: seq<Pair>, last: Pair)
    ensures |WithoutChecksum(entries)| <= |entries|
    ensures PairsLength(WithoutChecksum(entries) + [last]) <= PairsLength(entries) + |EncodePair(last)|
    decreases |entries|
  {
    hide EncodePair;
    var fields := WithoutChecksum(entries) + [last];
    if entries == [] {
      assert fields == [last] && [last][1..] == [];
    } else {
      WithoutIsShorter(entries[1..], last);
      var rest := WithoutChecksum(entries[1..]) + [last];
      if entries[0].key == Unsigned(0) {
        assert fields == rest;
      } else {
        assert fields[0] == entries[0] && fields[1..] == rest;
      }
    }
  }

  lemma HeadLength(major: nat, value: u64)
    requires major < 8
    ensures 1 <= |Head(major, value)| <= 9 && (value < 24 ==> |Head(major, value)| == 1)
  {
    hide Be;
  }

  lemma ChecksumLength(data: bytes, cfg: Config)
    requires DigestsFit(cfg.codec)
    ensures var checksum := Checksum(data, cfg);
            checksum.ByteString? && |checksum.data| == 9 && Blobs.IsChecksum(checksum.data)
            && |EncodePair(Pair(Unsigned(0), checksum))| == 11
  {
    hide Head;
    var checksum := Checksum(data, cfg);
    assert |checksum.data| == 9;
    HeadLength(0, 0);
    HeadLength(2, 9);
  }

  lemma MapLength(entries: seq<Pair>)
    ensures 1 + PairsLength(entries) <= |Encode(Map(entries))| <= 9 + PairsLength(entries)
  {
    hide Head, EncodePairs;
    HeadLength(5, Count(|entries|));
  }

  /** Metadata with room for a checksum still fits when it has one. */
  lemma ChecksummedFits(metadata: Item, data: bytes, cfg: Config, limits: Limits)
    requires FitsWithChecksum(metadata, limits) && DigestsFit(cfg.codec) && Checksummed(metadata, data, cfg).Some?
    ensures FitsItem(Checksummed(metadata, data, cfg).value, limits) && DistinctKeys(metadata.entries)
  {
    hide DigestsFit, Checksum, EncodePairs, EncodePair, SortPairs, WithoutChecksum, Head, StrictFrom, DistinctKeys, Encode, PairsLength;
    var last := Pair(Unsigned(0), Checksum(data, cfg));
    var fields := WithoutChecksum(metadata.entries) + [last];
    ChecksumLength(data, cfg);
    ValidEach(metadata.entries, None, 1, limits);
    StrictKeysDiffer(metadata.entries, None);
    WithoutIsShorter(metadata.entries, last);
    forall entry | entry in fields ensures ValidPair(entry, 1, limits) {
      WithoutChecksumKeeps(metadata.entries, entry);
      assert entry != last ==> entry in WithoutChecksum(metadata.entries);
    }
    MapOfIsAccepted(fields, 0, limits);
    SortLength(fields);
    MapLength(SortPairs(fields));
    MapLength(metadata.entries);
  }

  lemma ChecksummedIsValid(metadata: Item, data: bytes, cfg: Config)
    requires ValidMetadata(metadata, true, true) && DistinctKeys(metadata.entries) && DigestsFit(cfg.codec)
    requires Checksummed(metadata, data, cfg).Some?
    ensures ValidMetadata(Checksummed(metadata, data, cfg).value, true, true)
  {
    hide DigestsFit, MapOf, Checksum, WithoutChecksum, DistinctKeys, Timestamp, Get, Blobs.IsChecksum;
    var written := Checksummed(metadata, data, cfg).value;
    ChecksumLength(data, cfg);
    ChecksummedMeans(metadata, data, cfg, 0);
    ChecksummedMeans(metadata, data, cfg, 1);
    ChecksummedMeans(metadata, data, cfg, 2);
    ChecksummedMeans(metadata, data, cfg, 3);
    ChecksummedMeans(metadata, data, cfg, 4);
    ChecksummedMeans(metadata, data, cfg, 5);
    var last := Pair(Unsigned(0), Checksum(data, cfg));
    var fields := WithoutChecksum(metadata.entries) + [last];
    MapOfMeaning(fields);
    forall i | 0 <= i < |written.entries| ensures written.entries[i].key.Unsigned? {
      var entry := written.entries[i];
      assert entry in multiset(written.entries);
      assert entry in fields;
      WithoutChecksumKeeps(metadata.entries, entry);
      assert entry != last ==> entry in WithoutChecksum(metadata.entries);
    }
  }

  // ---------- Imported layers ----------

  /** A file that packing may transform; its descriptor then states its size and one step. */
  predicate FitsClass(content: Content, limits: Limits) {
    content.source.Inline? && ClassFile.CLASS_MAGIC <= content.source.data ==> limits.Bytes(|content.source.data|) && limits.Elements(1)
  }

  /** A reader admits an entry's name, its descriptor, and its metadata once the checksum is added; files may be of any size. */
  ghost predicate FitsImportedEntry(entry: Entry, transform: bool, limits: Limits) {
    && FitsName(entry.name, limits)
    && match entry
       case File(_, content, metadata) => (transform ==> FitsClass(content, limits)) && FitsWithChecksum(metadata, limits)
       case Link(_, target, metadata) => FitsName(target, limits) && FitsItem(metadata, limits)
       case Tombstone(_) => true
  }

  ghost predicate FitsImportedDirectory(directory: Directory, transform: bool, limits: Limits) {
    && Utf8(directory.path) && FitsItem(directory.metadata, limits)
    && forall i :: 0 <= i < |directory.entries| ==> FitsImportedEntry(directory.entries[i], transform, limits)
  }

  /** What a reader must admit of the layers that are packed: rules, names, sizes and conditions. */
  ghost predicate FitsImportedLayer(layer: Layer, accepts: Item -> bool, transform: bool, limits: Limits) {
    && ValidLayer(layer, limits) && accepts(layer.condition) && FitsItem(layer.condition, limits)
    && forall i :: 0 <= i < |layer.directories| ==> FitsImportedDirectory(layer.directories[i], transform, limits)
  }

  ghost predicate FitsImport(layers: seq<Layer>, name: bytes, accepts: Item -> bool, transform: bool, limits: Limits) {
    && limits.Elements(|layers|) && NameMetadata(name).Some? && FitsItem(NameMetadata(name).value, limits)
    && forall i :: 0 <= i < |layers| ==> FitsImportedLayer(layers[i], accepts, transform, limits)
  }

  lemma DescriptorFits(before: Content, content: Content, data: bytes, contents: seq<bytes>, strings: seq<bytes>, cfg: Config, limits: Limits)
    requires before == InlineContent(data) && (cfg.transform ==> FitsClass(before, limits))
    requires Means(content, data, contents, strings, cfg)
    ensures FitsContent(content, limits)
  {
    hide EncodedFrom;
    if data != [] {
      var i: nat :| MeansAt(i, content, data, contents, strings, cfg);
      EmptyMapFits(limits);
      if content.steps != [] {
        EncodedIsClass(data, contents[i], strings, cfg.limits);
      }
    }
  }

  lemma EmptyMapFits(limits: Limits)
    ensures FitsItem(EMPTY_MAP, limits) && Get(EMPTY_MAP, 0) == None
  {
  }

  lemma EntryFits(before: Entry, after: Entry, contents: seq<bytes>, strings: seq<bytes>, cfg: Config, limits: Limits)
    requires EntryPacked(before, after, contents, strings, cfg) && DigestsFit(cfg.codec)
    requires FitsImportedEntry(before, cfg.transform, limits) && ValidEntry(before, limits)
    ensures FitsEntry(after, limits) && ValidEntry(after, limits)
    ensures after.name == before.name && after.Tombstone? == before.Tombstone?
  {
    hide Means, Checksummed, FitsWithChecksum, FitsItem, FitsContent, ValidMetadata, DigestsFit, Plain, DistinctKeys, Utf8;
    if before.File? {
      var data := before.content.source.data;
      DescriptorFits(before.content, after.content, data, contents, strings, cfg, limits);
      ChecksummedFits(before.metadata, data, cfg, limits);
      ChecksummedIsValid(before.metadata, data, cfg);
    }
  }

  lemma {:induction false} SameFiles(path: bytes, before: seq<Entry>, after: seq<Entry>)
    requires |before| == |after|
    requires forall i :: 0 <= i < |before| ==> after[i].name == before[i].name && after[i].Tombstone? == before[i].Tombstone?
    ensures FilesIn(path, before) == FilesIn(path, after)
    decreases |before|
  {
    if before != [] {
      SameFiles(path, before[1..], after[1..]);
    }
  }

  /** A packed directory fits and keeps the rules, and lists the same files. */
  lemma DirectoryFits(before: Directory, after: Directory, contents: seq<bytes>, strings: seq<bytes>, cfg: Config, limits: Limits)
    requires DirectoryPacked(before, after, contents, strings, cfg) && DigestsFit(cfg.codec)
    requires FitsImportedDirectory(before, cfg.transform, limits) && ValidDirectory(before, limits)
    ensures FitsDirectory(after, limits) && ValidDirectory(after, limits)
    ensures FilesIn(after.path, after.entries) == FilesIn(before.path, before.entries)
  {
    hide EntryPacked, FitsImportedEntry, FitsEntry, ValidEntry, FitsItem, ValidMetadata, ValidPath, Before, DigestsFit, Utf8, FilesIn, Joined;
    forall i | 0 <= i < |before.entries|
      ensures FitsEntry(after.entries[i], limits) && ValidEntry(after.entries[i], limits)
      ensures after.entries[i].name == before.entries[i].name && after.entries[i].Tombstone? == before.entries[i].Tombstone?
    {
      EntryFits(before.entries[i], after.entries[i], contents, strings, cfg, limits);
    }
    SameFiles(before.path, before.entries, after.entries);
  }

  lemma {:induction false} SameClosure(before: seq<Directory>, after: seq<Directory>)
    requires |before| == |after|
    requires forall i :: 0 <= i < |before| ==>
               after[i].path == before[i].path && FilesIn(after[i].path, after[i].entries) == FilesIn(before[i].path, before[i].entries)
    ensures Closure(before) == Closure(after) && Files(before) == Files(after)
    decreases |before|
  {
    hide FilesIn, Ancestors;
    if before != [] {
      SameClosure(before[1..], after[1..]);
    }
  }

  lemma LayerFits(before: Layer, after: Layer, accepts: Item -> bool, contents: seq<bytes>, strings: seq<bytes>, cfg: Config, limits: Limits)
    requires LayerPacked(before, after, contents, strings, cfg) && DigestsFit(cfg.codec) && FitsImportedLayer(before, accepts, cfg.transform, limits)
    ensures FitsLayer(after, accepts, limits) && ValidLayer(after, limits)
  {
    hide DirectoryPacked, FitsImportedDirectory, FitsDirectory, ValidDirectory, FitsItem, Before, DigestsFit, Closure, Files, FilesIn;
    var directories, packed := before.directories, after.directories;
    forall i | 0 <= i < |directories|
      ensures FitsDirectory(packed[i], limits) && ValidDirectory(packed[i], limits) && packed[i].path == directories[i].path
      ensures FilesIn(packed[i].path, packed[i].entries) == FilesIn(directories[i].path, directories[i].entries)
    {
      assert FitsImportedDirectory(directories[i], cfg.transform, limits) && ValidDirectory(directories[i], limits);
      assert DirectoryPacked(directories[i], packed[i], contents, strings, cfg);
      DirectoryFits(directories[i], packed[i], contents, strings, cfg, limits);
      SamePlace(directories[i], packed[i], contents, strings, cfg);
    }
    SameClosure(directories, packed);
  }

  lemma SamePlace(before: Directory, after: Directory, contents: seq<bytes>, strings: seq<bytes>, cfg: Config)
    requires DirectoryPacked(before, after, contents, strings, cfg)
    ensures after.path == before.path
  {
  }

  /** What is packed from layers that fit, fits; nothing about the output has to be assumed. */
  lemma PackedFits(layers: seq<Layer>, name: bytes, accepts: Item -> bool, cfg: Config, limits: Limits)
    requires PackedRoot(layers, name, cfg).Some? && DigestsFit(cfg.codec) && FitsImport(layers, name, accepts, cfg.transform, limits)
    ensures var root := PackedRoot(layers, name, cfg).value.root;
            FitsRoot(root, accepts, limits) && ValidRoot(root, limits)
    ensures AllDistinct(layers)
  {
    hide PackedRoot, LayerPacked, FitsImportedLayer, FitsLayer, ValidLayer, FitsItem, DigestsFit, ValidRootMetadata, Represents, Finished,
         DataPools.EncodePool, WrittenRoot, AllDistinct;
    var built := PackedRoot(layers, name, cfg).value;
    var _ := PackedRootStands(layers, name, cfg);
    RootMetadata(layers, name, cfg);
    forall i | 0 <= i < |layers| ensures FitsLayer(built.root.layers[i], accepts, limits) && ValidLayer(built.root.layers[i], limits) {
      LayerFits(layers[i], built.root.layers[i], accepts, built.state.contents, built.names.entries, cfg, limits);
    }
    ImportIsDistinct(layers, name, accepts, cfg.transform, limits);
  }

  /** The packer checks the root metadata, whatever the limits. */
  lemma RootMetadata(layers: seq<Layer>, name: bytes, cfg: Config)
    requires PackedRoot(layers, name, cfg).Some?
    ensures var root := PackedRoot(layers, name, cfg).value.root;
            Some(root.metadata) == NameMetadata(name) && ValidRootMetadata(root.metadata)
  {
    hide PackedLayers, NameMetadata, ValidRootMetadata, ValidLayer, WrittenRoot, Writable, DataPools.EncodePool, Finished, DataPools.PoolState.Consistent,
         DataPools.LastIndices, DataPools.Grows;
  }

  lemma ImportIsDistinct(layers: seq<Layer>, name: bytes, accepts: Item -> bool, transform: bool, limits: Limits)
    requires FitsImport(layers, name, accepts, transform, limits)
    ensures AllDistinct(layers)
  {
    hide ValidLayer, FitsItem, FitsClass, FitsName, DistinctKeys, Valid, Encode;
    forall i, j, k | 0 <= i < |layers| && 0 <= j < |layers[i].directories| && 0 <= k < |layers[i].directories[j].entries|
      ensures DistinctMetadata(layers[i].directories[j].entries[k])
    {
      assert FitsImportedLayer(layers[i], accepts, transform, limits);
      assert FitsImportedDirectory(layers[i].directories[j], transform, limits);
      var entry := layers[i].directories[j].entries[k];
      assert FitsImportedEntry(entry, transform, limits);
      if entry.File? {
        MetadataIsDistinct(entry.metadata, limits);
      }
    }
  }

  lemma MetadataIsDistinct(metadata: Item, limits: Limits)
    requires FitsWithChecksum(metadata, limits)
    ensures DistinctKeys(metadata.entries)
  {
    hide ValidPairs, DistinctKeys, StrictFrom, Encode;
    ValidEach(metadata.entries, None, 1, limits);
    StrictKeysDiffer(metadata.entries, None);
  }
}
