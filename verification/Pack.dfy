/** Building one resource pool from imported layers: sharing, class transforms, and the final order. */
module Pack {
  import opened Binary
  import opened Cbor
  import opened CborValues
  import opened DataPools
  import opened Contents
  import opened Resources
  import opened BlobBuilder
  import Blobs
  import ClassFile
  import Names

  const XXH3_64: byte := 0x11

  /** A file's original bytes with the descriptor that later copies reuse. */
  datatype Shared = Shared(data: bytes, content: Content)

  /** The writer's state: the blob pool, what was pushed, the string pool, and files by digest. */
  datatype Packing = Packing(pool: Builder, contents: seq<bytes>, strings: PoolState, shared: map<bytes, seq<Shared>>)

  datatype Config = Config(poolId: u64, codec: Blobs.Codec, limits: Limits, transform: bool)

  const EMPTY_STRINGS := PoolState([[]], map[[] := 0])
  const EMPTY_PACKING := Packing(EMPTY_BUILDER, [], EMPTY_STRINGS, map[])

  function Push(st: Packing, data: bytes, cfg: Config): (r: Packing)
    ensures r.strings == st.strings
  {
    st.(pool := Pushed(st.pool, cfg.codec, data), contents := st.contents + [data])
  }

  predicate NamedClass(name: bytes) {
    |name| >= |Names.CLASS_SUFFIX| && name[|name| - |Names.CLASS_SUFFIX|..] == Names.CLASS_SUFFIX
  }

  /** The first file with exactly these bytes. */
  function FindShared(files: seq<Shared>, data: bytes): Option<Content> {
    if files == [] then None
    else if files[0].data == data then Some(files[0].content)
    else FindShared(files[1..], data)
  }

  function SharedUnder(shared: map<bytes, seq<Shared>>, digest: bytes): seq<Shared> {
    if digest in shared then shared[digest] else []
  }

  /** The transformed class file, if there is one; malformed class files stay as they are. */
  function EncodedFile(name: bytes, data: bytes, strings: PoolState, cfg: Config): (r: Option<(Option<bytes>, PoolState)>)
    requires strings.Consistent()
    ensures r.Some? ==> r.value.1.Consistent() && Grows(strings, r.value.1)
  {
    GrowsReflexive(strings);
    if cfg.transform && NamedClass(name) && ClassFile.CLASS_MAGIC <= data then
      var result := ClassFile.Transform(data, strings, cfg.limits);
      match result.outcome
      case Ok(encoded) => Some((encoded, result.pool))
      case Err(kind) => if kind == LimitExceeded then None else Some((None, result.pool))
    else Some((None, strings))
  }

  function DescriptorOf(index: nat, data: bytes, transformed: bool, cfg: Config): Content {
    Content(Blob(Blobs.BlobRef(cfg.poolId, Count(index))),
            if transformed then [Step(Count(|data|), CLASSFILE, EMPTY_MAP)] else [])
  }

  /** Stores one file, reusing an earlier identical one, and returns its descriptor. */
  function PackedFile(name: bytes, data: bytes, st: Packing, cfg: Config): (r: Option<(Content, Packing)>)
    requires st.strings.Consistent()
    ensures r.Some? ==> r.value.1.strings.Consistent()
  {
    var digest := cfg.codec.digest(XXH3_64, data);
    var files := SharedUnder(st.shared, digest);
    if data == [] then Some((InlineContent([]), st))
    else if FindShared(files, data).Some? then Some((FindShared(files, data).value, st))
    else
      match EncodedFile(name, data, st.strings, cfg)
      case None => None
      case Some((encoded, strings)) =>
        var content := DescriptorOf(|st.pool.entries|, data, encoded.Some?, cfg);
        var pushed := Push(st, if encoded.Some? then encoded.value else data, cfg);
        Some((content, pushed.(strings := strings, shared := st.shared[digest := files + [Shared(data, content)]])))
  }

  function WithoutChecksum(entries: seq<Pair>): seq<Pair> {
    if entries == [] then []
    else (if entries[0].key == Unsigned(0) then [] else [entries[0]]) + WithoutChecksum(entries[1..])
  }

  function Checksum(data: bytes, cfg: Config): Item {
    ByteString([XXH3_64] + cfg.codec.digest(XXH3_64, data))
  }

  /** The metadata with its checksum replaced by one over the original bytes. */
  function Checksummed(metadata: Item, data: bytes, cfg: Config): Option<Item> {
    if metadata.Map? then MapOf(WithoutChecksum(metadata.entries) + [Pair(Unsigned(0), Checksum(data, cfg))]) else None
  }

  /** Imported files are untransformed inline content; other entries are kept. */
  function PackedEntry(entry: Entry, st: Packing, cfg: Config): (r: Option<(Entry, Packing)>)
    requires st.strings.Consistent()
    ensures r.Some? ==> r.value.1.strings.Consistent()
  {
    if !entry.File? then Some((entry, st))
    else if !entry.content.source.Inline? || entry.content.steps != [] then None
    else
      match PackedFile(entry.name, entry.content.source.data, st, cfg)
      case None => None
      case Some((content, next)) =>
        match Checksummed(entry.metadata, entry.content.source.data, cfg)
        case None => None
        case Some(metadata) => Some((File(entry.name, content, metadata), next))
  }

  function PackedEntries(entries: seq<Entry>, st: Packing, cfg: Config): (r: Option<(seq<Entry>, Packing)>)
    requires st.strings.Consistent()
    ensures r.Some? ==> r.value.1.strings.Consistent()
  {
    if entries == [] then Some(([], st))
    else
      match PackedEntry(entries[0], st, cfg)
      case None => None
      case Some((first, middle)) =>
        match PackedEntries(entries[1..], middle, cfg)
        case None => None
        case Some((rest, next)) => Some(([first] + rest, next))
  }

  function PackedDirectories(directories: seq<Directory>, st: Packing, cfg: Config): (r: Option<(seq<Directory>, Packing)>)
    requires st.strings.Consistent()
    ensures r.Some? ==> r.value.1.strings.Consistent()
  {
    if directories == [] then Some(([], st))
    else
      match PackedEntries(directories[0].entries, st, cfg)
      case None => None
      case Some((entries, middle)) =>
        match PackedDirectories(directories[1..], middle, cfg)
        case None => None
        case Some((rest, next)) => Some(([directories[0].(entries := entries)] + rest, next))
  }

  function PackedLayers(layers: seq<Layer>, st: Packing, cfg: Config): (r: Option<(seq<Layer>, Packing)>)
    requires st.strings.Consistent()
    ensures r.Some? ==> r.value.1.strings.Consistent()
  {
    if layers == [] then Some(([], st))
    else
      match PackedDirectories(layers[0].directories, st, cfg)
      case None => None
      case Some((directories, middle)) =>
        match PackedLayers(layers[1..], middle, cfg)
        case None => None
        case Some((rest, next)) => Some(([layers[0].(directories := directories)] + rest, next))
  }

  /** Root metadata naming the imported archive. */
  function NameMetadata(name: bytes): Option<Item> {
    MapOf([Pair(Unsigned(0), TextString(name))])
  }

  /** Everything a finished pool consists of. */
  datatype PackedPool = PackedPool(state: Packing, root: Root, names: PoolState, rootBytes: bytes, section: Built, reference: Blobs.BlobRef)

  /** After the files: the string pool, then the root that names it. */
  function FinishedRoot(packed: seq<Layer>, files: Packing, metadata: Item, cfg: Config): Option<PackedPool>
    requires files.strings.Consistent()
  {
    var root := Root(Blobs.BlobRef(cfg.poolId, Count(|files.pool.entries|)), metadata, packed);
    ReindexedIsConsistent(files.strings.entries);
    match EncodedRoot(root, Reindexed(files.strings.entries), cfg.limits)
    case None => None
    case Some((rootBytes, names)) =>
      var strings := EncodePool(names.entries);
      if !cfg.limits.Bytes(|strings|) then None
      else
        var state := Push(Push(files, strings, cfg), rootBytes, cfg);
        match Finished(state.pool, cfg.codec, 8)
        case None => None
        case Some(section) =>
          Some(PackedPool(state, root, names, rootBytes, section, Blobs.BlobRef(cfg.poolId, Count(|files.pool.entries| + 1))))
  }

  function PackedRoot(layers: seq<Layer>, name: bytes, cfg: Config): Option<PackedPool> {
    assert EMPTY_STRINGS.Consistent();
    match (PackedLayers(layers, EMPTY_PACKING, cfg), NameMetadata(name))
    case (Some((packed, files)), Some(metadata)) => FinishedRoot(packed, files, metadata, cfg)
    case _ => None
  }
}
