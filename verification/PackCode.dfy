/** Packing in place: one blob pool, one string pool and one table of shared files, updated file by file. */
module PackCode {
  import opened Binary
  import opened Cbor
  import opened DataPools
  import opened Contents
  import opened Resources
  import opened ResourceCode
  import opened BlobBuilder
  import opened Pack
  import Blobs
  import ClassFile
  import ClassFileCode

  class Packer {
    const cfg: Config
    const pool: PoolBuilder
    const strings: DataPoolBuilder
    var shared: map<bytes, seq<Shared>>

    ghost predicate Valid()
      reads this, pool, strings
    {
      pool.codec == cfg.codec && pool.Valid() && strings.Valid()
    }

    ghost function State(): (r: Packing)
      requires Valid()
      reads this, pool, strings
      ensures r.strings.Consistent()
    {
      Packing(pool.State(), pool.contents, strings.State(), shared)
    }

    constructor (cfg: Config)
      ensures Valid() && State() == EMPTY_PACKING && this.cfg == cfg && fresh(pool) && fresh(strings)
    {
      this.cfg := cfg;
      this.pool := new PoolBuilder(cfg.codec);
      this.strings := new DataPoolBuilder();
      this.shared := map[];
    }

    /** The first earlier file with exactly these bytes. */
    method Reuse(files: seq<Shared>, data: bytes) returns (r: Option<Content>)
      ensures r == FindShared(files, data)
    {
      assert files[0..] == files;
      for i := 0 to |files|
        invariant FindShared(files, data) == FindShared(files[i..], data)
      {
        if files[i].data == data {
          return Some(files[i].content);
        }
        assert files[i..][1..] == files[i + 1..];
      }
      r := None;
    }

    /** Tries the class transform, keeping malformed class files as they are. */
    method Encoded(name: bytes, data: bytes) returns (r: Option<Option<bytes>>)
      requires Valid()
      modifies strings
      ensures Valid()
      ensures match EncodedFile(name, data, old(strings.State()), cfg)
              case None => r == None
              case Some((encoded, next)) => r == Some(encoded) && strings.State() == next
    {
      hide ClassFile.Transform, PoolState.Consistent, Grows;
      if !(cfg.transform && NamedClass(name) && ClassFile.CLASS_MAGIC <= data) {
        return Some(None);
      }
      var result := ClassFileCode.TransformClass(data, strings, cfg.limits);
      match result
      case Ok(encoded) => r := Some(encoded);
      case Err(kind) => r := if kind == LimitExceeded then None else Some(None);
    }

    /** Stores one file, reusing an earlier identical one. */
    method PackFile(name: bytes, data: bytes) returns (r: Option<Content>)
      requires Valid()
      modifies this, pool, strings
      ensures Valid()
      ensures match PackedFile(name, data, old(State()), cfg)
              case None => r == None
              case Some((content, next)) => r == Some(content) && State() == next
    {
      hide PoolState.Consistent, Grows, EncodedFile, FindShared, Represents, Pushed, PoolBuilder.Valid;
      var digest := cfg.codec.digest(XXH3_64, data);
      var files := SharedUnder(shared, digest);
      if data == [] {
        return Some(InlineContent([]));
      }
      var previous := Reuse(files, data);
      if previous.Some? {
        return previous;
      }
      var encoded := Encoded(name, data);
      if encoded == None {
        return None;
      }
      CountsAgree(pool);
      var index := pool.Push(if encoded.value.Some? then encoded.value.value else data);
      var content := DescriptorOf(index, data, encoded.value.Some?, cfg);
      shared := shared[digest := files + [Shared(data, content)]];
      r := Some(content);
    }

    method PackEntry(entry: Entry) returns (r: Option<Entry>)
      requires Valid()
      modifies this, pool, strings
      ensures Valid()
      ensures match PackedEntry(entry, old(State()), cfg)
              case None => r == None
              case Some((packed, next)) => r == Some(packed) && State() == next
    {
      hide PackedFile, Checksummed, PoolBuilder.Valid, PoolState.Consistent;
      if !entry.File? {
        return Some(entry);
      }
      if !entry.content.source.Inline? || entry.content.steps != [] {
        return None;
      }
      var content := PackFile(entry.name, entry.content.source.data);
      if content == None {
        return None;
      }
      var metadata := Checksummed(entry.metadata, entry.content.source.data, cfg);
      if metadata == None {
        return None;
      }
      r := Some(File(entry.name, content.value, metadata.value));
    }

    method PackEntries(entries: seq<Entry>) returns (r: Option<seq<Entry>>)
      requires Valid()
      modifies this, pool, strings
      ensures Valid()
      ensures match PackedEntries(entries, old(State()), cfg)
              case None => r == None
              case Some((packed, next)) => r == Some(packed) && State() == next
    {
      hide PackedEntry, PoolBuilder.Valid, PoolState.Consistent;
      ghost var whole := PackedEntries(entries, State(), cfg);
      var packed: seq<Entry> := [];
      assert entries[0..] == entries;
      assert whole.Some? ==> packed + whole.value.0 == whole.value.0;
      for i := 0 to |entries|
        invariant Valid()
        invariant Pending(whole, packed, PackedEntries(entries[i..], State(), cfg))
      {
        assert entries[i..][1..] == entries[i + 1..];
        ghost var before := State();
        var entry := PackEntry(entries[i]);
        if entry == None {
          return None;
        }
        PendingStep(whole, packed, PackedEntries(entries[i..], before, cfg), entry.value, PackedEntries(entries[i + 1..], State(), cfg));
        packed := packed + [entry.value];
      }
      assert packed + [] == packed;
      r := Some(packed);
    }

    method PackDirectories(directories: seq<Directory>) returns (r: Option<seq<Directory>>)
      requires Valid()
      modifies this, pool, strings
      ensures Valid()
      ensures match PackedDirectories(directories, old(State()), cfg)
              case None => r == None
              case Some((packed, next)) => r == Some(packed) && State() == next
    {
      hide PackedEntries, PoolBuilder.Valid, PoolState.Consistent;
      ghost var whole := PackedDirectories(directories, State(), cfg);
      var packed: seq<Directory> := [];
      assert directories[0..] == directories;
      assert whole.Some? ==> packed + whole.value.0 == whole.value.0;
      for i := 0 to |directories|
        invariant Valid()
        invariant Pending(whole, packed, PackedDirectories(directories[i..], State(), cfg))
      {
        assert directories[i..][1..] == directories[i + 1..];
        ghost var before := State();
        var entries := PackEntries(directories[i].entries);
        if entries == None {
          return None;
        }
        var directory := directories[i].(entries := entries.value);
        PendingStep(whole, packed, PackedDirectories(directories[i..], before, cfg), directory,
                    PackedDirectories(directories[i + 1..], State(), cfg));
        packed := packed + [directory];
      }
      assert packed + [] == packed;
      r := Some(packed);
    }

    method PackLayers(layers: seq<Layer>) returns (r: Option<seq<Layer>>)
      requires Valid()
      modifies this, pool, strings
      ensures Valid()
      ensures match PackedLayers(layers, old(State()), cfg)
              case None => r == None
              case Some((packed, next)) => r == Some(packed) && State() == next
    {
      hide PackedDirectories, PoolBuilder.Valid, PoolState.Consistent;
      ghost var whole := PackedLayers(layers, State(), cfg);
      var packed: seq<Layer> := [];
      assert layers[0..] == layers;
      assert whole.Some? ==> packed + whole.value.0 == whole.value.0;
      for i := 0 to |layers|
        invariant Valid()
        invariant Pending(whole, packed, PackedLayers(layers[i..], State(), cfg))
      {
        assert layers[i..][1..] == layers[i + 1..];
        ghost var before := State();
        var directories := PackDirectories(layers[i].directories);
        if directories == None {
          return None;
        }
        var layer := layers[i].(directories := directories.value);
        PendingStep(whole, packed, PackedLayers(layers[i..], before, cfg), layer, PackedLayers(layers[i + 1..], State(), cfg));
        packed := packed + [layer];
      }
      assert packed + [] == packed;
      r := Some(packed);
    }
  }

  /** What has been packed so far, then the rest, is the whole outcome. */
  ghost predicate Pending<T>(whole: Option<(seq<T>, Packing)>, done: seq<T>, rest: Option<(seq<T>, Packing)>) {
    match rest
    case None => whole == None
    case Some((more, end)) => whole == Some((done + more, end))
  }

  lemma PendingStep<T>(whole: Option<(seq<T>, Packing)>, done: seq<T>, rest: Option<(seq<T>, Packing)>, first: T,
                       next: Option<(seq<T>, Packing)>)
    requires Pending(whole, done, rest)
    requires rest == match next case None => None case Some((more, end)) => Some(([first] + more, end))
    ensures Pending(whole, done + [first], next)
  {
    if next.Some? {
      assert done + ([first] + next.value.0) == (done + [first]) + next.value.0;
    }
  }

  /** Builds one resource pool: every file, then the string pool, then the root. */
  method BuildPool(layers: seq<Layer>, name: bytes, cfg: Config) returns (r: Option<(Built, Blobs.BlobRef)>)
    ensures match PackedRoot(layers, name, cfg)
            case None => r == None
            case Some(built) => r == Some((built.section, built.reference))
  {
    hide PackedLayers, PoolBuilder.Valid, PoolState.Consistent, Grows, NameMetadata, EncodedRoot, EncodePool, Finished, LastIndices, Pushed,
         Reindexed;
    var packer := new Packer(cfg);
    EmptyIsEmpty(packer);
    var packed := packer.PackLayers(layers);
    if packed == None {
      return None;
    }
    var metadata := NameMetadata(name);
    if metadata == None {
      return None;
    }
    ghost var files := packer.State();
    var root := Root(Blobs.BlobRef(cfg.poolId, Count(|packer.pool.entries|)), metadata.value, packed.value);
    PoolIsUsable(packer.strings);
    var names := new DataPoolBuilder.From(packer.strings.pool);
    var rootBytes := EncodeRoot(root, names, cfg.limits);
    if rootBytes == None {
      return None;
    }
    var encoded := DataPools.Encode(names.pool);
    if !cfg.limits.Bytes(|encoded|) {
      return None;
    }
    CountsAgree(packer.pool);
    var _ := packer.pool.Push(encoded);
    CountsAgree(packer.pool);
    var index := packer.pool.Push(rootBytes.value);
    var section := packer.pool.Finish(8);
    r := if section == None then None else Some((section.value, Blobs.BlobRef(cfg.poolId, Count(index))));
  }

  lemma CountsAgree(pool: PoolBuilder)
    requires pool.Valid()
    ensures |pool.entries| == |pool.contents|
  {
    EntriesMatch(pool.State(), pool.codec, pool.contents);
  }

  lemma EmptyIsEmpty(packer: Packer)
    requires packer.Valid()
    ensures packer.State().strings.Consistent() && EMPTY_STRINGS.Consistent()
  {
  }

  lemma PoolIsUsable(strings: DataPoolBuilder)
    requires strings.Valid()
    ensures strings.pool.Valid() && strings.pool.Len() > 0 && strings.pool.Entries()[0] == []
    ensures strings.State().entries == strings.pool.Entries()
  {
  }
}
