/** Decoding a root at a cursor, resolving its data pool and directory-entry blobs from a store. */
module ResourceReader {
  import opened Binary
  import opened Cbor
  import opened CborValues
  import opened DataPools
  import opened Names
  import opened Contents
  import opened Resources
  import opened ResourceCode
  import opened BlobStores
  import Blobs

  /** What has been read so far, then the rest, is the whole outcome. */
  ghost predicate Pending<T>(whole: Read<seq<T>>, done: seq<T>, rest: Read<seq<T>>) {
    match rest
    case Failed => whole == Failed
    case Got(more, next) => whole == Got(done + more, next)
  }

  lemma PendingStarts<T>(whole: Read<seq<T>>)
    ensures Pending(whole, [], whole)
  {
    if whole.Got? {
      assert [] + whole.value == whole.value;
    }
  }

  lemma PendingStep<T>(whole: Read<seq<T>>, done: seq<T>, rest: Read<seq<T>>, first: T, after: Read<seq<T>>)
    requires Pending(whole, done, rest)
    requires rest == match after case Failed => Failed case Got(more, next) => Got([first] + more, next)
    ensures Pending(whole, done + [first], after)
  {
    if after.Got? {
      assert done + ([first] + after.value) == (done + [first]) + after.value;
    }
  }

  lemma PendingEnds<T>(whole: Read<seq<T>>, done: seq<T>, pos: nat)
    requires Pending(whole, done, Got([], pos))
    ensures whole == Got(done, pos)
  {
    assert done + [] == done;
  }

  /** Whatever valid tables alone give is what was read, up to the same position. */
  ghost predicate FindsAt<T>(found: Option<T>, position: nat, trusted: Read<T>) {
    trusted.Got? ==> found.Some? && trusted == Got(found.value, position)
  }

  /** The cursor form of `DirectoryEntryAt`. */
  method ReadEntry(decoder: Decoder, pool: DataPool) returns (r: Option<Entry>)
    requires decoder.Valid() && pool.Valid()
    modifies decoder
    ensures decoder.Valid()
    ensures match DirectoryEntryAt(pool.Entries(), decoder.input, old(decoder.position), decoder.limits)
            case Got(entry, next) => r == Some(entry) && decoder.position == next
            case Failed => r == None
  {
    hide NameFrom, ContentAt, SizedItemAt, DataPool.Entries, DataPool.Valid;
    var tag := decoder.Take(4);
    if tag == None {
      return None;
    }
    var name := ReadName(pool, decoder);
    if name == None {
      return None;
    }
    if tag.value == FILE_TAG {
      var content := ReadContent(decoder);
      if content == None {
        return None;
      }
      var metadata := ReadItem(decoder);
      r := if metadata == None then None else Some(File(name.value, content.value, metadata.value));
    } else if tag.value == LINK_TAG {
      var target := ReadName(pool, decoder);
      if target == None {
        return None;
      }
      var metadata := ReadItem(decoder);
      r := if metadata == None then None else Some(Link(name.value, target.value, metadata.value));
    } else {
      r := if tag.value == TOMBSTONE_TAG then Some(Tombstone(name.value)) else None;
    }
  }

  /** Reads exactly `count` entries, consuming every byte. */
  method ReadEntries(data: bytes, count: nat, pool: DataPool, limits: Limits) returns (r: Option<seq<Entry>>)
    requires pool.Valid()
    ensures match EntriesAt(pool.Entries(), data, 0, count, limits)
            case Failed => r == None
            case Got(entries, end) => r == if end == |data| then Some(entries) else None
  {
    hide DirectoryEntryAt, DataPool.Entries, DataPool.Valid;
    var decoder := new Decoder(data, limits);
    ghost var whole := EntriesAt(pool.Entries(), data, 0, count, limits);
    PendingStarts(whole);
    var entries: seq<Entry> := [];
    for i := 0 to count
      invariant decoder.Valid()
      invariant Pending(whole, entries, EntriesAt(pool.Entries(), data, decoder.position, count - i, limits))
    {
      ghost var start := decoder.position;
      var entry := ReadEntry(decoder, pool);
      if entry == None {
        return None;
      }
      PendingStep(whole, entries, EntriesAt(pool.Entries(), data, start, count - i, limits), entry.value,
                  EntriesAt(pool.Entries(), data, decoder.position, count - i - 1, limits));
      entries := entries + [entry.value];
    }
    PendingEnds(whole, entries, decoder.position);
    r := if decoder.Remaining() == 0 then Some(entries) else None;
  }

  /** The entries that a directory's content denotes, read through the store. */
  method LoadEntries(store: BlobStore, content: Content, count: nat, pool: DataPool) returns (r: Option<seq<Entry>>)
    requires store.Valid() && pool.Valid()
    modifies store
    ensures store.Valid()
    ensures r.Some? ==> r == EntriesOf(store.view, pool.Entries(), content, count)
    ensures Finds(r, EntriesOf(Trusted(store.view), pool.Entries(), content, count))
  {
    hide DirectoryEntryAt, DataPool.Entries, DataPool.Valid, BlobStore.Valid, Trusted, Blobs.Resolve, EntriesAt;
    TrustedCodec(store.view);
    if content.steps != [] {
      return None;
    }
    var data: Option<bytes>;
    match content.source {
      case Inline(inline) => data := if store.view.limits.Bytes(|inline|) then Some(inline) else None;
      case Blob(reference) => data := store.ResolveBlob(reference, false);
    }
    if data == None || !store.view.limits.Bytes(|data.value|) {
      return None;
    }
    r := ReadEntries(data.value, count, pool, store.view.limits);
  }

  /** Reads one directory record and its entries. */
  method ReadDirectory(store: BlobStore, decoder: Decoder, pool: DataPool) returns (r: Option<Directory>)
    requires store.Valid() && pool.Valid() && decoder.Valid() && decoder.limits == store.view.limits
    modifies store, decoder
    ensures store.Valid() && decoder.Valid()
    ensures r.Some? ==> DirectoryAt(store.view, pool.Entries(), decoder.input, old(decoder.position)) == Got(r.value, decoder.position)
    ensures FindsAt(r, decoder.position, DirectoryAt(Trusted(store.view), pool.Entries(), decoder.input, old(decoder.position)))
  {
    hide ContentAt, SizedItemAt, VuintAt, DataPool.Entries, DataPool.Valid, BlobStore.Valid, Trusted, EntriesOf, TextAt;
    TrustedCodec(store.view);
    var index := decoder.ReadVuint();
    if index == None {
      return None;
    }
    var path := ReadText(pool, Some(index.value));
    var metadata := ReadItem(decoder);
    if path == None || metadata == None {
      return None;
    }
    var count := decoder.ReadVuint();
    if count == None || !decoder.limits.Elements(count.value) {
      return None;
    }
    var content := ReadContent(decoder);
    if content == None {
      return None;
    }
    var entries := LoadEntries(store, content.value, count.value, pool);
    r := if entries == None then None else Some(Directory(path.value, metadata.value, entries.value));
  }

  method ReadDirectories(store: BlobStore, decoder: Decoder, pool: DataPool, count: nat) returns (r: Option<seq<Directory>>)
    requires store.Valid() && pool.Valid() && decoder.Valid() && decoder.limits == store.view.limits
    modifies store, decoder
    ensures store.Valid() && decoder.Valid()
    ensures r.Some? ==> DirectoriesAt(store.view, pool.Entries(), decoder.input, old(decoder.position), count) == Got(r.value, decoder.position)
    ensures FindsAt(r, decoder.position, DirectoriesAt(Trusted(store.view), pool.Entries(), decoder.input, old(decoder.position), count))
  {
    hide DirectoryAt, DataPool.Entries, DataPool.Valid, BlobStore.Valid, Trusted;
    ghost var whole := DirectoriesAt(store.view, pool.Entries(), decoder.input, decoder.position, count);
    ghost var trusted := DirectoriesAt(Trusted(store.view), pool.Entries(), decoder.input, decoder.position, count);
    PendingStarts(whole);
    PendingStarts(trusted);
    var directories: seq<Directory> := [];
    for i := 0 to count
      invariant store.Valid() && decoder.Valid()
      invariant Pending(whole, directories, DirectoriesAt(store.view, pool.Entries(), decoder.input, decoder.position, count - i))
      invariant trusted.Got? ==>
                  Pending(trusted, directories, DirectoriesAt(Trusted(store.view), pool.Entries(), decoder.input, decoder.position, count - i))
    {
      ghost var start := decoder.position;
      var directory := ReadDirectory(store, decoder, pool);
      if directory == None {
        return None;
      }
      PendingStep(whole, directories, DirectoriesAt(store.view, pool.Entries(), decoder.input, start, count - i), directory.value,
                  DirectoriesAt(store.view, pool.Entries(), decoder.input, decoder.position, count - i - 1));
      if trusted.Got? {
        PendingStep(trusted, directories, DirectoriesAt(Trusted(store.view), pool.Entries(), decoder.input, start, count - i), directory.value,
                    DirectoriesAt(Trusted(store.view), pool.Entries(), decoder.input, decoder.position, count - i - 1));
      }
      directories := directories + [directory.value];
    }
    PendingEnds(whole, directories, decoder.position);
    if trusted.Got? {
      PendingEnds(trusted, directories, decoder.position);
    }
    r := Some(directories);
  }

  method ReadLayer(store: BlobStore, accepts: Item -> bool, decoder: Decoder, pool: DataPool) returns (r: Option<Layer>)
    requires store.Valid() && pool.Valid() && decoder.Valid() && decoder.limits == store.view.limits
    modifies store, decoder
    ensures store.Valid() && decoder.Valid()
    ensures r.Some? ==> LayerAt(store.view, accepts, pool.Entries(), decoder.input, old(decoder.position)) == Got(r.value, decoder.position)
    ensures FindsAt(r, decoder.position, LayerAt(Trusted(store.view), accepts, pool.Entries(), decoder.input, old(decoder.position)))
  {
    hide SizedItemAt, VuintAt, DirectoriesAt, DataPool.Entries, DataPool.Valid, BlobStore.Valid, Trusted;
    TrustedCodec(store.view);
    var condition := ReadItem(decoder);
    if condition == None || !accepts(condition.value) {
      return None;
    }
    var count := decoder.ReadVuint();
    if count == None || !decoder.limits.Elements(count.value) {
      return None;
    }
    var directories := ReadDirectories(store, decoder, pool, count.value);
    r := if directories == None then None else Some(Layer(condition.value, directories.value));
  }

  method ReadLayers(store: BlobStore, accepts: Item -> bool, decoder: Decoder, pool: DataPool, count: nat) returns (r: Option<seq<Layer>>)
    requires store.Valid() && pool.Valid() && decoder.Valid() && decoder.limits == store.view.limits
    modifies store, decoder
    ensures store.Valid() && decoder.Valid()
    ensures r.Some? ==> LayersAt(store.view, accepts, pool.Entries(), decoder.input, old(decoder.position), count) == Got(r.value, decoder.position)
    ensures FindsAt(r, decoder.position, LayersAt(Trusted(store.view), accepts, pool.Entries(), decoder.input, old(decoder.position), count))
  {
    hide LayerAt, DataPool.Entries, DataPool.Valid, BlobStore.Valid, Trusted;
    ghost var whole := LayersAt(store.view, accepts, pool.Entries(), decoder.input, decoder.position, count);
    ghost var trusted := LayersAt(Trusted(store.view), accepts, pool.Entries(), decoder.input, decoder.position, count);
    PendingStarts(whole);
    PendingStarts(trusted);
    var layers: seq<Layer> := [];
    for i := 0 to count
      invariant store.Valid() && decoder.Valid()
      invariant Pending(whole, layers, LayersAt(store.view, accepts, pool.Entries(), decoder.input, decoder.position, count - i))
      invariant trusted.Got? ==>
                  Pending(trusted, layers, LayersAt(Trusted(store.view), accepts, pool.Entries(), decoder.input, decoder.position, count - i))
    {
      ghost var start := decoder.position;
      var layer := ReadLayer(store, accepts, decoder, pool);
      if layer == None {
        return None;
      }
      PendingStep(whole, layers, LayersAt(store.view, accepts, pool.Entries(), decoder.input, start, count - i), layer.value,
                  LayersAt(store.view, accepts, pool.Entries(), decoder.input, decoder.position, count - i - 1));
      if trusted.Got? {
        PendingStep(trusted, layers, LayersAt(Trusted(store.view), accepts, pool.Entries(), decoder.input, start, count - i), layer.value,
                    LayersAt(Trusted(store.view), accepts, pool.Entries(), decoder.input, decoder.position, count - i - 1));
      }
      layers := layers + [layer.value];
    }
    PendingEnds(whole, layers, decoder.position);
    if trusted.Got? {
      PendingEnds(trusted, layers, decoder.position);
    }
    r := Some(layers);
  }

  /** The pool that a root names, decoded once. */
  method LoadPool(store: BlobStore, reference: Blobs.BlobRef) returns (r: Option<DataPool>)
    requires store.Valid()
    modifies store
    ensures store.Valid()
    ensures r.Some? ==> r.value.Valid() && PoolAt(store.view, reference) == Some(r.value.Entries())
    ensures match PoolAt(Trusted(store.view), reference)
            case None => true
            case Some(entries) => r.Some? && r.value.Entries() == entries
  {
    hide DecodePool, BlobStore.Valid, Trusted, Blobs.Resolve, DataPool.Entries, DataPool.Valid;
    TrustedCodec(store.view);
    var encoded := store.ResolveBlob(reference, false);
    if encoded == None {
      return None;
    }
    r := DataPools.Decode(encoded.value, store.view.limits);
  }

  /** Reads and validates a complete root, even when no layer would match. */
  method DecodeRoot(store: BlobStore, accepts: Item -> bool, s: bytes) returns (r: Option<(Root, DataPool)>)
    requires store.Valid()
    modifies store
    ensures store.Valid()
    ensures r.Some? ==> r.value.1.Valid() && DecodedRoot(store.view, accepts, s) == Some((r.value.0, r.value.1.Entries()))
    ensures match DecodedRoot(Trusted(store.view), accepts, s)
            case None => true
            case Some((root, entries)) => r.Some? && r.value.0 == root && r.value.1.Entries() == entries
  {
    hide SizedItemAt, VuintAt, LayersAt, PoolAt, DataPool.Entries, DataPool.Valid, BlobStore.Valid, Trusted, ValidRoot;
    TrustedCodec(store.view);
    if !store.view.limits.Bytes(|s|) {
      return None;
    }
    var decoder := new Decoder(s, store.view.limits);
    var first := decoder.ReadVuint();
    if first == None {
      return None;
    }
    var second := decoder.ReadVuint();
    if second == None {
      return None;
    }
    var reference := Blobs.BlobRef(first.value, second.value);
    var pool := LoadPool(store, reference);
    if pool == None {
      return None;
    }
    var metadata := ReadItem(decoder);
    if metadata == None {
      return None;
    }
    var count := decoder.ReadVuint();
    if count == None || !store.view.limits.Elements(count.value) {
      return None;
    }
    var layers := ReadLayers(store, accepts, decoder, pool.value, count.value);
    if layers == None || decoder.Remaining() != 0 {
      return None;
    }
    var root := Root(reference, metadata.value, layers.value);
    var valid := ValidateRoot(root, store.view.limits);
    r := if valid then Some((root, pool.value)) else None;
  }

  /** The root at a blob reference. */
  function LoadedRoot(view: Blobs.View, accepts: Item -> bool, reference: Blobs.BlobRef): Option<(Root, seq<bytes>)> {
    match Blobs.Resolve(view, reference, false)
    case None => None
    case Some(encoded) => DecodedRoot(view, accepts, encoded)
  }

  /** Loads the root that a reference names. */
  method LoadRoot(store: BlobStore, accepts: Item -> bool, reference: Blobs.BlobRef) returns (r: Option<(Root, DataPool)>)
    requires store.Valid()
    modifies store
    ensures store.Valid()
    ensures r.Some? ==> r.value.1.Valid() && LoadedRoot(store.view, accepts, reference) == Some((r.value.0, r.value.1.Entries()))
    ensures match LoadedRoot(Trusted(store.view), accepts, reference)
            case None => true
            case Some((root, entries)) => r.Some? && r.value.0 == root && r.value.1.Entries() == entries
  {
    hide DecodedRoot, BlobStore.Valid, Trusted, Blobs.Resolve, DataPool.Entries, DataPool.Valid;
    var encoded := store.ResolveBlob(reference, false);
    if encoded == None {
      return None;
    }
    r := DecodeRoot(store, accepts, encoded.value);
  }

  /** Computes `ReadFile` through the store. */
  method LoadFile(store: BlobStore, content: Content, metadata: Item, pool: DataPool) returns (r: Option<bytes>)
    requires store.Valid() && pool.Valid()
    modifies store
    ensures store.Valid()
    ensures r.Some? ==> r == ReadFile(store.view, content, metadata, pool.Entries())
    ensures Finds(r, ReadFile(Trusted(store.view), content, metadata, pool.Entries()))
  {
    hide ResolveFile, BlobStore.Valid, Trusted, Blobs.IsChecksum, DataPool.Entries, DataPool.Valid, Get;
    TrustedCodec(store.view);
    var data := RestoreFile(store, content, pool);
    if data == None {
      return None;
    }
    var checksum := Get(metadata, 0);
    if checksum.Some? {
      var item := checksum.value;
      if !item.ByteString? || !Blobs.IsChecksum(item.data) || !Blobs.Verifies(store.view.codec, item.data, data.value) {
        return None;
      }
    }
    r := data;
  }
}
