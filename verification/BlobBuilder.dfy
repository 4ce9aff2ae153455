/** The pool writer: stored bytes, logical entries, and table pages. */
module BlobBuilder {
  import opened Binary
  import opened Cbor
  import opened CborValues
  import opened Ranges
  import opened Blobs

  // ---------- Encoding one value ----------

  /** The compressed form if it saves bytes even after its longer descriptor, else the bytes as they are. */
  function EncodeBytes(codec: Codec, content: bytes): (bytes, Encoding) {
    var stored := codec.compress(content);
    var compressed := Encoding(|stored|, [Filter(|content|, ZSTD, EMPTY_MAP)]);
    var plain := Encoding(|content|, []);
    if |stored| + |EncodingBytes(compressed)| < |content| + |EncodingBytes(plain)| then (stored, compressed) else (content, plain)
  }

  // ---------- The builder's state ----------

  /** What has been pushed: the section's data behind its magic, and one entry for each index. */
  datatype Builder = Builder(data: bytes, entries: seq<Entry>)

  const EMPTY_BUILDER := Builder([], [])

  function Pushed(b: Builder, codec: Codec, content: bytes): Builder {
    var (stored, encoding) := EncodeBytes(codec, content);
    Builder(b.data + stored, b.entries + [Stored(|b.data|, encoding)])
  }

  /** An extent names existing decoded bytes of a Stored entry. */
  predicate Allowed(entries: seq<Entry>, extent: Extent) {
    && extent.source < |entries|
    && entries[extent.source].Stored?
    && extent.length > 0
    && extent.offset + extent.length <= entries[extent.source].encoding.DecodedSize()
  }

  predicate AllAllowed(entries: seq<Entry>, extents: seq<Extent>) {
    forall i :: 0 <= i < |extents| ==> Allowed(entries, extents[i])
  }

  function PushedExtents(b: Builder, extents: seq<Extent>): Option<Builder> {
    if extents == [] || !AllAllowed(b.entries, extents) then None
    else Some(Builder(b.data, b.entries + [Extents(extents)]))
  }

  // ---------- What the builder stands for ----------

  /** The concatenation of the slices that extents name. */
  function Slices(contents: seq<bytes>, extents: seq<Extent>): bytes {
    if extents == [] then []
    else
      var extent := extents[0];
      (if extent.source < |contents| && extent.offset + extent.length <= |contents[extent.source]|
       then contents[extent.source][extent.offset..extent.offset + extent.length] else [])
      + Slices(contents, extents[1..])
  }

  /** The stored bytes of an entry are the encoding of a content. */
  ghost predicate Holding(data: bytes, codec: Codec, offset: nat, encoding: Encoding, content: bytes) {
    && offset + encoding.storedSize <= |data|
    && EncodeBytes(codec, content) == (data[offset..offset + encoding.storedSize], encoding)
  }

  ghost predicate EntryMeans(b: Builder, codec: Codec, entry: Entry, contents: seq<bytes>, content: bytes) {
    match entry
    case Stored(offset, encoding) => Holding(b.data, codec, offset, encoding, content)
    case Extents(extents) => extents != [] && AllAllowed(b.entries, extents) && content == Slices(contents, extents)
    case Unknown(_) => false
  }

  /** Entry `i` stands for `contents[i]`, and stored bytes do not overlap. */
  ghost predicate Represents(b: Builder, codec: Codec, contents: seq<bytes>) {
    && |b.entries| == |contents|
    && (forall i :: 0 <= i < |contents| ==> EntryMeans(b, codec, b.entries[i], contents, contents[i]))
    && Sound(StoredRanges(b.entries), |b.data|)
  }

  // ---------- Writing the table ----------

  function PageTable(entries: seq<Entry>): bytes
    requires Known(entries)
  {
    if entries == [] then [] else EntryBytes(entries[0]) + PageTable(entries[1..])
  }

  predicate Known(entries: seq<Entry>) {
    forall i :: 0 <= i < |entries| ==> !entries[i].Unknown?
  }

  function Min(a: nat, b: nat): nat {
    if a < b then a else b
  }

  function PageFor(codec: Codec, offset: nat, table: bytes): PageInfo {
    PageInfo(offset, EncodeBytes(codec, table).1, Some([SHA256] + codec.digest(SHA256, table)))
  }

  /** The stored bytes with every page after them, and the page descriptors. */
  function WritePages(data: bytes, entries: seq<Entry>, size: nat, codec: Codec): (bytes, seq<PageInfo>)
    requires size > 0 && Known(entries)
    decreases |entries|
  {
    if entries == [] then (data, [])
    else
      var count := Min(size, |entries|);
      var table := PageTable(entries[..count]);
      var (rest, pages) := WritePages(data + EncodeBytes(codec, table).0, entries[count..], size, codec);
      (rest, [PageFor(codec, |data|, table)] + pages)
  }

  lemma WritePagesUnfold(data: bytes, entries: seq<Entry>, size: nat, codec: Codec)
    requires size > 0 && entries != [] && Known(entries)
    ensures
      var count := Min(size, |entries|);
      var table := PageTable(entries[..count]);
      var next := WritePages(data + EncodeBytes(codec, table).0, entries[count..], size, codec);
      WritePages(data, entries, size, codec) == (next.0, [PageFor(codec, |data|, table)] + next.1)
  {
    hide PageTable, EncodeBytes, PageFor;
  }

  function PageItem(page: PageInfo): Item {
    Array([Unsigned(Count(page.offset)), ByteString(EncodingBytes(page.encoding))]
          + if page.checksum.Some? then [ByteString(page.checksum.value)] else [])
  }

  function PageItems(pages: seq<PageInfo>): (r: seq<Item>)
    ensures |r| == |pages|
  {
    if pages == [] then [] else [PageItem(pages[0])] + PageItems(pages[1..])
  }

  function TypeInfo(count: nat, shift: u64, pages: seq<PageInfo>): Option<Item> {
    MapOf([Pair(Unsigned(0), Unsigned(Count(count))), Pair(Unsigned(1), Unsigned(shift)),
           Pair(Unsigned(2), Array(PageItems(pages)))])
  }

  /** A finished section: its bytes with the magic, and its directory. */
  datatype Built = Built(data: bytes, typeInfo: Item)

  function Finished(b: Builder, codec: Codec, shift: u64): Option<Built> {
    if !(8 <= shift <= 12) || !Known(b.entries) then None
    else
      var (data, pages) := WritePages(b.data, b.entries, PageSize(shift), codec);
      match TypeInfo(|b.entries|, shift, pages)
      case None => None
      case Some(info) => Some(Built(BLOB_MAGIC + data, info))
  }

  // ---------- The builder keeps its meaning ----------

  /** Digests have the length of their algorithm. */
  ghost predicate DigestsFit(codec: Codec) {
    forall algorithm: byte, content: bytes :: DigestLength(algorithm).Some? ==>
      |codec.digest(algorithm, content)| == DigestLength(algorithm).value
  }

  /** Within the limits, every content decodes from the codec's own output, in the window that the limits allow. */
  ghost predicate Faithful(codec: Codec, limits: Limits) {
    && (forall content: bytes :: limits.Bytes(|content|) ==>
          codec.decompress(codec.compress(content), [], |content|, WindowLog(limits)) == Some(content))
    && DigestsFit(codec)
  }

  lemma FaithfulDigests(codec: Codec, limits: Limits)
    requires Faithful(codec, limits)
    ensures DigestsFit(codec)
  {
  }

  lemma StoredRangesAppend(entries: seq<Entry>, entry: Entry)
    ensures StoredRanges(entries + [entry]) == StoredRanges(entries) + PlaceOf(entry)
  {
    if entries == [] {
      assert StoredRanges([entry]) == PlaceOf(entry) + StoredRanges([]);
    } else {
      assert (entries + [entry])[1..] == entries[1..] + [entry];
    }
  }

  lemma SoundAppend(ranges: seq<Range>, size: nat, length: nat)
    requires Sound(ranges, size)
    ensures Sound(ranges + [Range(size, length)], size + length)
    ensures Sound(ranges, size + length)
  {
  }

  lemma AllowedLater(entries: seq<Entry>, entry: Entry, extents: seq<Extent>)
    requires AllAllowed(entries, extents)
    ensures AllAllowed(entries + [entry], extents)
  {
    forall i | 0 <= i < |extents| ensures Allowed(entries + [entry], extents[i]) {
      assert Allowed(entries, extents[i]);
    }
  }

  lemma SlicesLater(contents: seq<bytes>, content: bytes, extents: seq<Extent>, entries: seq<Entry>)
    requires |entries| <= |contents| && AllAllowed(entries, extents)
    ensures Slices(contents + [content], extents) == Slices(contents, extents)
    decreases |extents|
  {
    if extents != [] {
      assert Allowed(entries, extents[0]);
      forall i | 0 <= i < |extents[1..]| ensures Allowed(entries, extents[1..][i]) {
        assert Allowed(entries, extents[i + 1]);
      }
      SlicesLater(contents, content, extents[1..], entries);
    }
  }

  lemma EntryMeansLater(b: Builder, later: Builder, codec: Codec, entry: Entry, contents: seq<bytes>, content: bytes,
                        added: Entry, more: bytes)
    requires EntryMeans(b, codec, entry, contents, content) && |b.entries| == |contents|
    requires |b.data| <= |later.data| && later.data[..|b.data|] == b.data && later.entries == b.entries + [added]
    ensures EntryMeans(later, codec, entry, contents + [more], content)
  {
    match entry
    case Stored(offset, encoding) =>
      PrefixSlice(b.data, later.data, offset, offset + encoding.storedSize);
    case Extents(extents) =>
      AllowedLater(b.entries, added, extents);
      SlicesLater(contents, more, extents, b.entries);
    case Unknown(_) =>
  }

  /** Pushing bytes adds exactly that content and changes no other. */
  lemma PushRepresents(b: Builder, codec: Codec, contents: seq<bytes>, content: bytes)
    requires Represents(b, codec, contents)
    ensures Represents(Pushed(b, codec, content), codec, contents + [content])
  {
    hide Sound, EntryMeans, StoredRanges;
    var later := Pushed(b, codec, content);
    var added := later.entries[|b.entries|];
    assert later.data[..|b.data|] == b.data;
    forall i | 0 <= i <= |contents|
      ensures EntryMeans(later, codec, later.entries[i], contents + [content], (contents + [content])[i])
    {
      if i < |contents| {
        EntryMeansLater(b, later, codec, b.entries[i], contents, contents[i], added, content);
      } else {
        NewEntryMeans(b, codec, contents, content);
      }
    }
    StoredRangesAppend(b.entries, added);
    SoundAppend(StoredRanges(b.entries), |b.data|, added.encoding.storedSize);
    assert |later.data| == |b.data| + added.encoding.storedSize by { hide EncodingBytes; }
  }

  lemma NewEntryMeans(b: Builder, codec: Codec, contents: seq<bytes>, content: bytes)
    ensures var later := Pushed(b, codec, content);
            EntryMeans(later, codec, later.entries[|b.entries|], contents + [content], content)
  {
    hide EncodingBytes;
    var (stored, encoding) := EncodeBytes(codec, content);
    assert (b.data + stored)[|b.data|..|b.data| + |stored|] == stored;
  }

  /** Pushing extents adds the concatenation of the slices they name. */
  lemma PushExtentsRepresents(b: Builder, codec: Codec, contents: seq<bytes>, extents: seq<Extent>)
    requires Represents(b, codec, contents) && PushedExtents(b, extents).Some?
    ensures Represents(PushedExtents(b, extents).value, codec, contents + [Slices(contents, extents)])
  {
    hide Sound, EntryMeans, StoredRanges, AllAllowed;
    var later := PushedExtents(b, extents).value;
    var added, content := Extents(extents), Slices(contents, extents);
    assert later.data[..|b.data|] == b.data;
    forall i | 0 <= i <= |contents|
      ensures EntryMeans(later, codec, later.entries[i], contents + [content], (contents + [content])[i])
    {
      if i < |contents| {
        EntryMeansLater(b, later, codec, b.entries[i], contents, contents[i], added, content);
      } else {
        AllowedLater(b.entries, added, extents);
        SlicesLater(contents, content, extents, b.entries);
        ExtentsMean(later, codec, extents, contents + [content]);
      }
    }
    StoredRangesAppend(b.entries, added);
    assert StoredRanges(b.entries) + [] == StoredRanges(b.entries);
  }

  lemma ExtentsMean(b: Builder, codec: Codec, extents: seq<Extent>, contents: seq<bytes>)
    requires extents != [] && AllAllowed(b.entries, extents)
    ensures EntryMeans(b, codec, Extents(extents), contents, Slices(contents, extents))
  {
  }

  // ---------- The writer ----------

  class PoolBuilder {
    const codec: Codec
    var data: bytes
    var entries: seq<Entry>
    ghost var contents: seq<bytes>

    ghost predicate Valid()
      reads this
    {
      Represents(State(), codec, contents)
    }

    ghost function State(): Builder
      reads this
    {
      Builder(data, entries)
    }

    constructor (codec: Codec)
      ensures Valid() && State() == EMPTY_BUILDER && contents == [] && this.codec == codec
    {
      this.codec, data, entries, contents := codec, [], [], [];
    }

    /** Stores one blob, compressed only when that is smaller. */
    method Push(content: bytes) returns (index: nat)
      requires Valid()
      modifies this
      ensures Valid() && State() == Pushed(old(State()), codec, content)
      ensures contents == old(contents) + [content] && index == |old(contents)|
    {
      hide Represents, EncodingBytes;
      PushRepresents(State(), codec, contents, content);
      assert |entries| == |contents| by { EntriesMatch(State(), codec, contents); }
      var (stored, encoding) := EncodeBytes(codec, content);
      index := |entries|;
      var offset := |data|;
      data := data + stored;
      entries := entries + [Stored(offset, encoding)];
      contents := contents + [content];
    }

    /** Gives the next index to slices of contents pushed earlier; a refusal leaves the builder alone. */
    method PushExtents(extents: seq<Extent>) returns (index: Option<nat>)
      requires Valid()
      modifies this
      ensures Valid() && index.Some? == PushedExtents(old(State()), extents).Some?
      ensures index == None ==> State() == old(State()) && contents == old(contents)
      ensures index.Some? ==> index.value == |old(contents)| && State() == PushedExtents(old(State()), extents).value
      ensures index.Some? ==> contents == old(contents) + [Slices(old(contents), extents)]
    {
      hide Represents, Slices;
      if extents == [] {
        return None;
      }
      for i := 0 to |extents|
        invariant Valid() && State() == old(State()) && contents == old(contents)
        invariant forall j :: 0 <= j < i ==> Allowed(entries, extents[j])
      {
        if !Allowed(entries, extents[i]) {
          return None;
        }
      }
      PushExtentsRepresents(State(), codec, contents, extents);
      assert |entries| == |contents| by { EntriesMatch(State(), codec, contents); }
      index := Some(|entries|);
      entries := entries + [Extents(extents)];
      contents := contents + [Slices(contents, extents)];
    }

    /** Encodes table pages with the selected shift. */
    method Finish(shift: u64) returns (r: Option<Built>)
      requires Valid()
      ensures r == Finished(State(), codec, shift)
    {
      hide Represents, TypeInfo, WritePages;
      if !(8 <= shift <= 12) {
        return None;
      }
      EntriesMatch(State(), codec, contents);
      var output, pages := WriteTable(data, entries, PageSize(shift), codec);
      var info := TypeInfo(|entries|, shift, pages);
      r := if info == None then None else Some(Built(BLOB_MAGIC + output, info.value));
    }
  }

  method WriteTable(data: bytes, entries: seq<Entry>, size: nat, codec: Codec) returns (output: bytes, pages: seq<PageInfo>)
    requires size > 0 && Known(entries)
    ensures (output, pages) == WritePages(data, entries, size, codec)
  {
    hide PageTable, EncodeBytes, PageFor;
    ghost var whole := WritePages(data, entries, size, codec);
    var start := 0;
    output, pages := data, [];
    assert entries[0..] == entries && [] + whole.1 == whole.1;
    while start < |entries|
      invariant start <= |entries|
      invariant whole.0 == WritePages(output, entries[start..], size, codec).0
      invariant whole.1 == pages + WritePages(output, entries[start..], size, codec).1
      decreases |entries| - start
    {
      var count := Min(size, |entries| - start);
      var table := PageTable(entries[start..start + count]);
      WritePagesStep(output, entries, start, size, codec);
      pages := pages + [PageFor(codec, |output|, table)];
      output := output + EncodeBytes(codec, table).0;
      start := start + count;
    }
    assert entries[start..] == [] && pages + [] == pages;
  }

  lemma EntriesMatch(b: Builder, codec: Codec, contents: seq<bytes>)
    requires Represents(b, codec, contents)
    ensures |b.entries| == |contents| && Known(b.entries)
  {
    forall i | 0 <= i < |b.entries| ensures !b.entries[i].Unknown? {
      assert EntryMeans(b, codec, b.entries[i], contents, contents[i]);
    }
  }

  lemma WritePagesStep(data: bytes, entries: seq<Entry>, start: nat, size: nat, codec: Codec)
    requires size > 0 && start < |entries| && Known(entries)
    ensures
      var count := Min(size, |entries| - start);
      var table := PageTable(entries[start..start + count]);
      var here := WritePages(data, entries[start..], size, codec);
      var next := WritePages(data + EncodeBytes(codec, table).0, entries[start + count..], size, codec);
      here == (next.0, [PageFor(codec, |data|, table)] + next.1)
  {
    hide PageTable, EncodeBytes, PageFor, WritePages;
    var count := Min(size, |entries| - start);
    WritePagesUnfold(data, entries[start..], size, codec);
    assert entries[start..][..count] == entries[start..start + count];
    assert entries[start..][count..] == entries[start + count..];
  }
}
