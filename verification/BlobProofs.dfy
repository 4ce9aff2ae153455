/** Finished pools read back: every entry, every content, and no overlap. */
module BlobProofs {
  import opened Binary
  import opened Cbor
  import opened CborValues
  import opened Ranges
  import opened Blobs
  import opened BlobBuilder

  // ---------- Descriptors ----------

  ghost predicate ValidFilter(filter: Filter, limits: Limits) {
    && filter.inputSize < U64_LIMIT
    && Supported(filter)
    && Valid(filter.properties, 0, limits)
    && limits.Bytes(|SizedBody(filter.properties)|)
  }

  ghost predicate ValidEncoding(encoding: Encoding, limits: Limits) {
    && encoding.storedSize < U64_LIMIT
    && limits.Elements(|encoding.filters|)
    && forall i :: 0 <= i < |encoding.filters| ==> ValidFilter(encoding.filters[i], limits)
  }

  lemma FilterRoundTrip(s: bytes, pos: nat, filter: Filter, limits: Limits)
    requires ValidFilter(filter, limits) && At(s, pos, FilterBytes(filter))
    ensures FilterAt(s, pos, limits) == Got(filter, pos + |FilterBytes(filter)|)
  {
    hide At, Vuint, VuintAt, EncodeSized, SizedItemAt, Supported, Valid, SizedBody;
    var head, tail := Vuint(filter.inputSize), [filter.kind] + EncodeSized(filter.properties);
    assert FilterBytes(filter) == head + tail;
    AtConcat(s, pos, head, tail);
    AtConcat(s, pos + |head|, [filter.kind], EncodeSized(filter.properties));
    VuintRoundTrip(s, pos, filter.inputSize);
    AtByte(s, pos + |head|, filter.kind);
    SizedItemRoundTrip(s, pos + |head| + 1, filter.properties, limits);
  }

  lemma AtByte(s: bytes, pos: nat, b: byte)
    requires At(s, pos, [b])
    ensures pos < |s| && s[pos] == b
  {
    assert s[pos..pos + 1][0] == b;
  }

  lemma {:induction false} FiltersRoundTrip(s: bytes, pos: nat, filters: seq<Filter>, limits: Limits)
    requires forall i :: 0 <= i < |filters| ==> ValidFilter(filters[i], limits)
    requires At(s, pos, FiltersBytes(filters))
    ensures FiltersAt(s, pos, |filters|, limits) == Got(filters, pos + |FiltersBytes(filters)|)
    decreases |filters|
  {
    hide At, ValidFilter, FilterAt, FilterBytes;
    if filters != [] {
      AtConcat(s, pos, FilterBytes(filters[0]), FiltersBytes(filters[1..]));
      FilterRoundTrip(s, pos, filters[0], limits);
      FiltersRoundTrip(s, pos + |FilterBytes(filters[0])|, filters[1..], limits);
      assert filters == [filters[0]] + filters[1..];
    }
  }

  /** Any supported descriptor, dictionaries included, reads back. */
  lemma EncodingRoundTrip(s: bytes, pos: nat, encoding: Encoding, limits: Limits)
    requires ValidEncoding(encoding, limits) && At(s, pos, EncodingBytes(encoding))
    ensures EncodingAt(s, pos, limits) == Got(encoding, pos + |EncodingBytes(encoding)|)
  {
    hide At, Vuint, VuintAt, FiltersBytes, FiltersAt, ValidFilter;
    var a, b := Vuint(encoding.storedSize), Vuint(|encoding.filters|);
    AtConcat(s, pos, a + b, FiltersBytes(encoding.filters));
    AtConcat(s, pos, a, b);
    VuintRoundTrip(s, pos, encoding.storedSize);
    VuintRoundTrip(s, pos + |a|, |encoding.filters|);
    FiltersRoundTrip(s, pos + |a| + |b|, encoding.filters, limits);
  }

  // ---------- Table entries ----------

  ghost predicate ValidExtent(extent: Extent) {
    extent.source < U64_LIMIT && extent.offset < U64_LIMIT && 0 < extent.length < U64_LIMIT
  }

  ghost predicate ValidEntry(entry: Entry, limits: Limits) {
    match entry
    case Stored(offset, encoding) => offset < U64_LIMIT && ValidEncoding(encoding, limits)
    case Extents(extents) =>
      extents != [] && limits.Elements(|extents|) && forall i :: 0 <= i < |extents| ==> ValidExtent(extents[i])
    case Unknown(_) => false
  }

  lemma ExtentRoundTrip(s: bytes, pos: nat, extent: Extent)
    requires ValidExtent(extent) && At(s, pos, ExtentBytes(extent))
    ensures ExtentAt(s, pos) == Got(extent, pos + |ExtentBytes(extent)|)
  {
    hide At, Vuint, VuintAt;
    var a, b, c := Vuint(extent.source), Vuint(extent.offset), Vuint(extent.length);
    AtConcat(s, pos, a + b, c);
    AtConcat(s, pos, a, b);
    VuintRoundTrip(s, pos, extent.source);
    VuintRoundTrip(s, pos + |a|, extent.offset);
    VuintRoundTrip(s, pos + |a| + |b|, extent.length);
  }

  lemma {:induction false} ExtentsRoundTrip(s: bytes, pos: nat, extents: seq<Extent>)
    requires forall i :: 0 <= i < |extents| ==> ValidExtent(extents[i])
    requires At(s, pos, ExtentsBytes(extents))
    ensures ExtentsAt(s, pos, |extents|) == Got(extents, pos + |ExtentsBytes(extents)|)
    decreases |extents|
  {
    hide At, ValidExtent, ExtentAt, ExtentBytes;
    if extents != [] {
      AtConcat(s, pos, ExtentBytes(extents[0]), ExtentsBytes(extents[1..]));
      ExtentRoundTrip(s, pos, extents[0]);
      ExtentsRoundTrip(s, pos + |ExtentBytes(extents[0])|, extents[1..]);
      assert extents == [extents[0]] + extents[1..];
    }
  }

  lemma EntryRoundTrip(s: bytes, pos: nat, entry: Entry, limits: Limits)
    requires ValidEntry(entry, limits) && At(s, pos, EntryBytes(entry)) && limits.Bytes(|s|)
    ensures EntryAt(s, pos, limits) == Got(entry, pos + |EntryBytes(entry)|)
  {
    hide At, Vuint, VuintAt, Sized, SizedAt, EncodingAt, ExtentsAt, EncodingBytes, ExtentsBytes, ValidEncoding, ValidExtent;
    match entry
    case Stored(offset, encoding) =>
      var payload := Vuint(offset) + EncodingBytes(encoding);
      AtConcat(s, pos, [0], Sized(payload));
      AtByte(s, pos, 0);
      SizedRoundTrip(s, pos + 1, payload, limits);
      AtSelf(payload);
      AtConcat(payload, 0, Vuint(offset), EncodingBytes(encoding));
      VuintRoundTrip(payload, 0, offset);
      EncodingRoundTrip(payload, |Vuint(offset)|, encoding, limits);
    case Extents(extents) =>
      var payload := Vuint(|extents|) + ExtentsBytes(extents);
      AtConcat(s, pos, [1], Sized(payload));
      AtByte(s, pos, 1);
      SizedRoundTrip(s, pos + 1, payload, limits);
      AtSelf(payload);
      AtConcat(payload, 0, Vuint(|extents|), ExtentsBytes(extents));
      VuintRoundTrip(payload, 0, |extents|);
      ExtentsRoundTrip(payload, |Vuint(|extents|)|, extents);
  }

  /** A page's table reads back entry by entry. */
  lemma {:induction false} TableRoundTrip(s: bytes, pos: nat, entries: seq<Entry>, limits: Limits)
    requires Known(entries) && limits.Bytes(|s|)
    requires forall i :: 0 <= i < |entries| ==> ValidEntry(entries[i], limits)
    requires At(s, pos, PageTable(entries))
    ensures EntriesAt(s, pos, |entries|, limits) == Got(entries, pos + |PageTable(entries)|)
    decreases |entries|
  {
    hide At, ValidEntry, EntryAt, EntryBytes;
    if entries != [] {
      AtConcat(s, pos, EntryBytes(entries[0]), PageTable(entries[1..]));
      EntryRoundTrip(s, pos, entries[0], limits);
      TableRoundTrip(s, pos + |EntryBytes(entries[0])|, entries[1..], limits);
      assert entries == [entries[0]] + entries[1..];
    }
  }

  // ---------- Stored bytes ----------

  /** The stored form is never longer than the content, has at most one filter, and tells both lengths. */
  lemma EncodedFacts(codec: Codec, content: bytes)
    ensures var (stored, encoding) := EncodeBytes(codec, content);
            && encoding.storedSize == |stored| <= |content| && encoding.DecodedSize() == |content|
            && |encoding.filters| <= 1 && !encoding.HasDictionary()
  {
    hide Vuint;
    var (stored, encoding) := EncodeBytes(codec, content);
    if encoding.filters != [] {
      assert encoding.filters[0].Dictionary() == None;
    }
  }

  /** What the codec wrote, the reader decodes, whether or not dictionaries are allowed. */
  lemma StoredDecodes(view: View, content: bytes, inner: bool)
    requires Faithful(view.codec, view.limits) && view.limits.Bytes(|content|)
    ensures var (stored, encoding) := EncodeBytes(view.codec, content);
            && DecodePlain(view, stored, encoding.filters) == Some(content)
            && Decode(view, stored, encoding.filters, inner) == Some(content)
            && encoding.storedSize == |stored| <= |content| && encoding.DecodedSize() == |content| && !encoding.HasDictionary()
  {
    hide EncodingBytes, Resolve, WindowLog;
    var (stored, encoding) := EncodeBytes(view.codec, content);
    EncodedFacts(view.codec, content);
    if encoding.filters != [] {
      var filter := encoding.filters[0];
      assert encoding.filters[..0] == [];
      assert filter.Dictionary() == None;
      assert Decompress(view, stored, [], |content|) == Some(content);
      assert DecodePlain(view, content, []) == Some(content);
      assert Decode(view, content, [], inner) == Some(content);
    }
  }

  /** A reader takes the descriptor of any content that has a length, if it takes that many filters. */
  lemma EncodedIsValid(codec: Codec, content: bytes, limits: Limits)
    requires |content| < U64_LIMIT && limits.Elements(|EncodeBytes(codec, content).1.filters|)
    ensures ValidEncoding(EncodeBytes(codec, content).1, limits)
  {
    EncodedFacts(codec, content);
    hide EncodingBytes;
  }

  // ---------- Pages ----------

  ghost predicate PageHolds(data: bytes, page: PageInfo, codec: Codec, table: bytes) {
    && Holding(data, codec, page.offset, page.encoding, table)
    && page.checksum == Some([SHA256] + codec.digest(SHA256, table))
  }

  /** The pages hold the successive chunks of the entries. */
  ghost predicate PagesHold(data: bytes, pages: seq<PageInfo>, entries: seq<Entry>, size: nat, codec: Codec)
    requires size > 0 && Known(entries)
    decreases |entries|
  {
    if entries == [] then pages == []
    else
      && pages != []
      && PageHolds(data, pages[0], codec, PageTable(entries[..Min(size, |entries|)]))
      && PagesHold(data, pages[1..], entries[Min(size, |entries|)..], size, codec)
  }

  lemma HoldingLater(data: bytes, later: bytes, codec: Codec, offset: nat, encoding: Encoding, content: bytes)
    requires |data| <= |later| && later[..|data|] == data && Holding(data, codec, offset, encoding, content)
    ensures Holding(later, codec, offset, encoding, content)
  {
    PrefixSlice(data, later, offset, offset + encoding.storedSize);
  }

  lemma {:induction false} WrittenPagesHold(data: bytes, entries: seq<Entry>, size: nat, codec: Codec)
    requires size > 0 && Known(entries)
    ensures var (later, pages) := WritePages(data, entries, size, codec);
            && |data| <= |later| && later[..|data|] == data
            && PagesHold(later, pages, entries, size, codec)
    decreases |entries|
  {
    hide PageTable, EncodeBytes;
    if entries != [] {
      var count := Min(size, |entries|);
      var table := PageTable(entries[..count]);
      var (stored, encoding) := EncodeBytes(codec, table);
      var next := data + stored;
      var (later, pages) := WritePages(next, entries[count..], size, codec);
      WrittenPagesHold(next, entries[count..], size, codec);
      assert later[..|data|] == later[..|next|][..|data|] == data;
      EncodedLength(codec, table);
      assert next[|data|..|data| + encoding.storedSize] == stored;
      HoldingLater(next, later, codec, |data|, encoding, table);
    }
  }

  lemma KnownPart(entries: seq<Entry>, count: nat)
    requires Known(entries) && count <= |entries|
    ensures Known(entries[..count]) && Known(entries[count..])
  {
  }

  lemma EncodedLength(codec: Codec, content: bytes)
    ensures EncodeBytes(codec, content).1.storedSize == |EncodeBytes(codec, content).0|
  {
    hide EncodingBytes;
  }

  /** Written pages follow one another, and follow everything stored before them. */
  lemma {:induction false} WrittenPagesAreSound(data: bytes, entries: seq<Entry>, size: nat, codec: Codec, before: seq<Range>)
    requires size > 0 && Known(entries) && Sound(before, |data|)
    ensures var (later, pages) := WritePages(data, entries, size, codec);
            Sound(before + Places(pages), |later|)
    decreases |entries|
  {
    hide PageTable, EncodeBytes, Sound, Known;
    var (later, pages) := WritePages(data, entries, size, codec);
    if entries == [] {
      assert before + [] == before;
    } else {
      hide WritePages;
      var count := Min(size, |entries|);
      KnownPart(entries, count);
      WritePagesUnfold(data, entries, size, codec);
      var table := PageTable(entries[..count]);
      var (stored, encoding) := EncodeBytes(codec, table);
      EncodedLength(codec, table);
      SoundAppend(before, |data|, |stored|);
      WrittenPagesAreSound(data + stored, entries[count..], size, codec, before + [Range(|data|, |stored|)]);
      assert before + [Range(|data|, |stored|)] + Places(pages[1..]) == before + Places(pages);
    }
  }

  /** `k` times `size`, by repeated addition. */
  function Times(k: nat, size: nat): nat {
    if k == 0 then 0 else Times(k - 1, size) + size
  }

  lemma {:induction false} TimesIsPageStart(k: nat, shift: u64)
    ensures Times(k, PageSize(shift)) == PageStart(k, shift)
    decreases k
  {
    if k > 0 {
      TimesIsPageStart(k - 1, shift);
    }
  }

  /** The chunk of entries that page `k` lists. */
  function Chunk(entries: seq<Entry>, size: nat, k: nat): (r: seq<Entry>)
    requires Times(k, size) <= |entries|
  {
    entries[Times(k, size)..Min(Times(k, size) + size, |entries|)]
  }

  lemma DropThenSlice<T>(s: seq<T>, drop: nat, from: nat, to: nat)
    requires drop + to <= |s| && from <= to
    ensures s[drop..][from..to] == s[drop + from..drop + to]
  {
  }

  lemma ChunkStep(entries: seq<Entry>, size: nat, k: nat)
    requires 0 < k && size <= |entries| && Times(k - 1, size) <= |entries| - size
    ensures Chunk(entries[size..], size, k - 1) == Chunk(entries, size, k)
  {
    var from := Times(k - 1, size);
    DropThenSlice(entries, size, from, Min(from + size, |entries| - size));
  }

  lemma {:induction false} PageListsChunk(data: bytes, pages: seq<PageInfo>, entries: seq<Entry>, size: nat, codec: Codec, k: nat)
    requires size > 0 && Known(entries) && PagesHold(data, pages, entries, size, codec) && k < |pages|
    ensures Times(k, size) < |entries|
    ensures PageHolds(data, pages[k], codec, PageTable(Chunk(entries, size, k)))
    decreases k
  {
    hide PageTable, PageHolds;
    if k > 0 {
      PageListsChunk(data, pages[1..], entries[Min(size, |entries|)..], size, codec, k - 1);
      ChunkStep(entries, size, k);
    }
  }

  lemma {:induction false} PagesCount(data: bytes, pages: seq<PageInfo>, entries: seq<Entry>, size: nat, codec: Codec)
    requires size > 0 && Known(entries) && PagesHold(data, pages, entries, size, codec)
    ensures |entries| <= Times(|pages|, size)
    ensures |pages| > 0 ==> Times(|pages| - 1, size) < |entries|
    decreases |entries|
  {
    hide PageHolds, PageTable;
    if entries != [] {
      PagesCount(data, pages[1..], entries[Min(size, |entries|)..], size, codec);
    }
  }

  // ---------- A finished pool in a container ----------

  ghost function PagesOfPool(b: Builder, codec: Codec, shift: u64): (bytes, seq<PageInfo>) {
    if Known(b.entries) then WritePages(b.data, b.entries, PageSize(shift), codec) else ([], [])
  }

  ghost function ChunkOf(b: Builder, shift: u64, k: nat): seq<Entry> {
    if Times(k, PageSize(shift)) <= |b.entries| then Chunk(b.entries, PageSize(shift), k) else []
  }

  ghost function TableOf(b: Builder, shift: u64, k: nat): bytes {
    if Known(ChunkOf(b, shift, k)) then PageTable(ChunkOf(b, shift, k)) else []
  }

  /**
   * A reader admits the table: each page on its own, and the counts that one page, descriptor or extent list
   * states. Lengths and indices have 64 bits. Neither the whole section nor the contents need to fit a limit.
   */
  ghost predicate AdmitsTable(limits: Limits, b: Builder, codec: Codec, shift: u64) {
    var (data, pages) := PagesOfPool(b, codec, shift);
    && |b.entries| < U64_LIMIT && |BLOB_MAGIC| + |data| < U64_LIMIT && limits.Elements(|pages|)
    && (forall i :: 0 <= i < |b.entries| ==> AdmitsEntry(limits, b.entries[i]))
    && (forall k :: 0 <= k < |pages| ==> AdmitsPage(limits, pages[k].encoding, TableOf(b, shift, k)))
  }

  ghost predicate AdmitsEntry(limits: Limits, entry: Entry) {
    match entry
    case Stored(_, encoding) => encoding.DecodedSize() < U64_LIMIT && limits.Elements(|encoding.filters|)
    case Extents(extents) => limits.Elements(|extents|)
    case Unknown(_) => true
  }

  ghost predicate AdmitsPage(limits: Limits, encoding: Encoding, table: bytes) {
    limits.Elements(|encoding.filters|) && limits.Bytes(|EncodingBytes(encoding)|) && limits.Bytes(|table|)
  }

  /** A reader admits one content, and whatever it has to decode for it. */
  ghost predicate AdmitsContent(limits: Limits, b: Builder, contents: seq<bytes>, i: nat) {
    && i < |contents| && limits.Bytes(|contents[i]|)
    && (i < |b.entries| && b.entries[i].Extents? ==> AdmitsSources(limits, contents, b.entries[i].extents))
  }

  ghost predicate AdmitsSources(limits: Limits, contents: seq<bytes>, extents: seq<Extent>) {
    forall j :: 0 <= j < |extents| && extents[j].source < |contents| ==> limits.Bytes(|contents[extents[j].source]|)
  }

  /** Section `id` is the finished pool of a builder that stands for `contents`. */
  ghost predicate Published(view: View, id: u64, b: Builder, contents: seq<bytes>, shift: u64) {
    && Faithful(view.codec, view.limits)
    && Represents(b, view.codec, contents)
    && AdmitsTable(view.limits, b, view.codec, shift)
    && id in view.sections
    && Finished(b, view.codec, shift).Some?
    && var built := Finished(b, view.codec, shift).value;
       view.sections[id] == Section(BLOB_POOL, Some(built.typeInfo), built.data)
  }

  /** What a published pool gives its proofs, without the definitions behind it. */
  lemma PublishedBasics(view: View, id: u64, b: Builder, contents: seq<bytes>, shift: u64)
    requires Published(view, id, b, contents, shift)
    ensures Known(b.entries) && |contents| == |b.entries| && 8 <= shift <= 12 && id in view.sections
    ensures var (data, pages) := PagesOfPool(b, view.codec, shift);
            && PagesHold(data, pages, b.entries, PageSize(shift), view.codec)
            && |b.data| <= |data| && data[..|b.data|] == b.data
            && |pages| == PageCount(|b.entries|, shift) && |pages| <= |b.entries|
            && view.sections[id].data == BLOB_MAGIC + data
            && TypeInfo(|b.entries|, shift, pages).Some?
            && view.sections[id].typeInfo == TypeInfo(|b.entries|, shift, pages)
            && view.sections[id].kind == BLOB_POOL
            && 8 + |data| < U64_LIMIT && view.limits.Elements(|pages|)
  {
    hide PageTable, WritePages, Faithful, TypeInfo, PagesHold, EntryMeans, Sound, EncodeBytes;
    EntriesMatch(b, view.codec, contents);
    var (data, pages) := PagesOfPool(b, view.codec, shift);
    WrittenPagesHold(b.data, b.entries, PageSize(shift), view.codec);
    PagesCount(data, pages, b.entries, PageSize(shift), view.codec);
    PagesCountDivides(|pages|, |b.entries|, shift);
  }

  lemma TypeInfoFields(count: nat, shift: u64, pages: seq<PageInfo>)
    requires TypeInfo(count, shift, pages).Some?
    ensures var info := TypeInfo(count, shift, pages).value;
            && Get(info, 0) == Some(Unsigned(Count(count)))
            && Get(info, 1) == Some(Unsigned(shift))
            && Get(info, 2) == Some(Array(PageItems(pages)))
  {
    hide MapOf, Get, PageItems;
    var fields := [Pair(Unsigned(0), Unsigned(Count(count))), Pair(Unsigned(1), Unsigned(shift)),
                   Pair(Unsigned(2), Array(PageItems(pages)))];
    assert fields[0] in fields && fields[1] in fields && fields[2] in fields;
    MapOfGet(fields, 0);
    MapOfGet(fields, 1);
    MapOfGet(fields, 2);
  }

  ghost predicate ValidPage(page: PageInfo, limits: Limits) {
    && page.offset < U64_LIMIT
    && ValidEncoding(page.encoding, limits)
    && !page.encoding.HasDictionary()
    && limits.Bytes(|EncodingBytes(page.encoding)|)
    && (page.checksum.Some? ==> IsChecksum(page.checksum.value))
  }

  lemma PageItemRoundTrip(page: PageInfo, limits: Limits)
    requires ValidPage(page, limits)
    ensures PageOf(PageItem(page), limits) == Some(page)
  {
    hide EncodingBytes, EncodingAt, ValidEncoding;
    AtSelf(EncodingBytes(page.encoding));
    EncodingRoundTrip(EncodingBytes(page.encoding), 0, page.encoding, limits);
  }

  lemma {:induction false} PageItemsRoundTrip(pages: seq<PageInfo>, limits: Limits)
    requires forall k :: 0 <= k < |pages| ==> ValidPage(pages[k], limits)
    ensures PagesOf(PageItems(pages), limits) == Some(pages)
    decreases |pages|
  {
    hide PageOf, PageItem, ValidPage, PagesOf;
    if pages != [] {
      PageItemRoundTrip(pages[0], limits);
      PageItemsRoundTrip(pages[1..], limits);
      assert PageItems(pages)[0] == PageItem(pages[0]) && PageItems(pages)[1..] == PageItems(pages[1..]);
      PagesFront(PageItems(pages), limits, pages[0], pages[1..]);
      assert pages == [pages[0]] + pages[1..];
    } else {
      NoPages(limits);
    }
  }

  lemma PagesFront(items: seq<Item>, limits: Limits, first: PageInfo, rest: seq<PageInfo>)
    requires items != [] && PageOf(items[0], limits) == Some(first) && PagesOf(items[1..], limits) == Some(rest)
    ensures PagesOf(items, limits) == Some([first] + rest)
  {
    hide PageOf;
  }

  lemma NoPages(limits: Limits)
    ensures PagesOf([], limits) == Some([])
  {
  }

  lemma PublishedPageIsValid(view: View, id: u64, b: Builder, contents: seq<bytes>, shift: u64, k: nat)
    requires Published(view, id, b, contents, shift) && k < |PagesOfPool(b, view.codec, shift).1|
    ensures var (data, pages) := PagesOfPool(b, view.codec, shift);
            && Times(k, PageSize(shift)) < |b.entries|
            && ValidPage(pages[k], view.limits)
            && PageHolds(data, pages[k], view.codec, TableOf(b, shift, k))
            && Faithful(view.codec, view.limits)
            && view.limits.Bytes(|TableOf(b, shift, k)|)
            && view.limits.Bytes(pages[k].encoding.storedSize)
  {
    hide Represents, PageTable, EncodeBytes, WritePages, ValidEncoding, EncodingBytes, PagesHold, Finished, PagesOfPool, TypeInfo, TableOf,
         AdmitsEntry, PageHolds, DigestsFit, Faithful;
    PublishedBasics(view, id, b, contents, shift);
    var (data, pages) := PagesOfPool(b, view.codec, shift);
    var table := TableOf(b, shift, k);
    PageListsChunk(data, pages, b.entries, PageSize(shift), view.codec, k);
    TableIs(b, shift, k);
    assert AdmitsPage(view.limits, pages[k].encoding, table);
    PageFacts(data, pages[k], view.codec, table, view.limits);
  }

  lemma TableIs(b: Builder, shift: u64, k: nat)
    requires Known(b.entries) && Times(k, PageSize(shift)) <= |b.entries|
    ensures TableOf(b, shift, k) == PageTable(Chunk(b.entries, PageSize(shift), k))
  {
    hide PageTable;
    KnownChunk(b.entries, PageSize(shift), k);
  }

  lemma PageFacts(data: bytes, page: PageInfo, codec: Codec, table: bytes, limits: Limits)
    requires PageHolds(data, page, codec, table) && AdmitsPage(limits, page.encoding, table)
    requires Faithful(codec, limits) && |data| < U64_LIMIT
    ensures ValidPage(page, limits) && limits.Bytes(page.encoding.storedSize)
  {
    hide EncodeBytes, EncodingBytes, ValidEncoding, WindowLog, DigestsFit;
    EncodedFacts(codec, table);
    EncodedIsValid(codec, table, limits);
    ChecksumVerifies(codec, SHA256, table);
  }

  lemma ChecksumVerifies(codec: Codec, algorithm: byte, data: bytes)
    requires DigestsFit(codec) && DigestLength(algorithm).Some?
    ensures var checksum := [algorithm] + codec.digest(algorithm, data);
            IsChecksum(checksum) && Verifies(codec, checksum, data)
  {
    var checksum := [algorithm] + codec.digest(algorithm, data);
    assert checksum[1..] == codec.digest(algorithm, data);
  }

  /** The directory of a published pool describes exactly its entries and pages. */
  lemma PublishedDirectory(view: View, id: u64, b: Builder, contents: seq<bytes>, shift: u64)
    requires Published(view, id, b, contents, shift)
    ensures var (data, pages) := PagesOfPool(b, view.codec, shift);
            Directory(view, id) == Some(PoolInfo(|b.entries|, shift, |data|, pages))
  {
    hide Represents, PagesOfPool, Finished, TypeInfo, PagesOf, PageItems, ValidPage, Get, PagesHold, PageHolds, Faithful;
    PublishedBasics(view, id, b, contents, shift);
    var (data, pages) := PagesOfPool(b, view.codec, shift);
    TypeInfoFields(|b.entries|, shift, pages);
    forall k | 0 <= k < |pages| ensures ValidPage(pages[k], view.limits) {
      PublishedPageIsValid(view, id, b, contents, shift, k);
    }
    PageItemsRoundTrip(pages, view.limits);
  }

  lemma PagesCountDivides(pages: nat, count: nat, shift: u64)
    requires count <= Times(pages, PageSize(shift))
    requires pages > 0 ==> Times(pages - 1, PageSize(shift)) < count
    ensures pages == PageCount(count, shift) && pages <= count
  {
    TimesIsPageStart(pages, shift);
    if pages > 0 {
      TimesIsPageStart(pages - 1, shift);
    }
  }

  lemma PublishedEntryIsValid(view: View, id: u64, b: Builder, contents: seq<bytes>, shift: u64, i: nat)
    requires Published(view, id, b, contents, shift) && i < |b.entries|
    ensures ValidEntry(b.entries[i], view.limits)
  {
    hide EncodeBytes, PagesOfPool, ValidEncoding, EncodingBytes, Sound, StoredRanges, Finished, PagesHold, TypeInfo, Faithful, AdmitsPage, TableOf;
    PublishedBasics(view, id, b, contents, shift);
    assert EntryMeans(b, view.codec, b.entries[i], contents, contents[i]);
    assert AdmitsEntry(view.limits, b.entries[i]);
    match b.entries[i]
    case Stored(offset, encoding) =>
      EncodedFacts(view.codec, contents[i]);
      EncodedIsValid(view.codec, contents[i], view.limits);
    case Extents(extents) =>
      forall j | 0 <= j < |extents| ensures ValidExtent(extents[j]) {
        assert Allowed(b.entries, extents[j]);
        assert AdmitsEntry(view.limits, b.entries[extents[j].source]);
      }
    case Unknown(_) =>
  }

  /** The stored bytes of a page decode to its table, which matches its checksum. */
  ghost predicate TableReads(view: View, id: u64, page: PageInfo, table: bytes) {
    && (match ReadRange(view, id, 8 + page.offset, page.encoding.storedSize)
        case None => false
        case Some(stored) => DecodePlain(view, stored, page.encoding.filters) == Some(table))
    && (page.checksum.Some? ==> IsChecksum(page.checksum.value) && Verifies(view.codec, page.checksum.value, table))
    && view.limits.Bytes(|table|)
  }

  lemma PageReads(view: View, id: u64, info: PoolInfo, k: nat, table: bytes, entries: seq<Entry>)
    requires k < |info.pages| && TableReads(view, id, info.pages[k], table)
    requires EntriesAt(table, 0, EntriesOnPage(info, k), view.limits) == Got(entries, |table|)
    ensures PageEntries(view, id, info, k) == Some(entries)
  {
    hide EntriesAt, DecodePlain, IsChecksum, Verifies, ReadRange, EntriesOnPage;
  }

  lemma PublishedTable(view: View, id: u64, b: Builder, contents: seq<bytes>, shift: u64, k: nat)
    requires Published(view, id, b, contents, shift) && k < |PagesOfPool(b, view.codec, shift).1|
    ensures TableReads(view, id, PagesOfPool(b, view.codec, shift).1[k], TableOf(b, shift, k))
  {
    hide Published, PageTable, EncodeBytes, PagesOfPool, EncodingBytes, Faithful, ValidPage, DecodePlain, Known, PagesHold, TypeInfo, TableOf,
         IsChecksum, Verifies, ReadRange;
    PublishedBasics(view, id, b, contents, shift);
    PublishedPageIsValid(view, id, b, contents, shift, k);
    var (data, pages) := PagesOfPool(b, view.codec, shift);
    var table := TableOf(b, shift, k);
    ReadAfterMagic(view, id, data, pages[k].offset, pages[k].encoding.storedSize);
    StoredDecodes(view, table, true);
    FaithfulDigests(view.codec, view.limits);
    ChecksumVerifies(view.codec, SHA256, table);
  }

  /** The table of a page reads back to its chunk of the entries. */
  lemma PublishedChunk(view: View, id: u64, b: Builder, contents: seq<bytes>, shift: u64, k: nat)
    requires Published(view, id, b, contents, shift) && k < |PagesOfPool(b, view.codec, shift).1|
    ensures Times(k, PageSize(shift)) < |b.entries| && view.limits.Bytes(|TableOf(b, shift, k)|)
    ensures EntriesAt(TableOf(b, shift, k), 0, |ChunkOf(b, shift, k)|, view.limits) == Got(ChunkOf(b, shift, k), |TableOf(b, shift, k)|)
  {
    hide Published, PageTable, EncodeBytes, PagesOfPool, Faithful, ValidPage, EntriesAt, Known, PagesHold, TypeInfo, PageHolds, ValidEntry;
    PublishedBasics(view, id, b, contents, shift);
    PublishedPageIsValid(view, id, b, contents, shift, k);
    var chunk := ChunkOf(b, shift, k);
    KnownChunk(b.entries, PageSize(shift), k);
    var table := TableOf(b, shift, k);
    forall i | 0 <= i < |chunk| ensures ValidEntry(chunk[i], view.limits) {
      PublishedEntryIsValid(view, id, b, contents, shift, Times(k, PageSize(shift)) + i);
    }
    AtSelf(table);
    TableRoundTrip(table, 0, chunk, view.limits);
  }

  /** Each table page of a published pool decodes to its chunk of the entries. */
  lemma PublishedPage(view: View, id: u64, b: Builder, contents: seq<bytes>, shift: u64, k: nat)
    requires Published(view, id, b, contents, shift) && k < |PagesOfPool(b, view.codec, shift).1|
    ensures Times(k, PageSize(shift)) < |b.entries|
    ensures var (data, pages) := PagesOfPool(b, view.codec, shift);
            PageEntries(view, id, PoolInfo(|b.entries|, shift, |data|, pages), k) == Some(ChunkOf(b, shift, k))
  {
    hide Published, PagesOfPool, TableOf, ChunkOf, EntriesAt, TableReads, PageEntries, EntriesOnPage;
    PublishedTable(view, id, b, contents, shift, k);
    PublishedChunk(view, id, b, contents, shift, k);
    PublishedCount(view, id, b, contents, shift);
    var (data, pages) := PagesOfPool(b, view.codec, shift);
    var info := PoolInfo(|b.entries|, shift, |data|, pages);
    ChunkSize(b, info, k);
    PageReads(view, id, info, k, TableOf(b, shift, k), ChunkOf(b, shift, k));
  }

  /** A chunk holds as many entries as a reader expects on its page. */
  lemma ChunkSize(b: Builder, info: PoolInfo, k: nat)
    requires info.count == |b.entries| && Times(k, PageSize(info.shift)) < |b.entries|
    ensures |ChunkOf(b, info.shift, k)| == EntriesOnPage(info, k)
  {
    TimesIsPageStart(k, info.shift);
  }

  lemma KnownChunk(entries: seq<Entry>, size: nat, k: nat)
    requires Known(entries) && Times(k, size) <= |entries|
    ensures Known(Chunk(entries, size, k))
  {
  }

  lemma ReadAfterMagic(view: View, id: u64, data: bytes, offset: nat, length: nat)
    requires id in view.sections && view.sections[id].data == BLOB_MAGIC + data
    requires offset + length <= |data| && view.limits.Bytes(length)
    ensures ReadRange(view, id, 8 + offset, length) == Some(data[offset..offset + length])
  {
    assert (BLOB_MAGIC + data)[8 + offset..8 + offset + length] == data[offset..offset + length];
  }

  /** Every index of a published pool names the entry that was given that index. */
  lemma PublishedEntry(view: View, id: u64, b: Builder, contents: seq<bytes>, shift: u64, i: u64)
    requires Published(view, id, b, contents, shift) && i < |b.entries|
    ensures EntryOf(view, BlobRef(id, i)) == Some(b.entries[i])
  {
    hide Known, TypeInfo, PageEntries, Directory, Published, PagesOfPool, PagesHold;
    PublishedBasics(view, id, b, contents, shift);
    PublishedDirectory(view, id, b, contents, shift);
    var k := PageIndex(i, shift);
    PageIndexBounds(i, |b.entries|, shift);
    PublishedPage(view, id, b, contents, shift, k);
  }

  lemma PageIndexBounds(i: nat, count: nat, shift: u64)
    requires i < count
    ensures var k := PageIndex(i, shift);
            && k < PageCount(count, shift)
            && Times(k, PageSize(shift)) == PageStart(k, shift) <= i < PageStart(k, shift) + PageSize(shift)
  {
    TimesIsPageStart(PageIndex(i, shift), shift);
  }

  // ---------- Contents ----------

  lemma PublishedStored(view: View, id: u64, b: Builder, contents: seq<bytes>, shift: u64, i: u64, inner: bool)
    requires Published(view, id, b, contents, shift) && i < |b.entries| && b.entries[i].Stored?
    requires |contents| == |b.entries| && view.limits.Bytes(|contents[i]|)
    ensures Resolve(view, BlobRef(id, i), inner) == Some(contents[i])
  {
    hide PagesOfPool, TypeInfo, Known, Sound, EncodeBytes, EntryOf, Decode, DecodePlain, EncodingBytes, Faithful, Finished, PagesHold, AdmitsTable;
    PublishedBasics(view, id, b, contents, shift);
    PublishedEntry(view, id, b, contents, shift, i);
    assert EntryMeans(b, view.codec, b.entries[i], contents, contents[i]);
    var (data, pages) := PagesOfPool(b, view.codec, shift);
    var entry := b.entries[i];
    PrefixSlice(b.data, data, entry.offset, entry.offset + entry.encoding.storedSize);
    StoredDecodes(view, contents[i], inner);
    ReadAfterMagic(view, id, data, entry.offset, entry.encoding.storedSize);
  }

  /** An allowed extent of a published pool fits, whatever the limits admit. */
  lemma PublishedExtentFits(view: View, id: u64, b: Builder, contents: seq<bytes>, shift: u64, extent: Extent)
    requires Published(view, id, b, contents, shift) && Allowed(b.entries, extent)
    ensures ExtentFits(view, id, extent) && extent.source < U64_LIMIT && extent.source < |contents|
    ensures |contents| == |b.entries| && extent.offset + extent.length <= |contents[extent.source]|
  {
    hide Published, EntryOf;
    PublishedCount(view, id, b, contents, shift);
    PublishedEntry(view, id, b, contents, shift, extent.source);
    PublishedSize(view, id, b, contents, shift, extent.source);
  }

  lemma PublishedSize(view: View, id: u64, b: Builder, contents: seq<bytes>, shift: u64, i: nat)
    requires Published(view, id, b, contents, shift) && i < |b.entries| && b.entries[i].Stored?
    ensures |contents| == |b.entries| && b.entries[i].encoding.DecodedSize() == |contents[i]|
  {
    hide Sound, AdmitsTable, Finished, Faithful, EncodeBytes;
    assert EntryMeans(b, view.codec, b.entries[i], contents, contents[i]);
    EncodedFacts(view.codec, contents[i]);
  }

  lemma AssembleFront(view: View, id: u64, extents: seq<Extent>, inner: bool, source: bytes, rest: bytes)
    requires extents != [] && ExtentFits(view, id, extents[0]) && forall j :: 0 <= j < |extents| ==> ExtentFits(view, id, extents[j])
    requires Resolve(view, BlobRef(id, extents[0].source), inner) == Some(source)
    requires extents[0].offset + extents[0].length <= |source|
    requires Assemble(view, id, extents[1..], inner) == Some(rest)
    ensures Assemble(view, id, extents, inner)
            == Some(source[extents[0].offset..extents[0].offset + extents[0].length] + rest)
  {
    hide Resolve, EntryOf;
  }

  lemma SlicesFront(contents: seq<bytes>, extents: seq<Extent>)
    requires extents != [] && extents[0].source < |contents|
    requires extents[0].offset + extents[0].length <= |contents[extents[0].source]|
    ensures Slices(contents, extents)
            == contents[extents[0].source][extents[0].offset..extents[0].offset + extents[0].length] + Slices(contents, extents[1..])
    ensures TotalLength(extents) == extents[0].length + TotalLength(extents[1..])
  {
  }

  lemma AllowedRest(entries: seq<Entry>, extents: seq<Extent>)
    requires extents != [] && AllAllowed(entries, extents)
    ensures Allowed(entries, extents[0]) && AllAllowed(entries, extents[1..])
  {
    hide Allowed;
    forall j | 0 <= j < |extents[1..]| ensures Allowed(entries, extents[1..][j]) {
      assert Allowed(entries, extents[j + 1]);
    }
  }

  lemma {:induction false} PublishedSlices(view: View, id: u64, b: Builder, contents: seq<bytes>, shift: u64, extents: seq<Extent>, inner: bool)
    requires Published(view, id, b, contents, shift) && AllAllowed(b.entries, extents) && AdmitsSources(view.limits, contents, extents)
    ensures forall j :: 0 <= j < |extents| ==> ExtentFits(view, id, extents[j])
    ensures Assemble(view, id, extents, inner) == Some(Slices(contents, extents))
    ensures TotalLength(extents) == |Slices(contents, extents)|
    decreases |extents|
  {
    hide Published, Resolve, ExtentFits, Allowed, AllAllowed, Assemble, Slices, TotalLength;
    if extents != [] {
      var extent, rest := extents[0], extents[1..];
      AllowedRest(b.entries, extents);
      PublishedExtentFits(view, id, b, contents, shift, extent);
      AllowedIsStored(b.entries, extent);
      PublishedStored(view, id, b, contents, shift, extent.source, inner);
      assert forall j :: 0 <= j < |rest| ==> rest[j] == extents[j + 1];
      PublishedSlices(view, id, b, contents, shift, rest, inner);
      forall j | 0 <= j < |extents| ensures ExtentFits(view, id, extents[j]) {
        assert j > 0 ==> extents[j] == rest[j - 1];
      }
      AssembleFront(view, id, extents, inner, contents[extent.source], Slices(contents, rest));
      SlicesFront(contents, extents);
    } else {
      NoSlices(view, id, contents, inner);
    }
  }

  lemma AllowedIsStored(entries: seq<Entry>, extent: Extent)
    requires Allowed(entries, extent)
    ensures extent.source < |entries| && entries[extent.source].Stored?
  {
  }

  lemma NoSlices(view: View, id: u64, contents: seq<bytes>, inner: bool)
    ensures Assemble(view, id, [], inner) == Some([]) && Slices(contents, []) == [] && TotalLength([]) == 0
  {
  }

  lemma PublishedCount(view: View, id: u64, b: Builder, contents: seq<bytes>, shift: u64)
    requires Published(view, id, b, contents, shift)
    ensures |b.entries| < U64_LIMIT && |contents| == |b.entries|
  {
  }

  /** Every index of a published pool resolves to the content that was pushed for it, if the reader admits that content. */
  lemma PublishedResolves(view: View, id: u64, b: Builder, contents: seq<bytes>, shift: u64, i: u64, inner: bool)
    requires Published(view, id, b, contents, shift) && i < |b.entries| && AdmitsContent(view.limits, b, contents, i)
    ensures Resolve(view, BlobRef(id, i), inner) == Some(contents[i])
  {
    hide PagesOfPool, TypeInfo, Sound, EncodeBytes, EntryOf, Assemble, EncodingBytes, Faithful, Finished, AdmitsTable, Decode;
    PublishedCount(view, id, b, contents, shift);
    PublishedEntry(view, id, b, contents, shift, i);
    assert EntryMeans(b, view.codec, b.entries[i], contents, contents[i]);
    match b.entries[i]
    case Stored(_, _) => PublishedStored(view, id, b, contents, shift, i, inner);
    case Extents(extents) => PublishedSlices(view, id, b, contents, shift, extents, inner);
    case Unknown(_) =>
  }

  /** Pages and stored entries of a finished pool are in bounds and pairwise disjoint, whatever reads it. */
  lemma PublishedIsSound(b: Builder, codec: Codec, contents: seq<bytes>, shift: u64)
    requires Represents(b, codec, contents) && 8 <= shift <= 12
    ensures var (data, pages) := PagesOfPool(b, codec, shift);
            Sound(StoredRanges(b.entries) + Places(pages), |data|)
  {
    hide EntryMeans, Sound, EncodeBytes, WritePages;
    EntriesMatch(b, codec, contents);
    WrittenPagesAreSound(b.data, b.entries, PageSize(shift), codec, StoredRanges(b.entries));
  }
}
