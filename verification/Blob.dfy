/** Blob pools: table entries, their encodings, and what a reference resolves to. */
module Blobs {
  import opened Binary
  import opened Cbor
  import opened CborValues
  import opened Ranges

  datatype BlobRef = BlobRef(pool: u64, index: u64)

  /** The reference that a pair of unsigned items stands for, if it is one. */
  function ItemRef(item: Item): Option<BlobRef> {
    if item.Array? && |item.items| == 2 && item.items[0].Unsigned? && item.items[1].Unsigned?
    then Some(BlobRef(item.items[0].value, item.items[1].value)) else None
  }

  predicate IntegerKeys(item: Item) {
    item.Map? && forall i :: 0 <= i < |item.entries| ==> item.entries[i].key.Unsigned?
  }

  // ---------- Encodings ----------

  datatype Filter = Filter(inputSize: nat, kind: byte, properties: Item) {
    function Dictionary(): Option<Item> {
      Get(properties, 0)
    }
  }

  /** A stored length and the filters in the order the encoder applied them. */
  datatype Encoding = Encoding(storedSize: nat, filters: seq<Filter>) {
    function DecodedSize(): nat {
      if filters == [] then storedSize else filters[0].inputSize
    }

    predicate HasDictionary() {
      exists i :: 0 <= i < |filters| && filters[i].Dictionary().Some?
    }
  }

  const ZSTD: byte := 1

  function FilterBytes(filter: Filter): bytes {
    Vuint(filter.inputSize) + [filter.kind] + EncodeSized(filter.properties)
  }

  function FiltersBytes(filters: seq<Filter>): bytes {
    if filters == [] then [] else FilterBytes(filters[0]) + FiltersBytes(filters[1..])
  }

  function EncodingBytes(encoding: Encoding): bytes {
    Vuint(encoding.storedSize) + Vuint(|encoding.filters|) + FiltersBytes(encoding.filters)
  }

  /** Only Zstandard is supported, and a dictionary must be a blob reference. */
  predicate Supported(filter: Filter) {
    && filter.kind == ZSTD
    && IntegerKeys(filter.properties)
    && (filter.Dictionary().Some? ==> ItemRef(filter.Dictionary().value).Some?)
  }

  function FilterAt(s: bytes, pos: nat, limits: Limits): (r: Read<Filter>)
    ensures r.Got? ==> pos < r.next <= |s| && Supported(r.value)
  {
    match VuintAt(s, pos)
    case Failed => Failed
    case Got(inputSize, next) =>
      if next >= |s| then Failed
      else
        match SizedItemAt(s, next + 1, limits)
        case Failed => Failed
        case Got(properties, end) =>
          var filter := Filter(inputSize, s[next], properties);
          if Supported(filter) then Got(filter, end) else Failed
  }

  function FiltersAt(s: bytes, pos: nat, count: nat, limits: Limits): (r: Read<seq<Filter>>)
    ensures r.Got? ==> pos <= r.next && (pos <= |s| ==> r.next <= |s|)
    decreases count
  {
    if count == 0 then Got([], pos)
    else
      match FilterAt(s, pos, limits)
      case Failed => Failed
      case Got(first, next) =>
        match FiltersAt(s, next, count - 1, limits)
        case Failed => Failed
        case Got(rest, end) => Got([first] + rest, end)
  }

  function EncodingAt(s: bytes, pos: nat, limits: Limits): (r: Read<Encoding>)
    ensures r.Got? ==> pos < r.next <= |s|
  {
    match VuintAt(s, pos)
    case Failed => Failed
    case Got(storedSize, next) =>
      match VuintAt(s, next)
      case Failed => Failed
      case Got(count, start) =>
        if !limits.Elements(count) then Failed
        else
          match FiltersAt(s, start, count, limits)
          case Failed => Failed
          case Got(filters, end) => Got(Encoding(storedSize, filters), end)
  }

  // ---------- Table entries ----------

  /** A slice of what entry `source` decodes to. */
  datatype Extent = Extent(source: nat, offset: nat, length: nat)

  datatype Entry =
    | Stored(offset: nat, encoding: Encoding)
    | Extents(extents: seq<Extent>)
    | Unknown(kind: byte)

  function ExtentBytes(extent: Extent): bytes {
    Vuint(extent.source) + Vuint(extent.offset) + Vuint(extent.length)
  }

  function ExtentsBytes(extents: seq<Extent>): bytes {
    if extents == [] then [] else ExtentBytes(extents[0]) + ExtentsBytes(extents[1..])
  }

  /** An entry's tag and payload; an unknown entry cannot be written. */
  function EntryBytes(entry: Entry): bytes
    requires !entry.Unknown?
  {
    match entry
    case Stored(offset, encoding) => [0] + Sized(Vuint(offset) + EncodingBytes(encoding))
    case Extents(extents) => [1] + Sized(Vuint(|extents|) + ExtentsBytes(extents))
  }

  function ExtentAt(s: bytes, pos: nat): (r: Read<Extent>)
    ensures r.Got? ==> pos < r.next <= |s| && r.value.length > 0
  {
    match VuintAt(s, pos)
    case Failed => Failed
    case Got(source, a) =>
      match VuintAt(s, a)
      case Failed => Failed
      case Got(offset, b) =>
        match VuintAt(s, b)
        case Failed => Failed
        case Got(length, end) => if length == 0 then Failed else Got(Extent(source, offset, length), end)
  }

  function ExtentsAt(s: bytes, pos: nat, count: nat): (r: Read<seq<Extent>>)
    ensures r.Got? ==> pos <= r.next
    decreases count
  {
    if count == 0 then Got([], pos)
    else
      match ExtentAt(s, pos)
      case Failed => Failed
      case Got(first, next) =>
        match ExtentsAt(s, next, count - 1)
        case Failed => Failed
        case Got(rest, end) => Got([first] + rest, end)
  }

  /** The entry a complete payload stands for. */
  function PayloadEntry(kind: byte, payload: bytes, limits: Limits): Option<Entry> {
    if kind == 0 then
      match VuintAt(payload, 0)
      case Failed => None
      case Got(offset, next) =>
        (match EncodingAt(payload, next, limits)
         case Failed => None
         case Got(encoding, end) => if end == |payload| then Some(Stored(offset, encoding)) else None)
    else if kind == 1 then
      match VuintAt(payload, 0)
      case Failed => None
      case Got(count, next) =>
        if !limits.Elements(count) || count == 0 then None
        else
          (match ExtentsAt(payload, next, count)
           case Failed => None
           case Got(extents, end) => if end == |payload| then Some(Extents(extents)) else None)
    else Some(Unknown(kind))
  }

  function EntryAt(s: bytes, pos: nat, limits: Limits): (r: Read<Entry>)
    ensures r.Got? ==> pos < r.next <= |s|
  {
    if pos >= |s| then Failed
    else
      match SizedAt(s, pos + 1, limits)
      case Failed => Failed
      case Got(payload, next) =>
        match PayloadEntry(s[pos], payload, limits)
        case None => Failed
        case Some(entry) => Got(entry, next)
  }

  function EntriesAt(s: bytes, pos: nat, count: nat, limits: Limits): (r: Read<seq<Entry>>)
    ensures r.Got? ==> pos <= r.next && |r.value| == count
    decreases count
  {
    if count == 0 then Got([], pos)
    else
      match EntryAt(s, pos, limits)
      case Failed => Failed
      case Got(first, next) =>
        match EntriesAt(s, next, count - 1, limits)
        case Failed => Failed
        case Got(rest, end) => Got([first] + rest, end)
  }

  /** The encoded ranges that the Stored entries occupy. */
  function StoredRanges(entries: seq<Entry>): seq<Range> {
    if entries == [] then [] else PlaceOf(entries[0]) + StoredRanges(entries[1..])
  }

  function PlaceOf(entry: Entry): seq<Range> {
    if entry.Stored? then [Range(entry.offset, entry.encoding.storedSize)] else []
  }

  // ---------- What the reader works on ----------

  /** Compression and digests are foreign: any functions, with no assumption unless a lemma states one. */
  datatype Codec = Codec(compress: bytes -> bytes, decompress: (bytes, bytes, nat, nat) -> Option<bytes>, digest: (byte, bytes) -> bytes)

  /** Binary digits of a number. */
  function Bits(value: nat): nat {
    if value == 0 then 0 else 1 + Bits(value / 2)
  }

  /** The largest window, as a power of two, that the decoder may allocate for a frame. */
  function WindowLog(limits: Limits): nat {
    var bits := Bits(if limits.maxBytes == 0 then 1 else limits.maxBytes);
    if bits < 10 then 10 else if bits > 31 then 31 else bits
  }

  datatype Section = Section(kind: u64, typeInfo: Option<Item>, data: bytes)

  /** A container's sections by ID, with the foreign codec and the reader's limits. */
  datatype View = View(sections: map<u64, Section>, codec: Codec, limits: Limits)

  /** The little-endian reading of `BLOBPOOL`. */
  const BLOB_POOL: u64 := 0x4c4f4f50424f4c42

  const BLOB_MAGIC: bytes := [0x42, 0x4c, 0x4f, 0x42, 0x50, 0x4f, 0x4f, 0x4c]

  const SHA256: byte := 0x21

  function DigestLength(algorithm: byte): Option<nat> {
    match algorithm
    case 0x11 => Some(8)
    case 0x12 => Some(16)
    case 0x21 => Some(32)
    case 0x22 => Some(64)
    case 0x31 => Some(32)
    case _ => None
  }

  /** The first byte names an algorithm, and the rest has that algorithm's digest length. */
  predicate IsChecksum(checksum: bytes) {
    checksum != [] && DigestLength(checksum[0]) == Some(|checksum| - 1)
  }

  predicate Verifies(codec: Codec, checksum: bytes, data: bytes)
    requires IsChecksum(checksum)
  {
    codec.digest(checksum[0], data) == checksum[1..]
  }

  function ReadRange(view: View, id: u64, offset: nat, length: nat): (r: Option<bytes>)
    ensures r.Some? ==> |r.value| == length
  {
    if id in view.sections && offset + length <= |view.sections[id].data| && view.limits.Bytes(length)
    then Some(view.sections[id].data[offset..offset + length]) else None
  }

  datatype PageInfo = PageInfo(offset: nat, encoding: Encoding, checksum: Option<bytes>) {
    function Place(): Range {
      Range(offset, encoding.storedSize)
    }
  }

  datatype PoolInfo = PoolInfo(count: u64, shift: u64, size: nat, pages: seq<PageInfo>)

  /** Two to the power of a page shift, which is 8 to 12. */
  function PageSize(shift: u64): (r: nat)
    ensures r >= 256
  {
    if shift <= 8 then 256 else if shift == 9 then 512 else if shift == 10 then 1024 else if shift == 11 then 2048 else 4096
  }

  /** `index >> shift`. */
  function PageIndex(index: nat, shift: u64): (r: nat)
    ensures PageStart(r, shift) <= index
  {
    if shift <= 8 then index / 256
    else if shift == 9 then index / 512
    else if shift == 10 then index / 1024
    else if shift == 11 then index / 2048
    else index / 4096
  }

  /** `page << shift`, the first index on a page. */
  function PageStart(page: nat, shift: u64): nat {
    if shift <= 8 then page * 256
    else if shift == 9 then page * 512
    else if shift == 10 then page * 1024
    else if shift == 11 then page * 2048
    else page * 4096
  }

  function PageCount(count: nat, shift: u64): nat {
    if count == 0 then 0 else 1 + PageIndex(count - 1, shift)
  }

  function PageOf(item: Item, limits: Limits): Option<PageInfo> {
    if !item.Array? || !(2 <= |item.items| <= 3) || !item.items[0].Unsigned? || !item.items[1].ByteString? then None
    else if !limits.Bytes(|item.items[1].data|) then None
    else
      match EncodingAt(item.items[1].data, 0, limits)
      case Failed => None
      case Got(encoding, end) =>
        if end != |item.items[1].data| || encoding.HasDictionary() then None
        else if |item.items| == 2 then Some(PageInfo(item.items[0].value, encoding, None))
        else if item.items[2].ByteString? && IsChecksum(item.items[2].data)
        then Some(PageInfo(item.items[0].value, encoding, Some(item.items[2].data))) else None
  }

  function PagesOf(items: seq<Item>, limits: Limits): (r: Option<seq<PageInfo>>)
    ensures r.Some? ==> |r.value| == |items|
  {
    if items == [] then Some([])
    else
      match PageOf(items[0], limits)
      case None => None
      case Some(first) =>
        match PagesOf(items[1..], limits)
        case None => None
        case Some(rest) => Some([first] + rest)
  }

  function Places(pages: seq<PageInfo>): (r: seq<Range>)
    ensures |r| == |pages|
  {
    if pages == [] then [] else [pages[0].Place()] + Places(pages[1..])
  }

  /** The page directory of a pool, apart from whether its pages overlap. */
  function Directory(view: View, id: u64): Option<PoolInfo> {
    if id !in view.sections then None
    else
      var section := view.sections[id];
      if section.kind != BLOB_POOL || |section.data| < 8 || section.typeInfo == None then None
      else
        match (Get(section.typeInfo.value, 0), Get(section.typeInfo.value, 1), Get(section.typeInfo.value, 2))
        case (Some(Unsigned(count)), Some(Unsigned(shift)), Some(Array(items))) =>
          if !(8 <= shift <= 12) || |items| != PageCount(count, shift) || !view.limits.Elements(|items|) then None
          else
            (match PagesOf(items, view.limits)
             case None => None
             case Some(pages) => Some(PoolInfo(count, shift, |section.data| - 8, pages)))
        case _ => None
  }

  /** A pool can be opened when its directory is well formed and its pages do not overlap. */
  ghost predicate Opens(view: View, id: u64) {
    Directory(view, id).Some? && Sound(Places(Directory(view, id).value.pages), Directory(view, id).value.size)
  }

  // ---------- Decoding ----------

  function Decompress(view: View, data: bytes, dictionary: bytes, expected: nat): (r: Option<bytes>)
    ensures r.Some? ==> |r.value| == expected
  {
    if !view.limits.Bytes(|data|) || !view.limits.Bytes(expected) then None
    else
      match view.codec.decompress(data, dictionary, expected, WindowLog(view.limits))
      case None => None
      case Some(output) => if |output| == expected then Some(output) else None
  }

  /** Reverses filters that use no dictionary. */
  function DecodePlain(view: View, data: bytes, filters: seq<Filter>): (r: Option<bytes>)
    ensures r.Some? ==> |r.value| == if filters == [] then |data| else filters[0].inputSize
    decreases |filters|
  {
    if filters == [] then Some(data)
    else
      var last := filters[|filters| - 1];
      if last.kind != ZSTD || last.Dictionary().Some? then None
      else
        match Decompress(view, data, [], last.inputSize)
        case None => None
        case Some(output) => DecodePlain(view, output, filters[..|filters| - 1])
  }

  /** The entries of a page: how many the count leaves for it. */
  function EntriesOnPage(info: PoolInfo, page: nat): nat {
    var rest := info.count - PageStart(page, info.shift);
    if rest < 0 then 0 else if rest < PageSize(info.shift) then rest else PageSize(info.shift)
  }

  /** A table page's entries, from its stored bytes alone. */
  function PageEntries(view: View, id: u64, info: PoolInfo, page: nat): (r: Option<seq<Entry>>)
    requires page < |info.pages|
    ensures r.Some? ==> |r.value| == EntriesOnPage(info, page)
  {
    var place := info.pages[page];
    match ReadRange(view, id, 8 + place.offset, place.encoding.storedSize)
    case None => None
    case Some(stored) =>
      match DecodePlain(view, stored, place.encoding.filters)
      case None => None
      case Some(table) =>
        if (place.checksum.Some? && !(IsChecksum(place.checksum.value) && Verifies(view.codec, place.checksum.value, table)))
           || !view.limits.Bytes(|table|) then None
        else
          match EntriesAt(table, 0, EntriesOnPage(info, page), view.limits)
          case Failed => None
          case Got(entries, end) => if end == |table| then Some(entries) else None
  }

  /** The entry that a reference names, from the stored bytes alone. */
  function EntryOf(view: View, reference: BlobRef): Option<Entry> {
    match Directory(view, reference.pool)
    case None => None
    case Some(info) =>
      var page := PageIndex(reference.index, info.shift);
      var slot := reference.index - PageStart(page, info.shift);
      if reference.index >= info.count || page >= |info.pages| then None
      else
        match PageEntries(view, reference.pool, info, page)
        case None => None
        case Some(entries) => if slot < |entries| then Some(entries[slot]) else None
  }

  /** An extent must lie inside the decoded bytes of a Stored entry. */
  predicate ExtentFits(view: View, pool: u64, extent: Extent) {
    extent.source < U64_LIMIT &&
    match EntryOf(view, BlobRef(pool, extent.source))
    case Some(Stored(_, encoding)) => extent.length > 0 && extent.offset + extent.length <= encoding.DecodedSize()
    case _ => false
  }

  function TotalLength(extents: seq<Extent>): nat {
    if extents == [] then 0 else extents[0].length + TotalLength(extents[1..])
  }

  /** Whether an entry only refers to others; the second part of the termination measure. */
  function Depth(view: View, reference: BlobRef): nat {
    match EntryOf(view, reference)
    case Some(Extents(_)) => 1
    case _ => 0
  }

  /**
   * The logical bytes of a reference. While a dictionary is being read (`inner`), no further
   * dictionary may be used; extents reach only Stored entries. No assumption on the table is needed
   * for this to terminate.
   */
  function Resolve(view: View, reference: BlobRef, inner: bool): Option<bytes>
    decreases if inner then 0 else 1, Depth(view, reference), 1, 0
  {
    match EntryOf(view, reference)
    case None => None
    case Some(Unknown(_)) => None
    case Some(Stored(offset, encoding)) =>
      if !view.limits.Bytes(encoding.DecodedSize()) || (inner && encoding.HasDictionary()) then None
      else
        (match ReadRange(view, reference.pool, 8 + offset, encoding.storedSize)
         case None => None
         case Some(stored) => Decode(view, stored, encoding.filters, inner))
    case Some(Extents(extents)) =>
      if (exists i :: 0 <= i < |extents| && !ExtentFits(view, reference.pool, extents[i]))
         || TotalLength(extents) >= U64_LIMIT || !view.limits.Bytes(TotalLength(extents)) then None
      else Assemble(view, reference.pool, extents, inner)
  }

  function Decode(view: View, data: bytes, filters: seq<Filter>, inner: bool): Option<bytes>
    decreases if inner then 0 else 1, 0, 0, |filters|
  {
    if filters == [] then Some(data)
    else
      var last := filters[|filters| - 1];
      if last.kind != ZSTD || !view.limits.Bytes(last.inputSize) then None
      else
        var dictionary :=
          match last.Dictionary()
          case None => Some([])
          case Some(item) =>
            if inner then None
            else
              match ItemRef(item)
              case None => None
              case Some(reference) => Resolve(view, reference, true);
        if dictionary == None then None
        else
          match Decompress(view, data, dictionary.value, last.inputSize)
          case None => None
          case Some(output) => Decode(view, output, filters[..|filters| - 1], inner)
  }

  function Assemble(view: View, pool: u64, extents: seq<Extent>, inner: bool): Option<bytes>
    requires forall i :: 0 <= i < |extents| ==> ExtentFits(view, pool, extents[i])
    decreases if inner then 0 else 1, 1, 0, |extents|
  {
    if extents == [] then Some([])
    else
      assert ExtentFits(view, pool, extents[0]);
      match Resolve(view, BlobRef(pool, extents[0].source), inner)
      case None => None
      case Some(source) =>
        if extents[0].offset + extents[0].length > |source| then None
        else
          match Assemble(view, pool, extents[1..], inner)
          case None => None
          case Some(rest) => Some(source[extents[0].offset..extents[0].offset + extents[0].length] + rest)
  }
}
