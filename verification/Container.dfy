/** The sectioned container: a sequential writer, and a reader that works backwards from the footer. */
module Containers {
  import opened Binary
  import opened Cbor
  import opened CborValues
  import Blobs

  /** The bytes of `JANEX` padded to eight, `METADATA` and `JANEXEND`. */
  const MAGIC: bytes := [0x4a, 0x41, 0x4e, 0x45, 0x58, 0, 0, 0]
  const METADATA_MAGIC: bytes := [0x4d, 0x45, 0x54, 0x41, 0x44, 0x41, 0x54, 0x41]
  const END_MARK: bytes := [0x4a, 0x41, 0x4e, 0x45, 0x58, 0x45, 0x4e, 0x44]

  /** The little-endian readings of `BLOBPOOL` and `JANEXAPP`. */
  const BLOB_POOL: u64 := Blobs.BLOB_POOL
  const APPLICATION: u64 := 0x50504158454e414a

  /** Format version 0.1. */
  const VERSION: bytes := [0, 0, 0, 0, 1, 0, 0, 0]

  const FOOTER_LENGTH: nat := 24

  predicate Recognised(kind: u64) {
    kind == BLOB_POOL || kind == APPLICATION
  }

  // ---------- Section descriptors ----------

  datatype Info = Info(id: u64, kind: u64, length: u64, checksum: Option<bytes>, typeInfo: Option<Item>)

  predicate ValidChecksum(item: Item) {
    item.ByteString? && Blobs.IsChecksum(item.data)
  }

  /** The common schema of a descriptor; other fields are extensions. */
  function InfoOf(item: Item): Option<Info> {
    if !Blobs.IntegerKeys(item) then None
    else
      match (Get(item, 0), Get(item, 1), Get(item, 2))
      case (Some(Unsigned(kind)), Some(Unsigned(id)), Some(Unsigned(length))) =>
        var checksum, typeInfo := Get(item, 3), Get(item, 4);
        if (checksum.Some? && !ValidChecksum(checksum.value)) || (typeInfo.Some? && !Blobs.IntegerKeys(typeInfo.value)) then None
        else if Recognised(kind) && length < 8 then None
        else Some(Info(id, kind, length, if checksum == None then None else Some(checksum.value.data), typeInfo))
      case _ => None
  }

  /** A section as the writer is given it. */
  datatype Section = Section(id: u64, kind: u64, data: bytes, typeInfo: Option<Item>)

  function Sha256(codec: Blobs.Codec, data: bytes): bytes {
    [Blobs.SHA256] + codec.digest(Blobs.SHA256, data)
  }

  function Fields(section: Section, codec: Blobs.Codec): seq<Pair> {
    [Pair(Unsigned(0), Unsigned(section.kind)), Pair(Unsigned(1), Unsigned(section.id)),
     Pair(Unsigned(2), Unsigned(Count(|section.data|))), Pair(Unsigned(3), ByteString(Sha256(codec, section.data)))]
    + if section.typeInfo == None then [] else [Pair(Unsigned(4), section.typeInfo.value)]
  }

  // ---------- Writing ----------

  /** The bytes since the container magic, the identifiers in use, and the encoded descriptors. */
  datatype Written = Written(output: bytes, ids: set<u64>, table: seq<Item>)

  const STARTED := Written(MAGIC, {}, [])

  predicate Acceptable(section: Section) {
    && (Recognised(section.kind) ==> Le(section.kind, 8) <= section.data)
    && (section.typeInfo.Some? ==> Blobs.IntegerKeys(section.typeInfo.value))
  }

  /** Appends one section with its checksum. */
  function WithSection(w: Written, section: Section, codec: Blobs.Codec): Option<Written> {
    if section.id in w.ids || !Acceptable(section) || |w.output| + |section.data| >= U64_LIMIT then None
    else
      match MapOf(Fields(section, codec))
      case None => None
      case Some(item) => Some(Written(w.output + section.data, w.ids + {section.id}, w.table + [item]))
  }

  function WithSections(sections: seq<Section>, codec: Blobs.Codec): Option<Written> {
    if sections == [] then Some(STARTED)
    else
      match WithSections(sections[..|sections| - 1], codec)
      case None => None
      case Some(w) => WithSection(w, sections[|sections| - 1], codec)
  }

  predicate ValidRegion(region: Item) {
    && Blobs.IntegerKeys(region)
    && Get(region, 0).Some? && Get(region, 0).value.Unsigned?
    && (Get(region, 1).Some? ==> ValidChecksum(Get(region, 1).value))
  }

  predicate ValidText(item: Option<Item>) {
    item == None || (item.value.TextString? && item.value.text != [])
  }

  /** File metadata, independent of where it is stored. */
  predicate ValidMetadata(item: Item) {
    && item.Map?
    && (forall i :: 0 <= i < |item.entries| ==>
          item.entries[i].key.Unsigned? || (item.entries[i].key.TextString? && item.entries[i].key.text != []))
    && Get(item, 0).Some? && Get(item, 0).value.Array?
    && (Get(item, 1).Some? ==> ValidRegion(Get(item, 1).value))
    && (Get(item, 2).Some? ==> ValidRegion(Get(item, 2).value))
    && ValidText(Get(item, 3)) && ValidText(Get(item, 4))
  }

  /** Payloads that each kind of verification allows: empty, a checksum, or some signature bytes. */
  predicate ValidVerification(kind: byte, payload: bytes) {
    match kind
    case 0 => payload == []
    case 1 => Blobs.IsChecksum(payload)
    case 2 => payload != []
    case 3 => payload != []
    case _ => false
  }

  /** The bytes that a checksum or signature covers. */
  function VerificationInput(metadata: Item, kind: byte): bytes {
    METADATA_MAGIC + VERSION + EncodeSized(metadata) + [kind]
  }

  function MetadataBlock(metadata: Item, kind: byte, payload: bytes): bytes {
    VerificationInput(metadata, kind) + Sized(payload)
  }

  function Footer(metadataLength: nat, fileLength: nat): bytes {
    END_MARK + Le(metadataLength, 8) + Le(fileLength, 8)
  }

  /** The complete metadata map, with the section table that the writer supplies. */
  function WithTable(w: Written, metadata: Item): Option<Item> {
    if !metadata.Map? || Get(metadata, 0).Some? then None
    else MapOf(metadata.entries + [Pair(Unsigned(0), Array(w.table))])
  }

  /** The finished container; `sign` produces the payload from the verification input. */
  function FinishedWith(w: Written, metadata: Item, kind: byte, sign: bytes -> Option<bytes>, codec: Blobs.Codec): Option<bytes> {
    match WithTable(w, metadata)
    case None => None
    case Some(complete) =>
      if !ValidMetadata(complete) then None
      else
        var input := VerificationInput(complete, kind);
        match sign(input)
        case None => None
        case Some(payload) =>
          if !ValidVerification(kind, payload) || (kind == 1 && !Blobs.Verifies(codec, payload, input)) then None
          else
            var block := MetadataBlock(complete, kind, payload);
            var metadataLength := |block| + FOOTER_LENGTH;
            if |w.output| + metadataLength >= U64_LIMIT then None
            else Some(w.output + block + Footer(metadataLength, |w.output| + metadataLength))
  }

  // ---------- Reading ----------

  datatype Placed = Placed(info: Info, offset: nat)

  datatype Opened = Opened(start: nat, end: nat, metadata: Item, sections: seq<Placed>, dataEnd: nat,
                           kind: byte, payload: bytes, input: bytes)

  /** An exact range of the file, within the byte limit. */
  function ReadAt(s: bytes, offset: nat, length: nat, limits: Limits): (r: Option<bytes>)
    ensures r.Some? ==> |r.value| == length && offset + length <= |s|
  {
    if limits.Bytes(length) && offset + length <= |s| then Some(s[offset..offset + length]) else None
  }

  /** Places the sections of a table one after another. */
  function PlacedFrom(s: bytes, table: seq<Item>, offset: nat, end: nat, ids: set<u64>, limits: Limits): Option<seq<Placed>> {
    if table == [] then if offset == end then Some([]) else None
    else
      match InfoOf(table[0])
      case None => None
      case Some(info) =>
        if info.id in ids || offset + info.length > end then None
        else if Recognised(info.kind) && ReadAt(s, offset, 8, limits) != Some(Le(info.kind, 8)) then None
        else
          match PlacedFrom(s, table[1..], offset + info.length, end, ids + {info.id}, limits)
          case None => None
          case Some(rest) => Some([Placed(info, offset)] + rest)
  }

  /** The parsed metadata block: the metadata, the verification type and payload, and where the input ends. */
  function BlockOf(block: bytes, limits: Limits): Option<(Item, byte, bytes, nat)> {
    if !limits.Bytes(|block|) || |block| < 16 || block[..8] != METADATA_MAGIC || block[8..16] != VERSION then None
    else
      match SizedItemAt(block, 16, limits)
      case Failed => None
      case Got(metadata, next) =>
        if !ValidMetadata(metadata) || next >= |block| then None
        else
          match SizedAt(block, next + 1, limits)
          case Failed => None
          case Got(payload, end) =>
            if end == |block| && ValidVerification(block[next], payload) then Some((metadata, block[next], payload, next + 1)) else None
  }

  /** A recorded external region must have the size it says. */
  predicate RegionFits(metadata: Item, key: u64, length: nat) {
    Get(metadata, key).Some? ==> Get(Get(metadata, key).value, 0) == Some(Unsigned(Count(length)))
  }

  /** The container after its frame has been located. */
  function OpenedFrame(s: bytes, start: nat, metadataStart: nat, end: nat, limits: Limits): Option<Opened>
    requires start + 8 <= metadataStart && metadataStart + FOOTER_LENGTH <= end <= |s|
  {
    if ReadAt(s, start, 8, limits) != Some(MAGIC) then None
    else
      match ReadAt(s, metadataStart, end - FOOTER_LENGTH - metadataStart, limits)
      case None => None
      case Some(block) =>
        match BlockOf(block, limits)
        case None => None
        case Some((metadata, kind, payload, inputEnd)) =>
          if !Get(metadata, 0).Some? || !Get(metadata, 0).value.Array? || !limits.Elements(|Get(metadata, 0).value.items|)
             || inputEnd > |block| then None
          else
            match PlacedFrom(s, Get(metadata, 0).value.items, start + 8, metadataStart, {}, limits)
            case None => None
            case Some(sections) =>
              if RegionFits(metadata, 1, start) && RegionFits(metadata, 2, |s| - end)
              then Some(Opened(start, end, metadata, sections, metadataStart, kind, payload, block[..inputEnd])) else None
  }

  /** Opens a container that ends `tail` bytes before the end of the file. */
  function Open(s: bytes, tail: nat, limits: Limits): Option<Opened> {
    if tail + FOOTER_LENGTH > |s| then None
    else
      var end := |s| - tail;
      match ReadAt(s, end - FOOTER_LENGTH, FOOTER_LENGTH, limits)
      case None => None
      case Some(footer) =>
        var metadataLength, fileLength := FromLe(footer[8..16]), FromLe(footer[16..24]);
        if footer[..8] != END_MARK || metadataLength > end || fileLength > end then None
        else if end - metadataLength < end - fileLength + 8 || metadataLength < FOOTER_LENGTH then None
        else OpenedFrame(s, end - fileLength, end - metadataLength, end, limits)
  }

  /** The position of a section by its identifier. */
  function SectionOf(sections: seq<Placed>, id: u64): Option<Placed> {
    if sections == [] then None else if sections[0].info.id == id then Some(sections[0]) else SectionOf(sections[1..], id)
  }

  /** Bytes of one section, counted from its start. */
  function ReadSectionRange(s: bytes, reader: Opened, id: u64, offset: nat, length: nat, limits: Limits): Option<bytes> {
    match SectionOf(reader.sections, id)
    case None => None
    case Some(placed) => if offset + length > placed.info.length then None else ReadAt(s, placed.offset + offset, length, limits)
  }

  // ---------- Checksums ----------

  predicate Secure(algorithm: byte) {
    algorithm == 0x21 || algorithm == 0x22 || algorithm == 0x31
  }

  datatype Report = Report(verified: nat, secure: bool)

  /** Verifies an exact range of the file. */
  predicate RangeVerifies(codec: Blobs.Codec, s: bytes, offset: nat, length: nat, checksum: bytes) {
    offset + length <= |s| && Blobs.IsChecksum(checksum) && Blobs.Verifies(codec, checksum, s[offset..offset + length])
  }

  /** The report after the sections; nothing when a checksum does not match. */
  function SectionsReport(codec: Blobs.Codec, s: bytes, sections: seq<Placed>, report: Report): Option<Report>
    decreases |sections|
  {
    if sections == [] then Some(report)
    else
      var Placed(info, offset) := sections[0];
      if info.checksum == None then SectionsReport(codec, s, sections[1..], report.(secure := false))
      else if !RangeVerifies(codec, s, offset, info.length, info.checksum.value) then None
      else SectionsReport(codec, s, sections[1..], Report(report.verified + 1, report.secure && Secure(info.checksum.value[0])))
  }

  /** The report after an external region. */
  function RegionReport(codec: Blobs.Codec, s: bytes, metadata: Item, key: u64, offset: nat, length: nat, report: Report): Option<Report> {
    match Get(metadata, key)
    case None => Some(report.(secure := false))
    case Some(region) =>
      match Get(region, 1)
      case None => Some(report.(secure := report.secure && length == 0))
      case Some(checksum) =>
        if !checksum.ByteString? || !RangeVerifies(codec, s, offset, length, checksum.data) then None
        else Some(Report(report.verified + 1, report.secure && (length == 0 || Secure(checksum.data[0]))))
  }

  /** The report of a complete check, or nothing as soon as one recorded checksum is wrong. */
  function VerifiedReport(codec: Blobs.Codec, s: bytes, reader: Opened): Option<Report>
    requires reader.end <= |s|
  {
    if reader.kind == 1 && !(Blobs.IsChecksum(reader.payload) && Blobs.Verifies(codec, reader.payload, reader.input)) then None
    else
      match SectionsReport(codec, s, reader.sections, Report(0, true))
      case None => None
      case Some(sections) =>
        match RegionReport(codec, s, reader.metadata, 1, 0, reader.start, sections)
        case None => None
        case Some(before) => RegionReport(codec, s, reader.metadata, 2, reader.end, |s| - reader.end, before)
  }
}
