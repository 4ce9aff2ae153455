/** The container writer and reader in place. */
module ContainerCode {
  import opened Binary
  import opened Cbor
  import opened CborValues
  import opened Contents
  import opened Containers
  import Blobs

  /** A sequential writer, from the container magic on. */
  class Writer {
    var output: bytes
    var table: seq<Item>
    var ids: set<u64>
    /** Bytes written since the magic, including it. */
    var length: nat

    ghost predicate Valid()
      reads this
    {
      length == |output|
    }

    ghost function State(): Written
      reads this
    {
      Written(output, ids, table)
    }

    constructor ()
      ensures Valid() && State() == STARTED
    {
      output, table, ids, length := MAGIC, [], {}, 8;
    }

    /** Adds a section with its descriptor; a refused section changes nothing. */
    method WriteSection(section: Section, codec: Blobs.Codec) returns (ok: bool)
      requires Valid()
      modifies this
      ensures Valid() && (ok <==> WithSection(old(State()), section, codec).Some?)
      ensures State() == if ok then WithSection(old(State()), section, codec).value else old(State())
    {
      hide Acceptable, MapOf, Fields;
      if section.id in ids || !Acceptable(section) {
        return false;
      }
      var item := MapOf(Fields(section, codec));
      if item == None {
        return false;
      }
      var next := length + |section.data|;
      if next >= U64_LIMIT {
        return false;
      }
      output := output + section.data;
      length := next;
      ids := ids + {section.id};
      table := table + [item.value];
      ok := true;
    }

    /** Adds the metadata block and the footer, asking `sign` for the payload. */
    method Finish(metadata: Item, kind: byte, sign: bytes -> Option<bytes>, codec: Blobs.Codec) returns (r: Option<bytes>)
      requires Valid()
      modifies this
      ensures r == FinishedWith(old(State()), metadata, kind, sign, codec)
    {
      hide WithTable, ValidMetadata, ValidVerification, Blobs.IsChecksum, Blobs.Verifies, Sized, SizedBody, VerificationInput, MetadataBlock, Footer;
      var complete := WithTable(Written(output, ids, table), metadata);
      if complete == None || !ValidMetadata(complete.value) {
        return None;
      }
      var input := WriteInput(complete.value, kind);
      var payload := sign(input);
      if payload == None || !ValidVerification(kind, payload.value) {
        return None;
      }
      ChecksumPayload(kind, payload.value);
      if kind == 1 && !Blobs.Verifies(codec, payload.value, input) {
        return None;
      }
      var block := WriteSized(input, payload.value);
      BlockIs(complete.value, kind, payload.value);
      var metadataLength := |block| + FOOTER_LENGTH;
      var fileLength := length + metadataLength;
      if fileLength >= U64_LIMIT {
        return None;
      }
      output := output + block + Footer(metadataLength, fileLength);
      r := Some(output);
    }
  }

  /** The bytes that a checksum or signature covers. */
  method WriteInput(metadata: Item, kind: byte) returns (r: bytes)
    ensures r == VerificationInput(metadata, kind)
  {
    hide Sized, SizedBody;
    r := WriteSized(METADATA_MAGIC + VERSION, SizedBody(metadata));
    r := r + [kind];
  }

  lemma BlockIs(metadata: Item, kind: byte, payload: bytes)
    ensures VerificationInput(metadata, kind) + Sized(payload) == MetadataBlock(metadata, kind, payload)
  {
    hide Sized, VerificationInput;
  }

  lemma ChecksumPayload(kind: byte, payload: bytes)
    requires ValidVerification(kind, payload)
    ensures kind == 1 ==> Blobs.IsChecksum(payload)
  {
  }

  /** Parses the metadata block. */
  method ReadBlock(block: bytes, limits: Limits) returns (r: Option<(Item, byte, bytes, nat)>)
    ensures r == BlockOf(block, limits)
  {
    hide SizedItemAt, SizedAt, ValidMetadata, ValidVerification;
    if !limits.Bytes(|block|) {
      return None;
    }
    var decoder := new Decoder(block, limits);
    var magic := decoder.Take(8);
    if magic != Some(METADATA_MAGIC) {
      assert |block| >= 16 ==> block[..8] == block[0..8];
      return None;
    }
    var version := decoder.Take(8);
    if version != Some(VERSION) {
      return None;
    }
    assert block[..8] == block[0..8];
    var metadata := ReadItem(decoder);
    if metadata == None || !ValidMetadata(metadata.value) {
      return None;
    }
    var kind := decoder.U8();
    if kind == None {
      return None;
    }
    var inputEnd := decoder.position;
    var payload := decoder.ReadSized();
    if payload == None || !ValidVerification(kind.value, payload.value) || decoder.Remaining() != 0 {
      return None;
    }
    r := Some((metadata.value, kind.value, payload.value, inputEnd));
  }

  ghost predicate Pending(whole: Option<seq<Placed>>, done: seq<Placed>, rest: Option<seq<Placed>>) {
    match rest
    case None => whole == None
    case Some(more) => whole == Some(done + more)
  }

  /** Places the sections one after another, refusing repeated identifiers and wrong magics. */
  method PlaceSections(s: bytes, table: seq<Item>, start: nat, end: nat, limits: Limits) returns (r: Option<seq<Placed>>)
    ensures r == PlacedFrom(s, table, start, end, {}, limits)
  {
    hide InfoOf, ReadAt, Le;
    ghost var whole := PlacedFrom(s, table, start, end, {}, limits);
    var sections: seq<Placed>, ids: set<u64>, offset: nat := [], {}, start;
    assert table[0..] == table;
    assert whole.Some? ==> sections + whole.value == whole.value;
    for i := 0 to |table|
      invariant Pending(whole, sections, PlacedFrom(s, table[i..], offset, end, ids, limits))
    {
      assert table[i..][1..] == table[i + 1..];
      var info := InfoOf(table[i]);
      if info == None || info.value.id in ids {
        return None;
      }
      var next := offset + info.value.length;
      if next > end {
        return None;
      }
      if Recognised(info.value.kind) && ReadAt(s, offset, 8, limits) != Some(Le(info.value.kind, 8)) {
        return None;
      }
      ghost var rest := PlacedFrom(s, table[i + 1..], next, end, ids + {info.value.id}, limits);
      if rest.Some? {
        assert sections + ([Placed(info.value, offset)] + rest.value) == (sections + [Placed(info.value, offset)]) + rest.value;
      }
      sections := sections + [Placed(info.value, offset)];
      ids := ids + {info.value.id};
      offset := next;
    }
    assert sections + [] == sections;
    r := if offset == end then Some(sections) else None;
  }

  /** Locates the footer, then the metadata, then the sections. */
  method OpenContainer(s: bytes, tail: nat, limits: Limits) returns (r: Option<Opened>)
    ensures r == Open(s, tail, limits)
  {
    hide BlockOf, PlacedFrom, FromLe, Get, RegionFits;
    if tail + FOOTER_LENGTH > |s| {
      return None;
    }
    var end := |s| - tail;
    var footer := ReadAt(s, end - FOOTER_LENGTH, FOOTER_LENGTH, limits);
    if footer == None || footer.value[..8] != END_MARK {
      return None;
    }
    var metadataLength, fileLength := FromLe(footer.value[8..16]), FromLe(footer.value[16..24]);
    if metadataLength > end || fileLength > end {
      return None;
    }
    var metadataStart, start := end - metadataLength, end - fileLength;
    if metadataStart < start + 8 || metadataLength < FOOTER_LENGTH {
      return None;
    }
    if ReadAt(s, start, 8, limits) != Some(MAGIC) {
      return None;
    }
    var stored := ReadAt(s, metadataStart, metadataLength - FOOTER_LENGTH, limits);
    if stored == None {
      return None;
    }
    var block := ReadBlock(stored.value, limits);
    if block == None {
      return None;
    }
    var (metadata, kind, payload, inputEnd) := block.value;
    var table := Get(metadata, 0);
    if table == None || !table.value.Array? || !limits.Elements(|table.value.items|) || inputEnd > |stored.value| {
      return None;
    }
    var sections := PlaceSections(s, table.value.items, start + 8, metadataStart, limits);
    if sections == None || !RegionFits(metadata, 1, start) || !RegionFits(metadata, 2, tail) {
      return None;
    }
    r := Some(Opened(start, end, metadata, sections.value, metadataStart, kind, payload, stored.value[..inputEnd]));
  }

  /** Verifies every recorded checksum and reports the coverage. */
  method VerifyChecksums(codec: Blobs.Codec, s: bytes, reader: Opened) returns (r: Option<Report>)
    requires reader.end <= |s|
    ensures r == VerifiedReport(codec, s, reader)
  {
    hide Blobs.Verifies, RegionReport;
    if reader.kind == 1 && !(Blobs.IsChecksum(reader.payload) && Blobs.Verifies(codec, reader.payload, reader.input)) {
      return None;
    }
    var report := Report(0, true);
    assert reader.sections[0..] == reader.sections;
    for i := 0 to |reader.sections|
      invariant SectionsReport(codec, s, reader.sections, Report(0, true)) == SectionsReport(codec, s, reader.sections[i..], report)
    {
      assert reader.sections[i..][1..] == reader.sections[i + 1..];
      var Placed(info, offset) := reader.sections[i];
      if info.checksum == None {
        report := report.(secure := false);
      } else {
        if !RangeVerifies(codec, s, offset, info.length, info.checksum.value) {
          return None;
        }
        report := Report(report.verified + 1, report.secure && Secure(info.checksum.value[0]));
      }
    }
    var before := RegionReport(codec, s, reader.metadata, 1, 0, reader.start, report);
    if before == None {
      return None;
    }
    r := RegionReport(codec, s, reader.metadata, 2, reader.end, |s| - reader.end, before.value);
  }
}
