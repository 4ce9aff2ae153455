/** A written container reads back, between any prefix and tail that its metadata allows. */
module ContainerProofs {
  import opened Binary
  import opened Cbor
  import opened CborValues
  import opened Containers
  import Blobs
  import BlobBuilder
  import BlobProofs

  // ---------- Any opened container is tiled by its sections ----------

  /** The sections follow each other without gap or overlap. */
  ghost predicate Tiles(sections: seq<Placed>, from: nat, to: nat)
    decreases |sections|
  {
    if sections == [] then from == to
    else sections[0].offset == from && Tiles(sections[1..], from + sections[0].info.length, to)
  }

  ghost predicate DistinctIds(sections: seq<Placed>) {
    forall i, j :: 0 <= i < j < |sections| ==> sections[i].info.id != sections[j].info.id
  }

  lemma {:induction false} PlacedTiles(s: bytes, table: seq<Item>, offset: nat, end: nat, ids: set<u64>, limits: Limits)
    requires PlacedFrom(s, table, offset, end, ids, limits).Some?
    ensures var sections := PlacedFrom(s, table, offset, end, ids, limits).value;
            && Tiles(sections, offset, end) && DistinctIds(sections) && |sections| == |table|
            && forall i :: 0 <= i < |sections| ==> sections[i].info.id !in ids
    decreases |table|
  {
    hide InfoOf, ReadAt;
    if table != [] {
      var info := InfoOf(table[0]).value;
      PlacedTiles(s, table[1..], offset + info.length, end, ids + {info.id}, limits);
    }
  }

  /** A section lies inside the data, apart from every other. */
  lemma {:induction false} TilesAreApart(sections: seq<Placed>, from: nat, to: nat, i: nat, j: nat)
    requires Tiles(sections, from, to) && i < j < |sections|
    ensures from <= sections[i].offset && sections[i].offset + sections[i].info.length <= sections[j].offset
    ensures sections[j].offset + sections[j].info.length <= to
    decreases |sections|
  {
    if i > 0 {
      TilesAreApart(sections[1..], from + sections[0].info.length, to, i - 1, j - 1);
    } else {
      TileIsInside(sections[1..], from + sections[0].info.length, to, j - 1);
    }
  }

  lemma {:induction false} TileIsInside(sections: seq<Placed>, from: nat, to: nat, i: nat)
    requires Tiles(sections, from, to) && i < |sections|
    ensures from <= sections[i].offset && sections[i].offset + sections[i].info.length <= to
    decreases |sections|
  {
    if i > 0 {
      TileIsInside(sections[1..], from + sections[0].info.length, to, i - 1);
    } else {
      TilesForward(sections[1..], from + sections[0].info.length, to);
    }
  }

  lemma {:induction false} TilesForward(sections: seq<Placed>, from: nat, to: nat)
    requires Tiles(sections, from, to)
    ensures from <= to
    decreases |sections|
  {
    if sections != [] {
      TilesForward(sections[1..], from + sections[0].info.length, to);
    }
  }

  /** Whatever file is accepted, its sections fill the data region exactly and their identifiers differ. */
  lemma OpenedTiles(s: bytes, tail: nat, limits: Limits)
    requires Open(s, tail, limits).Some?
    ensures var reader := Open(s, tail, limits).value;
            && reader.end + tail == |s| && reader.start + 8 <= reader.dataEnd <= reader.end
            && Tiles(reader.sections, reader.start + 8, reader.dataEnd) && DistinctIds(reader.sections)
  {
    hide PlacedFrom, BlockOf, FromLe, Tiles;
    var reader := Open(s, tail, limits).value;
    PlacedTiles(s, Get(reader.metadata, 0).value.items, reader.start + 8, reader.dataEnd, {}, limits);
  }

  // ---------- What the writer has written ----------

  function Concat(sections: seq<Section>): bytes {
    if sections == [] then [] else Concat(sections[..|sections| - 1]) + sections[|sections| - 1].data
  }

  function InfoFor(section: Section, codec: Blobs.Codec): Info
    requires |section.data| < U64_LIMIT
  {
    Info(section.id, section.kind, |section.data|, Some(Sha256(codec, section.data)), section.typeInfo)
  }

  ghost predicate Describes(item: Item, section: Section, codec: Blobs.Codec) {
    |section.data| < U64_LIMIT && InfoOf(item) == Some(InfoFor(section, codec))
  }

  lemma KeysAreIntegers(section: Section, codec: Blobs.Codec)
    requires MapOf(Fields(section, codec)).Some?
    ensures Blobs.IntegerKeys(MapOf(Fields(section, codec)).value)
  {
    hide MapOf, Sha256;
    var fields := Fields(section, codec);
    var item := MapOf(fields).value;
    MapOfMeaning(fields);
    forall i | 0 <= i < |item.entries| ensures item.entries[i].key.Unsigned? {
      assert item.entries[i] in multiset(item.entries);
      assert item.entries[i] in fields;
    }
  }

  lemma FieldFound(section: Section, codec: Blobs.Codec, k: u64)
    requires MapOf(Fields(section, codec)).Some? && k < 4
    ensures Get(MapOf(Fields(section, codec)).value, k) == Some(Fields(section, codec)[k].value)
  {
    hide MapOf, Get, Sha256;
    var fields := Fields(section, codec);
    MapOfGet(fields, k);
    assert fields[k] == Pair(Unsigned(k), fields[k].value);
    assert fields[k] in fields;
  }

  lemma TypeInfoFound(section: Section, codec: Blobs.Codec)
    requires MapOf(Fields(section, codec)).Some?
    ensures Get(MapOf(Fields(section, codec)).value, 4) == section.typeInfo
  {
    hide MapOf, Get, Sha256;
    var fields := Fields(section, codec);
    var found := Get(MapOf(fields).value, 4);
    MapOfGet(fields, 4);
    forall value: Item ensures found == Some(value) <==> section.typeInfo == Some(value) {
      assert Pair(Unsigned(4), value) in fields <==> found == Some(value);
      if section.typeInfo == Some(value) {
        assert fields[4] == Pair(Unsigned(4), value);
      }
    }
    OptionsAgree(found, section.typeInfo);
  }

  lemma FieldsFound(section: Section, codec: Blobs.Codec)
    requires MapOf(Fields(section, codec)).Some?
    ensures var item := MapOf(Fields(section, codec)).value;
            && Blobs.IntegerKeys(item)
            && Get(item, 0) == Some(Unsigned(section.kind)) && Get(item, 1) == Some(Unsigned(section.id))
            && Get(item, 2) == Some(Unsigned(Count(|section.data|)))
            && Get(item, 3) == Some(ByteString(Sha256(codec, section.data)))
            && Get(item, 4) == section.typeInfo
  {
    hide MapOf, Get, Sha256, Blobs.IntegerKeys;
    KeysAreIntegers(section, codec);
    FieldFound(section, codec, 0);
    FieldFound(section, codec, 1);
    FieldFound(section, codec, 2);
    FieldFound(section, codec, 3);
    TypeInfoFound(section, codec);
  }

  lemma DigestIsChecksum(codec: Blobs.Codec, data: bytes)
    requires BlobBuilder.DigestsFit(codec)
    ensures Blobs.IsChecksum(Sha256(codec, data)) && Blobs.Verifies(codec, Sha256(codec, data), data)
  {
    BlobProofs.ChecksumVerifies(codec, Blobs.SHA256, data);
  }

  /** The descriptor that the writer records describes the section. */
  lemma DescriptorDescribes(section: Section, codec: Blobs.Codec)
    requires BlobBuilder.DigestsFit(codec) && Acceptable(section) && |section.data| < U64_LIMIT
    requires MapOf(Fields(section, codec)).Some?
    ensures Describes(MapOf(Fields(section, codec)).value, section, codec)
  {
    hide MapOf, Find, Get, Sha256, BlobBuilder.DigestsFit, Blobs.IntegerKeys, Blobs.IsChecksum, Blobs.Verifies, Le;
    FieldsFound(section, codec);
    DigestIsChecksum(codec, section.data);
  }

  ghost predicate DistinctInputs(sections: seq<Section>) {
    forall i, j :: 0 <= i < j < |sections| ==> sections[i].id != sections[j].id
  }

  /** The writer's output is the magic and the sections; its table describes them in order. */
  lemma {:induction false} WrittenMeaning(sections: seq<Section>, codec: Blobs.Codec)
    requires BlobBuilder.DigestsFit(codec) && WithSections(sections, codec).Some?
    ensures var w := WithSections(sections, codec).value;
            && w.output == MAGIC + Concat(sections) && |w.output| < U64_LIMIT
            && |w.table| == |sections|
            && (forall i :: 0 <= i < |sections| ==> Acceptable(sections[i]) && Describes(w.table[i], sections[i], codec))
            && (forall i :: 0 <= i < |sections| ==> sections[i].id in w.ids)
            && DistinctInputs(sections)
    decreases |sections|
  {
    hide BlobBuilder.DigestsFit, Acceptable, Describes, Fields, MapOf;
    if sections != [] {
      var last := sections[|sections| - 1];
      WrittenMeaning(sections[..|sections| - 1], codec);
      DescriptorDescribes(last, codec);
    }
  }

  // ---------- Placing the sections ----------

  function PlacedFor(sections: seq<Section>, offset: nat, codec: Blobs.Codec): seq<Placed>
    requires forall i :: 0 <= i < |sections| ==> |sections[i].data| < U64_LIMIT
  {
    if sections == [] then []
    else [Placed(InfoFor(sections[0], codec), offset)] + PlacedFor(sections[1..], offset + |sections[0].data|, codec)
  }

  lemma {:induction false} ConcatFront(sections: seq<Section>)
    requires sections != []
    ensures Concat(sections) == sections[0].data + Concat(sections[1..])
    decreases |sections|
  {
    var front, last := sections[..|sections| - 1], sections[|sections| - 1];
    if front == [] {
      assert Concat(sections[1..]) == [];
    } else {
      ConcatFront(front);
      assert sections[1..][..|sections| - 2] == front[1..];
      assert Concat(sections[1..]) == Concat(front[1..]) + last.data;
    }
  }

  lemma {:induction false} SectionsPlaced(s: bytes, table: seq<Item>, sections: seq<Section>, offset: nat, ids: set<u64>, codec: Blobs.Codec, limits: Limits)
    requires |table| == |sections| && At(s, offset, Concat(sections)) && limits.Bytes(8)
    requires forall i :: 0 <= i < |sections| ==> |sections[i].data| < U64_LIMIT
    requires forall i :: 0 <= i < |sections| ==> Acceptable(sections[i]) && Describes(table[i], sections[i], codec)
    requires DistinctInputs(sections) && forall i :: 0 <= i < |sections| ==> sections[i].id !in ids
    ensures PlacedFrom(s, table, offset, offset + |Concat(sections)|, ids, limits) == Some(PlacedFor(sections, offset, codec))
    decreases |sections|
  {
    hide At, Concat, InfoOf, ReadAt, Sha256, Recognised;
    if sections == [] {
      assert |Concat(sections)| == 0 by { NothingConcat(); }
    } else {
      var first := sections[0];
      ConcatFront(sections);
      AtConcat(s, offset, first.data, Concat(sections[1..]));
      assert Describes(table[0], first, codec);
      if Recognised(first.kind) {
        MagicReads(s, offset, first.data, first.kind, limits);
      }
      SectionsPlaced(s, table[1..], sections[1..], offset + |first.data|, ids + {first.id}, codec, limits);
    }
  }

  lemma NothingConcat()
    ensures Concat([]) == []
  {
  }

  lemma MagicReads(s: bytes, offset: nat, data: bytes, kind: u64, limits: Limits)
    requires At(s, offset, data) && Le(kind, 8) <= data && limits.Bytes(8)
    ensures ReadAt(s, offset, 8, limits) == Some(Le(kind, 8))
  {
    var magic := Le(kind, 8);
    assert data[..|magic|] == magic;
    assert s[offset..offset + 8] == s[offset..offset + |data|][..8] == data[..8];
  }

  // ---------- The metadata block ----------

  lemma BlockReads(metadata: Item, kind: byte, payload: bytes, limits: Limits)
    requires Valid(metadata, 0, limits) && limits.Bytes(|MetadataBlock(metadata, kind, payload)|)
    requires ValidMetadata(metadata) && ValidVerification(kind, payload)
    ensures BlockOf(MetadataBlock(metadata, kind, payload), limits)
            == Some((metadata, kind, payload, |VerificationInput(metadata, kind)|))
    ensures VerificationInput(metadata, kind) <= MetadataBlock(metadata, kind, payload)
  {
    hide Valid, ValidMetadata, ValidVerification, SizedItemAt, SizedAt, Sized, EncodeSized, At, VerificationInput, MetadataBlock;
    var block, body := MetadataBlock(metadata, kind, payload), EncodeSized(metadata);
    BlockLayout(metadata, kind, payload);
    BodyIsShorter(metadata, block, 16);
    SizedItemRoundTrip(block, 16, metadata, limits);
    SizedRoundTrip(block, 17 + |body|, payload, limits);
  }

  lemma BlockLayout(metadata: Item, kind: byte, payload: bytes)
    ensures var block, input, body := MetadataBlock(metadata, kind, payload), VerificationInput(metadata, kind), EncodeSized(metadata);
            && block[..8] == METADATA_MAGIC && block[8..16] == VERSION && At(block, 16, body)
            && block[16 + |body|] == kind && At(block, 17 + |body|, Sized(payload))
            && |input| == 17 + |body| && input <= block && |block| == 17 + |body| + |Sized(payload)|
  {
    hide Sized, EncodeSized;
    var body := EncodeSized(metadata);
    assert MetadataBlock(metadata, kind, payload) == METADATA_MAGIC + VERSION + body + [kind] + Sized(payload);
  }

  lemma BodyIsShorter(metadata: Item, block: bytes, pos: nat)
    requires At(block, pos, EncodeSized(metadata))
    ensures |SizedBody(metadata)| <= |block|
  {
    hide SizedBody, Vuint;
  }

  // ---------- The frame ----------

  lemma FooterReads(metadataLength: nat, fileLength: nat)
    requires metadataLength < U64_LIMIT && fileLength < U64_LIMIT
    ensures var footer := Footer(metadataLength, fileLength);
            && |footer| == FOOTER_LENGTH && footer[..8] == END_MARK
            && FromLe(footer[8..16]) == metadataLength && FromLe(footer[16..24]) == fileLength
  {
    hide Le, FromLe, Pow256;
    Pow256Values();
    LeRoundTrip(metadataLength, 8);
    LeRoundTrip(fileLength, 8);
    var footer := Footer(metadataLength, fileLength);
    assert footer[8..16] == Le(metadataLength, 8) && footer[16..24] == Le(fileLength, 8);
  }

  lemma ReadsAt(s: bytes, offset: nat, data: bytes, limits: Limits)
    requires At(s, offset, data) && limits.Bytes(|data|)
    ensures ReadAt(s, offset, |data|, limits) == Some(data)
  {
  }

  /** What a writer is told, and everything it produced. */
  datatype File = File(sections: seq<Section>, metadata: Item, kind: byte, payload: bytes) {
    function Output(): bytes {
      MAGIC + Concat(sections)
    }

    function Block(): bytes {
      MetadataBlock(metadata, kind, payload)
    }

    function MetadataLength(): nat {
      |Block()| + FOOTER_LENGTH
    }

    function Bytes(): bytes {
      Output() + Block() + Footer(MetadataLength(), |Output()| + MetadataLength())
    }
  }

  /** A reader's limits admit the metadata, and the regions have the recorded sizes. */
  ghost predicate Admits(limits: Limits, file: File, prefix: nat, tail: nat) {
    && Valid(file.metadata, 0, limits) && limits.Bytes(|file.Block()|) && limits.Bytes(FOOTER_LENGTH)
    && limits.Elements(|file.sections|)
    && RegionFits(file.metadata, 1, prefix) && RegionFits(file.metadata, 2, tail)
  }

  /** The table in the metadata describes the sections, which the writer accepted. */
  ghost predicate WellWritten(file: File, codec: Blobs.Codec) {
    && ValidMetadata(file.metadata) && ValidVerification(file.kind, file.payload)
    && |file.Bytes()| < U64_LIMIT && DistinctInputs(file.sections)
    && Get(file.metadata, 0).Some? && Get(file.metadata, 0).value.Array?
    && var table := Get(file.metadata, 0).value.items;
       && |table| == |file.sections|
       && forall i :: 0 <= i < |table| ==> Acceptable(file.sections[i]) && Describes(table[i], file.sections[i], codec)
  }

  lemma FileLayout(prefix: bytes, file: File, tail: bytes)
    ensures var s := prefix + file.Bytes() + tail;
            var dataEnd := |prefix| + |file.Output()|;
            && |s| == dataEnd + file.MetadataLength() + |tail|
            && At(s, |prefix|, MAGIC) && At(s, |prefix| + 8, Concat(file.sections)) && At(s, dataEnd, file.Block())
            && At(s, |s| - |tail| - FOOTER_LENGTH, Footer(file.MetadataLength(), |file.Output()| + file.MetadataLength()))
  {
    hide Concat, MetadataBlock, Le, At;
    var s := prefix + file.Bytes() + tail;
    var footer := Footer(file.MetadataLength(), |file.Output()| + file.MetadataLength());
    AtSelf(s);
    AtConcat(s, 0, prefix + file.Bytes(), tail);
    AtConcat(s, 0, prefix, file.Bytes());
    AtConcat(s, |prefix|, file.Output() + file.Block(), footer);
    AtConcat(s, |prefix|, file.Output(), file.Block());
    AtConcat(s, |prefix|, MAGIC, Concat(file.sections));
  }

  /**
   * Opening a written container between any prefix and tail gives back its metadata, its verification
   * payload and exact input, and every section where its bytes are.
   */
  lemma WrittenOpens(prefix: bytes, file: File, tail: bytes, codec: Blobs.Codec, limits: Limits)
    requires WellWritten(file, codec) && Admits(limits, file, |prefix|, |tail|)
    ensures (forall i :: 0 <= i < |file.sections| ==> |file.sections[i].data| < U64_LIMIT)
    ensures var s := prefix + file.Bytes() + tail;
            Open(s, |tail|, limits)
            == Some(Opened(|prefix|, |s| - |tail|, file.metadata, PlacedFor(file.sections, |prefix| + 8, codec),
                           |prefix| + |file.Output()|, file.kind, file.payload, VerificationInput(file.metadata, file.kind)))
  {
    hide Concat, MetadataBlock, VerificationInput, Footer, Le, FromLe, At, ValidMetadata, ValidVerification, Acceptable, Valid, ReadAt, BlockOf,
         PlacedFrom, PlacedFor, Get, RegionFits, DistinctInputs;
    var s := prefix + file.Bytes() + tail;
    FileLayout(prefix, file, tail);
    FooterReads(file.MetadataLength(), |file.Output()| + file.MetadataLength());
    ReadsAt(s, |s| - |tail| - FOOTER_LENGTH, Footer(file.MetadataLength(), |file.Output()| + file.MetadataLength()), limits);
    ReadsAt(s, |prefix|, MAGIC, limits);
    ReadsAt(s, |prefix| + |file.Output()|, file.Block(), limits);
    BlockReads(file.metadata, file.kind, file.payload, limits);
    SectionsFit(file, codec);
    SectionsPlaced(s, Get(file.metadata, 0).value.items, file.sections, |prefix| + 8, {}, codec, limits);
    var end, dataEnd := |s| - |tail|, |prefix| + |file.Output()|;
    assert end - FOOTER_LENGTH - dataEnd == |file.Block()|;
    assert file.Block()[..|VerificationInput(file.metadata, file.kind)|] == VerificationInput(file.metadata, file.kind);
    assert OpenedFrame(s, |prefix|, dataEnd, end, limits)
           == Some(Opened(|prefix|, end, file.metadata, PlacedFor(file.sections, |prefix| + 8, codec), dataEnd, file.kind, file.payload,
                          VerificationInput(file.metadata, file.kind)));
  }

  lemma SectionsFit(file: File, codec: Blobs.Codec)
    requires WellWritten(file, codec)
    ensures forall i :: 0 <= i < |file.sections| ==> |file.sections[i].data| < U64_LIMIT
  {
    forall i | 0 <= i < |file.sections| ensures |file.sections[i].data| < U64_LIMIT {
      assert Describes(Get(file.metadata, 0).value.items[i], file.sections[i], codec);
    }
  }
}
