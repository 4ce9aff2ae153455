/** From a finished container back to its sections, its checksums, and the packed files inside. */
module ContainerTheorems {
  import opened Binary
  import opened Cbor
  import opened CborValues
  import opened Containers
  import opened ContainerProofs
  import Blobs
  import BlobBuilder
  import BlobProofs
  import Pack
  import PackTheorems
  import PackFitting
  import PackReading
  import PackedArchives
  import Trees
  import BlobStores
  import ResourceReader
  import Resources

  // ---------- A finished container ----------

  lemma TableFound(w: Written, metadata: Item, key: u64)
    requires WithTable(w, metadata).Some?
    ensures Get(WithTable(w, metadata).value, 0) == Some(Array(w.table))
    ensures DistinctKeys(metadata.entries) && key != 0 ==> Get(WithTable(w, metadata).value, key) == Get(metadata, key)
  {
    hide MapOf, Find, DistinctKeys;
    var table := Pair(Unsigned(0), Array(w.table));
    var fields := metadata.entries + [table];
    MapOfGet(fields, 0);
    assert fields[|fields| - 1] == table;
    assert table in fields;
    if DistinctKeys(metadata.entries) && key != 0 {
      MapOfGet(fields, key);
      FindMeaning(metadata.entries, key);
      forall value: Item ensures Get(WithTable(w, metadata).value, key) == Some(value) <==> Get(metadata, key) == Some(value) {
        var field := Pair(Unsigned(key), value);
        assert field in fields <==> field in metadata.entries || field == table;
      }
      OptionsAgree(Get(WithTable(w, metadata).value, key), Get(metadata, key));
    }
  }

  /** What the writer finishes is a well-written file; a checksum payload verifies its own input. */
  lemma FinishedIsWellWritten(sections: seq<Section>, metadata: Item, kind: byte, sign: bytes -> Option<bytes>, codec: Blobs.Codec)
    returns (file: File)
    requires BlobBuilder.DigestsFit(codec) && WithSections(sections, codec).Some?
    requires FinishedWith(WithSections(sections, codec).value, metadata, kind, sign, codec).Some?
    ensures WellWritten(file, codec) && file.sections == sections && file.kind == kind
    ensures file.Bytes() == FinishedWith(WithSections(sections, codec).value, metadata, kind, sign, codec).value
    ensures WithTable(WithSections(sections, codec).value, metadata) == Some(file.metadata)
    ensures sign(VerificationInput(file.metadata, kind)) == Some(file.payload)
    ensures kind == 1 ==> Blobs.IsChecksum(file.payload) && Blobs.Verifies(codec, file.payload, VerificationInput(file.metadata, kind))
  {
    hide WithSections, WithTable, ValidMetadata, MetadataBlock, VerificationInput, Footer, BlobBuilder.DigestsFit, Concat, DistinctInputs, Acceptable, Describes,
         Blobs.IsChecksum, Blobs.Verifies;
    var w := WithSections(sections, codec).value;
    WrittenMeaning(sections, codec);
    var complete := WithTable(w, metadata).value;
    TableFound(w, metadata, 0);
    var payload := sign(VerificationInput(complete, kind)).value;
    file := File(sections, complete, kind, payload);
    FooterIsFixed(file.MetadataLength(), |file.Output()| + file.MetadataLength());
  }

  lemma FooterIsFixed(metadataLength: nat, fileLength: nat)
    ensures |Footer(metadataLength, fileLength)| == FOOTER_LENGTH
  {
  }

  // ---------- Reading the sections back ----------

  lemma {:induction false} SectionsAt(s: bytes, sections: seq<Section>, offset: nat, codec: Blobs.Codec, i: nat)
    requires (forall k :: 0 <= k < |sections| ==> |sections[k].data| < U64_LIMIT) && i < |sections|
    requires At(s, offset, Concat(sections))
    ensures var placed := PlacedFor(sections, offset, codec);
            |placed| == |sections| && placed[i].info == InfoFor(sections[i], codec) && At(s, placed[i].offset, sections[i].data)
    decreases |sections|
  {
    hide At, Concat, Sha256;
    ConcatFront(sections);
    AtConcat(s, offset, sections[0].data, Concat(sections[1..]));
    if |sections| > 1 {
      SectionsAt(s, sections[1..], offset + |sections[0].data|, codec, if i > 0 then i - 1 else 0);
    }
  }

  lemma {:induction false} SectionIsFound(sections: seq<Placed>, i: nat)
    requires DistinctIds(sections) && i < |sections|
    ensures SectionOf(sections, sections[i].info.id) == Some(sections[i])
    decreases |sections|
  {
    if i > 0 {
      assert sections[0].info.id != sections[i].info.id;
      SectionIsFound(sections[1..], i - 1);
    }
  }

  /** A reader finds every section by its identifier and reads back its bytes, whole or in part. */
  lemma SectionReadsBack(prefix: bytes, file: File, tail: bytes, codec: Blobs.Codec, limits: Limits, i: nat, from: nat, length: nat)
    requires WellWritten(file, codec) && Admits(limits, file, |prefix|, |tail|)
    requires i < |file.sections| && from + length <= |file.sections[i].data| && limits.Bytes(length)
    ensures var s := prefix + file.Bytes() + tail;
            var reader := Open(s, |tail|, limits);
            reader.Some?
            && ReadSectionRange(s, reader.value, file.sections[i].id, from, length, limits) == Some(file.sections[i].data[from..from + length])
  {
    hide WellWritten, Admits, Open, At, Concat, PlacedFor, Sha256, File.Bytes, SectionOf, ReadSectionRange, DistinctIds, Tiles;
    var s := prefix + file.Bytes() + tail;
    WrittenOpens(prefix, file, tail, codec, limits);
    FileLayout(prefix, file, tail);
    SectionsAt(s, file.sections, |prefix| + 8, codec, i);
    OpenedTiles(s, |tail|, limits);
    PlacedReads(s, Open(s, |tail|, limits).value, i, file.sections[i].data, from, length, limits);
  }

  lemma PlacedReads(s: bytes, reader: Opened, i: nat, data: bytes, from: nat, length: nat, limits: Limits)
    requires DistinctIds(reader.sections) && i < |reader.sections| && reader.sections[i].info.length == |data|
    requires At(s, reader.sections[i].offset, data) && from + length <= |data| && limits.Bytes(length)
    ensures ReadSectionRange(s, reader, reader.sections[i].info.id, from, length, limits) == Some(data[from..from + length])
  {
    hide At, SectionOf, DistinctIds;
    SectionIsFound(reader.sections, i);
    PartReads(s, reader.sections[i].offset, data, from, length);
  }

  lemma PartReads(s: bytes, offset: nat, data: bytes, from: nat, length: nat)
    requires At(s, offset, data) && from + length <= |data|
    ensures offset + from + length <= |s| && s[offset + from..offset + from + length] == data[from..from + length]
  {
    assert data == data[..from] + data[from..from + length] + data[from + length..];
    AtConcat(s, offset, data[..from] + data[from..from + length], data[from + length..]);
    AtConcat(s, offset, data[..from], data[from..from + length]);
  }

  // ---------- Checksums ----------

  lemma {:induction false} SectionsVerify(s: bytes, sections: seq<Section>, offset: nat, codec: Blobs.Codec, report: Report)
    requires (forall k :: 0 <= k < |sections| ==> |sections[k].data| < U64_LIMIT) && BlobBuilder.DigestsFit(codec)
    requires At(s, offset, Concat(sections))
    ensures SectionsReport(codec, s, PlacedFor(sections, offset, codec), report) == Some(Report(report.verified + |sections|, report.secure))
    decreases |sections|
  {
    hide Concat, BlobBuilder.DigestsFit, Blobs.IsChecksum, Blobs.Verifies;
    if sections != [] {
      var first := sections[0];
      ConcatFront(sections);
      AtConcat(s, offset, first.data, Concat(sections[1..]));
      DigestIsChecksum(codec, first.data);
      SectionsVerify(s, sections[1..], offset + |first.data|, codec, Report(report.verified + 1, report.secure));
    }
  }

  /** A recorded region checksum matches the bytes it stands for. */
  ghost predicate RegionVerifies(codec: Blobs.Codec, metadata: Item, key: u64, data: bytes) {
    var region := Get(metadata, key);
    region.Some? && Get(region.value, 1).Some? ==>
      var checksum := Get(region.value, 1).value;
      checksum.ByteString? && Blobs.IsChecksum(checksum.data) && Blobs.Verifies(codec, checksum.data, data)
  }

  function Recorded(metadata: Item, key: u64): nat {
    if Get(metadata, key).Some? && Get(Get(metadata, key).value, 1).Some? then 1 else 0
  }

  /** The region leaves secure coverage intact: constrained, and empty or under a secure checksum. */
  predicate Covered(metadata: Item, key: u64, length: nat) {
    Get(metadata, key).Some? && (length == 0 ||
      (Get(Get(metadata, key).value, 1).Some? && Get(Get(metadata, key).value, 1).value.ByteString?
       && Get(Get(metadata, key).value, 1).value.data != [] && Secure(Get(Get(metadata, key).value, 1).value.data[0])))
  }

  lemma RegionReports(codec: Blobs.Codec, s: bytes, metadata: Item, key: u64, offset: nat, data: bytes, report: Report)
    requires At(s, offset, data) && RegionVerifies(codec, metadata, key, data)
    ensures RegionReport(codec, s, metadata, key, offset, |data|, report)
            == Some(Report(report.verified + Recorded(metadata, key), report.secure && Covered(metadata, key, |data|)))
  {
    hide Get;
  }

  /**
   * Every checksum of a written container verifies, the report counts each one, and coverage is reported
   * secure exactly when both external regions are constrained.
   */
  lemma WrittenVerifies(prefix: bytes, file: File, tail: bytes, codec: Blobs.Codec, limits: Limits)
    requires WellWritten(file, codec) && Admits(limits, file, |prefix|, |tail|) && BlobBuilder.DigestsFit(codec)
    requires file.kind == 1 ==> Blobs.IsChecksum(file.payload) && Blobs.Verifies(codec, file.payload, VerificationInput(file.metadata, file.kind))
    requires RegionVerifies(codec, file.metadata, 1, prefix) && RegionVerifies(codec, file.metadata, 2, tail)
    ensures var s := prefix + file.Bytes() + tail;
            var reader := Open(s, |tail|, limits);
            reader.Some? && reader.value.end <= |s|
            && VerifiedReport(codec, s, reader.value)
               == Some(Report(|file.sections| + Recorded(file.metadata, 1) + Recorded(file.metadata, 2),
                              Covered(file.metadata, 1, |prefix|) && Covered(file.metadata, 2, |tail|)))
  {
    hide WellWritten, Admits, Open, At, Concat, PlacedFor, File.Bytes, BlobBuilder.DigestsFit, Blobs.IsChecksum, Blobs.Verifies, RegionVerifies, RegionReport,
         Recorded, Covered, VerificationInput, SectionsReport;
    var s := prefix + file.Bytes() + tail;
    WrittenOpens(prefix, file, tail, codec, limits);
    FileLayout(prefix, file, tail);
    SectionsVerify(s, file.sections, |prefix| + 8, codec, Report(0, true));
    AtSelf(s);
    AtConcat(s, 0, prefix + file.Bytes(), tail);
    AtConcat(s, 0, prefix, file.Bytes());
    var sections := Report(|file.sections|, true);
    RegionReports(codec, s, file.metadata, 1, 0, prefix, sections);
    var before := Report(|file.sections| + Recorded(file.metadata, 1), Covered(file.metadata, 1, |prefix|));
    RegionReports(codec, s, file.metadata, 2, |prefix + file.Bytes()|, tail, before);
  }

  // ---------- The blob reader's view ----------

  /** The sections as the blob reader sees them. */
  function SectionMap(s: bytes, sections: seq<Placed>): map<u64, Blobs.Section> {
    if sections == [] then map[]
    else
      var Placed(info, offset) := sections[|sections| - 1];
      SectionMap(s, sections[..|sections| - 1])
      [info.id := Blobs.Section(info.kind, info.typeInfo, if offset + info.length <= |s| then s[offset..offset + info.length] else [])]
  }

  function ViewOf(s: bytes, reader: Opened, codec: Blobs.Codec, limits: Limits): Blobs.View {
    Blobs.View(SectionMap(s, reader.sections), codec, limits)
  }

  lemma {:induction false} SectionMapHolds(s: bytes, sections: seq<Placed>, i: nat)
    requires DistinctIds(sections) && i < |sections| && sections[i].offset + sections[i].info.length <= |s|
    ensures var placed := sections[i];
            placed.info.id in SectionMap(s, sections)
            && SectionMap(s, sections)[placed.info.id]
               == Blobs.Section(placed.info.kind, placed.info.typeInfo, s[placed.offset..placed.offset + placed.info.length])
    decreases |sections|
  {
    if i < |sections| - 1 {
      assert sections[i].info.id != sections[|sections| - 1].info.id;
      SectionMapHolds(s, sections[..|sections| - 1], i);
    }
  }

  /** The view over an opened container holds every written section under its identifier. */
  lemma ViewHoldsSections(prefix: bytes, file: File, tail: bytes, codec: Blobs.Codec, limits: Limits, i: nat)
    requires WellWritten(file, codec) && Admits(limits, file, |prefix|, |tail|) && i < |file.sections|
    ensures var s := prefix + file.Bytes() + tail;
            var reader := Open(s, |tail|, limits);
            reader.Some?
            && var view := ViewOf(s, reader.value, codec, limits);
               var section := file.sections[i];
               section.id in view.sections && view.sections[section.id] == Blobs.Section(section.kind, section.typeInfo, section.data)
  {
    hide WellWritten, Admits, Open, Concat, PlacedFor, Sha256, File.Bytes, SectionMap;
    var s := prefix + file.Bytes() + tail;
    WrittenOpens(prefix, file, tail, codec, limits);
    FileLayout(prefix, file, tail);
    SectionsAt(s, file.sections, |prefix| + 8, codec, i);
    OpenedTiles(s, |tail|, limits);
    SectionMapHolds(s, Open(s, |tail|, limits).value.sections, i);
  }

  /** Section `i` is a finished pool that a reader's limits admit. */
  ghost predicate Carries(file: File, i: nat, limits: Limits, built: Pack.PackedPool, cfg: Pack.Config) {
    && i < |file.sections|
    && file.sections[i] == Section(cfg.poolId, BLOB_POOL, built.section.data, Some(built.section.typeInfo))
    && PackTheorems.AdmitsPool(limits, built, cfg)
  }

  /**
   * End to end: a packed root stored as a section of any written container, between any prefix and tail, is
   * found by opening the file, and every imported file reads back through it.
   */
  lemma PackedContainerIsLossless(prefix: bytes, file: File, tail: bytes, limits: Limits, accepts: Item -> bool,
                                  layers: seq<Resources.Layer>, name: bytes, cfg: Pack.Config, built: Pack.PackedPool, i: nat)
    requires BlobBuilder.Faithful(cfg.codec, limits) && WellWritten(file, cfg.codec) && Admits(limits, file, |prefix|, |tail|)
    requires Pack.PackedRoot(layers, name, cfg) == Some(built) && Carries(file, i, limits, built, cfg)
    requires Resources.FitsRoot(built.root, accepts, limits) && Resources.ValidRoot(built.root, limits)
    requires PackTheorems.AllDistinct(layers)
    ensures var s := prefix + file.Bytes() + tail;
            var reader := Open(s, |tail|, limits);
            reader.Some?
            && var view := ViewOf(s, reader.value, cfg.codec, limits);
               && Blobs.Resolve(view, built.reference, false) == Some(built.rootBytes)
               && Resources.DecodedRoot(view, accepts, built.rootBytes) == Some((built.root, built.names.entries))
               && PackTheorems.LayersRead(view, layers, built.root.layers, built.names.entries)
  {
    hide WellWritten, Open, File.Bytes, SectionMap, Pack.PackedRoot, PackTheorems.AdmitsPool, Resources.FitsRoot, Resources.ValidRoot,
         BlobBuilder.Faithful, PackTheorems.AllDistinct, PackTheorems.LayersRead, Blobs.Resolve, Resources.DecodedRoot, Admits;
    var s := prefix + file.Bytes() + tail;
    ViewHoldsSections(prefix, file, tail, cfg.codec, limits, i);
    var view := ViewOf(s, Open(s, |tail|, limits).value, cfg.codec, limits);
    PackTheorems.PackingIsLossless(view, accepts, layers, name, cfg);
  }

  /** The same from conditions on the imported layers, through a store that need not trust any other section. */
  lemma ImportedContainerIsLossless(prefix: bytes, file: File, tail: bytes, limits: Limits, accepts: Item -> bool,
                                    layers: seq<Resources.Layer>, name: bytes, cfg: Pack.Config, built: Pack.PackedPool, i: nat)
    requires BlobBuilder.Faithful(cfg.codec, limits) && WellWritten(file, cfg.codec) && Admits(limits, file, |prefix|, |tail|)
    requires Pack.PackedRoot(layers, name, cfg) == Some(built) && Carries(file, i, limits, built, cfg)
    requires PackFitting.FitsImport(layers, name, accepts, cfg.transform, limits)
    ensures var s := prefix + file.Bytes() + tail;
            var reader := Open(s, |tail|, limits);
            reader.Some?
            && var view := BlobStores.Trusted(ViewOf(s, reader.value, cfg.codec, limits));
               && ResourceReader.LoadedRoot(view, accepts, built.reference) == Some((built.root, built.names.entries))
               && PackTheorems.LayersRead(view, layers, built.root.layers, built.names.entries)
  {
    hide Pack.PackedRoot, WellWritten, Admits, Open, File.Bytes, SectionMap, PackFitting.FitsImport, PackTheorems.LayersRead, PackTheorems.AdmitsPool,
         BlobBuilder.Faithful, ResourceReader.LoadedRoot, BlobStores.Trusted;
    ViewHoldsSections(prefix, file, tail, cfg.codec, limits, i);
    var view := ViewOf(prefix + file.Bytes() + tail, Open(prefix + file.Bytes() + tail, |tail|, limits).value, cfg.codec, limits);
    PackReading.PackedLoads(view, accepts, layers, name, cfg);
  }

  /** The opened file gives the packed root, whose layers merge and expand as the imported ones. */
  ghost predicate ExpandsTo(s: bytes, tail: nat, limits: Limits, accepts: Item -> bool, layers: seq<Resources.Layer>, built: Pack.PackedPool,
                            codec: Blobs.Codec, matches: Item -> Option<bool>, maxBytes: nat) {
    && Open(s, tail, limits).Some?
    && var view := BlobStores.Trusted(ViewOf(s, Open(s, tail, limits).value, codec, limits));
       && ResourceReader.LoadedRoot(view, accepts, built.reference) == Some((built.root, built.names.entries))
       && PackedArchives.ArchivesAlike(view, Trees.Merged(layers, matches, limits), Trees.Merged(built.root.layers, matches, limits),
                                       built.names.entries, maxBytes)
  }

  /** From the imported layers through a container to an archive: what is expanded is what the imported layers expand to. */
  lemma ContainerExpandsAsImported(prefix: bytes, file: File, tail: bytes, limits: Limits, accepts: Item -> bool, layers: seq<Resources.Layer>,
                                   name: bytes, cfg: Pack.Config, built: Pack.PackedPool, i: nat, matches: Item -> Option<bool>, maxBytes: nat)
    requires BlobBuilder.Faithful(cfg.codec, limits) && WellWritten(file, cfg.codec) && Admits(limits, file, |prefix|, |tail|)
    requires Pack.PackedRoot(layers, name, cfg) == Some(built) && Carries(file, i, limits, built, cfg)
    requires PackFitting.FitsImport(layers, name, accepts, cfg.transform, limits)
    ensures ExpandsTo(prefix + file.Bytes() + tail, |tail|, limits, accepts, layers, built, cfg.codec, matches, maxBytes)
  {
    hide Pack.PackedRoot, WellWritten, Admits, Open, File.Bytes, SectionMap, PackFitting.FitsImport, PackTheorems.AdmitsPool, Trees.Merged,
         BlobBuilder.Faithful, ResourceReader.LoadedRoot, BlobStores.Trusted, PackedArchives.ArchivesAlike;
    ViewHoldsSections(prefix, file, tail, cfg.codec, limits, i);
    var view := ViewOf(prefix + file.Bytes() + tail, Open(prefix + file.Bytes() + tail, |tail|, limits).value, cfg.codec, limits);
    PackedArchives.PackedArchive(view, accepts, layers, name, cfg, matches, maxBytes);
  }
}
