/** A packed root is read by a lazy store, whatever other pools the container holds. */
module PackReading {
  import opened Binary
  import opened Cbor
  import opened Resources
  import opened ResourceReader
  import opened BlobBuilder
  import opened BlobStores
  import opened Pack
  import opened PackTheorems
  import opened PackFitting
  import Blobs
  import BlobProofs
  import BlobTheorems

  /** The container holds the finished pool, and the reader admits its table, names and root. */
  ghost predicate Holds(view: Blobs.View, built: PackedPool, cfg: Config) {
    && view.codec == cfg.codec && Faithful(cfg.codec, view.limits)
    && cfg.poolId in view.sections
    && view.sections[cfg.poolId] == Blobs.Section(Blobs.BLOB_POOL, Some(built.section.typeInfo), built.section.data)
    && AdmitsPool(view.limits, built, cfg)
  }

  /** The packed pool stays when pools without a valid table are set aside. */
  lemma HeldIsTrusted(view: Blobs.View, accepts: Item -> bool, layers: seq<Layer>, name: bytes, cfg: Config)
    requires PackedRoot(layers, name, cfg).Some? && Holds(view, PackedRoot(layers, name, cfg).value, cfg)
    requires FitsImport(layers, name, accepts, cfg.transform, view.limits)
    ensures Readable(Trusted(view), accepts, PackedRoot(layers, name, cfg).value, cfg)
    ensures AllDistinct(layers)
  {
    hide PackedRoot, FitsImport, Trusted, AdmitsPool, FitsRoot, ValidRoot, Faithful, Stands, BlobProofs.Published, ValidTable, AllDistinct;
    var built := PackedRoot(layers, name, cfg).value;
    FaithfulDigests(cfg.codec, view.limits);
    PackedFits(layers, name, accepts, cfg, view.limits);
    assert Readable(view, accepts, built, cfg);
    var _ := PackedRootStands(layers, name, cfg);
    StandingIsPublished(view, accepts, layers, built, cfg);
    BlobTheorems.PublishedTableIsValid(view, cfg.poolId, built.state.pool, built.state.contents, 8);
    TrustedKeeps(view, cfg.poolId);
    TrustedCodec(view);
  }

  /**
   * From conditions on the imported layers alone: valid tables suffice to load the packed root at its reference
   * and to read every imported file back. A lazy store over the view finds whatever valid tables give, so it
   * succeeds even when other pools of the container are damaged.
   */
  lemma PackedLoads(view: Blobs.View, accepts: Item -> bool, layers: seq<Layer>, name: bytes, cfg: Config)
    requires PackedRoot(layers, name, cfg).Some? && Holds(view, PackedRoot(layers, name, cfg).value, cfg)
    requires FitsImport(layers, name, accepts, cfg.transform, view.limits)
    ensures var built := PackedRoot(layers, name, cfg).value;
            && LoadedRoot(Trusted(view), accepts, built.reference) == Some((built.root, built.names.entries))
            && LayersRead(Trusted(view), layers, built.root.layers, built.names.entries)
  {
    hide PackedRoot, FitsImport, Trusted, Readable, DecodedRoot, LayersRead, AllDistinct, Blobs.Resolve, Holds;
    HeldIsTrusted(view, accepts, layers, name, cfg);
    PackingIsLossless(Trusted(view), accepts, layers, name, cfg);
  }
}
