/** Pools made by the writer pass the reader's full validation. */
module BlobTheorems {
  import opened Binary
  import opened Ranges
  import opened Blobs
  import opened BlobBuilder
  import opened BlobProofs
  import opened BlobStores

  lemma {:induction false} StoredRangesConcat(a: seq<Entry>, b: seq<Entry>)
    ensures StoredRanges(a + b) == StoredRanges(a) + StoredRanges(b)
    decreases |a|
  {
    hide PlaceOf;
    if a == [] {
      assert a + b == b;
    } else {
      StoredRangesConcat(a[1..], b);
      assert (a + b)[1..] == a[1..] + b;
    }
  }

  /** The directory of a finished pool. */
  ghost function InfoOf(b: Builder, codec: Codec, shift: u64): PoolInfo
    requires |b.entries| < U64_LIMIT
  {
    PoolInfo(|b.entries|, shift, |PagesOfPool(b, codec, shift).0|, PagesOfPool(b, codec, shift).1)
  }

  /** The pages read so far list the stored ranges of a prefix of the entries, in order. */
  lemma {:induction false} PagesListInOrder(view: View, id: u64, b: Builder, contents: seq<bytes>, shift: u64, k: nat)
    requires Published(view, id, b, contents, shift) && k <= |PagesOfPool(b, view.codec, shift).1|
    requires |b.entries| < U64_LIMIT
    ensures RangesOf(view, id, InfoOf(b, view.codec, shift), Upto(k))
            == StoredRanges(b.entries[..Min(Times(k, PageSize(shift)), |b.entries|)])
    decreases k
  {
    hide Published, PagesOfPool, PageEntries, StoredRanges, RangesOf;
    var info := InfoOf(b, view.codec, shift);
    var size := PageSize(shift);
    if k == 0 {
      NoRanges(view, id, info);
      assert b.entries[..0] == [];
    } else {
      PagesListInOrder(view, id, b, contents, shift, k - 1);
      PublishedPage(view, id, b, contents, shift, k - 1);
      RangesOfOneMore(view, id, info, Upto(k - 1), k - 1);
      assert Upto(k) == Upto(k - 1) + [k - 1];
      var before, chunk := b.entries[..Times(k - 1, size)], ChunkOf(b, shift, k - 1);
      assert before + chunk == b.entries[..Min(Times(k, size), |b.entries|)];
      StoredRangesConcat(before, chunk);
    }
  }

  lemma NoRanges(view: View, id: u64, info: PoolInfo)
    ensures StoredRanges([]) == [] && RangesOf(view, id, info, []) == []
  {
  }

  lemma PublishedTableIsValid(view: View, id: u64, b: Builder, contents: seq<bytes>, shift: u64)
    requires Published(view, id, b, contents, shift)
    ensures ValidTable(view, id)
  {
    hide Published, PagesOfPool, StoredRanges, Directory, AllDecode, Sound, PagesHold, Places, RangesOf, Represents;
    PublishedCount(view, id, b, contents, shift);
    PublishedDirectory(view, id, b, contents, shift);
    var (data, pages) := PagesOfPool(b, view.codec, shift);
    var order := Upto(|pages|);
    PublishedPagesDecode(view, id, b, contents, shift);
    PagesListInOrder(view, id, b, contents, shift, |pages|);
    PublishedCovers(view, id, b, contents, shift);
    assert b.entries[..|b.entries|] == b.entries;
    PublishedRepresents(view, id, b, contents, shift);
    PublishedIsSound(b, view.codec, contents, shift);
    SoundIsUnordered(StoredRanges(b.entries) + Places(pages), SeenRanges(view, id, InfoOf(b, view.codec, shift), order), |data|);
  }

  lemma PublishedRepresents(view: View, id: u64, b: Builder, contents: seq<bytes>, shift: u64)
    requires Published(view, id, b, contents, shift)
    ensures Represents(b, view.codec, contents) && 8 <= shift <= 12
  {
    hide Represents, AdmitsTable, Faithful;
  }

  lemma PublishedPagesDecode(view: View, id: u64, b: Builder, contents: seq<bytes>, shift: u64)
    requires Published(view, id, b, contents, shift) && |b.entries| < U64_LIMIT
    ensures AllDecode(view, id, InfoOf(b, view.codec, shift), Upto(|PagesOfPool(b, view.codec, shift).1|))
  {
    hide Published, PagesOfPool, PageEntries;
    forall k | 0 <= k < |PagesOfPool(b, view.codec, shift).1|
      ensures PageEntries(view, id, InfoOf(b, view.codec, shift), k).Some?
    {
      PublishedPage(view, id, b, contents, shift, k);
    }
  }

  lemma PublishedCovers(view: View, id: u64, b: Builder, contents: seq<bytes>, shift: u64)
    requires Published(view, id, b, contents, shift)
    ensures Min(Times(|PagesOfPool(b, view.codec, shift).1|, PageSize(shift)), |b.entries|) == |b.entries|
  {
    hide Published, PagesHold;
    PublishedBasics(view, id, b, contents, shift);
    var (data, pages) := PagesOfPool(b, view.codec, shift);
    PagesCount(data, pages, b.entries, PageSize(shift), view.codec);
  }

  /** A pool built by any pushes and finished at any shift passes full validation. */
  lemma PublishedPoolIsValid(view: View, id: u64, b: Builder, contents: seq<bytes>, shift: u64)
    requires Published(view, id, b, contents, shift)
    ensures ValidPool(view, id)
  {
    hide Published, PagesOfPool, PagesHold, ValidTable, EntryOf, ExtentFits;
    PublishedTableIsValid(view, id, b, contents, shift);
    PublishedDirectory(view, id, b, contents, shift);
    forall k: u64 | k < Directory(view, id).value.count ensures ExtentsFitAt(view, id, k) {
      PublishedEntry(view, id, b, contents, shift, k);
      PublishedKind(view, id, b, contents, shift, k);
      if b.entries[k].Extents? {
        var extents := b.entries[k].extents;
        forall j | 0 <= j < |extents| ensures ExtentFits(view, id, extents[j]) {
          assert Allowed(b.entries, extents[j]);
          PublishedExtentFits(view, id, b, contents, shift, extents[j]);
        }
      }
    }
  }

  lemma PublishedKind(view: View, id: u64, b: Builder, contents: seq<bytes>, shift: u64, k: nat)
    requires Published(view, id, b, contents, shift) && k < |b.entries|
    ensures !b.entries[k].Unknown?
    ensures b.entries[k].Extents? ==> AllAllowed(b.entries, b.entries[k].extents)
  {
    hide Sound, AdmitsTable, Faithful;
    assert EntryMeans(b, view.codec, b.entries[k], contents, contents[k]);
  }
}
