/** The reader with lazily loaded table pages agrees with a reader that knows every page. */
module BlobStores {
  import opened Binary
  import opened Ranges
  import opened Blobs

  // ---------- Loading pages in some order ----------

  /** The stored ranges that one page adds, if it decodes. */
  function PageRanges(view: View, id: u64, info: PoolInfo, page: nat): seq<Range> {
    if page < |info.pages| && PageEntries(view, id, info, page).Some?
    then StoredRanges(PageEntries(view, id, info, page).value) else []
  }

  function RangesOf(view: View, id: u64, info: PoolInfo, order: seq<nat>): seq<Range> {
    if order == [] then [] else RangesOf(view, id, info, order[..|order| - 1]) + PageRanges(view, id, info, order[|order| - 1])
  }

  /** Everything registered after loading pages in this order. */
  function SeenRanges(view: View, id: u64, info: PoolInfo, order: seq<nat>): seq<Range> {
    Places(info.pages) + RangesOf(view, id, info, order)
  }

  ghost predicate AllDecode(view: View, id: u64, info: PoolInfo, order: seq<nat>) {
    forall i :: 0 <= i < |order| ==> order[i] < |info.pages| && PageEntries(view, id, info, order[i]).Some?
  }

  /** Loading these pages one after another succeeds. */
  ghost predicate Loads(view: View, id: u64, info: PoolInfo, order: seq<nat>) {
    AllDecode(view, id, info, order) && Sound(SeenRanges(view, id, info, order), info.size)
  }

  lemma RangesOfOneMore(view: View, id: u64, info: PoolInfo, order: seq<nat>, page: nat)
    ensures RangesOf(view, id, info, order + [page]) == RangesOf(view, id, info, order) + PageRanges(view, id, info, page)
  {
    hide PageRanges;
    assert (order + [page])[..|order|] == order;
  }

  lemma {:induction false} RangesOfRemoved(view: View, id: u64, info: PoolInfo, order: seq<nat>, k: nat)
    requires k < |order|
    ensures multiset(RangesOf(view, id, info, order))
         == multiset(RangesOf(view, id, info, order[..k] + order[k + 1..])) + multiset(PageRanges(view, id, info, order[k]))
    decreases |order|
  {
    hide PageRanges, RangesOf;
    var front, last := order[..|order| - 1], order[|order| - 1];
    assert order == front + [last];
    RangesOfOneMore(view, id, info, front, last);
    if k == |front| {
      assert order[..k] + order[k + 1..] == front;
    } else {
      RangesOfRemoved(view, id, info, front, k);
      RangesOfOneMore(view, id, info, front[..k] + front[k + 1..], last);
      assert order[..k] + order[k + 1..] == (front[..k] + front[k + 1..]) + [last];
    }
  }

  lemma {:induction false} RangesOfUnordered(view: View, id: u64, info: PoolInfo, a: seq<nat>, b: seq<nat>)
    requires multiset(a) == multiset(b)
    ensures multiset(RangesOf(view, id, info, a)) == multiset(RangesOf(view, id, info, b))
    decreases |a|
  {
    hide PageRanges;
    if a == [] {
      assert |multiset(b)| == |b|;
    } else {
      var k := LastOccurs(a, b);
      RangesOfRemoved(view, id, info, b, k);
      RangesOfUnordered(view, id, info, a[..|a| - 1], b[..k] + b[k + 1..]);
    }
  }

  lemma RemovedCounts(a: seq<nat>, k: nat)
    requires k < |a|
    ensures multiset(a[..k] + a[k + 1..]) == multiset(a) - multiset{a[k]}
  {
    assert a == a[..k] + [a[k]] + a[k + 1..];
    assert multiset(a) == multiset(a[..k]) + multiset{a[k]} + multiset(a[k + 1..]);
  }

  lemma LastOccurs(a: seq<nat>, b: seq<nat>) returns (k: nat)
    requires a != [] && multiset(a) == multiset(b)
    ensures k < |b| && b[k] == a[|a| - 1]
    ensures multiset(a[..|a| - 1]) == multiset(b[..k] + b[k + 1..])
  {
    var last := |a| - 1;
    assert a[last] in multiset(b);
    k :| 0 <= k < |b| && b[k] == a[last];
    RemovedCounts(a, last);
    RemovedCounts(b, k);
    assert a[..last] + a[last + 1..] == a[..last];
  }

  lemma DecodeUnordered(view: View, id: u64, info: PoolInfo, a: seq<nat>, b: seq<nat>)
    requires multiset(a) == multiset(b) && AllDecode(view, id, info, a)
    ensures AllDecode(view, id, info, b)
  {
    hide PageEntries;
    forall i | 0 <= i < |b| ensures b[i] < |info.pages| && PageEntries(view, id, info, b[i]).Some? {
      assert b[i] in multiset(a);
      var j :| 0 <= j < |a| && a[j] == b[i];
    }
  }

  /** Loading the same pages in any two orders succeeds or fails alike. */
  lemma LoadOrderIsIrrelevant(view: View, id: u64, info: PoolInfo, a: seq<nat>, b: seq<nat>)
    requires multiset(a) == multiset(b)
    ensures Loads(view, id, info, a) <==> Loads(view, id, info, b)
  {
    hide AllDecode, Sound, Places, RangesOf;
    RangesOfUnordered(view, id, info, a, b);
    SoundIsUnordered(SeenRanges(view, id, info, a), SeenRanges(view, id, info, b), info.size);
    if AllDecode(view, id, info, a) {
      DecodeUnordered(view, id, info, a, b);
    }
    if AllDecode(view, id, info, b) {
      DecodeUnordered(view, id, info, b, a);
    }
  }

  lemma SeenOneMore(view: View, id: u64, info: PoolInfo, order: seq<nat>, page: nat)
    ensures SeenRanges(view, id, info, order + [page]) == SeenRanges(view, id, info, order) + PageRanges(view, id, info, page)
    ensures AllDecode(view, id, info, order + [page])
       <==> AllDecode(view, id, info, order) && page < |info.pages| && PageEntries(view, id, info, page).Some?
  {
    hide PageEntries, Places;
    assert (order + [page])[..|order|] == order;
    assert (order + [page])[|order|] == page;
    if AllDecode(view, id, info, order + [page]) {
      forall i | 0 <= i < |order| ensures order[i] < |info.pages| && PageEntries(view, id, info, order[i]).Some? {
        assert (order + [page])[i] == order[i];
      }
    }
  }

  /** Any order that loads can be cut short: the pages before also load. */
  lemma LoadsPrefix(view: View, id: u64, info: PoolInfo, order: seq<nat>, page: nat)
    requires Loads(view, id, info, order + [page])
    ensures Loads(view, id, info, order) && page < |info.pages| && PageEntries(view, id, info, page).Some?
    ensures Sound(SeenRanges(view, id, info, order) + PageRanges(view, id, info, page), info.size)
  {
    hide PageEntries, Places, AllDecode, SeenRanges, PageRanges, Sound;
    SeenOneMore(view, id, info, order, page);
    SoundPrefix(SeenRanges(view, id, info, order), PageRanges(view, id, info, page), info.size);
  }

  lemma {:induction false} LoadsTake(view: View, id: u64, info: PoolInfo, order: seq<nat>, count: nat)
    requires Loads(view, id, info, order) && count <= |order|
    ensures Loads(view, id, info, order[..count])
    decreases |order|
  {
    hide Loads;
    if count == |order| {
      assert order[..count] == order;
    } else {
      var front := order[..|order| - 1];
      assert order == front + [order[|order| - 1]];
      LoadsPrefix(view, id, info, front, order[|order| - 1]);
      LoadsTake(view, id, info, front, count);
      assert front[..count] == order[..count];
    }
  }

  lemma SoundPrefix(a: seq<Range>, b: seq<Range>, size: nat)
    requires Sound(a + b, size)
    ensures Sound(a, size)
  {
    forall i | 0 <= i < |a| ensures a[i].End() <= size { assert (a + b)[i] == a[i]; }
    forall i, j | 0 <= i < j < |a| ensures !Overlap(a[i], a[j]) {
      assert (a + b)[i] == a[i] && (a + b)[j] == a[j];
    }
  }

  lemma LoadsOneMore(view: View, id: u64, info: PoolInfo, order: seq<nat>, page: nat)
    requires Loads(view, id, info, order)
    requires page < |info.pages| && PageEntries(view, id, info, page).Some?
    requires Sound(SeenRanges(view, id, info, order) + PageRanges(view, id, info, page), info.size)
    ensures Loads(view, id, info, order + [page])
    ensures SeenRanges(view, id, info, order + [page]) == SeenRanges(view, id, info, order) + PageRanges(view, id, info, page)
  {
    hide PageEntries, Places, Sound, SeenRanges, AllDecode;
    SeenOneMore(view, id, info, order, page);
  }

  /** The pages 0, 1, ..., n - 1. */
  function Upto(n: nat): (r: seq<nat>)
    ensures |r| == n && forall i :: 0 <= i < n ==> r[i] == i
  {
    seq(n, i => i)
  }

  /** Every page decodes, and no two pages or stored entries overlap. */
  ghost predicate ValidTable(view: View, id: u64) {
    && Directory(view, id).Some?
    && Loads(view, id, Directory(view, id).value, Upto(|Directory(view, id).value.pages|))
  }

  /** Additionally, every extent lies inside a Stored entry. */
  ghost predicate ValidPool(view: View, id: u64) {
    && ValidTable(view, id)
    && forall i: u64 :: i < Directory(view, id).value.count ==> ExtentsFitAt(view, id, i)
  }

  /** Every pool with a directory has a valid table. */
  ghost predicate AllTablesValid(view: View) {
    forall id: u64 :: Directory(view, id).Some? ==> ValidTable(view, id)
  }

  // ---------- What can be read from valid tables alone ----------

  /** The view without the pools whose tables are not valid. */
  ghost function Trusted(view: View): View {
    view.(sections := map id | id in view.sections && (Directory(view, id).Some? ==> ValidTable(view, id)) :: view.sections[id])
  }

  /** Whatever valid tables alone give is what was found. */
  ghost predicate Finds<T>(found: Option<T>, trusted: Option<T>) {
    trusted.Some? ==> found == trusted
  }

  lemma AllAreTrusted(view: View)
    requires AllTablesValid(view)
    ensures Trusted(view) == view
  {
    assert Trusted(view).sections == view.sections;
  }

  lemma TrustedKeeps(view: View, id: u64)
    requires ValidTable(view, id)
    ensures id in view.sections && id in Trusted(view).sections && Trusted(view).sections[id] == view.sections[id]
  {
    hide ValidTable, PagesOf;
    TableHasDirectory(view, id);
  }

  lemma {:induction false} SamePlain(view: View, other: View, data: bytes, filters: seq<Filter>)
    requires view.codec == other.codec && view.limits == other.limits
    ensures DecodePlain(view, data, filters) == DecodePlain(other, data, filters)
    decreases |filters|
  {
    hide Filter.Dictionary;
    if filters != [] {
      var last := filters[|filters| - 1];
      var output := Decompress(view, data, [], last.inputSize);
      assert output == Decompress(other, data, [], last.inputSize);
      if output.Some? {
        SamePlain(view, other, output.value, filters[..|filters| - 1]);
      }
    }
  }

  lemma SamePage(view: View, other: View, id: u64, info: PoolInfo, page: nat)
    requires view.codec == other.codec && view.limits == other.limits && page < |info.pages|
    requires id in view.sections && id in other.sections && view.sections[id] == other.sections[id]
    ensures PageEntries(view, id, info, page) == PageEntries(other, id, info, page)
  {
    hide EntriesAt, DecodePlain, IsChecksum;
    var place := info.pages[page];
    var stored := ReadRange(view, id, 8 + place.offset, place.encoding.storedSize);
    assert stored == ReadRange(other, id, 8 + place.offset, place.encoding.storedSize);
    if stored.Some? {
      SamePlain(view, other, stored.value, place.encoding.filters);
    }
  }

  lemma SameEntry(view: View, other: View, reference: BlobRef)
    requires view.codec == other.codec && view.limits == other.limits
    requires reference.pool in view.sections && reference.pool in other.sections
    requires view.sections[reference.pool] == other.sections[reference.pool]
    ensures Directory(view, reference.pool) == Directory(other, reference.pool)
    ensures EntryOf(view, reference) == EntryOf(other, reference)
  {
    hide PageEntries, PagesOf, PageStart, PageIndex;
    var directory := Directory(view, reference.pool);
    assert directory == Directory(other, reference.pool);
    if directory.Some? {
      var info := directory.value;
      if PageIndex(reference.index, info.shift) < |info.pages| {
        SamePage(view, other, reference.pool, info, PageIndex(reference.index, info.shift));
      }
    }
  }

  /** An entry found in a valid table is the entry of the whole view, in a pool that is kept. */
  lemma TrustedEntry(view: View, reference: BlobRef)
    requires EntryOf(Trusted(view), reference).Some?
    ensures ValidTable(view, reference.pool) && EntryOf(view, reference) == EntryOf(Trusted(view), reference)
    ensures forall offset, length :: ReadRange(view, reference.pool, offset, length) == ReadRange(Trusted(view), reference.pool, offset, length)
  {
    hide ValidTable, PagesOf, PageEntries, PageStart, PageIndex;
    assert reference.pool in Trusted(view).sections;
    SameEntry(view, Trusted(view), reference);
  }

  lemma TrustedExtent(view: View, pool: u64, extent: Extent)
    requires ExtentFits(Trusted(view), pool, extent)
    ensures ValidTable(view, pool) && ExtentFits(view, pool, extent)
  {
    hide ValidTable, EntryOf, Trusted;
    TrustedEntry(view, BlobRef(pool, extent.source));
  }

  /** The pages below `n` that an order has not loaded yet. */
  function Missing(order: seq<nat>, n: nat): seq<nat> {
    if n == 0 then [] else Missing(order, n - 1) + if n - 1 in order then [] else [n - 1]
  }

  ghost predicate Distinct(order: seq<nat>) {
    forall i, j :: 0 <= i < j < |order| ==> order[i] != order[j]
  }

  lemma {:induction false} MissingCounts(order: seq<nat>, n: nat, page: nat)
    ensures multiset(Missing(order, n))[page] == if page < n && page !in order then 1 else 0
    decreases n
  {
    if n > 0 {
      MissingCounts(order, n - 1, page);
    }
  }

  lemma {:induction false} DistinctCounts(order: seq<nat>, page: nat)
    requires Distinct(order)
    ensures multiset(order)[page] == if page in order then 1 else 0
    decreases |order|
  {
    if order != [] {
      var last := |order| - 1;
      DistinctCounts(order[..last], page);
      assert order == order[..last] + [order[last]];
      assert order[last] !in order[..last];
    }
  }

  /** Pages loaded once each can be completed to an order of all pages. */
  lemma Completes(order: seq<nat>, n: nat)
    requires Distinct(order) && forall i :: 0 <= i < |order| ==> order[i] < n
    ensures multiset(order + Missing(order, n)) == multiset(Upto(n))
  {
    forall page: nat ensures multiset(order + Missing(order, n))[page] == multiset(Upto(n))[page] {
      MissingCounts(order, n, page);
      DistinctCounts(order, page);
      DistinctCounts(Upto(n), page);
      assert page < n ==> Upto(n)[page] == page;
    }
  }

  /** In a valid table, no page that is still missing can be refused. */
  lemma ValidTableLoads(view: View, id: u64, info: PoolInfo, order: seq<nat>, page: nat)
    requires ValidTable(view, id) && Directory(view, id) == Some(info)
    requires Loads(view, id, info, order) && Distinct(order) && page !in order && page < |info.pages|
    ensures Loads(view, id, info, order + [page])
  {
    hide Directory, Loads, Missing;
    var next := order + [page];
    var n := |info.pages|;
    LoadedPagesExist(view, id, info, order);
    assert Distinct(next) by {
      assert forall i :: 0 <= i < |order| ==> order[i] in order;
    }
    Completes(next, n);
    LoadOrderIsIrrelevant(view, id, info, Upto(n), next + Missing(next, n));
    LoadsTake(view, id, info, next + Missing(next, n), |next|);
    assert (next + Missing(next, n))[..|next|] == next;
  }

  lemma LoadedPagesExist(view: View, id: u64, info: PoolInfo, order: seq<nat>)
    requires Loads(view, id, info, order)
    ensures forall i :: 0 <= i < |order| ==> order[i] < |info.pages|
  {
    hide PageEntries, Sound;
  }

  // ---------- The store ----------

  /** A pool's directory, its loaded pages, and the ranges registered so far. */
  datatype Pool = Pool(info: PoolInfo, cache: map<nat, seq<Entry>>, ranges: RangeMap)

  /** What loading `order` has put into a pool. */
  ghost predicate PoolMatches(view: View, id: u64, pool: Pool, order: seq<nat>) {
    && Directory(view, id) == Some(pool.info)
    && Loads(view, id, pool.info, order)
    && Holds(pool.ranges, SeenRanges(view, id, pool.info, order))
    && Distinct(order)
    && (forall page :: page in pool.cache <==> page in order)
    && (forall page :: page in pool.cache ==>
          page < |pool.info.pages| && PageEntries(view, id, pool.info, page) == Some(pool.cache[page]))
  }

  class BlobStore {
    const view: View
    var pools: map<u64, Pool>
    /** The order in which pages were loaded. */
    ghost var orders: map<u64, seq<nat>>

    ghost predicate Valid()
      reads this
    {
      && pools.Keys == orders.Keys
      && forall id :: id in pools ==> PoolMatches(view, id, pools[id], orders[id])
    }

    constructor (view: View)
      ensures Valid() && this.view == view && pools == map[]
    {
      this.view, pools, orders := view, map[], map[];
    }

    /** Makes a pool's directory available, unless the pool cannot be opened. */
    method OpenPool(id: u64) returns (ok: bool)
      requires Valid()
      modifies this
      ensures Valid() && (ok <==> Opens(view, id)) && (ok ==> id in pools)
      ensures old(pools.Keys) <= pools.Keys <= old(pools.Keys) + {id}
      ensures forall other :: other in old(pools) ==> pools[other] == old(pools)[other] && orders[other] == old(orders)[other]
      ensures !ok ==> pools == old(pools)
    {
      hide Sound, Directory, Holds, PageEntries, Places, Loads;
      if id in pools {
        OpenedEarlier(view, id, pools[id], orders[id]);
        return true;
      }
      var info := Directory(view, id);
      if info == None {
        return false;
      }
      var ranges := RegisterPages(info.value);
      if ranges == None {
        return false;
      }
      OpenedNow(view, id, info.value, ranges.value);
      pools := pools[id := Pool(info.value, map[], ranges.value)];
      orders := orders[id := []];
      ok := true;
    }

    /** Adds one page to the loaded ones when its ranges are apart from theirs; otherwise changes nothing. */
    method LoadPage(id: u64, page: nat) returns (ok: bool)
      requires Valid() && id in pools && page < |pools[id].info.pages|
      modifies this
      ensures Valid() && pools.Keys == old(pools.Keys) && pools[id].info == old(pools)[id].info
      ensures forall other :: other in pools && other != id ==> pools[other] == old(pools)[other] && orders[other] == old(orders)[other]
      ensures ok ==> page in pools[id].cache
      ensures old(pools)[id].cache.Keys <= pools[id].cache.Keys
      ensures ok && page !in old(pools)[id].cache ==> orders[id] == old(orders)[id] + [page]
      ensures ok && page in old(pools)[id].cache ==> orders == old(orders) && pools == old(pools)
      ensures !ok ==> pools == old(pools) && orders == old(orders)
      ensures !ok ==> page !in pools[id].cache && !Loads(view, id, pools[id].info, orders[id] + [page])
    {
      hide Sound, Directory, Holds, PageEntries, Loads, SeenRanges;
      var pool := pools[id];
      ghost var order := orders[id];
      if page in pool.cache {
        return true;
      }
      if Loads(view, id, pool.info, order + [page]) {
        LoadsPrefix(view, id, pool.info, order, page);
      }
      var entries := PageEntries(view, id, pool.info, page);
      if entries == None {
        return false;
      }
      ghost var seen := SeenRanges(view, id, pool.info, order);
      LoadsIsSound(view, id, pool.info, order);
      var ranges := RegisterRanges(pool.ranges, StoredRanges(entries.value), pool.info.size, seen);
      if ranges == None {
        return false;
      }
      LoadsOneMore(view, id, pool.info, order, page);
      LoadedOneMore(view, id, pool, order, page, entries.value, ranges.value);
      pools := pools[id := pool.(cache := pool.cache[page := entries.value], ranges := ranges.value)];
      orders := orders[id := order + [page]];
      ok := true;
    }

    /** Makes a page available, or finds that it cannot be. */
    method FetchPage(id: u64, page: nat) returns (r: Option<seq<Entry>>)
      requires Valid() && id in pools && page < |pools[id].info.pages|
      modifies this
      ensures Valid() && Directory(view, id).Some? && page < |Directory(view, id).value.pages|
      ensures r.Some? ==> r == PageEntries(view, id, Directory(view, id).value, page)
      ensures ValidTable(view, id) ==> r == PageEntries(view, id, Directory(view, id).value, page)
      ensures pools.Keys == old(pools.Keys) && pools[id].info == old(pools)[id].info
      ensures if page in orders[id] then r.Some? else r == None && !Loads(view, id, Directory(view, id).value, orders[id] + [page])
    {
      hide Sound, Holds, PageEntries, Loads, Directory, ValidTable, Distinct;
      if ValidTable(view, id) && page !in pools[id].cache {
        ValidTableLoads(view, id, pools[id].info, orders[id], page);
      }
      var ok := LoadPage(id, page);
      r := if ok then Some(pools[id].cache[page]) else None;
    }

    /** The page of an entry is loaded, or could be loaded after the pages loaded so far. */
    ghost predicate Reaches(reference: BlobRef)
      reads this
    {
      && Opens(view, reference.pool) && reference.pool in orders
      && var page := PageIndex(reference.index, Directory(view, reference.pool).value.shift);
         page in orders[reference.pool] || Loads(view, reference.pool, Directory(view, reference.pool).value, orders[reference.pool] + [page])
    }

    /** The entry of an index, found through at most one further page; nothing is returned exactly when it is out of reach. */
    method GetEntry(reference: BlobRef) returns (r: Option<Entry>)
      requires Valid()
      modifies this
      ensures Valid()
      ensures r.Some? ==> r == EntryOf(view, reference)
      ensures ValidTable(view, reference.pool) ==> r == EntryOf(view, reference)
      ensures r == if Reaches(reference) then EntryOf(view, reference) else None
    {
      hide PoolMatches, PageEntries, Opens, Directory, PageIndex, ValidTable, PageStart, Loads;
      if ValidTable(view, reference.pool) {
        TableOpens(view, reference.pool);
      }
      var ok := OpenPool(reference.pool);
      if !ok {
        return None;
      }
      var info := pools[reference.pool].info;
      DirectoryOf(view, reference.pool, pools[reference.pool], orders[reference.pool]);
      var page := PageIndex(reference.index, info.shift);
      if reference.index >= info.count || page >= |info.pages| {
        return None;
      }
      var entries := FetchPage(reference.pool, page);
      if entries == None {
        return None;
      }
      SlotInPage(reference.index, info);
      var slot := reference.index - PageStart(page, info.shift);
      r := if slot < |entries.value| then Some(entries.value[slot]) else None;
    }

    /** Whether an extent names a nonempty slice of a Stored entry that can be reached. */
    method CheckExtent(pool: u64, extent: Extent) returns (ok: bool)
      requires Valid()
      modifies this
      ensures Valid()
      ensures ok ==> ExtentFits(view, pool, extent)
      ensures ValidTable(view, pool) ==> (ok <==> ExtentFits(view, pool, extent))
      ensures ok <==> ExtentFits(view, pool, extent) && Reaches(BlobRef(pool, extent.source))
    {
      hide PoolMatches, EntryOf, ValidTable, Reaches;
      if extent.source >= U64_LIMIT {
        return false;
      }
      var entry := GetEntry(BlobRef(pool, extent.source));
      if entry == None || !entry.value.Stored? {
        return false;
      }
      ok := extent.length > 0 && extent.offset + extent.length <= entry.value.encoding.DecodedSize();
    }

    method CheckExtents(pool: u64, extents: seq<Extent>) returns (ok: bool)
      requires Valid()
      modifies this
      ensures Valid()
      ensures ok ==> forall j :: 0 <= j < |extents| ==> ExtentFits(view, pool, extents[j])
      ensures ValidTable(view, pool) ==> (ok <==> forall j :: 0 <= j < |extents| ==> ExtentFits(view, pool, extents[j]))
      ensures (forall j :: 0 <= j < |extents| ==> ExtentFits(Trusted(view), pool, extents[j])) ==> ok
    {
      hide PoolMatches, ExtentFits, ValidTable, Trusted;
      for i := 0 to |extents|
        invariant Valid()
        invariant forall j :: 0 <= j < i ==> ExtentFits(view, pool, extents[j])
      {
        if ExtentFits(Trusted(view), pool, extents[i]) {
          TrustedExtent(view, pool, extents[i]);
        }
        ok := CheckExtent(pool, extents[i]);
        if !ok {
          return;
        }
      }
      ok := true;
    }

    /** Loads every page; what was loaded before, and in which order, makes no difference. */
    method LoadAll(id: u64) returns (ok: bool)
      requires Valid()
      modifies this
      ensures Valid() && (ok <==> ValidTable(view, id))
    {
      hide PoolMatches, Loads, ValidTable, Opens;
      if ValidTable(view, id) {
        TableOpens(view, id);
      }
      ok := OpenPool(id);
      if !ok {
        return;
      }
      var count := |pools[id].info.pages|;
      for page := 0 to count
        invariant Valid() && id in pools && |pools[id].info.pages| == count
        invariant forall k :: 0 <= k < page ==> k in pools[id].cache
      {
        if ValidTable(view, id) && page !in pools[id].cache {
          MissingPageLoads(view, id, pools[id], orders[id], page);
        }
        ok := LoadPage(id, page);
        if !ok {
          return;
        }
      }
      EverythingLoaded(view, id, pools[id], orders[id]);
      ok := true;
    }

    /** Decides `ValidPool`, whatever was loaded before. */
    method Validate(id: u64) returns (ok: bool)
      requires Valid()
      modifies this
      ensures Valid() && (ok <==> ValidPool(view, id))
    {
      hide PoolMatches, ValidTable, Directory, EntryOf, ExtentFits;
      ok := LoadAll(id);
      if !ok {
        return;
      }
      TableHasDirectory(view, id);
      var count := Directory(view, id).value.count;
      for i: int := 0 to count
        invariant Valid()
        invariant forall k: u64 :: k < i ==> ExtentsFitAt(view, id, k)
      {
        var entry := GetEntry(BlobRef(id, i));
        if entry == None {
          assert !ExtentsFitAt(view, id, i);
          return false;
        }
        if entry.value.Extents? {
          ok := CheckExtents(id, entry.value.extents);
          if !ok {
            assert !ExtentsFitAt(view, id, i);
            return;
          }
        }
      }
      ok := true;
    }

    /** What a reference resolves to; `inner` is set while a dictionary is being read. */
    method ResolveBlob(reference: BlobRef, inner: bool) returns (r: Option<bytes>)
      requires Valid()
      modifies this
      ensures Valid()
      ensures r.Some? ==> r == Resolve(view, reference, inner)
      ensures Finds(r, Resolve(Trusted(view), reference, inner))
      decreases if inner then 0 else 1, Depth(view, reference), 1, 0
    {
      hide PoolMatches, EntryOf, ExtentFits, ValidTable, Decode, Assemble, Valid, Trusted, ReadRange, Resolve, Reaches, TotalLength;
      TrustedCodec(view);
      ResolveNothing(Trusted(view), reference, inner);
      if EntryOf(Trusted(view), reference).Some? {
        TrustedEntry(view, reference);
      }
      var entry := GetEntry(reference);
      if entry == None {
        return None;
      }
      match entry.value
      case Unknown(_) => r := None;
      case Stored(offset, encoding) =>
        ResolveStored(view, reference, inner, offset, encoding);
        if EntryOf(Trusted(view), reference).Some? {
          ResolveStored(Trusted(view), reference, inner, offset, encoding);
        }
        if !view.limits.Bytes(encoding.DecodedSize()) || (inner && encoding.HasDictionary()) {
          return None;
        }
        var stored := ReadRange(view, reference.pool, 8 + offset, encoding.storedSize);
        if stored == None {
          return None;
        }
        r := DecodeFilters(stored.value, encoding.filters, inner);
      case Extents(extents) =>
        ResolveExtents(view, reference, inner, extents);
        if EntryOf(Trusted(view), reference).Some? {
          ResolveExtents(Trusted(view), reference, inner, extents);
        }
        var ok := CheckExtents(reference.pool, extents);
        if !ok || TotalLength(extents) >= U64_LIMIT || !view.limits.Bytes(TotalLength(extents)) {
          return None;
        }
        r := AssembleExtents(reference.pool, extents, inner);
    }

    /** Reverses filters from the last to the first. */
    method DecodeFilters(data: bytes, filters: seq<Filter>, inner: bool) returns (r: Option<bytes>)
      requires Valid()
      modifies this
      ensures Valid()
      ensures r.Some? ==> r == Decode(view, data, filters, inner)
      ensures Finds(r, Decode(Trusted(view), data, filters, inner))
      decreases if inner then 0 else 1, 0, 0, |filters|
    {
      hide PoolMatches, EntryOf, Resolve, Valid, Trusted, Decode;
      ghost var whole, trusted := Decode(view, data, filters, inner), Decode(Trusted(view), data, filters, inner);
      var output := data;
      assert filters[..|filters|] == filters;
      for i := |filters| downto 0
        invariant Valid() && whole == Decode(view, output, filters[..i], inner)
        invariant trusted.Some? ==> trusted == Decode(Trusted(view), output, filters[..i], inner)
      {
        var filter := filters[i];
        assert filters[..i + 1][i] == filter && filters[..i + 1][..i] == filters[..i];
        DecodeUnfold(view, output, filters[..i + 1], inner);
        DecodeUnfold(Trusted(view), output, filters[..i + 1], inner);
        TrustedCodec(view);
        if filter.kind != ZSTD || !view.limits.Bytes(filter.inputSize) {
          return None;
        }
        var dictionary: Option<bytes> := Some([]);
        if filter.Dictionary().Some? {
          if inner || ItemRef(filter.Dictionary().value) == None {
            return None;
          }
          dictionary := ResolveBlob(ItemRef(filter.Dictionary().value).value, true);
          if dictionary == None {
            return None;
          }
        }
        var next := Decompress(view, output, dictionary.value, filter.inputSize);
        if next == None {
          return None;
        }
        output := next.value;
      }
      NoFilters(view, output, inner);
      NoFilters(Trusted(view), output, inner);
      r := Some(output);
    }

    method AssembleExtents(pool: u64, extents: seq<Extent>, inner: bool) returns (r: Option<bytes>)
      requires Valid() && forall j :: 0 <= j < |extents| ==> ExtentFits(view, pool, extents[j])
      modifies this
      ensures Valid()
      ensures r.Some? ==> r == Assemble(view, pool, extents, inner)
      ensures (forall j :: 0 <= j < |extents| ==> ExtentFits(Trusted(view), pool, extents[j])) ==>
                Finds(r, Assemble(Trusted(view), pool, extents, inner))
      decreases if inner then 0 else 1, 1, 0, |extents|
    {
      hide PoolMatches, EntryOf, Resolve, Assemble, Valid, Trusted, ExtentFits;
      ghost var whole := Assemble(view, pool, extents, inner);
      ghost var fits := forall j :: 0 <= j < |extents| ==> ExtentFits(Trusted(view), pool, extents[j]);
      ghost var trusted := if fits then Assemble(Trusted(view), pool, extents, inner) else None;
      var output: bytes := [];
      AssembleStart(view, pool, extents, inner);
      if fits {
        AssembleStart(Trusted(view), pool, extents, inner);
      }
      for i := 0 to |extents|
        invariant Valid()
        invariant AssemblePending(whole, output, Assemble(view, pool, extents[i..], inner))
        invariant trusted.Some? ==> AssemblePending(trusted, output, Assemble(Trusted(view), pool, extents[i..], inner))
      {
        var extent := extents[i];
        ExtentIsFlat(view, pool, extent);
        AssembleStep(view, pool, extents, i, inner, whole, output);
        if trusted.Some? {
          AssembleStep(Trusted(view), pool, extents, i, inner, trusted, output);
        }
        var source := ResolveBlob(BlobRef(pool, extent.source), inner);
        if source == None || extent.offset + extent.length > |source.value| {
          return None;
        }
        output := output + source.value[extent.offset..extent.offset + extent.length];
      }
      AssembleEnd(view, pool, extents[|extents|..], inner);
      AssembleEnd(Trusted(view), pool, extents[|extents|..], inner);
      assert output + [] == output;
      r := Some(output);
    }
  }

  lemma ResolveNothing(view: View, reference: BlobRef, inner: bool)
    ensures EntryOf(view, reference) == None ==> Resolve(view, reference, inner) == None
    ensures EntryOf(view, reference).Some? && EntryOf(view, reference).value.Unknown? ==> Resolve(view, reference, inner) == None
  {
    hide EntryOf, ExtentFits, Decode, Assemble, ReadRange, TotalLength;
  }

  lemma ResolveStored(view: View, reference: BlobRef, inner: bool, offset: nat, encoding: Encoding)
    requires EntryOf(view, reference) == Some(Stored(offset, encoding))
    ensures Resolve(view, reference, inner)
            == match ReadRange(view, reference.pool, 8 + offset, encoding.storedSize)
               case None => None
               case Some(stored) =>
                 if !view.limits.Bytes(encoding.DecodedSize()) || (inner && encoding.HasDictionary()) then None
                 else Decode(view, stored, encoding.filters, inner)
  {
    hide EntryOf, ExtentFits, Decode, Assemble, ReadRange, TotalLength;
  }

  lemma ResolveExtents(view: View, reference: BlobRef, inner: bool, extents: seq<Extent>)
    requires EntryOf(view, reference) == Some(Extents(extents))
    ensures Resolve(view, reference, inner).Some? ==> forall j :: 0 <= j < |extents| ==> ExtentFits(view, reference.pool, extents[j])
    ensures (forall j :: 0 <= j < |extents| ==> ExtentFits(view, reference.pool, extents[j])) ==>
              Resolve(view, reference, inner)
              == if TotalLength(extents) >= U64_LIMIT || !view.limits.Bytes(TotalLength(extents)) then None
                 else Assemble(view, reference.pool, extents, inner)
  {
    hide EntryOf, ExtentFits, Decode, Assemble, ReadRange, TotalLength;
  }

  /** Extents reach entries that refer to no others. */
  lemma ExtentIsFlat(view: View, pool: u64, extent: Extent)
    requires ExtentFits(view, pool, extent)
    ensures extent.source < U64_LIMIT && Depth(view, BlobRef(pool, extent.source)) == 0
  {
    hide EntryOf;
  }

  lemma TrustedCodec(view: View)
    ensures Trusted(view).limits == view.limits && Trusted(view).codec == view.codec
    ensures forall data, dictionary, expected ::
              Decompress(Trusted(view), data, dictionary, expected) == Decompress(view, data, dictionary, expected)
  {
  }

  lemma DecodeUnfold(view: View, data: bytes, filters: seq<Filter>, inner: bool)
    requires filters != []
    ensures
      var last := filters[|filters| - 1];
      Decode(view, data, filters, inner) ==
      if last.kind != ZSTD || !view.limits.Bytes(last.inputSize) then None
      else
        var dictionary :=
          match last.Dictionary()
          case None => Some([])
          case Some(item) => if inner || ItemRef(item) == None then None else Resolve(view, ItemRef(item).value, true);
        if dictionary == None then None
        else
          match Decompress(view, data, dictionary.value, last.inputSize)
          case None => None
          case Some(output) => Decode(view, output, filters[..|filters| - 1], inner)
  {
    hide Resolve, Decompress;
  }

  lemma NoFilters(view: View, data: bytes, inner: bool)
    ensures Decode(view, data, [], inner) == Some(data)
  {
  }

  ghost predicate AssemblePending(whole: Option<bytes>, done: bytes, rest: Option<bytes>) {
    whole == if rest == None then None else Some(done + rest.value)
  }

  lemma AssembleStart(view: View, pool: u64, extents: seq<Extent>, inner: bool)
    requires forall j :: 0 <= j < |extents| ==> ExtentFits(view, pool, extents[j])
    ensures AssemblePending(Assemble(view, pool, extents, inner), [], Assemble(view, pool, extents[0..], inner))
  {
    hide Assemble;
    assert extents[0..] == extents;
    var rest := Assemble(view, pool, extents, inner);
    assert rest.Some? ==> [] + rest.value == rest.value;
  }

  lemma AssembleEnd(view: View, pool: u64, extents: seq<Extent>, inner: bool)
    requires extents == []
    ensures Assemble(view, pool, extents, inner) == Some([])
  {
  }

  lemma AssembleStep(view: View, pool: u64, extents: seq<Extent>, i: nat, inner: bool, whole: Option<bytes>, done: bytes)
    requires forall j :: 0 <= j < |extents| ==> ExtentFits(view, pool, extents[j])
    requires i < |extents| && AssemblePending(whole, done, Assemble(view, pool, extents[i..], inner))
    ensures extents[i].source < U64_LIMIT
    ensures
      var extent := extents[i];
      match Resolve(view, BlobRef(pool, extent.source), inner)
      case None => whole == None
      case Some(source) =>
        if extent.offset + extent.length > |source| then whole == None
        else AssemblePending(whole, done + source[extent.offset..extent.offset + extent.length],
                             Assemble(view, pool, extents[i + 1..], inner))
  {
    hide Resolve, EntryOf, Assemble;
    assert ExtentFits(view, pool, extents[i]);
    assert extents[i..][1..] == extents[i + 1..] && extents[i..][0] == extents[i];
    AssembleUnfold(view, pool, extents[i..], inner);
    var source := Resolve(view, BlobRef(pool, extents[i].source), inner);
    var rest := Assemble(view, pool, extents[i + 1..], inner);
    if source.Some? && extents[i].offset + extents[i].length <= |source.value| && rest.Some? {
      var slice := source.value[extents[i].offset..extents[i].offset + extents[i].length];
      assert done + (slice + rest.value) == done + slice + rest.value;
    }
  }

  lemma AssembleUnfold(view: View, pool: u64, extents: seq<Extent>, inner: bool)
    requires extents != [] && extents[0].source < U64_LIMIT
    requires forall j :: 0 <= j < |extents| ==> ExtentFits(view, pool, extents[j])
    ensures
      var extent := extents[0];
      Assemble(view, pool, extents, inner) ==
      match Resolve(view, BlobRef(pool, extent.source), inner)
      case None => None
      case Some(source) =>
        if extent.offset + extent.length > |source| then None
        else
          match Assemble(view, pool, extents[1..], inner)
          case None => None
          case Some(rest) => Some(source[extent.offset..extent.offset + extent.length] + rest)
  {
    hide Resolve, EntryOf, ExtentFits;
  }

  lemma TableHasDirectory(view: View, id: u64)
    requires ValidTable(view, id)
    ensures Directory(view, id).Some?
  {
  }

  /** Entry `k` exists and, if it is made of extents, they fit. */
  ghost predicate ExtentsFitAt(view: View, id: u64, k: u64) {
    match EntryOf(view, BlobRef(id, k))
    case Some(Extents(extents)) => forall j :: 0 <= j < |extents| ==> ExtentFits(view, id, extents[j])
    case Some(_) => true
    case None => false
  }

  lemma MissingNone(order: seq<nat>, n: nat)
    requires forall k :: 0 <= k < n ==> k in order
    ensures Missing(order, n) == []
  {
  }

  lemma MissingPageLoads(view: View, id: u64, pool: Pool, order: seq<nat>, page: nat)
    requires ValidTable(view, id) && PoolMatches(view, id, pool, order) && page !in pool.cache && page < |pool.info.pages|
    ensures Loads(view, id, pool.info, order + [page])
  {
    hide Loads, Directory, Distinct, Holds, PageEntries, ValidTable;
    ValidTableLoads(view, id, pool.info, order, page);
  }

  lemma EverythingLoaded(view: View, id: u64, pool: Pool, order: seq<nat>)
    requires PoolMatches(view, id, pool, order)
    requires forall k :: 0 <= k < |pool.info.pages| ==> k in pool.cache
    ensures ValidTable(view, id)
  {
    hide Loads, Directory, Distinct, Holds, PageEntries;
    LoadedPagesExist(view, id, pool.info, order);
    Completes(order, |pool.info.pages|);
    MissingNone(order, |pool.info.pages|);
    assert order + [] == order;
    LoadOrderIsIrrelevant(view, id, pool.info, order, Upto(|pool.info.pages|));
  }

  lemma DirectoryOf(view: View, id: u64, pool: Pool, order: seq<nat>)
    requires PoolMatches(view, id, pool, order)
    ensures Directory(view, id) == Some(pool.info)
  {
  }

  lemma SlotInPage(index: nat, info: PoolInfo)
    ensures PageStart(PageIndex(index, info.shift), info.shift) <= index
  {
  }

  lemma LoadsIsSound(view: View, id: u64, info: PoolInfo, order: seq<nat>)
    requires Loads(view, id, info, order)
    ensures Sound(SeenRanges(view, id, info, order), info.size)
  {
  }

  lemma OpenedEarlier(view: View, id: u64, pool: Pool, order: seq<nat>)
    requires PoolMatches(view, id, pool, order)
    ensures Opens(view, id)
  {
    hide Directory, PageEntries, Places, Holds;
    SoundPrefix(Places(pool.info.pages), RangesOf(view, id, pool.info, order), pool.info.size);
  }

  lemma OpenedNow(view: View, id: u64, info: PoolInfo, ranges: RangeMap)
    requires Directory(view, id) == Some(info) && Sound(Places(info.pages), info.size)
    requires Holds(ranges, Places(info.pages))
    ensures Opens(view, id) && PoolMatches(view, id, Pool(info, map[], ranges), [])
  {
    hide Directory, PageEntries, Places, Holds, Sound;
    assert SeenRanges(view, id, info, []) == Places(info.pages);
  }

  lemma LoadedOneMore(view: View, id: u64, pool: Pool, order: seq<nat>, page: nat, entries: seq<Entry>, ranges: RangeMap)
    requires PoolMatches(view, id, pool, order) && page !in pool.cache
    requires page < |pool.info.pages| && PageEntries(view, id, pool.info, page) == Some(entries)
    requires Loads(view, id, pool.info, order + [page])
    requires Holds(ranges, SeenRanges(view, id, pool.info, order + [page]))
    ensures PoolMatches(view, id, pool.(cache := pool.cache[page := entries], ranges := ranges), order + [page])
  {
    hide Directory, PageEntries, Loads, Holds, SeenRanges;
    assert forall i :: 0 <= i < |order| ==> order[i] in order;
  }

  /** Registers the page ranges one by one, as the directory is read. */
  method RegisterPages(info: PoolInfo) returns (r: Option<RangeMap>)
    ensures r.Some? <==> Sound(Places(info.pages), info.size)
    ensures r.Some? ==> Holds(r.value, Places(info.pages))
  {
    hide Sound, Holds, Places;
    ghost var all := Places(info.pages);
    var ranges: RangeMap := map[];
    NothingSeen(info.size);
    PlacesAt(info.pages);
    assert all[..0] == [];
    for i := 0 to |info.pages|
      invariant Sound(all[..i], info.size) && Holds(ranges, all[..i])
    {
      var one := [info.pages[i].Place()];
      assert all[..i] + one == all[..i + 1];
      assert all == all[..i + 1] + all[i + 1..];
      if Sound(all, info.size) {
        SoundPrefix(all[..i + 1], all[i + 1..], info.size);
      }
      var next := RegisterRanges(ranges, one, info.size, all[..i]);
      if next == None {
        return None;
      }
      ranges := next.value;
    }
    assert all[..|info.pages|] == all;
    r := Some(ranges);
  }

  lemma NothingSeen(size: nat)
    ensures Sound([], size) && Holds(map[], [])
  {
  }

  lemma PlacesAt(pages: seq<PageInfo>)
    ensures forall i :: 0 <= i < |pages| ==> Places(pages)[i] == pages[i].Place()
  {
    if pages != [] {
      PlacesAt(pages[1..]);
    }
  }

  lemma TableOpens(view: View, id: u64)
    requires ValidTable(view, id)
    ensures Opens(view, id)
  {
    hide Directory, PageEntries, Places;
    var info := Directory(view, id).value;
    SoundPrefix(Places(info.pages), RangesOf(view, id, info, Upto(|info.pages|)), info.size);
  }
}
