/** The pool of byte strings that names and class files share by index: its encoding, its builder, and rollback. */
module DataPools {
  import opened Binary

  /** A read-only pool: entry payloads in one buffer, and their boundaries. */
  datatype DataPool = DataPool(payload: bytes, offsets: seq<nat>) {
    ghost predicate Valid() {
      && |offsets| >= 1
      && offsets[0] == 0
      && offsets[|offsets| - 1] == |payload|
      && (forall i, j :: 0 <= i <= j < |offsets| ==> offsets[i] <= offsets[j])
    }

    function Len(): nat
      requires Valid()
    {
      |offsets| - 1
    }

    /** The entry at an index, or nothing past the last one. */
    function Get(index: nat): (r: Option<bytes>)
      requires Valid()
      ensures r == EntryAt(Entries(), index)
    {
      if index < |offsets| - 1 then Some(payload[offsets[index]..offsets[index + 1]]) else None
    }

    /** What the representation stands for. */
    function Entries(): (r: seq<bytes>)
      requires Valid()
      ensures |r| == Len()
    {
      seq(|offsets| - 1, i requires 0 <= i < |offsets| - 1 => payload[offsets[i]..offsets[i + 1]])
    }
  }

  function EntryAt(entries: seq<bytes>, index: nat): (r: Option<bytes>) {
    if index < |entries| then Some(entries[index]) else None
  }

  const EMPTY_POOL := DataPool([], [0, 0])

  /** Adding one entry at the end leaves the others in place. */
  lemma AppendedEntries(pool: DataPool, value: bytes)
    requires pool.Valid()
    ensures var payload := pool.payload + value;
            var longer := DataPool(payload, pool.offsets + [|payload|]);
            longer.Valid() && longer.Entries() == pool.Entries() + [value]
  {
    var payload := pool.payload + value;
    var longer := DataPool(payload, pool.offsets + [|payload|]);
    assert longer.Valid();
    forall i | 0 <= i <= pool.Len() ensures longer.Entries()[i] == (pool.Entries() + [value])[i] {
      if i < pool.Len() {
        assert longer.offsets[i + 1] == pool.offsets[i + 1] <= pool.offsets[|pool.offsets| - 1];
        PrefixSlice(pool.payload, payload, pool.offsets[i], pool.offsets[i + 1]);
      }
    }
  }

  /** Cutting the buffer and the boundaries together keeps the first entries. */
  lemma PrefixEntries(pool: DataPool, kept: nat)
    requires pool.Valid() && 1 <= kept <= pool.Len()
    ensures pool.offsets[kept] <= |pool.payload|
    ensures var shorter := DataPool(pool.payload[..pool.offsets[kept]], pool.offsets[..kept + 1]);
            shorter.Valid() && shorter.Entries() == pool.Entries()[..kept]
  {
    assert pool.offsets[kept] <= pool.offsets[|pool.offsets| - 1];
    var shorter := DataPool(pool.payload[..pool.offsets[kept]], pool.offsets[..kept + 1]);
    assert shorter.Valid();
    forall i | 0 <= i < kept ensures shorter.Entries()[i] == pool.Entries()[i] {
      assert pool.offsets[i] <= pool.offsets[i + 1] <= pool.offsets[kept];
      PrefixSlice(shorter.payload, pool.payload, pool.offsets[i], pool.offsets[i + 1]);
    }
  }

  // ---------- The builder's abstract state ----------

  /** Entries in index order together with the reverse lookup. */
  datatype PoolState = PoolState(entries: seq<bytes>, indices: map<bytes, nat>) {
    /** Every entry can be found, and whatever is found is an entry with those bytes. */
    ghost predicate Consistent() {
      && |entries| >= 1
      && entries[0] == []
      && (forall value :: value in indices ==> indices[value] < |entries| && entries[indices[value]] == value)
      && (forall i {:trigger entries[i]} :: 0 <= i < |entries| ==> entries[i] in indices)
    }
  }

  function Interned(p: PoolState, value: bytes): (r: (PoolState, nat))
  {
    if value in p.indices then (p, p.indices[value])
    else (PoolState(p.entries + [value], p.indices[value := |p.entries|]), |p.entries|)
  }

  function Max(a: nat, b: nat): nat {
    if a < b then b else a
  }

  function Values(entries: seq<bytes>): set<bytes> {
    set value | value in entries
  }

  function Truncated(p: PoolState, length: nat): PoolState
    requires Max(length, 1) <= |p.entries|
  {
    var kept := Max(length, 1);
    PoolState(p.entries[..kept], p.indices - Values(p.entries[kept..]))
  }

  /** `q` is `p` with further distinct new values interned after it. */
  ghost predicate Grows(p: PoolState, q: PoolState) {
    && |p.entries| <= |q.entries|
    && q.entries[..|p.entries|] == p.entries
    && (forall value :: value in p.indices ==> value in q.indices && q.indices[value] == p.indices[value])
    && (forall value :: value in q.indices ==> value in p.indices || value in q.entries[|p.entries|..])
    && (forall i {:trigger q.entries[i]} :: |p.entries| <= i < |q.entries| ==>
          q.entries[i] !in p.indices && q.entries[i] in q.indices && q.indices[q.entries[i]] == i)
  }

  lemma GrowsReflexive(p: PoolState)
    ensures Grows(p, p)
  {
  }

  lemma GrowsAt(p: PoolState, q: PoolState)
    requires Grows(p, q)
    ensures forall i :: 0 <= i < |p.entries| ==> q.entries[i] == p.entries[i]
    ensures forall value :: value in q.indices && value !in p.indices ==>
              exists i :: |p.entries| <= i < |q.entries| && q.entries[i] == value
  {
    forall i | 0 <= i < |p.entries| ensures q.entries[i] == p.entries[i] {
      assert q.entries[..|p.entries|][i] == p.entries[i];
    }
    forall value | value in q.indices && value !in p.indices
      ensures exists i :: |p.entries| <= i < |q.entries| && q.entries[i] == value
    {
      var i :| 0 <= i < |q.entries[|p.entries|..]| && q.entries[|p.entries|..][i] == value;
      assert q.entries[|p.entries| + i] == value;
    }
  }

  lemma GrowsTransitive(p: PoolState, q: PoolState, r: PoolState)
    requires Grows(p, q) && Grows(q, r)
    ensures Grows(p, r)
  {
    GrowsAt(p, q);
    GrowsAt(q, r);
    assert r.entries[..|p.entries|] == p.entries;
    forall value | value in r.indices && value !in p.indices ensures value in r.entries[|p.entries|..] {
      if value in q.indices {
        var i :| |p.entries| <= i < |q.entries| && q.entries[i] == value;
        assert r.entries[|p.entries|..][i - |p.entries|] == value;
      } else {
        var i :| |q.entries| <= i < |r.entries| && r.entries[i] == value;
        assert r.entries[|p.entries|..][i - |p.entries|] == value;
      }
    }
    forall i {:trigger r.entries[i]} | |p.entries| <= i < |r.entries|
      ensures r.entries[i] !in p.indices && r.entries[i] in r.indices && r.indices[r.entries[i]] == i
    {
      if i < |q.entries| {
        assert r.entries[i] == q.entries[i];
      }
    }
  }

  /** Interning keeps the pool consistent, returns an index of the value, and only adds entries. */
  lemma InternedGrows(p: PoolState, value: bytes)
    requires p.Consistent()
    ensures var (q, index) := Interned(p, value);
            q.Consistent() && Grows(p, q) && index < |q.entries| && q.entries[index] == value
  {
    var (q, index) := Interned(p, value);
    if value !in p.indices {
      assert q.entries[|p.entries|..] == [value];
      assert q.entries[..|p.entries|] == p.entries;
    }
  }

  /** Rolling back to a length recorded earlier gives back exactly the earlier builder. */
  lemma TruncatedUndoesGrowth(p: PoolState, q: PoolState)
    requires p.Consistent() && Grows(p, q)
    ensures Truncated(q, |p.entries|) == p
  {
    var kept := |p.entries|;
    var dropped := Values(q.entries[kept..]);
    forall value ensures value in p.indices <==> value in q.indices && value !in dropped {
      if value in dropped {
        var i :| kept <= i < |q.entries| && q.entries[i] == value;
      }
    }
    assert Truncated(q, kept).indices.Keys == p.indices.Keys;
    assert Truncated(q, kept).indices == p.indices;
  }

  /** A list of entries that starts with all of the builder's. */
  ghost predicate Within(p: PoolState, entries: seq<bytes>) {
    && |p.entries| <= |entries|
    && forall i {:trigger entries[i]} {:trigger p.entries[i]} :: 0 <= i < |p.entries| ==> entries[i] == p.entries[i]
  }

  lemma WithinEarlier(p: PoolState, q: PoolState, entries: seq<bytes>)
    requires Grows(p, q) && Within(q, entries)
    ensures Within(p, entries)
  {
    forall i | 0 <= i < |p.entries| ensures entries[i] == p.entries[i] {
      assert q.entries[..|p.entries|][i] == q.entries[i];
    }
  }

  // ---------- Encoding ----------

  function EncodeEntries(entries: seq<bytes>): bytes {
    if entries == [] then [] else Sized(entries[0]) + EncodeEntries(entries[1..])
  }

  function EncodePool(entries: seq<bytes>): bytes {
    Vuint(|entries|) + EncodeEntries(entries)
  }

  function EntriesFrom(s: bytes, pos: nat, count: nat, limits: Limits): (r: Read<seq<bytes>>)
    ensures r.Got? ==> pos <= r.next
    decreases count
  {
    if count == 0 then Got([], pos)
    else
      match SizedAt(s, pos, limits)
      case Failed => Failed
      case Got(first, next) =>
        match EntriesFrom(s, next, count - 1, limits)
        case Failed => Failed
        case Got(rest, end) => Got([first] + rest, end)
  }

  /** The entries that the whole input encodes, if entry zero is empty and no byte is left. */
  function DecodePool(s: bytes, limits: Limits): (r: Option<seq<bytes>>)
  {
    if !limits.Bytes(|s|) then None else
    match VuintAt(s, 0)
    case Failed => None
    case Got(count, next) =>
      if !limits.Elements(count) || count == 0 || count > |s| - next then None else
      match EntriesFrom(s, next, count, limits)
      case Failed => None
      case Got(entries, end) => if |entries| > 0 && entries[0] == [] && end == |s| then Some(entries) else None
  }

  lemma {:induction false} EntriesRoundTrip(s: bytes, pos: nat, entries: seq<bytes>, limits: Limits)
    requires At(s, pos, EncodeEntries(entries))
    requires limits.Bytes(|s|)
    ensures EntriesFrom(s, pos, |entries|, limits) == Got(entries, pos + |EncodeEntries(entries)|)
    ensures |entries| <= |EncodeEntries(entries)|
    decreases |entries|
  {
    hide At, SizedAt, Sized;
    if entries != [] {
      AtConcat(s, pos, Sized(entries[0]), EncodeEntries(entries[1..]));
      SizedRoundTrip(s, pos, entries[0], limits);
      EntriesRoundTrip(s, pos + |Sized(entries[0])|, entries[1..], limits);
      assert entries == [entries[0]] + entries[1..];
    }
  }

  /** A pool whose encoding the limits admit decodes to the same entries at the same indices. */
  lemma PoolRoundTrip(entries: seq<bytes>, limits: Limits)
    requires |entries| >= 1 && entries[0] == []
    requires limits.Bytes(|EncodePool(entries)|) && limits.Elements(|entries|)
    ensures DecodePool(EncodePool(entries), limits) == Some(entries)
  {
    hide EncodeEntries, EntriesFrom, Vuint, VuintAt;
    var s := EncodePool(entries);
    AtSelf(s);
    AtConcat(s, 0, Vuint(|entries|), EncodeEntries(entries));
    VuintRoundTrip(s, 0, |entries|);
    EntriesRoundTrip(s, |Vuint(|entries|)|, entries, limits);
  }

  lemma EncodeEntriesAppend(entries: seq<bytes>, last: bytes)
    ensures EncodeEntries(entries + [last]) == EncodeEntries(entries) + Sized(last)
  {
    hide Sized;
    if entries == [] {
      assert entries + [last] == [last] && [last][1..] == [];
      assert EncodeEntries([last]) == Sized(last) + EncodeEntries([]);
    } else {
      EncodeEntriesAppend(entries[1..], last);
      assert (entries + [last])[0] == entries[0] && (entries + [last])[1..] == entries[1..] + [last];
    }
  }

  method Encode(pool: DataPool) returns (r: bytes)
    requires pool.Valid()
    ensures r == EncodePool(pool.Entries())
  {
    hide Sized, Vuint, EncodeEntries;
    ghost var entries := pool.Entries();
    r := WriteVuint([], pool.Len());
    ghost var head := r;
    NothingEncoded();
    assert entries[..0] == [] && head + [] == head;
    for i := 0 to |pool.offsets| - 1
      invariant r == head + EncodeEntries(entries[..i])
    {
      var entry := pool.payload[pool.offsets[i]..pool.offsets[i + 1]];
      EncodeEntriesAppend(entries[..i], entry);
      assert entries[..i] + [entry] == entries[..i + 1];
      r := WriteSized(r, entry);
    }
    assert entries[..|pool.offsets| - 1] == entries;
  }

  lemma NothingEncoded()
    ensures EncodeEntries([]) == []
  {
  }

  /** `EntriesFrom` continues where a loop over the first entries has stopped. */
  method Decode(input: bytes, limits: Limits) returns (r: Option<DataPool>)
    ensures match DecodePool(input, limits)
            case None => r == None
            case Some(entries) => r.Some? && r.value.Valid() && r.value.Entries() == entries
  {
    if !limits.Bytes(|input|) {
      return None;
    }
    var decoder := new Decoder(input, limits);
    var read := decoder.ReadVuint();
    if read == None || !limits.Elements(read.value) || read.value == 0 || read.value > decoder.Remaining() {
      return None;
    }
    var pool := DecodeEntries(decoder, read.value);
    r := if pool.Some? && decoder.Remaining() == 0 then pool else None;
  }

  method DecodeEntries(decoder: Decoder, count: nat) returns (r: Option<DataPool>)
    requires decoder.Valid() && count > 0
    modifies decoder
    ensures decoder.Valid()
    ensures match EntriesFrom(decoder.input, old(decoder.position), count, decoder.limits)
            case Failed => r == None
            case Got(entries, next) =>
              if |entries| > 0 && entries[0] == []
              then decoder.position == next && r.Some? && r.value.Valid() && r.value.Entries() == entries
              else r == None
  {
    hide SizedAt;
    ghost var whole := EntriesFrom(decoder.input, decoder.position, count, decoder.limits);
    var pool := DataPool([], [0]);
    assert pool.Entries() == [];
    assert whole.Got? ==> [] + whole.value == whole.value;
    for index := 0 to count
      invariant decoder.Valid()
      invariant pool.Valid() && pool.Len() == index
      invariant index > 0 ==> pool.Entries()[0] == []
      invariant Continues(whole, pool.Entries(), EntriesFrom(decoder.input, decoder.position, count - index, decoder.limits))
    {
      ContinuesStep(whole, pool.Entries(), decoder.input, decoder.position, count - index, decoder.limits);
      var value := decoder.ReadSized();
      if value == None || (index == 0 && value.value != []) {
        return None;
      }
      AppendedEntries(pool, value.value);
      var payload := pool.payload + value.value;
      pool := DataPool(payload, pool.offsets + [|payload|]);
    }
    r := Some(pool);
  }

  lemma ContinuesStep(whole: Read<seq<bytes>>, done: seq<bytes>, s: bytes, pos: nat, count: nat, limits: Limits)
    requires count > 0 && Continues(whole, done, EntriesFrom(s, pos, count, limits))
    ensures match SizedAt(s, pos, limits)
            case Failed => whole == Failed
            case Got(first, next) => Continues(whole, done + [first], EntriesFrom(s, next, count - 1, limits))
  {
    var read := SizedAt(s, pos, limits);
    if read.Got? {
      var rest := EntriesFrom(s, read.next, count - 1, limits);
      if rest.Got? {
        assert done + ([read.value] + rest.value) == (done + [read.value]) + rest.value;
      }
    }
  }

  ghost predicate Continues(whole: Read<seq<bytes>>, done: seq<bytes>, rest: Read<seq<bytes>>) {
    match rest
    case Failed => whole == Failed
    case Got(more, next) => whole == Got(done + more, next)
  }

  // ---------- The builder ----------

  /** Each value with its last index. */
  function LastIndices(entries: seq<bytes>): map<bytes, nat> {
    if entries == [] then map[] else LastIndices(entries[..|entries| - 1])[entries[|entries| - 1] := |entries| - 1]
  }

  /** The builder state rebuilt from bare entries. */
  function Reindexed(entries: seq<bytes>): PoolState {
    PoolState(entries, LastIndices(entries))
  }

  lemma {:induction false} LastIndicesMeaning(entries: seq<bytes>)
    ensures forall value :: value in LastIndices(entries) ==>
              LastIndices(entries)[value] < |entries| && entries[LastIndices(entries)[value]] == value
    ensures forall i {:trigger entries[i]} :: 0 <= i < |entries| ==>
              entries[i] in LastIndices(entries) && i <= LastIndices(entries)[entries[i]]
  {
    if entries != [] {
      var front := entries[..|entries| - 1];
      LastIndicesMeaning(front);
      forall i | 0 <= i < |front| ensures entries[i] in LastIndices(front) && i <= LastIndices(front)[entries[i]] {
        assert entries[i] == front[i];
      }
    }
  }

  lemma LastIndicesStep(entries: seq<bytes>, i: nat)
    requires i < |entries|
    ensures LastIndices(entries[..i + 1]) == LastIndices(entries[..i])[entries[i] := i]
  {
    assert entries[..i + 1][..i] == entries[..i];
  }

  lemma NothingIndexed(entries: seq<bytes>)
    ensures LastIndices(entries[..0]) == map[]
  {
  }

  /** Whatever duplicates a pool holds, its rebuilt index finds every value. */
  lemma ReindexedIsConsistent(entries: seq<bytes>)
    requires |entries| >= 1 && entries[0] == []
    ensures Reindexed(entries).Consistent()
  {
    LastIndicesMeaning(entries);
  }

  class DataPoolBuilder {
    var pool: DataPool
    var indices: map<bytes, nat>

    ghost predicate Valid()
      reads this
    {
      pool.Valid() && State().Consistent()
    }

    ghost function State(): PoolState
      requires pool.Valid()
      reads this
    {
      PoolState(pool.Entries(), indices)
    }

    constructor ()
      ensures Valid() && State() == PoolState([[]], map[[] := 0])
    {
      pool, indices := EMPTY_POOL, map[[] := 0];
      new;
      assert pool.Entries() == [[]];
    }

    /** Rebuilds the reverse index of a pool, keeping its indices; later duplicates win. */
    constructor From(pool: DataPool)
      requires pool.Valid() && pool.Len() > 0 && pool.Entries()[0] == []
      ensures Valid() && this.pool == pool && State() == Reindexed(pool.Entries())
    {
      hide LastIndices, PoolState.Consistent;
      this.pool := pool;
      var found: map<bytes, nat> := map[];
      ghost var entries := pool.Entries();
      NothingIndexed(entries);
      for i := 0 to |pool.offsets| - 1
        invariant found == LastIndices(entries[..i])
      {
        LastIndicesStep(entries, i);
        found := found[pool.payload[pool.offsets[i]..pool.offsets[i + 1]] := i];
      }
      assert entries[..|pool.offsets| - 1] == entries;
      ReindexedIsConsistent(entries);
      this.indices := found;
    }

    function Len(): nat
      requires pool.Valid()
      reads this
    {
      pool.Len()
    }

    function Find(value: bytes): Option<nat>
      reads this
    {
      if value in indices then Some(indices[value]) else None
    }

    method Intern(value: bytes) returns (index: nat)
      requires Valid()
      modifies this
      ensures Valid() && (State(), index) == Interned(old(State()), value)
    {
      InternedGrows(State(), value);
      var found := Find(value);
      if found.Some? {
        return found.value;
      }
      index := pool.Len();
      AppendedEntries(pool, value);
      var payload := pool.payload + value;
      pool := DataPool(payload, pool.offsets + [|payload|]);
      indices := indices[value := index];
    }

    /** Rolls back to the first `length` entries, but never past the empty one. */
    method Truncate(length: nat)
      requires pool.Valid() && Max(length, 1) <= Len()
      modifies this
      ensures pool.Valid() && State() == Truncated(old(State()), length)
    {
      var kept := Max(length, 1);
      PrefixEntries(pool, kept);
      indices := Forget(indices, pool, kept);
      pool := DataPool(pool.payload[..pool.offsets[kept]], pool.offsets[..kept + 1]);
    }
  }

  lemma ForgetOneMore(indices: map<bytes, nat>, dropped: seq<bytes>, value: bytes)
    ensures indices - Values(dropped) - {value} == indices - Values(dropped + [value])
    ensures Values([]) == {}
  {
    assert Values(dropped + [value]) == Values(dropped) + {value};
  }

  method Forget(indices: map<bytes, nat>, pool: DataPool, kept: nat) returns (remaining: map<bytes, nat>)
    requires pool.Valid() && kept <= pool.Len()
    ensures remaining == indices - Values(pool.Entries()[kept..])
  {
    hide Values;
    remaining := indices;
    ghost var entries := pool.Entries();
    ForgetOneMore(indices, [], []);
    assert entries[kept..kept] == [];
    for i := kept to |pool.offsets| - 1
      invariant remaining == indices - Values(entries[kept..i])
    {
      var value := pool.payload[pool.offsets[i]..pool.offsets[i + 1]];
      assert entries[kept..i + 1] == entries[kept..i] + [value];
      ForgetOneMore(indices, entries[kept..i], value);
      remaining := remaining - {value};
    }
    assert entries[kept..|pool.offsets| - 1] == entries[kept..];
  }

}
