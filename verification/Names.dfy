/** Resource names in three representations, backed by the shared data pool. */
module Names {
  import opened Binary
  import opened DataPools
  import opened Text

  /** The bytes of `.class`. */
  const CLASS_SUFFIX: bytes := [0x2e, 0x63, 0x6c, 0x61, 0x73, 0x73]

  /** A pool entry used as text must be UTF-8. */
  function TextAt(entries: seq<bytes>, index: nat): Option<bytes> {
    if index < |entries| && Utf8(entries[index]) then Some(entries[index]) else None
  }

  /** The concatenation of `count` indexed entries, after `done`. */
  function PartsAt(entries: seq<bytes>, s: bytes, pos: nat, count: nat, done: bytes, limits: Limits): (r: Read<bytes>)
    ensures r.Got? ==> pos <= r.next && (pos <= |s| ==> r.next <= |s|)
    decreases count
  {
    if count == 0 then Got(done, pos)
    else
      match VuintAt(s, pos)
      case Failed => Failed
      case Got(index, next) =>
        match TextAt(entries, index)
        case None => Failed
        case Some(text) =>
          if limits.Bytes(|done| + |text|) then PartsAt(entries, s, next, count - 1, done + text, limits) else Failed
  }

  /** Reads a name by index, inline, or as a concatenation; the result is never empty. */
  function NameFrom(entries: seq<bytes>, s: bytes, pos: nat, limits: Limits): (r: Read<bytes>)
    ensures r.Got? ==> pos < r.next <= |s| && r.value != []
  {
    match VuintAt(s, pos)
    case Failed => Failed
    case Got(index, next) =>
      var read :=
        if index != 0 then
          match TextAt(entries, index)
          case None => Failed
          case Some(text) => Got(text, next)
        else
          match SizedAt(s, next, limits)
          case Failed => Failed
          case Got(inline, after) =>
            if !Utf8(inline) then Failed
            else if inline != [] then Got(inline, after)
            else
              match VuintAt(s, after)
              case Failed => Failed
              case Got(count, start) =>
                if !limits.Elements(count) || count < 2 then Failed
                else PartsAt(entries, s, start, count, [], limits);
      if read.Got? && read.value != [] && limits.Bytes(|read.value|) then read else Failed
  }

  predicate HasClassSuffix(value: bytes) {
    |value| > |CLASS_SUFFIX| && value[|value| - |CLASS_SUFFIX|..] == CLASS_SUFFIX
  }

  /** The text before a `.class` suffix. */
  function BaseName(value: bytes): bytes
    requires HasClassSuffix(value)
  {
    value[..|value| - |CLASS_SUFFIX|]
  }

  /** How a name is written, and the pool after interning what was missing. */
  function WrittenName(value: bytes, p: PoolState): (r: (bytes, PoolState))
    requires p.Consistent()
    ensures r.1.Consistent() && Grows(p, r.1)
  {
    GrowsReflexive(p);
    if value in p.indices then (Vuint(p.indices[value]), p)
    else if HasClassSuffix(value) && BaseName(value) in p.indices then
      InternedGrows(p, CLASS_SUFFIX);
      var (q, suffix) := Interned(p, CLASS_SUFFIX);
      ([0, 0, 2] + Vuint(p.indices[BaseName(value)]) + Vuint(suffix), q)
    else
      InternedGrows(p, value);
      var (q, index) := Interned(p, value);
      (Vuint(index), q)
  }

  /** Only then does a written name state a count of parts. */
  predicate InParts(value: bytes, p: PoolState) {
    value !in p.indices && HasClassSuffix(value) && BaseName(value) in p.indices
  }

  // ---------- UTF-8 before an ASCII suffix ----------

  lemma {:induction false} Utf8BeforeAscii(a: bytes, b: bytes, i: nat)
    requires i <= |a| && b != [] && b[0] < 0x80 && Utf8From(a + b, i)
    ensures Utf8From(a, i)
    decreases |a| - i
  {
    if i < |a| {
      var n := SequenceLength(a + b, i);
      SequenceStaysInside(a, b, i);
      Utf8BeforeAscii(a, b, i + n);
    }
  }

  /** A well-formed sequence cannot run into an ASCII byte. */
  lemma SequenceStaysInside(a: bytes, b: bytes, i: nat)
    requires i < |a| && b != [] && b[0] < 0x80 && SequenceLength(a + b, i) > 0
    ensures SequenceLength(a, i) == SequenceLength(a + b, i)
  {
    var s := a + b;
    var n := SequenceLength(s, i);
    assert s[|a|] == b[0];
    assert forall k :: 0 <= k < |a| ==> s[k] == a[k];
  }

  lemma BaseNameIsUtf8(value: bytes)
    requires Utf8(value) && HasClassSuffix(value)
    ensures Utf8(BaseName(value)) && BaseName(value) + CLASS_SUFFIX == value
  {
    assert value == BaseName(value) + CLASS_SUFFIX;
    Utf8BeforeAscii(BaseName(value), CLASS_SUFFIX, 0);
  }

  lemma SuffixIsUtf8()
    ensures Utf8(CLASS_SUFFIX)
  {
    assert Utf8From(CLASS_SUFFIX, 6);
    assert Utf8From(CLASS_SUFFIX, 5);
    assert Utf8From(CLASS_SUFFIX, 4);
    assert Utf8From(CLASS_SUFFIX, 3);
    assert Utf8From(CLASS_SUFFIX, 2);
    assert Utf8From(CLASS_SUFFIX, 1);
  }

  // ---------- Every written name reads back ----------

  /** Whatever representation was chosen, and however the pool grew, the name reads back. */
  lemma NameRoundTrip(value: bytes, p: PoolState, s: bytes, pos: nat, entries: seq<bytes>, limits: Limits)
    requires p.Consistent() && value != [] && Utf8(value) && limits.Bytes(|value|) && (InParts(value, p) ==> limits.Elements(2))
    requires At(s, pos, WrittenName(value, p).0)
    requires Within(WrittenName(value, p).1, entries) && |entries| <= U64_LIMIT
    ensures NameFrom(entries, s, pos, limits) == Got(value, pos + |WrittenName(value, p).0|)
  {
    hide At, Within, Grows, Utf8, VuintAt, Vuint, PoolState.Consistent, PartsAt, SizedAt, Interned;
    var (written, q) := WrittenName(value, p);
    if value in p.indices {
      IndexOfNonempty(p, value, entries);
      VuintRoundTrip(s, pos, p.indices[value]);
    } else if HasClassSuffix(value) && BaseName(value) in p.indices {
      ConcatenationReads(value, p, s, pos, entries, limits);
    } else {
      InternedGrows(p, value);
      var index := Interned(p, value).1;
      IndexOfInterned(p, value, entries);
      VuintRoundTrip(s, pos, index);
    }
  }

  lemma IndexOfNonempty(p: PoolState, value: bytes, entries: seq<bytes>)
    requires p.Consistent() && value in p.indices && Within(p, entries)
    ensures p.indices[value] < |entries| && entries[p.indices[value]] == value
    ensures value != [] ==> p.indices[value] != 0
  {
  }

  lemma IndexOfInterned(p: PoolState, value: bytes, entries: seq<bytes>)
    requires p.Consistent() && Within(Interned(p, value).0, entries)
    ensures var index := Interned(p, value).1;
            index < |entries| && entries[index] == value && (value != [] ==> index != 0)
  {
    InternedGrows(p, value);
  }

  lemma ConcatenationReads(value: bytes, p: PoolState, s: bytes, pos: nat, entries: seq<bytes>, limits: Limits)
    requires p.Consistent() && Utf8(value) && limits.Bytes(|value|) && limits.Elements(2)
    requires value !in p.indices && HasClassSuffix(value) && BaseName(value) in p.indices
    requires At(s, pos, WrittenName(value, p).0)
    requires Within(WrittenName(value, p).1, entries) && |entries| <= U64_LIMIT
    ensures NameFrom(entries, s, pos, limits) == Got(value, pos + |WrittenName(value, p).0|)
  {
    hide At, Within, Grows, Utf8, VuintAt, Vuint, PoolState.Consistent, Interned, HasClassSuffix, NameFrom;
    var base := BaseName(value);
    var (q, suffix) := Interned(p, CLASS_SUFFIX);
    var first := p.indices[base];
    IndexOfInterned(p, CLASS_SUFFIX, entries);
    InternedGrows(p, CLASS_SUFFIX);
    WithinEarlier(p, q, entries);
    IndexOfNonempty(p, base, entries);
    BaseNameIsUtf8(value);
    SuffixIsUtf8();
    assert [0, 0, 2] + Vuint(first) + Vuint(suffix) == [0, 0, 2] + (Vuint(first) + Vuint(suffix));
    IndicesRead(entries, s, pos, base, CLASS_SUFFIX, first, suffix, limits);
  }

  /** A concatenation of two entries reads back to their texts in order. */
  lemma IndicesRead(entries: seq<bytes>, s: bytes, pos: nat, a: bytes, b: bytes, i: u64, j: u64, limits: Limits)
    requires At(s, pos, [0, 0, 2] + (Vuint(i) + Vuint(j))) && a + b != []
    requires i < |entries| && entries[i] == a && Utf8(a) && j < |entries| && entries[j] == b && Utf8(b)
    requires limits.Bytes(|a| + |b|) && limits.Elements(2)
    ensures NameFrom(entries, s, pos, limits) == Got(a + b, pos + |[0, 0, 2] + (Vuint(i) + Vuint(j))|)
  {
    hide At, Utf8, VuintAt, Vuint, SizedAt, PartsAt;
    MarkersRead(s, pos, Vuint(i) + Vuint(j), limits);
    AtConcat(s, pos + 3, Vuint(i), Vuint(j));
    VuintRoundTrip(s, pos + 3, i);
    VuintRoundTrip(s, pos + 3 + |Vuint(i)|, j);
    TwoParts(entries, s, pos + 3, a, b, i, j, limits);
  }

  /** The marker bytes 0, 0, 2 read as "index zero, empty inline string, two parts". */
  lemma MarkersRead(s: bytes, pos: nat, rest: bytes, limits: Limits)
    requires At(s, pos, [0, 0, 2] + rest)
    ensures VuintAt(s, pos) == Got(0, pos + 1)
    ensures SizedAt(s, pos + 1, limits) == Got([], pos + 2)
    ensures VuintAt(s, pos + 2) == Got(2, pos + 3)
    ensures At(s, pos + 3, rest) && Utf8([])
  {
    AtConcat(s, pos, [0, 0, 2], rest);
    var head := s[pos..pos + 3];
    assert s[pos] == head[0] && s[pos + 1] == head[1] && s[pos + 2] == head[2];
  }

  lemma TwoParts(entries: seq<bytes>, s: bytes, pos: nat, a: bytes, b: bytes, i: u64, j: u64, limits: Limits)
    requires VuintAt(s, pos) == Got(i, pos + |Vuint(i)|)
    requires VuintAt(s, pos + |Vuint(i)|) == Got(j, pos + |Vuint(i)| + |Vuint(j)|)
    requires TextAt(entries, i) == Some(a) && TextAt(entries, j) == Some(b) && limits.Bytes(|a| + |b|)
    ensures PartsAt(entries, s, pos, 2, [], limits) == Got(a + b, pos + |Vuint(i)| + |Vuint(j)|)
  {
    hide VuintAt, Vuint, TextAt;
    var middle := pos + |Vuint(i)|;
    assert [] + a == a;
    assert PartsAt(entries, s, middle + |Vuint(j)|, 0, a + b, limits) == Got(a + b, middle + |Vuint(j)|);
    assert PartsAt(entries, s, middle, 1, a, limits) == Got(a + b, middle + |Vuint(j)|);
  }

  // ---------- Writing and reading in place ----------

  /** Adds a name as an index, or as a known base and the class suffix, interning at most one value. */
  method WriteName(pool: DataPoolBuilder, value: bytes, out: bytes) returns (r: Option<bytes>)
    requires pool.Valid()
    modifies pool
    ensures pool.Valid()
    ensures value == [] ==> r == None && pool.State() == old(pool.State())
    ensures value != [] ==> var (written, q) := WrittenName(value, old(pool.State()));
                            r == Some(out + written) && pool.State() == q
  {
    hide PoolState.Consistent, Grows;
    if value == [] {
      return None;
    }
    var found := pool.Find(value);
    if found.Some? {
      var written := WriteVuint(out, found.value);
      return Some(written);
    }
    if HasClassSuffix(value) {
      var base := pool.Find(BaseName(value));
      if base.Some? {
        var suffix := pool.Intern(CLASS_SUFFIX);
        var written := WriteVuint(out + [0, 0, 2], base.value);
        written := WriteVuint(written, suffix);
        assert written == out + ([0, 0, 2] + Vuint(base.value) + Vuint(suffix));
        return Some(written);
      }
    }
    var index := pool.Intern(value);
    var written := WriteVuint(out, index);
    r := Some(written);
  }

  method ReadText(pool: DataPool, index: Option<nat>) returns (r: Option<bytes>)
    requires pool.Valid()
    ensures r == if index.Some? then TextAt(pool.Entries(), index.value) else None
  {
    if index == None {
      return None;
    }
    r := pool.Get(index.value);
    if r.Some? && !Utf8(r.value) {
      r := None;
    }
  }

  /** The cursor form of `NameFrom`. */
  method ReadName(pool: DataPool, decoder: Decoder) returns (r: Option<bytes>)
    requires pool.Valid() && decoder.Valid()
    modifies decoder
    ensures decoder.Valid()
    ensures match NameFrom(pool.Entries(), decoder.input, old(decoder.position), decoder.limits)
            case Got(name, next) => r == Some(name) && decoder.position == next
            case Failed => r == None
  {
    hide DataPool.Entries, DataPool.Valid, VuintAt, SizedAt, TextAt, Utf8, PartsAt;
    var index := decoder.ReadVuint();
    if index == None {
      return None;
    }
    if index.value != 0 {
      r := ReadText(pool, index);
    } else {
      r := decoder.ReadSized();
      if r == None || !Utf8(r.value) {
        return None;
      }
      if r.value == [] {
        r := ReadParts(pool, decoder);
      }
    }
    if r.Some? && (r.value == [] || !decoder.limits.Bytes(|r.value|)) {
      r := None;
    }
  }

  method ReadParts(pool: DataPool, decoder: Decoder) returns (r: Option<bytes>)
    requires pool.Valid() && decoder.Valid()
    modifies decoder
    ensures decoder.Valid()
    ensures match VuintAt(decoder.input, old(decoder.position))
            case Failed => r == None
            case Got(count, start) =>
              if !decoder.limits.Elements(count) || count < 2 then r == None
              else match PartsAt(pool.Entries(), decoder.input, start, count, [], decoder.limits)
                   case Got(name, next) => r == Some(name) && decoder.position == next
                   case Failed => r == None
  {
    hide DataPool.Entries, DataPool.Valid, VuintAt, TextAt;
    var count := decoder.ReadVuint();
    if count == None || !decoder.limits.Elements(count.value) || count.value < 2 {
      return None;
    }
    ghost var whole := PartsAt(pool.Entries(), decoder.input, decoder.position, count.value, [], decoder.limits);
    var value: bytes := [];
    for i: int := 0 to count.value
      invariant decoder.Valid()
      invariant whole == PartsAt(pool.Entries(), decoder.input, decoder.position, count.value - i, value, decoder.limits)
    {
      var index := decoder.ReadVuint();
      var item := ReadText(pool, index);
      if item == None || !decoder.limits.Bytes(|value| + |item.value|) {
        return None;
      }
      value := value + item.value;
    }
    r := Some(value);
  }
}
