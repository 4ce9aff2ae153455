/** Constructors and typed accessors of deterministic CBOR values, and the validating cursor. */
module CborValues {
  import opened Binary
  import opened Text
  import Floats
  import opened Cbor
  import opened CborProofs

  // ---------- Signed 128-bit integers ----------

  const I128_LIMIT: nat := 0x8000_0000_0000_0000_0000_0000_0000_0000

  predicate IsI128(value: int) {
    -(I128_LIMIT as int) <= value < I128_LIMIT
  }

  /** The shortest big-endian form. */
  function MinimalBe(value: nat): bytes {
    if value == 0 then [] else MinimalBe(value / 256) + [value % 256]
  }

  /** A basic integer when it fits 64 bits, otherwise a minimal bignum. */
  function Integer(value: int): Item {
    var magnitude: nat := if value < 0 then -1 - value else value;
    if magnitude < U64_LIMIT then if value < 0 then Negative(magnitude) else Unsigned(magnitude)
    else Tagged(if value < 0 then 3 else 2, ByteString(MinimalBe(magnitude)))
  }

  /** Rejects nonminimal and oversized bignums and every other type. */
  function AsInteger(item: Item): Option<int> {
    match item
    case Unsigned(value) => Some(value)
    case Negative(value) => Some(-1 - value)
    case Tagged(tag, ByteString(data)) =>
      if (tag != 2 && tag != 3) || !(9 <= |data| <= 16) || data[0] == 0 then None
      else
        var magnitude := FromBe(data);
        if magnitude >= I128_LIMIT then None else Some(if tag == 3 then -1 - magnitude else magnitude)
    case _ => None
  }

  lemma {:induction false} MinimalBeMeaning(value: nat, width: nat)
    ensures FromBe(MinimalBe(value)) == value
    ensures value != 0 ==> MinimalBe(value) != [] && MinimalBe(value)[0] != 0
    ensures value < Pow256(width) <==> |MinimalBe(value)| <= width
    decreases value
  {
    if value != 0 {
      MinimalBeMeaning(value / 256, if width > 0 then width - 1 else 0);
      MinimalBeFront(value);
      MinimalBeOfZero(value / 256);
      hide MinimalBe;
      assert width > 0 ==> (value < 256 * Pow256(width - 1) <==> value / 256 < Pow256(width - 1));
    }
  }

  lemma MinimalBeFront(value: nat)
    requires value != 0
    ensures var rest := MinimalBe(value / 256);
            MinimalBe(value) == rest + [value % 256] && FromBe(MinimalBe(value)) == FromBe(rest) * 256 + value % 256
  {
    var rest := MinimalBe(value / 256);
    assert (rest + [value % 256])[..|rest|] == rest;
  }

  lemma MinimalBeOfZero(value: nat)
    ensures MinimalBe(value) == [] <==> value == 0
  {
  }

  lemma {:induction false} MinimalBeIsUnique(s: bytes)
    requires s != [] ==> s[0] != 0
    ensures MinimalBe(FromBe(s)) == s
    decreases |s|
  {
    if s != [] {
      var front := s[..|s| - 1];
      MinimalBeIsUnique(front);
      FromBePositive(s);
      assert FromBe(s) / 256 == FromBe(front) && FromBe(s) % 256 == s[|s| - 1];
      assert front + [s[|s| - 1]] == s;
    }
  }

  lemma {:induction false} FromBePositive(s: bytes)
    requires s != [] && s[0] != 0
    ensures FromBe(s) > 0
    decreases |s|
  {
    if |s| > 1 {
      FromBePositive(s[..|s| - 1]);
    }
  }

  lemma Pow256Of16()
    ensures Pow256(8) == U64_LIMIT && Pow256(16) == 2 * I128_LIMIT
  {
    Pow256Values();
    assert Pow256(9) == 0x100 * U64_LIMIT;
    assert Pow256(10) == 0x1_0000 * U64_LIMIT;
    assert Pow256(11) == 0x100_0000 * U64_LIMIT;
    assert Pow256(12) == 0x1_0000_0000 * U64_LIMIT;
    assert Pow256(13) == 0x100_0000_0000 * U64_LIMIT;
    assert Pow256(14) == 0x1_0000_0000_0000 * U64_LIMIT;
    assert Pow256(15) == 0x100_0000_0000_0000 * U64_LIMIT;
  }

  /** Every signed 128-bit value survives the round trip. */
  lemma IntegerRoundTrip(value: int)
    requires IsI128(value)
    ensures AsInteger(Integer(value)) == Some(value)
  {
    hide MinimalBe, FromBe, Pow256;
    var magnitude: nat := if value < 0 then -1 - value else value;
    Pow256Of16();
    MinimalBeMeaning(magnitude, 8);
    MinimalBeMeaning(magnitude, 16);
  }

  /** Every item read as an integer is the canonical item of that integer. */
  lemma IntegerIsCanonical(item: Item)
    requires AsInteger(item).Some?
    ensures var value := AsInteger(item).value;
            IsI128(value) && item == Integer(value)
  {
    hide MinimalBe, FromBe, Pow256;
    match item
    case Tagged(_, ByteString(data)) =>
      MinimalBeIsUnique(data);
      MinimalBeMeaning(FromBe(data), 8);
      Pow256Of16();
    case _ =>
  }

  // ---------- Maps ----------

  function InsertPair(entry: Pair, sorted: seq<Pair>): (r: seq<Pair>)
    ensures multiset(r) == multiset(sorted) + multiset{entry}
    ensures |r| == |sorted| + 1
  {
    if sorted == [] || !Less(Encode(sorted[0].key), Encode(entry.key)) then [entry] + sorted
    else
      assert sorted == [sorted[0]] + sorted[1..];
      [sorted[0]] + InsertPair(entry, sorted[1..])
  }

  /** Entries in bytewise order of their encoded keys. */
  function SortPairs(entries: seq<Pair>): (r: seq<Pair>)
    ensures multiset(r) == multiset(entries)
    ensures |r| == |entries|
  {
    if entries == [] then []
    else
      assert entries == [entries[0]] + entries[1..];
      InsertPair(entries[0], SortPairs(entries[1..]))
  }

  /** Keys strictly increase from the position after `previous`. */
  predicate StrictFrom(entries: seq<Pair>, previous: Option<bytes>) {
    entries == [] || (Follows(previous, Encode(entries[0].key)) && StrictFrom(entries[1..], Some(Encode(entries[0].key))))
  }

  ghost predicate DistinctKeys(entries: seq<Pair>) {
    forall i, j :: 0 <= i < j < |entries| ==> Encode(entries[i].key) != Encode(entries[j].key)
  }

  /** A deterministic map of the entries, unless two keys are encoded alike. */
  function MapOf(entries: seq<Pair>): Option<Item> {
    var sorted := SortPairs(entries);
    if StrictFrom(sorted, None) then Some(Map(sorted)) else None
  }

  lemma {:induction false} InsertKeepsOrder(entry: Pair, sorted: seq<Pair>, previous: Option<bytes>)
    requires StrictFrom(sorted, previous) && Follows(previous, Encode(entry.key))
    requires forall other :: other in sorted ==> Encode(other.key) != Encode(entry.key)
    ensures StrictFrom(InsertPair(entry, sorted), previous)
    decreases |sorted|
  {
    hide Encode, Less;
    if sorted != [] {
      assert sorted[0] in sorted;
      LessIsStrictTotal(Encode(sorted[0].key), Encode(entry.key));
      if Less(Encode(sorted[0].key), Encode(entry.key)) {
        assert forall other :: other in sorted[1..] ==> other in sorted;
        InsertKeepsOrder(entry, sorted[1..], Some(Encode(sorted[0].key)));
      } else {
        assert ([entry] + sorted)[1..] == sorted;
      }
    }
  }

  lemma {:induction false} StrictKeysDiffer(entries: seq<Pair>, previous: Option<bytes>)
    requires StrictFrom(entries, previous)
    ensures forall entry :: entry in entries ==> Follows(previous, Encode(entry.key))
    ensures DistinctKeys(entries)
    decreases |entries|
  {
    hide Encode, Less;
    if entries != [] {
      var first := Encode(entries[0].key);
      StrictKeysDiffer(entries[1..], Some(first));
      forall entry | entry in entries ensures Follows(previous, Encode(entry.key)) {
        if entry != entries[0] && previous.Some? {
          assert entry in entries[1..];
          LessIsTransitive(previous.value, first, Encode(entry.key));
        }
      }
      forall i, j | 0 <= i < j < |entries| ensures Encode(entries[i].key) != Encode(entries[j].key) {
        if i == 0 {
          assert entries[j] in entries[1..];
          LessIsStrictTotal(first, Encode(entries[j].key));
        } else {
          assert entries[i] == entries[1..][i - 1] && entries[j] == entries[1..][j - 1];
        }
      }
    }
  }

  lemma {:induction false} DistinctSorts(entries: seq<Pair>)
    requires DistinctKeys(entries)
    ensures StrictFrom(SortPairs(entries), None)
    decreases |entries|
  {
    hide Encode, Less;
    if entries != [] {
      var rest := entries[1..];
      forall i, j | 0 <= i < j < |rest| ensures Encode(rest[i].key) != Encode(rest[j].key) {
        assert rest[i] == entries[i + 1] && rest[j] == entries[j + 1];
      }
      DistinctSorts(rest);
      forall other | other in SortPairs(rest) ensures Encode(other.key) != Encode(entries[0].key) {
        assert other in multiset(rest);
        var j :| 0 <= j < |rest| && rest[j] == other;
        assert entries[j + 1] == other;
      }
      InsertKeepsOrder(entries[0], SortPairs(rest), None);
    }
  }

  lemma {:induction false} InsertStrictOnly(entry: Pair, sorted: seq<Pair>, previous: Option<bytes>)
    requires StrictFrom(InsertPair(entry, sorted), previous)
    ensures StrictFrom(sorted, previous) && Follows(previous, Encode(entry.key))
    ensures forall other :: other in sorted ==> Encode(other.key) != Encode(entry.key)
    decreases |sorted|
  {
    hide Encode, Less;
    var key := Encode(entry.key);
    if sorted != [] {
      var first := Encode(sorted[0].key);
      if !Less(first, key) {
        assert ([entry] + sorted)[1..] == sorted;
        StrictKeysDiffer(sorted, Some(key));
        LessIsStrictTotal(key, key);
        if previous.Some? {
          LessIsTransitive(previous.value, key, first);
        }
      } else {
        InsertStrictOnly(entry, sorted[1..], Some(first));
        LessIsStrictTotal(first, key);
        assert sorted == [sorted[0]] + sorted[1..];
        if previous.Some? {
          LessIsTransitive(previous.value, first, key);
        }
      }
    }
  }

  lemma {:induction false} SortedIsDistinct(entries: seq<Pair>)
    requires StrictFrom(SortPairs(entries), None)
    ensures DistinctKeys(entries)
    decreases |entries|
  {
    hide Encode, Less;
    if entries != [] {
      var rest := entries[1..];
      InsertStrictOnly(entries[0], SortPairs(rest), None);
      SortedIsDistinct(rest);
      forall i, j | 0 <= i < j < |entries| ensures Encode(entries[i].key) != Encode(entries[j].key) {
        assert entries[j] == rest[j - 1];
        if i == 0 {
          assert entries[j] in multiset(rest);
        } else {
          assert entries[i] == rest[i - 1];
        }
      }
    }
  }

  /** The map constructor fails exactly on a repeated key; otherwise it holds the same entries, sorted and valid. */
  lemma MapOfMeaning(entries: seq<Pair>)
    ensures MapOf(entries) == None <==> !DistinctKeys(entries)
    ensures match MapOf(entries)
            case None => true
            case Some(item) => item.Map? && multiset(item.entries) == multiset(entries) && StrictFrom(item.entries, None)
  {
    hide Encode, StrictFrom, DistinctKeys;
    if DistinctKeys(entries) {
      DistinctSorts(entries);
    } else if StrictFrom(SortPairs(entries), None) {
      SortedIsDistinct(entries);
    }
  }

  /** Sorted entries that are individually valid make a valid map. */
  lemma {:induction false} StrictIsValid(entries: seq<Pair>, previous: Option<bytes>, depth: nat, limits: Limits)
    requires StrictFrom(entries, previous)
    requires forall entry :: entry in entries ==> ValidPair(entry, depth, limits)
    ensures ValidPairs(entries, previous, depth, limits)
    decreases |entries|
  {
    hide Encode, Less, ValidPair;
    if entries != [] {
      assert entries[0] in entries;
      assert forall entry :: entry in entries[1..] ==> entry in entries;
      StrictIsValid(entries[1..], Some(Encode(entries[0].key)), depth, limits);
    }
  }

  /** What `map` builds from valid entries, the validator accepts. */
  lemma MapOfIsAccepted(entries: seq<Pair>, depth: nat, limits: Limits)
    requires MapOf(entries).Some? && depth <= limits.maxDepth && limits.Elements(|entries|)
    requires forall entry :: entry in entries ==> ValidPair(entry, depth + 1, limits)
    ensures Valid(MapOf(entries).value, depth, limits)
  {
    hide Encode, Less, ValidPair, ValidPairs, StrictFrom, Floats.Shortest, DistinctKeys;
    MapOfMeaning(entries);
    var sorted := SortPairs(entries);
    forall entry | entry in sorted ensures ValidPair(entry, depth + 1, limits) {
      assert entry in multiset(sorted);
      assert entry in entries;
    }
    StrictIsValid(sorted, None, depth + 1, limits);
  }

  /** The value under an unsigned key. */
  function Find(entries: seq<Pair>, key: u64): Option<Item> {
    if entries == [] then None
    else if entries[0].key == Unsigned(key) then Some(entries[0].value)
    else Find(entries[1..], key)
  }

  function Get(item: Item, key: u64): Option<Item> {
    if item.Map? then Find(item.entries, key) else None
  }

  lemma {:induction false} FindMeaning(entries: seq<Pair>, key: u64)
    requires DistinctKeys(entries)
    ensures forall value :: Pair(Unsigned(key), value) in entries <==> Find(entries, key) == Some(value)
    ensures Find(entries, key) == None ==> forall entry :: entry in entries ==> entry.key != Unsigned(key)
    decreases |entries|
  {
    hide Encode;
    if entries != [] {
      var rest := entries[1..];
      forall i, j | 0 <= i < j < |rest| ensures Encode(rest[i].key) != Encode(rest[j].key) {
        assert rest[i] == entries[i + 1] && rest[j] == entries[j + 1];
      }
      FindMeaning(rest, key);
      assert entries == [entries[0]] + rest;
      if entries[0].key == Unsigned(key) {
        forall entry | entry in rest ensures entry.key != Unsigned(key) {
          var j :| 0 <= j < |rest| && rest[j] == entry;
          assert Encode(entries[0].key) != Encode(entries[j + 1].key);
        }
      }
    }
  }

  /** Looking up an integer key in a built map finds what the entries gave for it, in any order. */
  lemma MapOfGet(entries: seq<Pair>, key: u64)
    requires MapOf(entries).Some?
    ensures forall value :: Pair(Unsigned(key), value) in entries <==> Get(MapOf(entries).value, key) == Some(value)
  {
    hide Encode, Find, StrictFrom, DistinctKeys;
    MapOfMeaning(entries);
    var sorted := SortPairs(entries);
    StrictKeysDiffer(sorted, None);
    FindMeaning(sorted, key);
    forall value ensures Pair(Unsigned(key), value) in entries <==> Pair(Unsigned(key), value) in sorted {
      assert Pair(Unsigned(key), value) in multiset(entries) <==> Pair(Unsigned(key), value) in multiset(sorted);
    }
  }

  // ---------- Sized values ----------

  /** The bytes of a sized value: nothing for an empty map. */
  function SizedBody(item: Item): bytes {
    if item == EMPTY_MAP then [] else Encode(item)
  }

  function EncodeSized(item: Item): bytes {
    Sized(SizedBody(item))
  }

  function SizedItemAt(s: bytes, pos: nat, limits: Limits): (r: Read<Item>)
    ensures r.Got? ==> pos < r.next <= |s|
  {
    match SizedAt(s, pos, limits)
    case Failed => Failed
    case Got(body, next) =>
      if body == [] then Got(EMPTY_MAP, next)
      else
        match Parse(body, limits)
        case None => Failed
        case Some(item) => if item == EMPTY_MAP then Failed else Got(item, next)
  }

  lemma SizedItemRoundTrip(s: bytes, pos: nat, item: Item, limits: Limits)
    requires Valid(item, 0, limits) && At(s, pos, EncodeSized(item))
    requires limits.Bytes(|SizedBody(item)|)
    ensures SizedItemAt(s, pos, limits) == Got(item, pos + |EncodeSized(item)|)
  {
    hide Parse, Encode, Valid, At;
    SizedRoundTrip(s, pos, SizedBody(item), limits);
    AcceptsExactlyEncodings(Encode(item), item, limits);
  }

  // ---------- The cursor ----------

  method Argument(cursor: Decoder, additional: nat) returns (r: Option<u64>)
    requires cursor.Valid() && additional < 32
    modifies cursor
    ensures cursor.Valid()
    ensures match ArgumentAt(cursor.input, old(cursor.position), additional)
            case Got(value, next) => r == Some(value) && cursor.position == next
            case Failed => r == None
  {
    hide FromBe;
    if additional < 24 {
      return Some(additional);
    }
    if additional > 27 {
      return None;
    }
    var (width, minimum) := ArgumentForm(additional);
    var data := cursor.Take(width);
    if data == None {
      return None;
    }
    var value := 0;
    FoldByte(data.value, 0);
    for i := 0 to width
      invariant cursor.Valid() && cursor.position == old(cursor.position) + width
      invariant value == FromBe(data.value[..i])
    {
      FoldByte(data.value, i);
      value := value * 256 + data.value[i];
    }
    assert data.value[..width] == data.value;
    ArgumentFitsU64(data.value);
    r := if value < minimum then None else Some(value);
  }

  lemma FoldByte(s: bytes, i: nat)
    requires i < |s|
    ensures FromBe(s[..0]) == 0
    ensures FromBe(s[..i + 1]) == FromBe(s[..i]) * 256 + s[i]
  {
    assert s[..i + 1][..i] == s[..i];
  }

  /** Moves past one item, children included, when it is the deterministic encoding of some value. */
  method Scan(cursor: Decoder, depth: nat) returns (ok: bool)
    requires cursor.Valid()
    modifies cursor
    ensures cursor.Valid()
    ensures match ItemAt(cursor.input, old(cursor.position), depth, cursor.limits)
            case Got(_, next) => ok && cursor.position == next
            case Failed => !ok
    decreases |cursor.input| - cursor.position, 0, 0
  {
    hide ArgumentAt, ItemsAt, PairsAt, Utf8, SimpleAt;
    if depth > cursor.limits.maxDepth {
      return false;
    }
    var first := cursor.U8();
    if first == None {
      return false;
    }
    var major, additional := first.value / 32, first.value % 32;
    if major == 7 {
      ok := ScanSimple(cursor, additional);
      return;
    }
    var value := Argument(cursor, additional);
    if value == None {
      return false;
    }
    match major
    case 0 => ok := true;
    case 1 => ok := true;
    case 2 => ok := ScanString(cursor, value.value, false);
    case 3 => ok := ScanString(cursor, value.value, true);
    case 4 =>
      if !cursor.limits.Elements(value.value) {
        return false;
      }
      ok := ScanItems(cursor, value.value, depth + 1);
    case 5 =>
      if !cursor.limits.Elements(value.value) {
        return false;
      }
      ok := ScanPairs(cursor, value.value, depth + 1);
    case _ =>
      ok := Scan(cursor, depth + 1);
  }

  /** Validates simple values and the shortest form of floats. */
  method ScanSimple(cursor: Decoder, additional: nat) returns (ok: bool)
    requires cursor.Valid() && additional < 32
    modifies cursor
    ensures cursor.Valid()
    ensures match SimpleAt(cursor.input, old(cursor.position), additional)
            case Got(_, next) => ok && cursor.position == next
            case Failed => !ok
  {
    hide Floats.Shortest, FromBe;
    if additional < 24 {
      return true;
    }
    if additional == 24 {
      var code := cursor.U8();
      return code.Some? && code.value >= 32;
    }
    if additional > 27 {
      return false;
    }
    var bits := cursor.Take(FloatWidth(additional));
    ok := bits.Some? && Floats.Shortest(|bits.value|, FromBe(bits.value));
  }

  method ScanString(cursor: Decoder, length: nat, text: bool) returns (ok: bool)
    requires cursor.Valid()
    modifies cursor
    ensures cursor.Valid()
    ensures match StringAt(cursor.input, old(cursor.position), length, text, cursor.limits)
            case Got(_, next) => ok && cursor.position == next
            case Failed => !ok
  {
    hide Utf8;
    if !cursor.limits.Bytes(length) {
      return false;
    }
    var data := cursor.Take(length);
    ok := data.Some? && (!text || Utf8(data.value));
  }

  /** Whether the items still to be read decide the outcome of the whole collection. */
  ghost predicate SameEnd<T>(whole: Read<T>, rest: Read<T>) {
    match rest
    case Failed => whole == Failed
    case Got(_, next) => whole.Got? && whole.next == next
  }

  method ScanItems(cursor: Decoder, count: nat, depth: nat) returns (ok: bool)
    requires cursor.Valid()
    modifies cursor
    ensures cursor.Valid()
    ensures match ItemsAt(cursor.input, old(cursor.position), count, depth, cursor.limits)
            case Got(_, next) => ok && cursor.position == next
            case Failed => !ok
    decreases |cursor.input| - cursor.position, 1, count
  {
    hide ItemAt;
    ghost var whole := ItemsAt(cursor.input, cursor.position, count, depth, cursor.limits);
    for i := 0 to count
      invariant cursor.Valid() && cursor.position >= old(cursor.position)
      invariant SameEnd(whole, ItemsAt(cursor.input, cursor.position, count - i, depth, cursor.limits))
    {
      ok := Scan(cursor, depth);
      if !ok {
        return;
      }
    }
    ok := true;
  }

  method ScanPairs(cursor: Decoder, count: nat, depth: nat) returns (ok: bool)
    requires cursor.Valid()
    modifies cursor
    ensures cursor.Valid()
    ensures match PairsAt(cursor.input, old(cursor.position), count, None, depth, cursor.limits)
            case Got(_, next) => ok && cursor.position == next
            case Failed => !ok
    decreases |cursor.input| - cursor.position, 1, count
  {
    hide ItemAt, Follows;
    ghost var whole := PairsAt(cursor.input, cursor.position, count, None, depth, cursor.limits);
    var previous: Option<bytes> := None;
    for i := 0 to count
      invariant cursor.Valid() && cursor.position >= old(cursor.position)
      invariant SameEnd(whole, PairsAt(cursor.input, cursor.position, count - i, previous, depth, cursor.limits))
    {
      var start := cursor.position;
      ok := Scan(cursor, depth);
      if !ok {
        return;
      }
      var key := cursor.input[start..cursor.position];
      if !Follows(previous, key) {
        return false;
      }
      previous := Some(key);
      ok := Scan(cursor, depth);
      if !ok {
        return;
      }
    }
    ok := true;
  }

  /** Validates one complete item, rejecting trailing bytes. */
  method Validate(s: bytes, limits: Limits) returns (ok: bool)
    ensures ok <==> exists item :: Valid(item, 0, limits) && limits.Bytes(|s|) && s == Encode(item)
  {
    hide ItemAt, Encode, Valid;
    if !limits.Bytes(|s|) {
      return false;
    }
    var cursor := new Decoder(s, limits);
    ok := Scan(cursor, 0);
    ok := ok && cursor.Remaining() == 0;
    if ok {
      AcceptsExactlyEncodings(s, Parse(s, limits).value, limits);
    } else {
      forall item | Valid(item, 0, limits) ensures s != Encode(item) {
        AcceptsExactlyEncodings(s, item, limits);
      }
    }
  }
}
