/** The validator accepts exactly the encodings of valid items, and every item has one encoding. */
module CborProofs {
  import opened Binary
  import opened Text
  import Floats
  import opened Cbor

  // ---------- Heads ----------

  /** What reading a head at `pos` gives: the major type and the argument. */
  function HeadAt(s: bytes, pos: nat): (r: Read<(nat, u64)>)
    requires pos < |s|
  {
    match ArgumentAt(s, pos + 1, s[pos] % 32)
    case Failed => Failed
    case Got(value, next) => Got((s[pos] / 32, value), next)
  }

  /** A head is its initial byte and the argument bytes, as wide as the initial byte says. */
  lemma HeadSplits(major: nat, value: u64)
    requires major < 8
    ensures var head := Head(major, value);
            && head[0] / 32 == major
            && (value < 24 ==> head == [head[0]] && head[0] % 32 == value)
            && (value >= 24 ==> head == [head[0]] + Be(value, |head| - 1) && value < Pow256(|head| - 1))
  {
    hide Be, Pow256;
    Pow256Values();
  }

  lemma HeadRoundTrip(s: bytes, pos: nat, major: nat, value: u64)
    requires major < 8 && At(s, pos, Head(major, value))
    ensures s[pos] / 32 == major && HeadAt(s, pos) == Got((major, value), pos + |Head(major, value)|)
  {
    hide Be, FromBe, Pow256;
    var head := Head(major, value);
    AtSlice(s, pos, head);
    assert s[pos] == s[pos..pos + |head|][0] == head[0];
    HeadSplits(major, value);
    if value >= 24 {
      BeRoundTrip(value, |head| - 1);
      assert s[pos + 1..pos + |head|] == head[1..];
    }
  }

  lemma HeadMeaning(s: bytes, pos: nat)
    requires pos < |s| && HeadAt(s, pos).Got?
    ensures var r := HeadAt(s, pos);
            r.value.0 < 8 && pos < r.next <= |s| && s[pos..r.next] == Head(r.value.0, r.value.1)
  {
    hide Be, FromBe, Pow256;
    var r := HeadAt(s, pos);
    if s[pos] % 32 >= 24 {
      FromBeRoundTrip(s[pos + 1..r.next]);
      Pow256Values();
      assert s[pos..r.next] == [s[pos]] + s[pos + 1..r.next];
    }
  }

  // ---------- Every encoding of a valid item is accepted, as that item ----------

  lemma {:induction false} ItemRoundTrip(s: bytes, pos: nat, item: Item, depth: nat, limits: Limits)
    requires Valid(item, depth, limits) && At(s, pos, Encode(item))
    ensures ItemAt(s, pos, depth, limits) == Got(item, pos + |Encode(item)|)
    decreases item, 1
  {
    hide At, ArgumentAt, Head, EncodeAll, EncodePairs, ItemsAt, PairsAt, ValidAll, ValidPairs, Utf8;
    match item
    case Unsigned(value) => AtomRoundTrip(s, pos, item, depth, limits);
    case Negative(value) => AtomRoundTrip(s, pos, item, depth, limits);
    case ByteString(data) => AtomRoundTrip(s, pos, item, depth, limits);
    case TextString(text) => AtomRoundTrip(s, pos, item, depth, limits);
    case Array(items) =>
      AtConcat(s, pos, Head(4, |items|), EncodeAll(items));
      HeadRoundTrip(s, pos, 4, |items|);
      ItemsRoundTrip(s, pos + |Head(4, |items|)|, items, depth + 1, limits);
    case Map(entries) =>
      AtConcat(s, pos, Head(5, |entries|), EncodePairs(entries));
      HeadRoundTrip(s, pos, 5, |entries|);
      PairsRoundTrip(s, pos + |Head(5, |entries|)|, entries, None, depth + 1, limits);
    case Tagged(tag, content) =>
      AtConcat(s, pos, Head(6, tag), Encode(content));
      HeadRoundTrip(s, pos, 6, tag);
      ItemRoundTrip(s, pos + |Head(6, tag)|, content, depth + 1, limits);
    case Simple(code) => AtomRoundTrip(s, pos, item, depth, limits);
    case Float(bits) => AtomRoundTrip(s, pos, item, depth, limits);
  }

  /** Items that hold no others. */
  lemma AtomRoundTrip(s: bytes, pos: nat, item: Item, depth: nat, limits: Limits)
    requires Valid(item, depth, limits) && At(s, pos, Encode(item)) && !item.Array? && !item.Map? && !item.Tagged?
    ensures ItemAt(s, pos, depth, limits) == Got(item, pos + |Encode(item)|)
  {
    hide At, ArgumentAt, Head, Utf8, ItemsAt, PairsAt, SimpleAt, Floats.Shortest;
    match item
    case Unsigned(value) => HeadRoundTrip(s, pos, 0, value);
    case Negative(value) => HeadRoundTrip(s, pos, 1, value);
    case ByteString(data) => StringRoundTrip(s, pos, 2, data, limits);
    case TextString(text) => StringRoundTrip(s, pos, 3, text, limits);
    case Simple(code) => SimpleRoundTrip(s, pos, code);
    case Float(bits) => FloatRoundTrip(s, pos, bits);
  }

  lemma SimpleRoundTrip(s: bytes, pos: nat, code: byte)
    requires (code < 24 || code >= 32) && At(s, pos, Encode(Simple(code)))
    ensures s[pos] / 32 == 7 && SimpleAt(s, pos + 1, s[pos] % 32) == Got(Simple(code), pos + |Encode(Simple(code))|)
  {
    hide Floats.Shortest;
    var t := s[pos..pos + |Encode(Simple(code))|];
    assert s[pos] == t[0];
    assert code >= 24 ==> s[pos + 1] == t[1];
  }

  lemma FloatRoundTrip(s: bytes, pos: nat, bits: bytes)
    requires Floats.Shortest(|bits|, FromBe(bits)) && At(s, pos, Encode(Float(bits)))
    ensures s[pos] / 32 == 7 && SimpleAt(s, pos + 1, s[pos] % 32) == Got(Float(bits), pos + |Encode(Float(bits))|)
  {
    WidthOf(|bits|, FromBe(bits));
    hide Floats.Shortest, FromBe;
    AtConcat(s, pos, [FloatByte(|bits|)], bits);
    var t := s[pos..pos + 1];
    assert s[pos] == t[0];
  }

  lemma WidthOf(width: nat, bits: nat)
    requires Floats.Shortest(width, bits)
    ensures width == 2 || width == 4 || width == 8
  {
    hide Floats.FieldsOf, Floats.Nan, Floats.Narrows;
  }

  lemma StringRoundTrip(s: bytes, pos: nat, major: nat, data: bytes, limits: Limits)
    requires major < 8 && limits.Bytes(|data|)
    requires At(s, pos, Head(major, |data|) + data)
    ensures HeadAt(s, pos) == Got((major, |data|), pos + |Head(major, |data|)|)
    ensures TakeAt(s, pos + |Head(major, |data|)|, |data|) == Got(data, pos + |Head(major, |data|) + data|)
  {
    hide HeadAt, Head;
    AtConcat(s, pos, Head(major, |data|), data);
    HeadRoundTrip(s, pos, major, |data|);
  }

  lemma {:induction false} ItemsRoundTrip(s: bytes, pos: nat, items: seq<Item>, depth: nat, limits: Limits)
    requires ValidAll(items, depth, limits) && At(s, pos, EncodeAll(items))
    ensures ItemsAt(s, pos, |items|, depth, limits) == Got(items, pos + |EncodeAll(items)|)
    decreases items, 0
  {
    hide At, ItemAt, Encode, Valid;
    if items != [] {
      AtConcat(s, pos, Encode(items[0]), EncodeAll(items[1..]));
      ItemRoundTrip(s, pos, items[0], depth, limits);
      ItemsRoundTrip(s, pos + |Encode(items[0])|, items[1..], depth, limits);
      assert items == [items[0]] + items[1..];
    }
  }

  lemma {:induction false} PairsRoundTrip(s: bytes, pos: nat, entries: seq<Pair>, previous: Option<bytes>, depth: nat, limits: Limits)
    requires ValidPairs(entries, previous, depth, limits) && At(s, pos, EncodePairs(entries))
    ensures PairsAt(s, pos, |entries|, previous, depth, limits) == Got(entries, pos + |EncodePairs(entries)|)
    decreases entries, 0
  {
    hide At, ItemAt, Encode, Valid, Follows;
    if entries != [] {
      var key, value := Encode(entries[0].key), Encode(entries[0].value);
      AtConcat(s, pos, key + value, EncodePairs(entries[1..]));
      PairRoundTrip(s, pos, entries[0], depth, limits);
      PairsRoundTrip(s, pos + |key| + |value|, entries[1..], Some(key), depth, limits);
      assert entries == [entries[0]] + entries[1..];
    }
  }

  lemma {:induction false} PairRoundTrip(s: bytes, pos: nat, entry: Pair, depth: nat, limits: Limits)
    requires ValidPair(entry, depth, limits) && At(s, pos, EncodePair(entry))
    ensures ItemAt(s, pos, depth, limits) == Got(entry.key, pos + |Encode(entry.key)|)
    ensures s[pos..pos + |Encode(entry.key)|] == Encode(entry.key)
    ensures ItemAt(s, pos + |Encode(entry.key)|, depth, limits) == Got(entry.value, pos + |EncodePair(entry)|)
    decreases entry, 0
  {
    hide At, ItemAt, Encode, Valid;
    AtConcat(s, pos, Encode(entry.key), Encode(entry.value));
    AtSlice(s, pos, Encode(entry.key));
    ItemRoundTrip(s, pos, entry.key, depth, limits);
    ItemRoundTrip(s, pos + |Encode(entry.key)|, entry.value, depth, limits);
  }

  lemma AtSlice(s: bytes, pos: nat, t: bytes)
    requires At(s, pos, t)
    ensures s[pos..pos + |t|] == t
  {
  }

  // ---------- Nothing else is accepted ----------

  lemma {:induction false} ItemMeaning(s: bytes, pos: nat, depth: nat, limits: Limits)
    requires ItemAt(s, pos, depth, limits).Got?
    ensures var r := ItemAt(s, pos, depth, limits);
            Valid(r.value, depth, limits) && s[pos..r.next] == Encode(r.value)
    decreases |s| - pos, 0, 0
  {
    hide ArgumentAt, Head, EncodeAll, EncodePairs, ItemsAt, PairsAt, ValidAll, ValidPairs, Utf8, SimpleAt, Floats.Shortest;
    var r := ItemAt(s, pos, depth, limits);
    if s[pos] / 32 == 7 {
      SimpleMeaning(s, pos);
    } else {
      HeadMeaning(s, pos);
      var head := HeadAt(s, pos);
      assert s[pos..r.next] == s[pos..head.next] + s[head.next..r.next];
      match s[pos] / 32
      case 4 => ItemsMeaning(s, head.next, head.value.1, depth + 1, limits);
      case 5 => PairsMeaning(s, head.next, head.value.1, None, depth + 1, limits);
      case 6 => ItemMeaning(s, head.next, depth + 1, limits);
      case _ =>
    }
  }

  lemma SimpleMeaning(s: bytes, pos: nat)
    requires pos < |s| && s[pos] / 32 == 7 && SimpleAt(s, pos + 1, s[pos] % 32).Got?
    ensures var r := SimpleAt(s, pos + 1, s[pos] % 32);
            && s[pos..r.next] == Encode(r.value)
            && match r.value
               case Simple(code) => code < 24 || code >= 32
               case Float(bits) => Floats.Shortest(|bits|, FromBe(bits))
               case _ => false
  {
    hide Floats.Shortest, FromBe;
    var r := SimpleAt(s, pos + 1, s[pos] % 32);
    assert s[pos..r.next] == [s[pos]] + s[pos + 1..r.next];
  }

  lemma {:induction false} ItemsMeaning(s: bytes, pos: nat, count: nat, depth: nat, limits: Limits)
    requires pos <= |s| && ItemsAt(s, pos, count, depth, limits).Got?
    ensures var r := ItemsAt(s, pos, count, depth, limits);
            |r.value| == count && ValidAll(r.value, depth, limits) && s[pos..r.next] == EncodeAll(r.value)
    decreases |s| - pos, 1, count
  {
    hide ItemAt, Encode, Valid;
    if count > 0 {
      var first := ItemAt(s, pos, depth, limits);
      ItemMeaning(s, pos, depth, limits);
      ItemsMeaning(s, first.next, count - 1, depth, limits);
      var r := ItemsAt(s, pos, count, depth, limits);
      assert s[pos..r.next] == s[pos..first.next] + s[first.next..r.next];
      assert r.value[1..] == ItemsAt(s, first.next, count - 1, depth, limits).value;
    }
  }

  lemma {:induction false} PairsMeaning(s: bytes, pos: nat, count: nat, previous: Option<bytes>, depth: nat, limits: Limits)
    requires pos <= |s| && PairsAt(s, pos, count, previous, depth, limits).Got?
    ensures var r := PairsAt(s, pos, count, previous, depth, limits);
            |r.value| == count && ValidPairs(r.value, previous, depth, limits) && s[pos..r.next] == EncodePairs(r.value)
    decreases |s| - pos, 1, count
  {
    hide ItemAt, Encode, Valid, Follows;
    if count > 0 {
      var key := ItemAt(s, pos, depth, limits);
      ItemMeaning(s, pos, depth, limits);
      var value := ItemAt(s, key.next, depth, limits);
      ItemMeaning(s, key.next, depth, limits);
      PairsMeaning(s, value.next, count - 1, Some(s[pos..key.next]), depth, limits);
      var r := PairsAt(s, pos, count, previous, depth, limits);
      assert s[pos..r.next] == s[pos..key.next] + s[key.next..value.next] + s[value.next..r.next];
      assert r.value[1..] == PairsAt(s, value.next, count - 1, Some(s[pos..key.next]), depth, limits).value;
    }
  }

  /** Acceptance is exactly being the encoding of a valid item, and the item is the one read. */
  lemma AcceptsExactlyEncodings(s: bytes, item: Item, limits: Limits)
    ensures Parse(s, limits) == Some(item) <==> s == Encode(item) && Valid(item, 0, limits) && limits.Bytes(|s|)
  {
    hide ItemAt, Encode, Valid;
    if Parse(s, limits) == Some(item) {
      ItemMeaning(s, 0, 0, limits);
      assert s[0..|s|] == s;
    }
    if s == Encode(item) && Valid(item, 0, limits) {
      AtSelf(s);
      ItemRoundTrip(s, 0, item, 0, limits);
    }
  }

  /** Deterministic: two valid items with the same encoding are the same item. */
  lemma EncodingIsInjective(a: Item, b: Item, limits: Limits)
    requires Valid(a, 0, limits) && Valid(b, 0, limits) && Encode(a) == Encode(b)
    ensures a == b
  {
    hide ItemAt, Encode, Valid;
    AtSelf(Encode(a));
    ItemRoundTrip(Encode(a), 0, a, 0, limits);
    ItemRoundTrip(Encode(a), 0, b, 0, limits);
  }
}
