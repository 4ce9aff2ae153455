/** Deterministic CBOR (RFC 8949 section 4.2.1): values, their one encoding, and its validator. */
module Cbor {
  import opened Binary
  import opened Text
  import Floats

  /** A data item; a float is its two, four or eight bytes. */
  datatype Item =
    | Unsigned(value: u64)
    | Negative(value: u64)
    | ByteString(data: bytes)
    | TextString(text: bytes)
    | Array(items: seq<Item>)
    | Map(entries: seq<Pair>)
    | Tagged(tag: u64, content: Item)
    | Simple(code: byte)
    | Float(bits: bytes)

  datatype Pair = Pair(key: Item, value: Item)

  const EMPTY_MAP := Map([])

  // ---------- Encoding ----------

  /** The initial byte and its argument, in the preferred (shortest) width. */
  function Head(major: nat, value: u64): (r: bytes)
    requires major < 8
    ensures |r| >= 1
  {
    if value < 24 then [32 * major + value]
    else if value < 0x100 then [32 * major + 24] + Be(value, 1)
    else if value < 0x1_0000 then [32 * major + 25] + Be(value, 2)
    else if value < 0x1_0000_0000 then [32 * major + 26] + Be(value, 4)
    else [32 * major + 27] + Be(value, 8)
  }

  /** Lengths that a 64-bit argument can carry; longer collections cannot exist in memory. */
  function Count(length: nat): u64 {
    if length < U64_LIMIT then length else 0
  }

  /** The initial byte of a float of this many bytes. */
  function FloatByte(width: nat): byte {
    if width == 2 then 0xf9 else if width == 4 then 0xfa else 0xfb
  }

  function Encode(item: Item): (r: bytes)
    ensures |r| >= 1
    decreases item, 1
  {
    match item
    case Unsigned(value) => Head(0, value)
    case Negative(value) => Head(1, value)
    case ByteString(data) => Head(2, Count(|data|)) + data
    case TextString(text) => Head(3, Count(|text|)) + text
    case Array(items) => Head(4, Count(|items|)) + EncodeAll(items)
    case Map(entries) => Head(5, Count(|entries|)) + EncodePairs(entries)
    case Tagged(tag, content) => Head(6, tag) + Encode(content)
    case Simple(code) => if code < 24 then [0xe0 + code] else [0xf8, code]
    case Float(bits) => [FloatByte(|bits|)] + bits
  }

  function EncodeAll(items: seq<Item>): bytes
    decreases items, 0
  {
    if items == [] then [] else Encode(items[0]) + EncodeAll(items[1..])
  }

  function EncodePairs(entries: seq<Pair>): bytes
    decreases entries, 0
  {
    if entries == [] then []
    else EncodePair(entries[0]) + EncodePairs(entries[1..])
  }

  function EncodePair(entry: Pair): bytes
    decreases entry, 0
  {
    Encode(entry.key) + Encode(entry.value)
  }

  /** Bytewise lexicographic order. */
  predicate Less(a: bytes, b: bytes)
    decreases |b|
  {
    if b == [] then false
    else if a == [] then true
    else if a[0] != b[0] then a[0] < b[0]
    else Less(a[1..], b[1..])
  }

  lemma {:induction false} LessIsStrictTotal(a: bytes, b: bytes)
    ensures !(Less(a, b) && Less(b, a))
    ensures Less(a, b) || Less(b, a) <==> a != b
    decreases |b|
  {
    if a != [] && b != [] && a[0] == b[0] {
      LessIsStrictTotal(a[1..], b[1..]);
      assert a == [a[0]] + a[1..] && b == [b[0]] + b[1..];
    }
  }

  lemma {:induction false} LessIsTransitive(a: bytes, b: bytes, c: bytes)
    requires Less(a, b) && Less(b, c)
    ensures Less(a, c)
    decreases |c|
  {
    if a != [] && a[0] == b[0] == c[0] {
      LessIsTransitive(a[1..], b[1..], c[1..]);
    }
  }

  // ---------- Validity ----------

  /** A key may follow the previous one. */
  predicate Follows(previous: Option<bytes>, key: bytes) {
    previous == None || Less(previous.value, key)
  }

  /** Well formed, deterministic, and within the reader's limits at this nesting depth. */
  predicate Valid(item: Item, depth: nat, limits: Limits)
    decreases item, 1
  {
    depth <= limits.maxDepth &&
    match item
    case Unsigned(_) => true
    case Negative(_) => true
    case ByteString(data) => limits.Bytes(|data|)
    case TextString(text) => limits.Bytes(|text|) && Utf8(text)
    case Array(items) => limits.Elements(|items|) && ValidAll(items, depth + 1, limits)
    case Map(entries) => limits.Elements(|entries|) && ValidPairs(entries, None, depth + 1, limits)
    case Tagged(_, content) => Valid(content, depth + 1, limits)
    case Simple(code) => code < 24 || code >= 32
    case Float(bits) => Floats.Shortest(|bits|, FromBe(bits))
  }

  predicate ValidAll(items: seq<Item>, depth: nat, limits: Limits)
    decreases items, 0
  {
    items == [] || (Valid(items[0], depth, limits) && ValidAll(items[1..], depth, limits))
  }

  /** Keys strictly increase in bytewise order, starting after `previous`. */
  predicate ValidPairs(entries: seq<Pair>, previous: Option<bytes>, depth: nat, limits: Limits)
    decreases entries, 0
  {
    entries == [] || (
      && ValidPair(entries[0], depth, limits)
      && Follows(previous, Encode(entries[0].key))
      && ValidPairs(entries[1..], Some(Encode(entries[0].key)), depth, limits))
  }

  predicate ValidPair(entry: Pair, depth: nat, limits: Limits)
    decreases entry, 0
  {
    Valid(entry.key, depth, limits) && Valid(entry.value, depth, limits)
  }

  // ---------- The validator ----------

  /** The width and least value of each argument form after the immediate ones. */
  function ArgumentForm(additional: nat): (nat, nat)
    requires 24 <= additional <= 27
  {
    match additional
    case 24 => (1, 24)
    case 25 => (2, 0x100)
    case 26 => (4, 0x1_0000)
    case _ => (8, 0x1_0000_0000)
  }

  function ArgumentAt(s: bytes, pos: nat, additional: nat): (r: Read<u64>)
    requires additional < 32
    ensures r.Got? ==> pos <= r.next && (pos <= |s| ==> r.next <= |s|)
  {
    if additional < 24 then Got(additional, pos)
    else if additional > 27 then Failed
    else
      var (width, minimum) := ArgumentForm(additional);
      if pos + width > |s| then Failed
      else
        var value := FromBe(s[pos..pos + width]);
        ArgumentFitsU64(s[pos..pos + width]);
        if value < minimum then Failed else Got(value, pos + width)
  }

  lemma ArgumentFitsU64(s: bytes)
    requires |s| <= 8
    ensures FromBe(s) < U64_LIMIT
  {
    FromBeRoundTrip(s);
    Pow256Values();
    Pow256Monotone(|s|, 8);
  }

  lemma Pow256Values()
    ensures Pow256(1) == 0x100 && Pow256(2) == 0x1_0000 && Pow256(4) == 0x1_0000_0000 && Pow256(8) == U64_LIMIT
  {
    assert Pow256(3) == 0x1_00_0000;
    assert Pow256(5) == 0x1_00_0000_0000;
    assert Pow256(6) == 0x1_0000_0000_0000;
    assert Pow256(7) == 0x1_00_0000_0000_0000;
  }

  lemma Pow256Monotone(a: nat, b: nat)
    requires a <= b
    ensures Pow256(a) <= Pow256(b)
    decreases b - a
  {
    if a < b {
      Pow256Monotone(a, b - 1);
    }
  }

  /** The bytes of a float that an initial byte announces. */
  function FloatWidth(additional: nat): nat {
    if additional == 25 then 2 else if additional == 26 then 4 else 8
  }

  /** A simple value or a float, after its initial byte. */
  function SimpleAt(s: bytes, pos: nat, additional: nat): (r: Read<Item>)
    requires pos <= |s| && additional < 32
    ensures r.Got? ==> pos <= r.next <= |s|
  {
    if additional < 24 then Got(Simple(additional), pos)
    else if additional == 24 then if pos < |s| && s[pos] >= 32 then Got(Simple(s[pos]), pos + 1) else Failed
    else if additional > 27 then Failed
    else
      match TakeAt(s, pos, FloatWidth(additional))
      case Failed => Failed
      case Got(bits, next) => if Floats.Shortest(|bits|, FromBe(bits)) then Got(Float(bits), next) else Failed
  }

  /** Reads one item at `pos`, rejecting everything but its deterministic encoding. */
  function ItemAt(s: bytes, pos: nat, depth: nat, limits: Limits): (r: Read<Item>)
    ensures r.Got? ==> pos < r.next <= |s|
    decreases |s| - pos, 0, 0
  {
    if depth > limits.maxDepth || pos >= |s| then Failed
    else
      var major, additional := s[pos] / 32, s[pos] % 32;
      if major == 7 then SimpleAt(s, pos + 1, additional)
      else
        match ArgumentAt(s, pos + 1, additional)
        case Failed => Failed
        case Got(value, next) =>
          match major
          case 0 => Got(Unsigned(value), next)
          case 1 => Got(Negative(value), next)
          case 2 => StringAt(s, next, value, false, limits)
          case 3 => StringAt(s, next, value, true, limits)
          case 4 =>
            if !limits.Elements(value) then Failed
            else
              (match ItemsAt(s, next, value, depth + 1, limits)
               case Failed => Failed
               case Got(items, end) => Got(Array(items), end))
          case 5 =>
            if !limits.Elements(value) then Failed
            else
              (match PairsAt(s, next, value, None, depth + 1, limits)
               case Failed => Failed
               case Got(entries, end) => Got(Map(entries), end))
          case _ =>
            match ItemAt(s, next, depth + 1, limits)
            case Failed => Failed
            case Got(content, end) => Got(Tagged(value, content), end)
  }

  function StringAt(s: bytes, pos: nat, length: nat, text: bool, limits: Limits): (r: Read<Item>)
    ensures r.Got? ==> pos <= r.next <= |s|
  {
    if !limits.Bytes(length) then Failed
    else
      match TakeAt(s, pos, length)
      case Failed => Failed
      case Got(data, next) =>
        if !text then Got(ByteString(data), next)
        else if Utf8(data) then Got(TextString(data), next)
        else Failed
  }

  function ItemsAt(s: bytes, pos: nat, count: nat, depth: nat, limits: Limits): (r: Read<seq<Item>>)
    ensures r.Got? ==> pos <= r.next && (pos <= |s| ==> r.next <= |s|)
    decreases |s| - pos, 1, count
  {
    if count == 0 then Got([], pos)
    else
      match ItemAt(s, pos, depth, limits)
      case Failed => Failed
      case Got(first, next) =>
        match ItemsAt(s, next, count - 1, depth, limits)
        case Failed => Failed
        case Got(rest, end) => Got([first] + rest, end)
  }

  function PairsAt(s: bytes, pos: nat, count: nat, previous: Option<bytes>, depth: nat, limits: Limits): (r: Read<seq<Pair>>)
    ensures r.Got? ==> pos <= r.next && (pos <= |s| ==> r.next <= |s|)
    decreases |s| - pos, 1, count
  {
    if count == 0 then Got([], pos)
    else
      match ItemAt(s, pos, depth, limits)
      case Failed => Failed
      case Got(key, middle) =>
        if !Follows(previous, s[pos..middle]) then Failed
        else
          match ItemAt(s, middle, depth, limits)
          case Failed => Failed
          case Got(value, next) =>
            match PairsAt(s, next, count - 1, Some(s[pos..middle]), depth, limits)
            case Failed => Failed
            case Got(rest, end) => Got([Pair(key, value)] + rest, end)
  }

  /** Exactly one item, rejecting trailing bytes. */
  function Parse(s: bytes, limits: Limits): Option<Item> {
    if !limits.Bytes(|s|) then None
    else
      match ItemAt(s, 0, 0, limits)
      case Failed => None
      case Got(item, next) => if next == |s| then Some(item) else None
  }
}
