/** Reading at positions and cursors, and the variable-length integers they share. */
module Binary {
  type byte = x: int | 0 <= x < 0x100
  type bytes = seq<byte>

  const U64_LIMIT: nat := 0x1_0000_0000_0000_0000

  type u64 = x: int | 0 <= x < 0x1_0000_0000_0000_0000

  datatype Option<+T> = None | Some(value: T)

  /** Error categories; only the distinctions that drive control flow are kept. */
  datatype ErrorKind = Invalid | Unsupported | LimitExceeded

  datatype Result<+T> = Ok(value: T) | Err(kind: ErrorKind)

  /** Reader policy for untrusted input. */
  datatype Limits = Limits(maxBytes: u64, maxElements: u64, maxDepth: nat) {
    predicate Bytes(length: nat) {
      length <= maxBytes
    }

    predicate Elements(count: nat) {
      count <= maxElements
    }
  }

  /** The outcome of reading one field at a position: its value and the position after it. */
  datatype Read<+T> = Got(value: T, next: nat) | Failed

  /** Options that hold the same values are the same. */
  lemma OptionsAgree<T(!new)>(a: Option<T>, b: Option<T>)
    requires forall value :: a == Some(value) <==> b == Some(value)
    ensures a == b
  {
    assert a.Some? ==> b == Some(a.value);
    assert b.Some? ==> a == Some(b.value);
  }

  // ---------- Content at a position ----------

  /** `t` occurs in `s` at `pos`. */
  ghost predicate At(s: bytes, pos: nat, t: bytes): (r: bool)
    ensures r ==> pos + |t| <= |s|
  {
    pos + |t| <= |s| && s[pos..pos + |t|] == t
  }

  lemma AtConcat(s: bytes, pos: nat, a: bytes, b: bytes)
    ensures At(s, pos, a + b) <==> At(s, pos, a) && At(s, pos + |a|, b)
  {
    if pos + |a + b| <= |s| {
      assert s[pos..pos + |a + b|] == s[pos..pos + |a|] + s[pos + |a|..pos + |a| + |b|];
      if At(s, pos, a + b) {
        assert s[pos..pos + |a|] == (a + b)[..|a|] == a;
        assert s[pos + |a|..pos + |a| + |b|] == (a + b)[|a|..] == b;
      }
    }
  }

  lemma AtSelf(s: bytes)
    ensures At(s, 0, s)
  {
  }

  /** What lies inside a prefix does not change when the text grows. */
  lemma PrefixSlice(prefix: bytes, s: bytes, from: nat, to: nat)
    requires |prefix| <= |s| && s[..|prefix|] == prefix && from <= to <= |prefix|
    ensures s[from..to] == prefix[from..to]
  {
    forall i | 0 <= i < to - from ensures s[from..to][i] == prefix[from..to][i] {
      assert s[..|prefix|][from + i] == prefix[from + i];
    }
  }

  // ---------- ULEB128 ----------

  /** The shortest ULEB128 form of `value`. */
  function Vuint(value: nat): (r: bytes)
    ensures |r| >= 1
  {
    if value < 128 then [value] else [128 + value % 128] + Vuint(value / 128)
  }

  /** One past the largest value that the bytes from `index` to the tenth can carry. */
  function VuintCap(index: nat): (r: nat)
    requires index <= 9
    decreases 9 - index
  {
    if index == 9 then 2 else 128 * VuintCap(index + 1)
  }

  /** Reads the remaining bytes of a ULEB128 value whose byte number `index` is at `pos`. */
  function VuintFrom(s: bytes, pos: nat, index: nat): (r: Read<nat>)
    requires index <= 10
    ensures r.Got? ==> index < 10 && r.value < VuintCap(index) && pos < r.next <= |s|
    decreases 10 - index
  {
    if index == 10 || pos >= |s| || (index == 9 && s[pos] > 1) then Failed
    else if s[pos] < 128 then VuintCapPositive(index); Got(s[pos], pos + 1)
    else
      match VuintFrom(s, pos + 1, index + 1)
      case Failed => Failed
      case Got(rest, next) => Got(s[pos] - 128 + 128 * rest, next)
  }

  lemma VuintCapPositive(index: nat)
    requires index <= 9
    ensures VuintCap(index) >= 2 && (index < 9 ==> VuintCap(index) >= 256)
    decreases 9 - index
  {
    if index < 9 { VuintCapPositive(index + 1); }
  }

  /** The 64-bit value that at most ten groups spell; trailing zero groups are allowed. */
  function VuintAt(s: bytes, pos: nat): (r: Read<u64>)
    ensures r.Got? ==> pos < r.next <= |s|
  {
    match VuintFrom(s, pos, 0)
    case Failed => Failed
    case Got(value, next) => VuintCapIsU64(); Got(value, next)
  }

  lemma VuintCapIsU64()
    ensures VuintCap(0) == U64_LIMIT
  {
    assert VuintCap(8) == 0x100;
    assert VuintCap(7) == 0x8000;
    assert VuintCap(6) == 0x400000;
    assert VuintCap(5) == 0x20000000;
    assert VuintCap(4) == 0x1000000000;
    assert VuintCap(3) == 0x80000000000;
    assert VuintCap(2) == 0x4000000000000;
    assert VuintCap(1) == 0x200000000000000;
  }

  lemma {:induction false} VuintFromRoundTrip(s: bytes, pos: nat, index: nat, value: nat)
    requires index <= 9 && value < VuintCap(index)
    requires At(s, pos, Vuint(value))
    ensures VuintFrom(s, pos, index) == Got(value, pos + |Vuint(value)|)
    decreases value
  {
    assert s[pos] == Vuint(value)[0];
    if value >= 128 {
      assert index < 9;
      AtConcat(s, pos, [128 + value % 128], Vuint(value / 128));
      VuintFromRoundTrip(s, pos + 1, index + 1, value / 128);
    }
  }

  /** A written ULEB128 value reads back, wherever it stands. */
  lemma VuintRoundTrip(s: bytes, pos: nat, value: u64)
    requires At(s, pos, Vuint(value))
    ensures VuintAt(s, pos) == Got(value, pos + |Vuint(value)|)
  {
    VuintCapIsU64();
    VuintFromRoundTrip(s, pos, 0, value);
  }

  lemma {:induction false} VuintFromShortest(s: bytes, pos: nat, index: nat)
    requires index <= 10 && VuintFrom(s, pos, index).Got?
    ensures var r := VuintFrom(s, pos, index);
            |Vuint(r.value)| <= r.next - pos
    decreases 10 - index
  {
    if s[pos] >= 128 {
      VuintFromShortest(s, pos + 1, index + 1);
    }
  }

  /** No accepted spelling of a value is shorter than the written one. */
  lemma VuintShortest(s: bytes, pos: nat)
    requires VuintAt(s, pos).Got?
    ensures var r := VuintAt(s, pos);
            |Vuint(r.value)| <= r.next - pos
  {
    VuintFromShortest(s, pos, 0);
  }

  method WriteVuint(out: bytes, value: nat) returns (r: bytes)
    ensures r == out + Vuint(value)
  {
    r := out;
    var rest := value;
    while true
      invariant r + Vuint(rest) == out + Vuint(value)
      decreases rest
    {
      var low := rest % 128;
      var previous := rest;
      rest := rest / 128;
      if rest == 0 {
        r := r + [low];
        return;
      }
      ghost var before := r;
      r := r + [128 + low];
      assert before + Vuint(previous) == r + Vuint(rest);
    }
  }

  // ---------- Length-prefixed fields ----------

  /** Bytes behind their own length. */
  function Sized(value: bytes): (r: bytes)
    ensures |r| > |value|
  {
    Vuint(|value|) + value
  }

  function TakeAt(s: bytes, pos: nat, length: nat): (r: Read<bytes>)
    ensures r.Got? ==> pos <= r.next <= |s|
  {
    if pos + length <= |s| then Got(s[pos..pos + length], pos + length) else Failed
  }

  function SizedAt(s: bytes, pos: nat, limits: Limits): (r: Read<bytes>)
    ensures r.Got? ==> pos < r.next <= |s| && limits.Bytes(|r.value|)
  {
    match VuintAt(s, pos)
    case Failed => Failed
    case Got(length, next) => if limits.Bytes(length) then TakeAt(s, next, length) else Failed
  }

  lemma SizedRoundTrip(s: bytes, pos: nat, value: bytes, limits: Limits)
    requires At(s, pos, Sized(value))
    requires limits.Bytes(|value|)
    ensures SizedAt(s, pos, limits) == Got(value, pos + |Sized(value)|)
  {
    AtConcat(s, pos, Vuint(|value|), value);
    VuintRoundTrip(s, pos, |value|);
  }

  method WriteSized(out: bytes, value: bytes) returns (r: bytes)
    ensures r == out + Sized(value)
  {
    r := WriteVuint(out, |value|);
    r := r + value;
  }

  // ---------- Fixed-width integers ----------

  function Le(value: nat, width: nat): (r: bytes)
    ensures |r| == width
    decreases width
  {
    if width == 0 then [] else [value % 256] + Le(value / 256, width - 1)
  }

  function FromLe(s: bytes): (r: nat) {
    if s == [] then 0 else s[0] + 256 * FromLe(s[1..])
  }

  function Pow256(width: nat): (r: nat)
    ensures r > 0
  {
    if width == 0 then 1 else 256 * Pow256(width - 1)
  }

  lemma {:induction false} LeRoundTrip(value: nat, width: nat)
    requires value < Pow256(width)
    ensures FromLe(Le(value, width)) == value
    decreases width
  {
    if width > 0 {
      LeRoundTrip(value / 256, width - 1);
      assert Le(value, width)[1..] == Le(value / 256, width - 1);
    }
  }

  function Be(value: nat, width: nat): (r: bytes)
    ensures |r| == width
    decreases width
  {
    if width == 0 then [] else Be(value / 256, width - 1) + [value % 256]
  }

  function FromBe(s: bytes): (r: nat) {
    if s == [] then 0 else 256 * FromBe(s[..|s| - 1]) + s[|s| - 1]
  }

  lemma {:induction false} BeRoundTrip(value: nat, width: nat)
    requires value < Pow256(width)
    ensures FromBe(Be(value, width)) == value
    decreases width
  {
    if width > 0 {
      BeRoundTrip(value / 256, width - 1);
      assert Be(value, width)[..width - 1] == Be(value / 256, width - 1);
    }
  }

  /** Big-endian text of a given width is determined by its value. */
  lemma {:induction false} FromBeRoundTrip(s: bytes)
    ensures FromBe(s) < Pow256(|s|) && Be(FromBe(s), |s|) == s
    decreases |s|
  {
    if s != [] {
      var front := s[..|s| - 1];
      FromBeRoundTrip(front);
      assert FromBe(s) / 256 == FromBe(front);
      assert front + [s[|s| - 1]] == s;
    }
  }

  function Be16(value: nat): (r: bytes)
    requires value < 0x10000
    ensures |r| == 2
  {
    [value / 256, value % 256]
  }

  function FromBe16(hi: byte, lo: byte): (r: nat)
    ensures r < 0x10000 && Be16(r) == [hi, lo]
  {
    256 * hi + lo
  }

  // ---------- The decoder cursor ----------

  /** A cursor over one complete binary field. A failed read may leave partial progress. */
  class Decoder {
    const input: bytes
    const limits: Limits
    var position: nat

    ghost predicate Valid()
      reads this
    {
      position <= |input|
    }

    constructor (input: bytes, limits: Limits)
      ensures Valid() && position == 0 && this.input == input && this.limits == limits
    {
      this.input, this.limits, this.position := input, limits, 0;
    }

    function Remaining(): (r: nat)
      requires Valid()
      reads this
      ensures position + r == |input|
    {
      |input| - position
    }

    method Take(length: nat) returns (r: Option<bytes>)
      requires Valid()
      modifies this
      ensures Valid()
      ensures match TakeAt(input, old(position), length)
              case Got(value, next) => r == Some(value) && position == next
              case Failed => r == None
    {
      if position + length > |input| {
        return None;
      }
      r := Some(input[position..position + length]);
      position := position + length;
    }

    method U8() returns (r: Option<byte>)
      requires Valid()
      modifies this
      ensures Valid()
      ensures if old(position) < |input| then r == Some(input[old(position)]) && position == old(position) + 1 else r == None
    {
      var one := Take(1);
      r := if one.Some? then Some(one.value[0]) else None;
    }

    method ReadVuint() returns (r: Option<u64>)
      requires Valid()
      modifies this
      ensures Valid()
      ensures match VuintAt(input, old(position))
              case Got(value, next) => r == Some(value) && position == next
              case Failed => r == None
    {
      hide VuintFrom;
      ghost var whole := VuintFrom(input, position, 0);
      var value: nat, scale: nat := 0, 1;
      for index := 0 to 10
        invariant Valid()
        invariant VuintPending(whole, value, scale, VuintFrom(input, position, index))
      {
        VuintStep(whole, value, scale, input, position, index);
        var b := U8();
        if b == None || (index == 9 && b.value > 1) {
          return None;
        }
        if b.value < 128 {
          value := value + scale * b.value;
          VuintCapIsU64();
          return Some(value);
        }
        value, scale := value + scale * (b.value - 128), scale * 128;
      }
      VuintUnterminated(input, position);
      r := None;
    }

    method ReadSized() returns (r: Option<bytes>)
      requires Valid()
      modifies this
      ensures Valid()
      ensures match SizedAt(input, old(position), limits)
              case Got(value, next) => r == Some(value) && position == next
              case Failed => r == None
    {
      var length := ReadVuint();
      if length == None || !limits.Bytes(length.value) {
        return None;
      }
      r := Take(length.value);
    }
  }

  /** `whole` is what the rest of the bytes give once the low bits in `value` are put below them. */
  ghost predicate VuintPending(whole: Read<nat>, value: nat, scale: nat, rest: Read<nat>) {
    match rest
    case Failed => whole == Failed
    case Got(high, next) => whole == Got(value + scale * high, next)
  }

  lemma VuintStep(whole: Read<nat>, value: nat, scale: nat, s: bytes, pos: nat, index: nat)
    requires index <= 9 && VuintPending(whole, value, scale, VuintFrom(s, pos, index))
    ensures
      if pos >= |s| || (index == 9 && s[pos] > 1) then whole == Failed
      else if s[pos] < 128 then whole == Got(value + scale * s[pos], pos + 1)
      else VuintPending(whole, value + scale * (s[pos] - 128), scale * 128, VuintFrom(s, pos + 1, index + 1))
  {
    if pos < |s| && s[pos] >= 128 {
      var rest := VuintFrom(s, pos + 1, index + 1);
      if rest.Got? {
        ShiftIn(value, scale, s[pos] - 128, rest.value);
      }
    }
  }

  lemma ShiftIn(value: nat, scale: nat, low: nat, rest: nat)
    ensures value + scale * (low + 128 * rest) == (value + scale * low) + (scale * 128) * rest
  {
  }

  lemma VuintUnterminated(s: bytes, pos: nat)
    ensures VuintFrom(s, pos, 10) == Failed
  {
  }
}
