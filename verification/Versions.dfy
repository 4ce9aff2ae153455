/** Java versions (JEP 322): their order, and the numeric meaning of prerelease identifiers. */
module Versions {
  import opened Binary
  import opened Cbor

  /** Numeric elements without trailing zeroes, and a prerelease identifier. */
  datatype JavaVersion = JavaVersion(numbers: seq<nat>, pre: Option<bytes>)

  const MAX_NUMBER: nat := 0x7fff_ffff

  predicate Digit(b: byte) {
    0x30 <= b <= 0x39
  }

  predicate Alphanumeric(b: byte) {
    Digit(b) || 0x41 <= b <= 0x5a || 0x61 <= b <= 0x7a
  }

  predicate Numeric(text: bytes) {
    text != [] && forall i :: 0 <= i < |text| ==> Digit(text[i])
  }

  predicate ValidPre(text: bytes) {
    text != [] && forall i :: 0 <= i < |text| ==> Alphanumeric(text[i])
  }

  /** No leading zero, except for zero itself. */
  predicate Shortest(text: bytes) {
    text != [] && (text[0] != 0x30 || |text| == 1)
  }

  /** What parsing leaves: trailing zeroes and leading zeroes removed. */
  predicate Normal(v: JavaVersion) {
    && v.numbers != [] && v.numbers[0] >= 8
    && (forall i :: 0 <= i < |v.numbers| ==> v.numbers[i] <= MAX_NUMBER)
    && (|v.numbers| == 1 || v.numbers[|v.numbers| - 1] != 0)
    && (v.pre.Some? ==> ValidPre(v.pre.value) && (Numeric(v.pre.value) ==> Shortest(v.pre.value)))
  }

  // ---------- The order ----------

  function Sign(a: int, b: int): int {
    if a < b then -1 else if a == b then 0 else 1
  }

  function NumberAt(numbers: seq<nat>, i: nat): nat {
    if i < |numbers| then numbers[i] else 0
  }

  function Longest(a: seq<nat>, b: seq<nat>): nat {
    if |a| < |b| then |b| else |a|
  }

  /** Compares elements from `i` on, with missing ones taken as zero. */
  function CompareNumbers(a: seq<nat>, b: seq<nat>, i: nat): int
    decreases Longest(a, b) - i
  {
    if i >= Longest(a, b) then 0
    else if NumberAt(a, i) != NumberAt(b, i) then Sign(NumberAt(a, i), NumberAt(b, i))
    else CompareNumbers(a, b, i + 1)
  }

  function CompareBytes(a: bytes, b: bytes): int {
    if a == b then 0 else if Less(a, b) then -1 else 1
  }

  /** A prerelease is below its release; numeric identifiers are below others and order by length first. */
  function ComparePre(a: Option<bytes>, b: Option<bytes>): int {
    match (a, b)
    case (None, None) => 0
    case (None, Some(_)) => 1
    case (Some(_), None) => -1
    case (Some(x), Some(y)) =>
      if Numeric(x) && Numeric(y) then if |x| != |y| then Sign(|x|, |y|) else CompareBytes(x, y)
      else if Numeric(x) then -1
      else if Numeric(y) then 1
      else CompareBytes(x, y)
  }

  function Compare(a: JavaVersion, b: JavaVersion): int {
    var order := CompareNumbers(a.numbers, b.numbers, 0);
    if order != 0 then order else ComparePre(a.pre, b.pre)
  }

  method Cmp(a: JavaVersion, b: JavaVersion) returns (order: int)
    ensures order == Compare(a, b)
  {
    var index := 0;
    while index < Longest(a.numbers, b.numbers)
      invariant CompareNumbers(a.numbers, b.numbers, 0) == CompareNumbers(a.numbers, b.numbers, index)
    {
      order := Sign(NumberAt(a.numbers, index), NumberAt(b.numbers, index));
      if order != 0 {
        return;
      }
      index := index + 1;
    }
    order := ComparePre(a.pre, b.pre);
  }

  lemma {:induction false} NumbersReverse(a: seq<nat>, b: seq<nat>, i: nat)
    ensures CompareNumbers(a, b, i) == -CompareNumbers(b, a, i)
    decreases Longest(a, b) - i
  {
    if i < Longest(a, b) && NumberAt(a, i) == NumberAt(b, i) {
      NumbersReverse(a, b, i + 1);
    }
  }

  lemma BytesReverse(a: bytes, b: bytes)
    ensures CompareBytes(a, b) == -CompareBytes(b, a)
  {
    LessIsStrictTotal(a, b);
  }

  /** Swapping the versions reverses the outcome. */
  lemma CompareReverses(a: JavaVersion, b: JavaVersion)
    ensures Compare(a, b) == -Compare(b, a)
  {
    hide Numeric, CompareBytes, CompareNumbers;
    NumbersReverse(a.numbers, b.numbers, 0);
    if a.pre.Some? && b.pre.Some? {
      BytesReverse(a.pre.value, b.pre.value);
    }
  }

  lemma {:induction false} NumbersAgree(a: seq<nat>, b: seq<nat>, i: nat)
    ensures CompareNumbers(a, b, i) == 0 <==> forall k :: i <= k < Longest(a, b) ==> NumberAt(a, k) == NumberAt(b, k)
    decreases Longest(a, b) - i
  {
    if i < Longest(a, b) {
      NumbersAgree(a, b, i + 1);
    }
  }

  /** Normal versions compare equal only when they are the same. */
  lemma EqualIsIdentical(a: JavaVersion, b: JavaVersion)
    requires Normal(a) && Normal(b)
    ensures Compare(a, b) == 0 <==> a == b
  {
    hide ValidPre, Numeric, Shortest, CompareNumbers;
    NumbersAgree(a.numbers, b.numbers, 0);
    if CompareNumbers(a.numbers, b.numbers, 0) == 0 {
      assert NumberAt(a.numbers, |a.numbers| - 1) == NumberAt(b.numbers, |a.numbers| - 1);
      assert NumberAt(a.numbers, |b.numbers| - 1) == NumberAt(b.numbers, |b.numbers| - 1);
      forall k | 0 <= k < |a.numbers| ensures a.numbers[k] == b.numbers[k] {
        assert NumberAt(a.numbers, k) == NumberAt(b.numbers, k);
      }
    }
  }

  lemma {:induction false} NumbersTransitive(a: seq<nat>, b: seq<nat>, c: seq<nat>, i: nat)
    requires CompareNumbers(a, b, i) <= 0 && CompareNumbers(b, c, i) <= 0
    ensures CompareNumbers(a, c, i) <= 0
    ensures CompareNumbers(a, c, i) == 0 ==> CompareNumbers(a, b, i) == 0 && CompareNumbers(b, c, i) == 0
    decreases Longest(a, b) + Longest(b, c) + Longest(a, c) - i
  {
    if i < Longest(a, b) || i < Longest(b, c) || i < Longest(a, c) {
      if NumberAt(a, i) == NumberAt(b, i) == NumberAt(c, i) {
        NumbersStep(a, b, i);
        NumbersStep(b, c, i);
        NumbersStep(a, c, i);
        NumbersTransitive(a, b, c, i + 1);
      }
    }
  }

  lemma NumbersStep(a: seq<nat>, b: seq<nat>, i: nat)
    requires NumberAt(a, i) == NumberAt(b, i)
    ensures CompareNumbers(a, b, i) == CompareNumbers(a, b, i + 1)
  {
  }

  lemma BytesTransitive(a: bytes, b: bytes, c: bytes)
    requires CompareBytes(a, b) <= 0 && CompareBytes(b, c) <= 0
    ensures CompareBytes(a, c) <= 0
  {
    if a != b && b != c {
      LessIsTransitive(a, b, c);
    }
  }

  lemma PreTransitive(a: Option<bytes>, b: Option<bytes>, c: Option<bytes>)
    requires ComparePre(a, b) <= 0 && ComparePre(b, c) <= 0
    ensures ComparePre(a, c) <= 0
  {
    hide Numeric, CompareBytes;
    if a.Some? && b.Some? && c.Some? {
      if CompareBytes(a.value, b.value) <= 0 && CompareBytes(b.value, c.value) <= 0 {
        BytesTransitive(a.value, b.value, c.value);
      }
    }
  }

  /** The comparison is transitive, so versions are totally ordered. */
  lemma CompareIsTransitive(a: JavaVersion, b: JavaVersion, c: JavaVersion)
    requires Compare(a, b) <= 0 && Compare(b, c) <= 0
    ensures Compare(a, c) <= 0
  {
    hide CompareNumbers, ComparePre;
    NumbersTransitive(a.numbers, b.numbers, c.numbers, 0);
    if CompareNumbers(a.numbers, c.numbers, 0) == 0 {
      PreTransitive(a.pre, b.pre, c.pre);
    }
  }

  // ---------- Numeric prereleases ----------

  function Pow10(n: nat): (r: nat)
    ensures r >= 1
  {
    if n == 0 then 1 else 10 * Pow10(n - 1)
  }

  function DigitValue(b: byte): (r: nat)
    requires Digit(b)
    ensures r <= 9
  {
    var code: int := b;
    code - 0x30
  }

  /** The number that decimal digits spell. */
  function FromDigits(text: bytes): nat
    requires forall i :: 0 <= i < |text| ==> Digit(text[i])
  {
    if text == [] then 0 else 10 * FromDigits(text[..|text| - 1]) + DigitValue(text[|text| - 1])
  }

  /** `digit` times a power of ten, by repeated addition. */
  function Scaled(digit: nat, power: nat): nat {
    if digit == 0 then 0 else power + Scaled(digit - 1, power)
  }

  lemma {:induction false} ScaledTen(digit: nat, power: nat)
    ensures Scaled(digit, 10 * power) == 10 * Scaled(digit, power)
    decreases digit
  {
    if digit > 0 {
      ScaledTen(digit - 1, power);
    }
  }

  lemma {:induction false} ScaledMonotone(a: nat, b: nat, power: nat)
    requires a <= b
    ensures Scaled(a, power) <= Scaled(b, power)
    decreases b
  {
    if a < b {
      ScaledMonotone(a, b - 1, power);
    }
  }

  /** The leading digit counts powers of ten; the rest stays below one. */
  lemma {:induction false} LeadingDigit(text: bytes)
    requires Numeric(text)
    ensures FromDigits(text) == Scaled(DigitValue(text[0]), Pow10(|text| - 1)) + FromDigits(text[1..])
    ensures FromDigits(text[1..]) < Pow10(|text| - 1) && FromDigits(text) < Pow10(|text|)
    decreases |text|
  {
    var front := text[..|text| - 1];
    if front == [] {
      assert text[1..] == [];
      assert FromDigits([]) == 0;
      ScaledOne(DigitValue(text[0]));
    } else {
      LeadingDigit(front);
      assert text[1..][..|text| - 2] == front[1..];
      ScaledTen(DigitValue(text[0]), Pow10(|text| - 2));
    }
  }

  lemma {:induction false} ScaledOne(digit: nat)
    ensures Scaled(digit, 1) == digit
    decreases digit
  {
    if digit > 0 {
      ScaledOne(digit - 1);
    }
  }

  /** Digits of one length order as the numbers they spell. */
  lemma {:induction false} SameLengthOrder(a: bytes, b: bytes)
    requires |a| == |b| && Numeric(a) && Numeric(b) && Less(a, b)
    ensures FromDigits(a) < FromDigits(b)
    decreases |a|
  {
    LeadingDigit(a);
    LeadingDigit(b);
    if a[0] == b[0] {
      assert Less(a[1..], b[1..]);
      SameLengthOrder(a[1..], b[1..]);
    } else {
      ScaledMonotone(DigitValue(a[0]) + 1, DigitValue(b[0]), Pow10(|a| - 1));
    }
  }

  /** A number without leading zeroes is at least the power of ten of its length. */
  lemma ShorterIsSmaller(a: bytes, b: bytes)
    requires Numeric(a) && Numeric(b) && Shortest(b) && |a| < |b|
    ensures FromDigits(a) < FromDigits(b)
  {
    LeadingDigit(a);
    LeadingDigit(b);
    ScaledMonotone(1, DigitValue(b[0]), Pow10(|b| - 1));
    Pow10Monotone(|a|, |b| - 1);
  }

  lemma {:induction false} Pow10Monotone(a: nat, b: nat)
    requires a <= b
    ensures Pow10(a) <= Pow10(b)
    decreases b
  {
    if a < b {
      Pow10Monotone(a, b - 1);
    }
  }

  /** Numeric prerelease identifiers compare as the natural numbers they spell. */
  lemma NumericPreIsNumber(a: bytes, b: bytes)
    requires Numeric(a) && Numeric(b) && Shortest(a) && Shortest(b)
    ensures ComparePre(Some(a), Some(b)) == Sign(FromDigits(a), FromDigits(b))
  {
    if |a| < |b| {
      ShorterIsSmaller(a, b);
    } else if |b| < |a| {
      ShorterIsSmaller(b, a);
    } else if Less(a, b) {
      SameLengthOrder(a, b);
    } else if a != b {
      LessIsStrictTotal(a, b);
      SameLengthOrder(b, a);
    }
  }
}
