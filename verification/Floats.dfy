/** IEEE 754 binary formats: fields, values as integers of a least unit, and when a narrower format holds a value. */
module Floats {

  function Pow2(n: nat): (r: nat)
    ensures r > 0
  {
    if n == 0 then 1 else 2 * Pow2(n - 1)
  }

  /** The bits from bit `n` up, and the bits below it. */
  function High(value: nat, n: nat): nat {
    if n == 0 then value else High(value / 2, n - 1)
  }

  function Low(value: nat, n: nat): nat {
    if n == 0 then 0 else value % 2 + 2 * Low(value / 2, n - 1)
  }

  /** Widths of the exponent and mantissa fields. */
  datatype Format = Format(exponent: nat, mantissa: nat) {
    /** The exponent field of infinities and NaNs. */
    function Special(): nat {
      Pow2(exponent) - 1
    }
  }

  const HALF := Format(5, 10)
  const SINGLE := Format(8, 23)
  const DOUBLE := Format(11, 52)

  datatype Fields = Fields(sign: nat, exponent: nat, mantissa: nat)

  function FieldsOf(f: Format, bits: nat): Fields {
    var high := High(bits, f.mantissa);
    Fields(High(high, f.exponent), Low(high, f.exponent), Low(bits, f.mantissa))
  }

  /** Fields that the format has room for. */
  predicate InRange(f: Format, x: Fields) {
    x.sign < 2 && x.exponent < Pow2(f.exponent) && x.mantissa < Pow2(f.mantissa)
  }

  function BitsOf(f: Format, x: Fields): nat {
    (x.sign * Pow2(f.exponent) + x.exponent) * Pow2(f.mantissa) + x.mantissa
  }

  predicate Nan(f: Format, x: Fields) {
    x.exponent == f.Special() && x.mantissa != 0
  }

  predicate Infinite(f: Format, x: Fields) {
    x.exponent == f.Special() && x.mantissa == 0
  }

  /** The magnitude of a finite value, in units of the least positive value of its format. */
  function Magnitude(f: Format, x: Fields): nat {
    if x.exponent == 0 then x.mantissa else (Pow2(f.mantissa) + x.mantissa) * Pow2(x.exponent - 1)
  }

  /** The least positive value of the narrow format is `2^Scale` times that of the wide one. */
  function Scale(wide: Format, narrow: Format): int {
    Bias(wide) + wide.mantissa - Bias(narrow) - narrow.mantissa
  }

  function Bias(f: Format): int {
    if f.exponent == 0 then 0 else Pow2(f.exponent - 1) - 1
  }

  /** The same real number or infinity, with the same sign; NaNs have no value. */
  ghost predicate SameValue(wide: Format, x: Fields, narrow: Format, y: Fields)
    requires Scale(wide, narrow) >= 0
  {
    && x.sign == y.sign && !Nan(wide, x) && !Nan(narrow, y)
    && (Infinite(wide, x) <==> Infinite(narrow, y))
    && (!Infinite(wide, x) ==> Magnitude(wide, x) == Pow2(Scale(wide, narrow)) * Magnitude(narrow, y))
  }

  function Larger(a: int, b: int): int {
    if a < b then b else a
  }

  /**
   * Whether converting to the narrow format and back gives the same bits: the exponent is in range, and the
   * mantissa bits that the narrow format drops are zero.
   */
  predicate Narrows(wide: Format, narrow: Format, x: Fields)
    requires narrow.mantissa <= wide.mantissa && Scale(wide, narrow) >= 0
  {
    var dropped, scale := wide.mantissa - narrow.mantissa, Scale(wide, narrow);
    if x.exponent == wide.Special() then x.mantissa == 0
    else if x.exponent == 0 then x.mantissa == 0
    else
      && x.exponent < scale - dropped + narrow.Special()
      && Low(Pow2(wide.mantissa) + x.mantissa, Larger(dropped, scale + 1 - x.exponent)) == 0
  }

  // ---------- Powers of two ----------

  lemma {:induction false} PowAdd(a: nat, b: nat)
    ensures Pow2(a + b) == Pow2(a) * Pow2(b)
    decreases a
  {
    if a > 0 {
      PowAdd(a - 1, b);
      Associates(2, Pow2(a - 1), Pow2(b));
    }
  }

  lemma Associates(a: nat, b: nat, c: nat)
    ensures (a * b) * c == a * (b * c)
  {
  }

  lemma {:induction false} PowMonotone(a: nat, b: nat)
    requires a < b
    ensures 2 * Pow2(a) <= Pow2(b)
    decreases b
  {
    if a < b - 1 {
      PowMonotone(a, b - 1);
    }
  }

  /** A number lies between consecutive powers in one way only. */
  lemma PowerIsUnique(value: nat, a: nat, b: nat)
    requires Pow2(a) <= value < Pow2(a + 1) && Pow2(b) <= value < Pow2(b + 1)
    ensures a == b
  {
    if a < b {
      if a + 1 < b { PowMonotone(a + 1, b); }
    } else if b < a {
      if b + 1 < a { PowMonotone(b + 1, a); }
    }
  }

  lemma Cancels(a: nat, b: nat, c: nat)
    requires c > 0 && a * c == b * c
    ensures a == b
  {
  }

  lemma OrderedProduct(a: nat, b: nat, c: nat)
    requires c > 0
    ensures a < b <==> a * c < b * c
    ensures a <= b <==> a * c <= b * c
  {
  }

  /** A significand with its leading bit, shifted. */
  lemma ShiftedBounds(bits: nat, rest: nat, shift: nat)
    requires rest < Pow2(bits)
    ensures Pow2(bits + shift) <= (Pow2(bits) + rest) * Pow2(shift) < Pow2(bits + shift + 1)
  {
    PowAdd(bits, shift);
    PowAdd(bits + 1, shift);
    OrderedProduct(Pow2(bits), Pow2(bits) + rest, Pow2(shift));
    OrderedProduct(Pow2(bits) + rest, Pow2(bits + 1), Pow2(shift));
  }

  // ---------- Fields ----------

  lemma {:induction false} Parts(value: nat, n: nat)
    ensures value == High(value, n) * Pow2(n) + Low(value, n) && Low(value, n) < Pow2(n)
    decreases n
  {
    if n > 0 {
      Parts(value / 2, n - 1);
      Associates(High(value / 2, n - 1), 2, Pow2(n - 1));
      Associates(2, High(value / 2, n - 1), Pow2(n - 1));
    }
  }

  lemma {:induction false} PartsAre(high: nat, low: nat, n: nat)
    requires low < Pow2(n)
    ensures High(high * Pow2(n) + low, n) == high && Low(high * Pow2(n) + low, n) == low
    decreases n
  {
    var value := high * Pow2(n) + low;
    if n > 0 {
      Twice(high, Pow2(n - 1));
      assert value / 2 == high * Pow2(n - 1) + low / 2 && value % 2 == low % 2;
      PartsAre(high, low / 2, n - 1);
    }
  }

  lemma Twice(a: nat, b: nat)
    ensures a * (2 * b) == 2 * (a * b)
  {
  }

  lemma FieldsAre(f: Format, x: Fields)
    requires InRange(f, x)
    ensures FieldsOf(f, BitsOf(f, x)) == x
  {
    PartsAre(x.sign * Pow2(f.exponent) + x.exponent, x.mantissa, f.mantissa);
    PartsAre(x.sign, x.exponent, f.exponent);
  }

  lemma FieldsInRange(f: Format, bits: nat)
    requires bits < 2 * Pow2(f.exponent) * Pow2(f.mantissa)
    ensures InRange(f, FieldsOf(f, bits)) && BitsOf(f, FieldsOf(f, bits)) == bits
  {
    var high := High(bits, f.mantissa);
    Parts(bits, f.mantissa);
    Parts(high, f.exponent);
    OrderedProduct(high, 2 * Pow2(f.exponent), Pow2(f.mantissa));
    OrderedProduct(High(high, f.exponent), 2, Pow2(f.exponent));
  }

  // ---------- Narrowing ----------

  /** A narrow format with room to spare on both ends of the exponent. */
  predicate Narrower(wide: Format, narrow: Format) {
    && narrow.mantissa < wide.mantissa && 0 < narrow.exponent < wide.exponent
    && wide.mantissa <= Scale(wide, narrow)
    && Scale(wide, narrow) - wide.mantissa + narrow.mantissa + narrow.Special() <= wide.Special()
  }

  /** Dropping zero bits from a significand leaves its leading bit in place. */
  lemma NormalPart(bits: nat, dropped: nat, rest: nat, q: nat)
    requires rest < Pow2(bits + dropped) && Pow2(bits + dropped) + rest == q * Pow2(dropped)
    ensures Pow2(bits) <= q < Pow2(bits + 1)
  {
    PowAdd(bits, dropped);
    PowAdd(bits + 1, dropped);
    OrderedProduct(Pow2(bits), q, Pow2(dropped));
    OrderedProduct(q, Pow2(bits + 1), Pow2(dropped));
  }

  /** Dropping one bit more leaves no leading bit. */
  lemma SmallPart(bits: nat, dropped: nat, shift: nat, rest: nat, q: nat)
    requires rest < Pow2(bits + dropped) && Pow2(bits + dropped) + rest == q * Pow2(shift) && dropped < shift
    ensures q < Pow2(bits)
  {
    PowAdd(bits, shift);
    if bits + dropped + 1 < bits + shift { PowMonotone(bits + dropped + 1, bits + shift); }
    assert q * Pow2(shift) < Pow2(bits) * Pow2(shift);
    OrderedProduct(q, Pow2(bits), Pow2(shift));
  }

  /** The narrow fields of a normal value. */
  lemma NormalValue(wide: Format, narrow: Format, x: Fields, y: Fields)
    requires Narrower(wide, narrow) && InRange(wide, x) && Narrows(wide, narrow, x)
    requires 0 < x.exponent < wide.Special()
    requires var dropped, scale := wide.mantissa - narrow.mantissa, Scale(wide, narrow);
             var q := High(Pow2(wide.mantissa) + x.mantissa, Larger(dropped, scale + 1 - x.exponent));
             y == if x.exponent > scale - dropped && q >= Pow2(narrow.mantissa)
                  then Fields(x.sign, x.exponent - (scale - dropped), q - Pow2(narrow.mantissa)) else Fields(x.sign, 0, q)
    ensures InRange(narrow, y) && SameValue(wide, x, narrow, y)
  {
    hide Pow2, High, Low, Bias, Scale;
    var dropped, scale := wide.mantissa - narrow.mantissa, Scale(wide, narrow);
    var shift := Larger(dropped, scale + 1 - x.exponent);
    var significand := Pow2(wide.mantissa) + x.mantissa;
    Parts(significand, shift);
    var q := High(significand, shift);
    assert significand == q * Pow2(shift);
    SpecialIsPositive(narrow);
    if x.exponent > scale - dropped {
      NormalPart(narrow.mantissa, dropped, x.mantissa, q);
      TopBit(narrow.mantissa);
      ShiftTogether(q, dropped, x.exponent - 1, scale, y.exponent - 1);
    } else {
      SmallPart(narrow.mantissa, dropped, shift, x.mantissa, q);
      ShiftTogether(q, shift, x.exponent - 1, scale, 0);
      PowZero();
    }
  }

  lemma PowZero()
    ensures Pow2(0) == 1
  {
  }

  lemma TopBit(bits: nat)
    ensures Pow2(bits + 1) == Pow2(bits) + Pow2(bits)
  {
  }

  lemma SpecialIsPositive(f: Format)
    requires f.exponent > 0
    ensures 0 < f.Special() < Pow2(f.exponent)
  {
    PowMonotone(0, f.exponent);
  }

  /** A value that narrows is some narrow value. */
  lemma NarrowValue(wide: Format, narrow: Format, x: Fields) returns (y: Fields)
    requires Narrower(wide, narrow) && InRange(wide, x) && Narrows(wide, narrow, x)
    ensures InRange(narrow, y) && SameValue(wide, x, narrow, y)
  {
    hide High, Low, Bias, Scale, Pow2;
    var dropped, scale := wide.mantissa - narrow.mantissa, Scale(wide, narrow);
    SpecialIsPositive(narrow);
    SpecialIsPositive(wide);
    if x.exponent == wide.Special() {
      y := Fields(x.sign, narrow.Special(), 0);
    } else if x.exponent == 0 {
      y := Fields(x.sign, 0, 0);
      NoMagnitude(scale);
    } else {
      var q := High(Pow2(wide.mantissa) + x.mantissa, Larger(dropped, scale + 1 - x.exponent));
      y := if x.exponent > scale - dropped && q >= Pow2(narrow.mantissa)
        then Fields(x.sign, x.exponent - (scale - dropped), q - Pow2(narrow.mantissa)) else Fields(x.sign, 0, q);
      NormalValue(wide, narrow, x, y);
    }
  }

  lemma NoMagnitude(scale: nat)
    ensures Pow2(scale) * 0 == 0
  {
  }

  lemma ShiftTogether(q: nat, a: nat, b: nat, c: nat, d: nat)
    requires a + b == c + d
    ensures (q * Pow2(a)) * Pow2(b) == Pow2(c) * (q * Pow2(d))
  {
    hide Pow2;
    PowAdd(a, b);
    PowAdd(c, d);
    var whole := Pow2(a) * Pow2(b);
    assert whole == Pow2(c) * Pow2(d);
    Associates(q, Pow2(a), Pow2(b));
    Swap(q, Pow2(c), Pow2(d));
    assert q * whole == q * (Pow2(c) * Pow2(d));
  }

  lemma Swap(a: nat, b: nat, c: nat)
    ensures a * (b * c) == b * (a * c)
  {
  }

  /** A value that some narrow format holds narrows. */
  lemma ValueNarrows(wide: Format, narrow: Format, x: Fields, y: Fields)
    requires Narrower(wide, narrow) && InRange(wide, x) && InRange(narrow, y) && SameValue(wide, x, narrow, y)
    ensures Narrows(wide, narrow, x)
  {
    hide High, Low, Bias, Scale, Pow2, Format.Special;
    var dropped, scale := wide.mantissa - narrow.mantissa, Scale(wide, narrow);
    if x.exponent == wide.Special() {
    } else if x.exponent == 0 {
      TinyIsZero(wide.mantissa, x.mantissa, scale, Magnitude(narrow, y));
    } else {
      var significand := Pow2(wide.mantissa) + x.mantissa;
      ShiftedBounds(wide.mantissa, x.mantissa, x.exponent - 1);
      if y.exponent == 0 {
        SmallNarrows(wide.mantissa, x.exponent - 1, significand, scale, narrow.mantissa, y.mantissa);
        PartsAre(y.mantissa, 0, scale + 1 - x.exponent);
        PowPositive(scale + 1 - x.exponent);
        SpecialIsPositive(narrow);
      } else {
        var q := Pow2(narrow.mantissa) + y.mantissa;
        ShiftedBounds(narrow.mantissa, y.mantissa, scale + (y.exponent - 1));
        PowAdd(scale, y.exponent - 1);
        Swap(Pow2(scale), q, Pow2(y.exponent - 1));
        PowerIsUnique(significand * Pow2(x.exponent - 1), wide.mantissa + (x.exponent - 1), narrow.mantissa + (scale + (y.exponent - 1)));
        ShiftTogether(q, dropped, x.exponent - 1, scale, y.exponent - 1);
        Cancels(significand, q * Pow2(dropped), Pow2(x.exponent - 1));
        PowPositive(dropped);
        PartsAre(q, 0, dropped);
        BelowSpecial(narrow, y);
      }
    }
  }

  lemma PowPositive(n: nat)
    ensures 0 < Pow2(n)
  {
  }

  lemma BelowSpecial(f: Format, y: Fields)
    requires InRange(f, y) && !Infinite(f, y) && !Nan(f, y)
    ensures y.exponent < f.Special()
  {
  }

  /** Less than one narrow unit, and a whole number of them. */
  lemma TinyIsZero(bits: nat, m: nat, scale: nat, units: nat)
    requires m < Pow2(bits) && bits <= scale && m == Pow2(scale) * units
    ensures m == 0
  {
    if bits < scale { PowMonotone(bits, scale); }
    assert Pow2(scale) * units == units * Pow2(scale);
    OrderedProduct(1, units, Pow2(scale));
    NoMagnitude(scale);
  }

  /** A value below the least normal one of the narrow format. */
  lemma SmallNarrows(bits: nat, shift: nat, significand: nat, scale: nat, narrowBits: nat, m: nat)
    requires Pow2(bits + shift) <= significand * Pow2(shift) && significand * Pow2(shift) == Pow2(scale) * m && m < Pow2(narrowBits)
    requires bits <= scale && narrowBits < bits
    ensures bits + shift < scale + narrowBits && significand == m * Pow2(scale - shift)
  {
    PowAdd(narrowBits, scale);
    OrderedProduct(m, Pow2(narrowBits), Pow2(scale));
    assert Pow2(scale) * m == m * Pow2(scale);
    assert Pow2(bits + shift) < Pow2(narrowBits + scale);
    if bits + shift >= narrowBits + scale {
      if bits + shift > narrowBits + scale { PowMonotone(narrowBits + scale, bits + shift); }
      assert false;
    }
    ShiftTogether(m, scale - shift, shift, scale, 0);
    Cancels(significand, m * Pow2(scale - shift), Pow2(shift));
  }

  // ---------- The shortest form ----------

  const QUIET_NAN: nat := 0x7e00

  /** The one NaN, and values that no narrower format holds; a half-precision value has no narrower form. */
  predicate Shortest(width: nat, bits: nat) {
    match width
    case 2 => !Nan(HALF, FieldsOf(HALF, bits)) || bits == QUIET_NAN
    case 4 => !Nan(SINGLE, FieldsOf(SINGLE, bits)) && !Narrows(SINGLE, HALF, FieldsOf(SINGLE, bits))
    case 8 => !Nan(DOUBLE, FieldsOf(DOUBLE, bits)) && !Narrows(DOUBLE, SINGLE, FieldsOf(DOUBLE, bits))
    case _ => false
  }

  /** The next narrower format. */
  function NarrowerOf(width: nat): (Format, Format) {
    if width == 4 then (SINGLE, HALF) else (DOUBLE, SINGLE)
  }

  /** `bits` has the same value in one format as `other` in the next narrower one. */
  ghost predicate Same(width: nat, bits: nat, other: nat) {
    var (wide, narrow) := NarrowerOf(width);
    Scale(wide, narrow) >= 0 && SameValue(wide, FieldsOf(wide, bits), narrow, FieldsOf(narrow, other))
  }

  lemma Powers()
    ensures Pow2(4) == 16 && Pow2(5) == 32 && Pow2(7) == 128 && Pow2(8) == 256 && Pow2(10) == 1024 && Pow2(11) == 2048
  {
    assert Pow2(2) == 4;
    assert Pow2(6) == 64;
    assert Pow2(9) == 512;
  }

  lemma Formats()
    ensures Narrower(SINGLE, HALF) && Narrower(DOUBLE, SINGLE) && Scale(SINGLE, HALF) == 125 && Scale(DOUBLE, SINGLE) == 925
  {
    hide Pow2;
    Powers();
  }

  /** The shortest form is the one whose value no narrower format holds. */
  lemma ShortestMeans(width: nat, bits: nat)
    requires (width == 4 || width == 8) && bits < 2 * Pow2(NarrowerOf(width).0.exponent) * Pow2(NarrowerOf(width).0.mantissa)
    ensures Shortest(width, bits)
       <==> !Nan(NarrowerOf(width).0, FieldsOf(NarrowerOf(width).0, bits))
            && forall other ::
                 0 <= other < 2 * Pow2(NarrowerOf(width).1.exponent) * Pow2(NarrowerOf(width).1.mantissa) ==> !Same(width, bits, other)
  {
    hide Pow2, FieldsOf, Narrows, Scale, InRange, Narrower, SameValue;
    var (wide, narrow) := NarrowerOf(width);
    Formats();
    var x := FieldsOf(wide, bits);
    FieldsInRange(wide, bits);
    if Narrows(wide, narrow, x) {
      var y := NarrowValue(wide, narrow, x);
      FieldsAre(narrow, y);
      BitsInRange(narrow, y);
      assert Same(width, bits, BitsOf(narrow, y));
    }
    forall other | 0 <= other < 2 * Pow2(narrow.exponent) * Pow2(narrow.mantissa) && Same(width, bits, other)
      ensures Narrows(wide, narrow, x)
    {
      FieldsInRange(narrow, other);
      ValueNarrows(wide, narrow, x, FieldsOf(narrow, other));
    }
  }

  lemma BitsInRange(f: Format, x: Fields)
    requires InRange(f, x)
    ensures BitsOf(f, x) < 2 * Pow2(f.exponent) * Pow2(f.mantissa)
  {
    var high := x.sign * Pow2(f.exponent) + x.exponent;
    assert high <= 2 * Pow2(f.exponent) - 1;
    OrderedProduct(high, 2 * Pow2(f.exponent) - 1, Pow2(f.mantissa));
    assert (2 * Pow2(f.exponent) - 1) * Pow2(f.mantissa) == 2 * Pow2(f.exponent) * Pow2(f.mantissa) - Pow2(f.mantissa);
  }
}
