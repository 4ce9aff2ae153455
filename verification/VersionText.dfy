/** The spelling of Java versions: parsing, Java 8 aliases, and display. */
module VersionText {
  import opened Binary
  import opened Versions

  const ZERO: byte := 0x30
  const DOT: byte := 0x2e
  const DASH: byte := 0x2d
  const PLUS: byte := 0x2b
  const UNDERSCORE: byte := 0x5f
  const LETTER_B: byte := 0x62

  // ---------- Splitting ----------

  function FirstIndex(s: bytes, mark: byte): (r: Option<nat>)
    ensures r.Some? ==> r.value < |s| && s[r.value] == mark && mark !in s[..r.value]
    ensures r == None ==> mark !in s
  {
    if s == [] then None
    else if s[0] == mark then Some(0)
    else
      match FirstIndex(s[1..], mark)
      case None => None
      case Some(i) => assert s[..i + 1] == [s[0]] + s[1..][..i]; Some(i + 1)
  }

  /** The text before the first mark, and the text after it if there is one. */
  function Cut(s: bytes, mark: byte): (bytes, Option<bytes>) {
    match FirstIndex(s, mark)
    case None => (s, None)
    case Some(i) => (s[..i], Some(s[i + 1..]))
  }

  function Parts(s: bytes, mark: byte): (r: seq<bytes>)
    ensures |r| >= 1
  {
    match FirstIndex(s, mark)
    case None => [s]
    case Some(i) => [s[..i]] + Parts(s[i + 1..], mark)
  }

  lemma CutUnmarked(s: bytes, mark: byte)
    requires mark !in s
    ensures Cut(s, mark) == (s, None) && Parts(s, mark) == [s]
  {
  }

  lemma CutMarked(before: bytes, mark: byte, after: bytes)
    requires mark !in before
    ensures Cut(before + [mark] + after, mark) == (before, Some(after))
    ensures Parts(before + [mark] + after, mark) == [before] + Parts(after, mark)
  {
    var s := before + [mark] + after;
    assert s[..|before|] == before && s[|before| + 1..] == after;
    FirstIndexIs(s, mark, |before|);
  }

  lemma {:induction false} FirstIndexIs(s: bytes, mark: byte, i: nat)
    requires i < |s| && s[i] == mark && mark !in s[..i]
    ensures FirstIndex(s, mark) == Some(i)
    decreases |s|
  {
    if i > 0 {
      assert s[..i] == [s[0]] + s[1..][..i - 1];
      FirstIndexIs(s[1..], mark, i - 1);
    }
  }

  // ---------- Numbers ----------

  /** The number that a digit string spells, unless it has a spare zero in front or is out of range. */
  function Decimal(text: bytes): Option<nat> {
    if !Numeric(text) || !Shortest(text) || FromDigits(text) > MAX_NUMBER then None else Some(FromDigits(text))
  }

  function Decimals(parts: seq<bytes>): (r: Option<seq<nat>>)
    ensures r.Some? ==> |r.value| == |parts| && forall i :: 0 <= i < |parts| ==> r.value[i] <= MAX_NUMBER
  {
    if parts == [] then Some([])
    else
      match (Decimal(parts[0]), Decimals(parts[1..]))
      case (Some(first), Some(rest)) => Some([first] + rest)
      case _ => None
  }

  /** Drops trailing zeroes but keeps one element. */
  function Trimmed(numbers: seq<nat>): (r: seq<nat>)
    requires numbers != []
    ensures r != [] && r[0] == numbers[0]
    ensures |r| == 1 || r[|r| - 1] != 0
    ensures |r| <= |numbers| && r == numbers[..|r|]
  {
    if |numbers| > 1 && numbers[|numbers| - 1] == 0 then Trimmed(numbers[..|numbers| - 1]) else numbers
  }

  function WithoutZeroes(text: bytes): (r: bytes)
    ensures |r| <= |text| && r == text[|text| - |r|..]
    ensures r != [] ==> r[0] != ZERO
  {
    if text != [] && text[0] == ZERO then WithoutZeroes(text[1..]) else text
  }

  /** A numeric identifier without its leading zeroes. */
  function NormalPre(pre: bytes): bytes {
    if !Numeric(pre) then pre else if WithoutZeroes(pre) == [] then [ZERO] else WithoutZeroes(pre)
  }

  // ---------- Parsing ----------

  predicate ValidOptional(text: bytes) {
    text != [] && forall i :: 0 <= i < |text| ==> Alphanumeric(text[i]) || text[i] == DASH || text[i] == DOT
  }

  /** What may follow the plus sign. */
  predicate ValidBuild(tail: bytes, pre: bool) {
    var (build, optional) := Cut(tail, DASH);
    && (if build == [] then !pre && optional.Some? else Decimal(build).Some?)
    && (optional.Some? ==> ValidOptional(optional.value))
  }

  /** A version that is not an alias, and whether its number is written canonically. */
  function ParsePlain(text: bytes): Option<(JavaVersion, bool)> {
    var (before, build) := Cut(text, PLUS);
    var (number, rest) := Cut(before, DASH);
    var (pre, optional) := if rest == None then (None, None) else (Some(Cut(rest.value, DASH).0), Cut(rest.value, DASH).1);
    match Decimals(Parts(number, DOT))
    case None => None
    case Some(numbers) =>
      if numbers[0] < 8 || (pre.Some? && !ValidPre(pre.value)) || (optional.Some? && !ValidOptional(optional.value)) then None
      else if build.Some? && (optional.Some? || !ValidBuild(build.value, pre.Some?)) then None
      else
        var canonical := |numbers| == 1 || numbers[|numbers| - 1] != 0;
        Some((JavaVersion(Trimmed(numbers), if pre == None then None else Some(NormalPre(pre.value))), canonical))
  }

  /** The bytes of `8u`, `1.8.0`, `8.0.` and `8`. */
  const SHORT_ALIAS: bytes := [0x38, 0x75]
  const LONG_ALIAS: bytes := [0x31, 0x2e, 0x38, 0x2e, 0x30]
  const UPDATE: bytes := [0x38, 0x2e, 0x30, 0x2e]
  const EIGHT: bytes := [0x38]

  predicate IsAlias(text: bytes) {
    SHORT_ALIAS <= text || LONG_ALIAS <= text
  }

  /** The version that an alias of Java 8 stands for. */
  function Expansion(text: bytes): Option<bytes>
    requires IsAlias(text)
  {
    if SHORT_ALIAS <= text then
      if Decimal(text[2..]).Some? then Some(UPDATE + text[2..]) else None
    else
      var alias := text[5..];
      if alias == [] then Some(EIGHT)
      else if alias[0] == DASH then if ValidPre(alias[1..]) then Some(EIGHT + alias) else None
      else if alias[0] != UNDERSCORE then None
      else
        var (number, suffix) := Cut(alias[1..], DASH);
        if Decimal(number) == None then None
        else if suffix == None then Some(UPDATE + number)
        else if suffix.value != [] && suffix.value[0] == LETTER_B && Numeric(suffix.value[1..]) then
          if Decimal(suffix.value[1..]).Some? then Some(UPDATE + number) else None
        else if ValidPre(suffix.value) then Some(UPDATE + number + [DASH] + suffix.value) else None
  }

  predicate Ascii(text: bytes) {
    forall i :: 0 <= i < |text| ==> text[i] < 0x80
  }

  /** A version and whether a range may spell it this way. */
  function Parse(text: bytes): Option<(JavaVersion, bool)> {
    if text == [] || !Ascii(text) then None
    else if IsAlias(text) then
      match Expansion(text)
      case None => None
      case Some(expanded) =>
        (match ParsePlain(expanded)
         case None => None
         case Some((version, _)) => Some((version, true)))
    else ParsePlain(text)
  }

  /** An alias expands in one step to a version that is not an alias. */
  lemma AliasExpandsOnce(text: bytes)
    requires IsAlias(text) && Expansion(text).Some?
    ensures !IsAlias(Expansion(text).value)
  {
    hide Decimal, ValidPre, Numeric, Cut;
    var expanded := Expansion(text).value;
    assert expanded[0] == 0x38;
    assert |expanded| > 1 ==> expanded[1] == DOT || expanded[1] == DASH;
  }

  lemma NormalPreIsNormal(pre: bytes)
    requires ValidPre(pre)
    ensures ValidPre(NormalPre(pre)) && (Numeric(NormalPre(pre)) ==> Shortest(NormalPre(pre)))
  {
  }

  lemma PlainIsNormal(text: bytes)
    requires ParsePlain(text).Some?
    ensures Normal(ParsePlain(text).value.0)
  {
    hide Parts, Decimal, ValidPre, NormalPre, Numeric, Shortest, ValidBuild, ValidOptional;
    var version := ParsePlain(text).value.0;
    var before := Cut(text, PLUS).0;
    var rest := Cut(before, DASH).1;
    if rest.Some? {
      NormalPreIsNormal(Cut(rest.value, DASH).0);
    }
  }

  /** Every parsed version is in normal form, so equal versions are identical. */
  lemma ParsedIsNormal(text: bytes)
    requires Parse(text).Some?
    ensures Normal(Parse(text).value.0)
  {
    hide ParsePlain, Normal;
    PlainIsNormal(if IsAlias(text) then Expansion(text).value else text);
  }

  // ---------- Display ----------

  function Dec(value: nat): (r: bytes)
    ensures Numeric(r) && Shortest(r) && FromDigits(r) == value
  {
    if value < 10 then
      DigitText(value)
    else
      var front, last := Dec(value / 10), DigitText(value % 10);
      AppendDigit(front, value % 10);
      front + last
  }

  function DigitText(value: nat): (r: bytes)
    requires value < 10
    ensures Numeric(r) && Shortest(r) && FromDigits(r) == value && |r| == 1
  {
    assert [ZERO + value][..0] == [];
    assert FromDigits([]) == 0;
    [ZERO + value]
  }

  lemma AppendDigit(front: bytes, digit: nat)
    requires Numeric(front) && digit < 10 && FromDigits(front) > 0 && Shortest(front)
    ensures var s := front + DigitText(digit);
            Numeric(s) && Shortest(s) && FromDigits(s) == 10 * FromDigits(front) + digit
  {
    var s := front + DigitText(digit);
    assert s[..|s| - 1] == front;
    assert FromDigits(DigitText(digit)) == digit;
    SingleDigit(DigitText(digit));
    if front[0] == ZERO {
      SingleDigit(front);
    }
  }

  lemma SingleDigit(text: bytes)
    requires Numeric(text) && |text| == 1
    ensures FromDigits(text) == DigitValue(text[0])
  {
    assert text[..0] == [];
  }

  function NumbersText(numbers: seq<nat>): bytes
    requires numbers != []
  {
    if |numbers| == 1 then Dec(numbers[0]) else Dec(numbers[0]) + [DOT] + NumbersText(numbers[1..])
  }

  function Display(v: JavaVersion): bytes
    requires v.numbers != []
  {
    NumbersText(v.numbers) + if v.pre == None then [] else [DASH] + v.pre.value
  }

  lemma DecIsDecimal(value: nat)
    requires value <= MAX_NUMBER
    ensures Decimal(Dec(value)) == Some(value) && DOT !in Dec(value)
  {
    hide FromDigits, Shortest;
    NoMark(Dec(value), DOT);
  }

  lemma DecimalsStep(first: bytes, rest: seq<bytes>)
    ensures Decimals([first] + rest)
            == match (Decimal(first), Decimals(rest))
               case (Some(number), Some(numbers)) => Some([number] + numbers)
               case _ => None
  {
    hide Decimal;
    assert ([first] + rest)[0] == first && ([first] + rest)[1..] == rest;
  }

  lemma {:induction false} NumbersTextParses(numbers: seq<nat>)
    requires numbers != [] && forall i :: 0 <= i < |numbers| ==> numbers[i] <= MAX_NUMBER
    ensures Decimals(Parts(NumbersText(numbers), DOT)) == Some(numbers)
    decreases |numbers|
  {
    hide Decimal, Dec, Parts, Decimals;
    var first := Dec(numbers[0]);
    DecIsDecimal(numbers[0]);
    if |numbers| == 1 {
      CutUnmarked(first, DOT);
      OneDecimal(first);
      assert numbers == [numbers[0]];
    } else {
      NumbersTextParses(numbers[1..]);
      CutMarked(first, DOT, NumbersText(numbers[1..]));
      DecimalsStep(first, Parts(NumbersText(numbers[1..]), DOT));
      assert numbers == [numbers[0]] + numbers[1..];
    }
  }

  lemma {:induction false} DigitsAndDots(numbers: seq<nat>)
    requires numbers != []
    ensures forall i :: 0 <= i < |NumbersText(numbers)| ==> Digit(NumbersText(numbers)[i]) || NumbersText(numbers)[i] == DOT
    decreases |numbers|
  {
    hide FromDigits, Shortest;
    assert Numeric(Dec(numbers[0]));
    if |numbers| > 1 {
      DigitsAndDots(numbers[1..]);
    }
  }

  lemma OneDecimal(text: bytes)
    requires Decimal(text).Some?
    ensures Decimals([text]) == Some([Decimal(text).value])
  {
    hide Decimal;
    var parts, none: seq<bytes>, numbers: seq<nat> := [text], [], [Decimal(text).value];
    assert parts[1..] == none && Decimals(none) == Some([]);
    assert numbers + [] == numbers;
  }

  lemma NoMark(digits: bytes, mark: byte)
    requires Numeric(digits) && !Digit(mark)
    ensures mark !in digits
  {
  }

  lemma NormalNumbers(v: JavaVersion)
    requires Normal(v)
    ensures Trimmed(v.numbers) == v.numbers && (v.pre.Some? ==> NormalPre(v.pre.value) == v.pre.value)
  {
    if v.pre.Some? && Numeric(v.pre.value) {
      assert v.pre.value[0] == ZERO ==> WithoutZeroes(v.pre.value[1..]) == [];
    }
  }

  /** A displayed version is no alias, so it is parsed as it stands. */
  lemma DisplayIsPlain(v: JavaVersion)
    requires Normal(v)
    ensures !IsAlias(Display(v)) && Display(v) != [] && Ascii(Display(v))
  {
    hide FromDigits, ValidPre, Shortest, Dec, NumbersText;
    var first := Dec(v.numbers[0]);
    DigitsAndDots(v.numbers);
    NumbersStart(v.numbers);
    var text, numbers := Display(v), NumbersText(v.numbers);
    assert text[..|numbers|] == numbers;
    PreIsAscii(v);
    forall i | 0 <= i < |text| ensures text[i] < 0x80 {
      if i < |numbers| {
        assert text[i] == numbers[i];
      }
    }
    EightOrMore(v.numbers[0]);
    if |numbers| > 1 {
      assert text[1] == numbers[1];
    } else if |text| > 1 {
      assert text[1] == DASH;
    }
    assert text[0] == first[0];
    assert |first| > 1 ==> text[1] == first[1];
  }

  lemma PreIsAscii(v: JavaVersion)
    requires Normal(v)
    ensures v.pre.Some? ==> Ascii(v.pre.value)
  {
  }

  lemma NumbersStart(numbers: seq<nat>)
    requires numbers != []
    ensures Dec(numbers[0]) <= NumbersText(numbers)
  {
  }

  /** A feature number of at least eight is written with two digits or as 8 or 9. */
  lemma EightOrMore(value: nat)
    requires value >= 8
    ensures var s := Dec(value); if |s| > 1 then Digit(s[1]) else s[0] >= 0x38
  {
    if value < 10 {
      SingleDigit(Dec(value));
    }
  }

  /** Parsing a displayed version gives the version back, canonically spelled. */
  lemma DisplayParses(v: JavaVersion)
    requires Normal(v)
    ensures Parse(Display(v)) == Some((v, true))
  {
    hide FromDigits, Shortest, Dec, NumbersText, Parts, Decimals, Trimmed, NormalPre, IsAlias, Ascii, FirstIndex;
    var numbers := NumbersText(v.numbers);
    NumbersTextParses(v.numbers);
    DigitsAndDots(v.numbers);
    NormalNumbers(v);
    DisplayIsPlain(v);
    assert DASH !in numbers && PLUS !in numbers;
    if v.pre == None {
      assert Display(v) == numbers;
      CutUnmarked(numbers, PLUS);
      CutUnmarked(numbers, DASH);
    } else {
      var pre := v.pre.value;
      assert DASH !in pre && PLUS !in pre;
      assert Display(v) == numbers + [DASH] + pre;
      assert PLUS !in Display(v);
      CutUnmarked(Display(v), PLUS);
      CutMarked(numbers, DASH, pre);
      CutUnmarked(pre, DASH);
    }
  }
}
