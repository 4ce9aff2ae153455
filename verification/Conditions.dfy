/** Layer conditions: their schema, and how they match a context. */
module Conditions {
  import opened Binary
  import opened Cbor
  import opened CborValues
  import opened Versions
  import opened Timelines
  import Blobs
  import VersionText

  datatype Runtime = Runtime(kind: bytes, java: Option<JavaVersion>, vendor: bytes)

  datatype Context = Context(os: bytes, arch: bytes, invocation: Option<bytes>, runtime: Option<Runtime>)

  /** The bytes of `janex.java`, `run`, `open` and `command`. */
  const JAVA: bytes := [0x6a, 0x61, 0x6e, 0x65, 0x78, 0x2e, 0x6a, 0x61, 0x76, 0x61]
  const INVOCATIONS: seq<bytes> := [[0x72, 0x75, 0x6e], [0x6f, 0x70, 0x65, 0x6e], [0x63, 0x6f, 0x6d, 0x6d, 0x61, 0x6e, 0x64]]

  predicate Nonempty(item: Item) {
    item.TextString? && item.text != []
  }

  predicate AllNonempty(items: seq<Item>) {
    forall i :: 0 <= i < |items| ==> Nonempty(items[i])
  }

  /** A nonempty text, or a nonempty list of them. */
  predicate Selector(item: Item) {
    Nonempty(item) || (item.Array? && item.items != [] && AllNonempty(item.items))
  }

  predicate Names(selector: Item, actual: bytes) {
    selector == TextString(actual) || (selector.Array? && TextString(actual) in selector.items)
  }

  /** The range that a Java runtime condition asks for; nothing when it is not a valid range. */
  predicate ValidRequirements(kind: Item, requirements: Item) {
    Blobs.IntegerKeys(requirements) && (kind == TextString(JAVA) ==>
      && (Get(requirements, 0).Some? ==>
            Nonempty(Get(requirements, 0).value) && ParseRange(Get(requirements, 0).value.text).Some?)
      && (Get(requirements, 1).Some? ==> Nonempty(Get(requirements, 1).value)))
  }

  predicate ValidRuntime(runtime: Item) {
    && Blobs.IntegerKeys(runtime)
    && Get(runtime, 0).Some? && Nonempty(Get(runtime, 0).value)
    && Get(runtime, 1).Some? && ValidRequirements(Get(runtime, 0).value, Get(runtime, 1).value)
  }

  /** The schema of a condition, checked even when it will not match. */
  predicate Accepts(item: Item) {
    && Blobs.IntegerKeys(item)
    && Get(item, 0) == None && Get(item, 3) == None
    && (Get(item, 1).Some? ==> Selector(Get(item, 1).value))
    && (Get(item, 2).Some? ==> Selector(Get(item, 2).value))
    && (Get(item, 4).Some? ==> Selector(Get(item, 4).value))
    && (Get(item, 5).Some? ==> ValidRuntime(Get(item, 5).value))
  }

  predicate Selects(selector: Option<Item>, actual: Option<bytes>) {
    selector == None || (actual.Some? && Names(selector.value, actual.value))
  }

  /** Whether a runtime meets a condition; nothing when its schema is unknown or its version missing. */
  function RuntimeMatches(runtime: Item, actual: Runtime): Option<bool>
    requires ValidRuntime(runtime)
  {
    var requirements := Get(runtime, 1).value;
    if Get(runtime, 0).value.text != actual.kind then Some(false)
    else if actual.kind != JAVA then None
    else
      var versions :=
        if Get(requirements, 0) == None then Some(true)
        else if actual.java == None then None
        else Some(Contained(ParseRange(Get(requirements, 0).value.text).value, actual.java.value));
      if versions != Some(true) then versions
      else Some(Get(requirements, 1) == None || Get(requirements, 1).value.text == actual.vendor)
  }

  /** Evaluates the known constraints of an accepted condition. */
  function Matches(item: Item, context: Context): Option<bool>
    requires Accepts(item)
  {
    if !Selects(Get(item, 1), Some(context.os)) || !Selects(Get(item, 2), Some(context.arch)) then Some(false)
    else if Get(item, 4).Some? && !(context.invocation.Some? && context.invocation.value in INVOCATIONS
                                    && Names(Get(item, 4).value, context.invocation.value)) then Some(false)
    else if Get(item, 5) == None then Some(true)
    else if context.runtime == None then Some(false)
    else RuntimeMatches(Get(item, 5).value, context.runtime.value)
  }

  // ---------- Thresholds ----------

  /** The bytes of `>=`. */
  const AT_LEAST: bytes := [0x3e, 0x3d]

  /** The spelling of the range that starts at a feature version. */
  function ThresholdText(version: nat): bytes {
    PREFIX + AT_LEAST + VersionText.Dec(version)
  }

  /** The condition of a versioned layer. */
  function Threshold(version: nat): Item {
    Map([Pair(Unsigned(5), Map([Pair(Unsigned(0), TextString(JAVA)),
                                Pair(Unsigned(1), Map([Pair(Unsigned(0), TextString(ThresholdText(version)))]))]))])
  }

  function Feature(version: nat): JavaVersion {
    JavaVersion([version], None)
  }

  /** The written range contains exactly the versions from the threshold on. */
  lemma ThresholdRange(version: nat)
    requires 8 <= version <= MAX_NUMBER
    ensures ParseRange(ThresholdText(version)) == Some([Constraint(From, Feature(version))])
  {
    hide VersionText.Parse, VersionText.Dec, FromDigits, Shortest, ItemParts;
    var digits := VersionText.Dec(version);
    var item := AT_LEAST + digits;
    var text := ThresholdText(version);
    assert text == PREFIX + item;
    assert text[|PREFIX|..] == item;
    forall i | 0 <= i < |text| ensures 33 <= text[i] <= 126 {
      if i >= |PREFIX| + 2 {
        assert text[i] == digits[i - |PREFIX| - 2];
      }
    }
    assert item[0] == 0x3e && ANY[0] != item[0];
    BarIsAbsent(digits);
    VersionText.CutUnmarked(item, BAR);
    FeatureParses(version);
    ItemOfThreshold(digits);
    OneItem(item);
  }

  lemma BarIsAbsent(digits: bytes)
    requires Numeric(digits)
    ensures BAR !in AT_LEAST + digits
  {
  }

  lemma FeatureParses(version: nat)
    requires 8 <= version <= MAX_NUMBER
    ensures VersionText.Parse(VersionText.Dec(version)) == Some((Feature(version), true))
  {
    hide VersionText.Parse, VersionText.Dec;
    VersionText.DisplayParses(Feature(version));
    assert VersionText.Display(Feature(version)) == VersionText.Dec(version);
  }

  lemma ItemOfThreshold(digits: bytes)
    ensures ItemParts(AT_LEAST + digits) == (From, digits)
  {
    assert (AT_LEAST + digits)[2..] == digits;
  }

  lemma OneItem(item: bytes)
    requires ReadItem(item).Some?
    ensures ReadItems([item]) == Some([ReadItem(item).value])
  {
    hide ReadItem;
    var items, none: seq<bytes>, done: seq<Constraint> := [item], [], [];
    assert items[..0] == none && ReadItems(none) == Some(done);
    assert done + [ReadItem(item).value] == [ReadItem(item).value];
    assert Allowed(done, ReadItem(item).value);
  }

  /** A runtime whose kind is Java but whose version is unknown cannot be compared. */
  predicate Comparable(context: Context) {
    context.runtime.Some? && context.runtime.value.kind == JAVA ==> context.runtime.value.java.Some?
  }

  /** A runtime reaches a threshold when it is a Java runtime of at least that version. */
  predicate Reaches(context: Context, version: nat)
    requires Comparable(context)
  {
    context.runtime.Some? && context.runtime.value.kind == JAVA && Compare(context.runtime.value.java.value, Feature(version)) >= 0
  }

  lemma ThresholdFields(version: nat)
    ensures var item := Threshold(version);
            && item.Map? && Blobs.IntegerKeys(item)
            && Get(item, 0) == None && Get(item, 1) == None && Get(item, 2) == None && Get(item, 3) == None && Get(item, 4) == None
            && Get(item, 5).Some?
            && var runtime := Get(item, 5).value;
               && Blobs.IntegerKeys(runtime) && Get(runtime, 0) == Some(TextString(JAVA)) && Get(runtime, 1).Some?
               && var requirements := Get(runtime, 1).value;
                  && Blobs.IntegerKeys(requirements)
                  && Get(requirements, 0) == Some(TextString(ThresholdText(version))) && Get(requirements, 1) == None
  {
    hide ThresholdText, Find, Get, Blobs.IntegerKeys;
    var requirements := Map([Pair(Unsigned(0), TextString(ThresholdText(version)))]);
    var runtime := Map([Pair(Unsigned(0), TextString(JAVA)), Pair(Unsigned(1), requirements)]);
    OneField(0, TextString(ThresholdText(version)));
    TwoFields(0, TextString(JAVA), 1, requirements);
    OneField(5, runtime);
  }

  lemma OneField(key: u64, value: Item)
    ensures var item := Map([Pair(Unsigned(key), value)]);
            Blobs.IntegerKeys(item) && forall other: u64 :: Get(item, other) == if other == key then Some(value) else None
  {
    var entries, none: seq<Pair> := [Pair(Unsigned(key), value)], [];
    assert entries[1..] == none;
    forall other: u64 ensures Find(entries, other) == if other == key then Some(value) else None {
      assert Find(none, other) == None;
    }
  }

  lemma TwoFields(a: u64, x: Item, b: u64, y: Item)
    ensures var item := Map([Pair(Unsigned(a), x), Pair(Unsigned(b), y)]);
            Blobs.IntegerKeys(item)
            && forall other: u64 :: Get(item, other) == if other == a then Some(x) else if other == b then Some(y) else None
  {
    var entries, last: seq<Pair>, none: seq<Pair> := [Pair(Unsigned(a), x), Pair(Unsigned(b), y)], [Pair(Unsigned(b), y)], [];
    assert entries[1..] == last && last[1..] == none;
    forall other: u64 ensures Find(entries, other) == if other == a then Some(x) else if other == b then Some(y) else None {
      assert Find(none, other) == None;
      assert Find(last, other) == if other == b then Some(y) else None;
    }
  }

  /** A threshold is a valid condition that matches exactly the runtimes that reach it. */
  lemma ThresholdMeaning(version: nat, context: Context)
    requires 8 <= version <= MAX_NUMBER
    ensures Accepts(Threshold(version))
    ensures Comparable(context) ==> Matches(Threshold(version), context) == Some(Reaches(context, version))
    ensures !Comparable(context) ==> Matches(Threshold(version), context) == None
  {
    hide ThresholdText, ParseRange, Compare, Find, Blobs.IntegerKeys, Threshold;
    ThresholdFields(version);
    ThresholdRange(version);
    SingleThreshold(version, context);
    assert ThresholdText(version) != [] by { ThresholdIsText(version); }
  }

  lemma ThresholdIsText(version: nat)
    ensures ThresholdText(version) != []
  {
  }

  lemma SingleThreshold(version: nat, context: Context)
    ensures context.runtime.Some? && context.runtime.value.java.Some? ==>
              Contained([Constraint(From, Feature(version))], context.runtime.value.java.value)
              == (Compare(context.runtime.value.java.value, Feature(version)) >= 0)
  {
    hide Compare;
    if context.runtime.Some? && context.runtime.value.java.Some? {
      var constraints := [Constraint(From, Feature(version))];
      var candidate := context.runtime.value.java.value;
      assert FirstMeaningful(constraints) == Some(From);
      assert Timelines.Scan(constraints, 1, candidate, true);
    }
  }

  /** Reaching a later threshold means reaching every earlier one. */
  lemma ThresholdsNest(context: Context, earlier: nat, later: nat)
    requires Comparable(context) && earlier <= later && Reaches(context, later)
    ensures Reaches(context, earlier)
  {
    var actual := context.runtime.value.java.value;
    assert Compare(Feature(earlier), Feature(later)) <= 0 by {
      assert CompareNumbers([earlier], [later], 1) == 0;
    }
    CompareReverses(actual, Feature(later));
    CompareReverses(actual, Feature(earlier));
    CompareIsTransitive(Feature(earlier), Feature(later), actual);
  }
}
