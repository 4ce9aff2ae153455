/** Canonical VERS timelines: which versions a range of comparators contains. */
module Timelines {
  import opened Binary
  import opened Versions
  import VersionText

  /** The comparators `=`, `!=`, `>`, `>=`, `<` and `<=`. */
  datatype Comparator = Exactly | Except | After | From | Before | Upto {
    /** Starts an interval. */
    predicate Starts() {
      After? || From?
    }

    /** Ends an interval. */
    predicate Ends() {
      Before? || Upto?
    }

    predicate Bound() {
      Starts() || Ends()
    }

    /** Includes its own point. */
    predicate Includes() {
      Exactly? || From? || Upto?
    }
  }

  datatype Constraint = Constraint(comparator: Comparator, version: JavaVersion)

  // ---------- Accepting a timeline ----------

  /** The last comparator that is not an exclusion. */
  function LastMeaningful(done: seq<Constraint>): Option<Comparator> {
    if done == [] then None
    else if done[|done| - 1].comparator.Except? then LastMeaningful(done[..|done| - 1])
    else Some(done[|done| - 1].comparator)
  }

  function LastBound(done: seq<Constraint>): Option<Comparator> {
    if done == [] then None
    else if done[|done| - 1].comparator.Bound() then Some(done[|done| - 1].comparator)
    else LastBound(done[..|done| - 1])
  }

  /** Versions increase, no upper bound follows an equality, and bounds alternate. */
  predicate Allowed(done: seq<Constraint>, next: Constraint) {
    && (done != [] ==> Compare(done[|done| - 1].version, next.version) < 0)
    && !(LastMeaningful(done) == Some(Exactly) && next.comparator.Ends())
    && (next.comparator.Bound() && LastBound(done).Some? ==> LastBound(done).value.Starts() != next.comparator.Starts())
  }

  /** Every constraint is allowed after the ones before it. */
  ghost predicate ValidTimeline(constraints: seq<Constraint>) {
    forall i :: 0 <= i < |constraints| ==> Allowed(constraints[..i], constraints[i])
  }

  const BAR: byte := 0x7c

  /** The comparator that an item starts with, and the version after it. */
  function ItemParts(item: bytes): (Comparator, bytes) {
    if [0x3e, 0x3d] <= item then (From, item[2..])
    else if [0x3c, 0x3d] <= item then (Upto, item[2..])
    else if [0x21, 0x3d] <= item then (Except, item[2..])
    else if [0x3e] <= item then (After, item[1..])
    else if [0x3c] <= item then (Before, item[1..])
    else if [0x3d] <= item then (Exactly, item[1..])
    else (Exactly, item)
  }

  /** One item; its version must be canonically spelled. */
  function ReadItem(item: bytes): Option<Constraint> {
    match VersionText.Parse(ItemParts(item).1)
    case None => None
    case Some((version, canonical)) => if canonical then Some(Constraint(ItemParts(item).0, version)) else None
  }

  function ReadItems(items: seq<bytes>): Option<seq<Constraint>> {
    if items == [] then Some([])
    else
      match (ReadItems(items[..|items| - 1]), ReadItem(items[|items| - 1]))
      case (Some(done), Some(next)) => if Allowed(done, next) then Some(done + [next]) else None
      case _ => None
  }

  /** The bytes of `vers:jep322/` and `*`. */
  const PREFIX: bytes := [0x76, 0x65, 0x72, 0x73, 0x3a, 0x6a, 0x65, 0x70, 0x33, 0x32, 0x32, 0x2f]
  const ANY: bytes := [0x2a]

  predicate Printable(text: bytes) {
    forall i :: 0 <= i < |text| ==> 33 <= text[i] <= 126
  }

  function ParseRange(text: bytes): Option<seq<Constraint>> {
    if !(PREFIX <= text) || !Printable(text) then None
    else if text[|PREFIX|..] == ANY then Some([])
    else ReadItems(VersionText.Parts(text[|PREFIX|..], BAR))
  }

  lemma {:induction false} ReadIsValid(items: seq<bytes>)
    requires ReadItems(items).Some?
    ensures ValidTimeline(ReadItems(items).value) && |ReadItems(items).value| == |items|
    decreases |items|
  {
    hide ReadItem, Allowed;
    if items != [] {
      ReadIsValid(items[..|items| - 1]);
      var done := ReadItems(items[..|items| - 1]).value;
      var all := ReadItems(items).value;
      forall i | 0 <= i < |all| ensures Allowed(all[..i], all[i]) {
        assert all[..i] == done[..i];
        assert i == |done| ==> all[..i] == done;
        assert i < |done| ==> Allowed(done[..i], done[i]);
      }
    }
  }

  /** Every accepted range is a valid timeline. */
  lemma ParsedIsValid(text: bytes)
    requires ParseRange(text).Some?
    ensures ValidTimeline(ParseRange(text).value)
  {
    hide ReadItems, Printable;
    if text[|PREFIX|..] != ANY {
      ReadIsValid(VersionText.Parts(text[|PREFIX|..], BAR));
    }
  }

  /** Reads the items one by one, remembering only the last comparators that matter. */
  method Parse(text: bytes) returns (r: Option<seq<Constraint>>)
    ensures r == ParseRange(text)
  {
    hide ReadItem, Printable, Compare;
    if !(PREFIX <= text) || !Printable(text) {
      return None;
    }
    if text[|PREFIX|..] == ANY {
      return Some([]);
    }
    var items := VersionText.Parts(text[|PREFIX|..], BAR);
    var constraints: seq<Constraint> := [];
    var previousMeaningful: Option<Comparator>, previousBoundary: Option<Comparator> := None, None;
    assert items[..0] == [];
    for i := 0 to |items|
      invariant ReadItems(items[..i]) == Some(constraints)
      invariant previousMeaningful == LastMeaningful(constraints) && previousBoundary == LastBound(constraints)
    {
      ReadFails(items, i + 1);
      assert items[..i + 1][..i] == items[..i];
      var next := ReadItem(items[i]);
      if next == None {
        return None;
      }
      var comparator, version := next.value.comparator, next.value.version;
      if constraints != [] {
        var order := Cmp(constraints[|constraints| - 1].version, version);
        if order >= 0 {
          return None;
        }
      }
      if comparator != Except {
        if previousMeaningful == Some(Exactly) && comparator.Ends() {
          return None;
        }
        previousMeaningful := Some(comparator);
      }
      if comparator.Bound() {
        if previousBoundary.Some? && previousBoundary.value.Starts() == comparator.Starts() {
          return None;
        }
        previousBoundary := Some(comparator);
      }
      assert (constraints + [next.value])[..|constraints|] == constraints;
      constraints := constraints + [next.value];
    }
    assert items[..|items|] == items;
    r := Some(constraints);
  }

  lemma {:induction false} ReadFails(items: seq<bytes>, count: nat)
    requires count <= |items|
    ensures ReadItems(items[..count]) == None ==> ReadItems(items) == None
    decreases |items|
  {
    hide ReadItem, Allowed;
    if count < |items| {
      var front := items[..|items| - 1];
      assert front[..count] == items[..count];
      ReadFails(front, count);
    } else {
      assert items[..count] == items;
    }
  }

  // ---------- Membership, as the scan decides it ----------

  function FirstMeaningful(constraints: seq<Constraint>): Option<Comparator> {
    if constraints == [] then None
    else if constraints[0].comparator.Except? then FirstMeaningful(constraints[1..])
    else Some(constraints[0].comparator)
  }

  /** Whether versions before the first constraint are included. */
  function Initially(constraints: seq<Constraint>): bool {
    FirstMeaningful(constraints) == None || FirstMeaningful(constraints).value.Ends()
  }

  function Scan(constraints: seq<Constraint>, i: nat, candidate: JavaVersion, included: bool): bool
    decreases |constraints| - i
  {
    if i >= |constraints| then included
    else
      var order, comparator := Compare(candidate, constraints[i].version), constraints[i].comparator;
      if order < 0 then included
      else if order == 0 then comparator.Includes()
      else Scan(constraints, i + 1, candidate, if comparator.Starts() then true else if comparator.Ends() then false else included)
  }

  function Contained(constraints: seq<Constraint>, candidate: JavaVersion): bool {
    constraints == [] || Scan(constraints, 0, candidate, Initially(constraints))
  }

  method Contains(constraints: seq<Constraint>, candidate: JavaVersion) returns (r: bool)
    ensures r == Contained(constraints, candidate)
  {
    if constraints == [] {
      return true;
    }
    var first := 0;
    assert constraints[0..] == constraints;
    while first < |constraints| && constraints[first].comparator == Except
      invariant first <= |constraints|
      invariant FirstMeaningful(constraints) == FirstMeaningful(constraints[first..])
    {
      assert constraints[first..][1..] == constraints[first + 1..];
      first := first + 1;
    }
    var included := first == |constraints| || constraints[first].comparator.Ends();
    for i := 0 to |constraints|
      invariant Contained(constraints, candidate) == Scan(constraints, i, candidate, included)
    {
      var comparator := constraints[i].comparator;
      var order := Cmp(candidate, constraints[i].version);
      if order < 0 {
        break;
      }
      if order == 0 {
        return comparator.Includes();
      }
      if comparator.Starts() {
        included := true;
      }
      if comparator.Ends() {
        included := false;
      }
    }
    r := included;
  }

  // ---------- Membership, as intervals ----------

  predicate NoBounds(constraints: seq<Constraint>, from: int, to: int)
    requires -1 <= from && to <= |constraints|
  {
    forall i :: from < i < to ==> !constraints[i].comparator.Bound()
  }

  /** Neighbouring bounds that enclose an interval; -1 and the length stand for no bound. */
  predicate Interval(constraints: seq<Constraint>, lower: int, upper: int) {
    && -1 <= lower < upper <= |constraints|
    && (lower == -1 || constraints[lower].comparator.Starts())
    && (upper == |constraints| || constraints[upper].comparator.Ends())
    && !(lower == -1 && upper == |constraints|)
    && NoBounds(constraints, lower, upper)
  }

  predicate Inside(constraints: seq<Constraint>, lower: int, upper: int, candidate: JavaVersion) {
    && Interval(constraints, lower, upper)
    && (lower >= 0 ==> Compare(constraints[lower].version, candidate) < 0)
    && (upper < |constraints| ==> Compare(candidate, constraints[upper].version) < 0)
  }

  predicate OnlyExclusions(constraints: seq<Constraint>) {
    forall i :: 0 <= i < |constraints| ==> constraints[i].comparator.Except?
  }

  ghost predicate InSome(constraints: seq<Constraint>, candidate: JavaVersion) {
    exists lower, upper :: Inside(constraints, lower, upper, candidate)
  }

  /** Named points decide for themselves; other versions are in when an interval encloses them. */
  ghost predicate InTimeline(constraints: seq<Constraint>, candidate: JavaVersion) {
    if exists i :: 0 <= i < |constraints| && Compare(candidate, constraints[i].version) == 0
    then exists i :: 0 <= i < |constraints| && Compare(candidate, constraints[i].version) == 0 && constraints[i].comparator.Includes()
    else OnlyExclusions(constraints) || InSome(constraints, candidate)
  }

  // ---------- The scan decides membership ----------

  lemma StrictlyTransitive(a: JavaVersion, b: JavaVersion, c: JavaVersion)
    requires Compare(a, b) <= 0 && Compare(b, c) <= 0 && (Compare(a, b) < 0 || Compare(b, c) < 0)
    ensures Compare(a, c) < 0
  {
    hide Compare;
    CompareIsTransitive(a, b, c);
    CompareReverses(a, b);
    CompareReverses(b, c);
    CompareReverses(a, c);
    if Compare(a, c) == 0 {
      if Compare(a, b) < 0 {
        CompareIsTransitive(b, c, a);
      } else {
        CompareIsTransitive(c, a, b);
      }
    }
  }

  lemma {:induction false} VersionsIncrease(constraints: seq<Constraint>, i: nat, j: nat)
    requires ValidTimeline(constraints) && i < j < |constraints|
    ensures Compare(constraints[i].version, constraints[j].version) < 0
    decreases j
  {
    hide Compare, LastMeaningful, LastBound;
    assert Allowed(constraints[..j], constraints[j]);
    assert constraints[..j][j - 1] == constraints[j - 1];
    if i < j - 1 {
      VersionsIncrease(constraints, i, j - 1);
      StrictlyTransitive(constraints[i].version, constraints[j - 1].version, constraints[j].version);
    }
  }

  lemma {:induction false} LastBoundIs(constraints: seq<Constraint>, i: nat, j: nat)
    requires i < j <= |constraints| && constraints[i].comparator.Bound() && NoBounds(constraints, i, j)
    ensures LastBound(constraints[..j]) == Some(constraints[i].comparator)
    decreases j
  {
    assert constraints[..j][j - 1] == constraints[j - 1];
    if i < j - 1 {
      assert constraints[..j][..j - 1] == constraints[..j - 1];
      LastBoundIs(constraints, i, j - 1);
    }
  }

  /** Neighbouring bounds are of opposite kinds. */
  lemma BoundsAlternate(constraints: seq<Constraint>, i: nat, j: nat)
    requires ValidTimeline(constraints) && i < j < |constraints|
    requires constraints[i].comparator.Bound() && constraints[j].comparator.Bound() && NoBounds(constraints, i, j)
    ensures constraints[i].comparator.Starts() != constraints[j].comparator.Starts()
  {
    hide Compare, LastMeaningful, LastBound;
    LastBoundIs(constraints, i, j);
    assert Allowed(constraints[..j], constraints[j]);
  }

  lemma {:induction false} LastMeaningfulIs(constraints: seq<Constraint>, i: nat, j: nat)
    requires i < j <= |constraints| && constraints[i].comparator.Exactly? && NoBounds(constraints, i, j)
    ensures LastMeaningful(constraints[..j]) == Some(Exactly)
    decreases j
  {
    assert constraints[..j][j - 1] == constraints[j - 1];
    if i < j - 1 && constraints[j - 1].comparator.Except? {
      assert constraints[..j][..j - 1] == constraints[..j - 1];
      LastMeaningfulIs(constraints, i, j - 1);
    } else if i < j - 1 {
      assert !constraints[j - 1].comparator.Bound();
    }
  }

  /** The first bound after an equality cannot end an interval. */
  lemma NoEndAfterEquality(constraints: seq<Constraint>, i: nat, j: nat)
    requires ValidTimeline(constraints) && i < j < |constraints| && constraints[i].comparator.Exactly? && NoBounds(constraints, i, j)
    ensures !constraints[j].comparator.Ends()
  {
    hide Compare, LastMeaningful, LastBound;
    LastMeaningfulIs(constraints, i, j);
    assert Allowed(constraints[..j], constraints[j]);
  }

  /** The last bound before `i`, or -1. */
  function BoundBefore(constraints: seq<Constraint>, i: nat): (r: int)
    requires i <= |constraints|
    ensures -1 <= r < i && NoBounds(constraints, r, i) && (r >= 0 ==> constraints[r].comparator.Bound())
  {
    if i == 0 then -1 else if constraints[i - 1].comparator.Bound() then i - 1 else BoundBefore(constraints, i - 1)
  }

  /** The first bound from `i` on, or the length. */
  function BoundFrom(constraints: seq<Constraint>, i: nat): (r: nat)
    requires i <= |constraints|
    ensures i <= r <= |constraints| && NoBounds(constraints, i - 1, r) && (r < |constraints| ==> constraints[r].comparator.Bound())
    decreases |constraints| - i
  {
    if i == |constraints| then i else if constraints[i].comparator.Bound() then i else BoundFrom(constraints, i + 1)
  }

  /** What the scan has decided about versions just after the first `i` constraints. */
  function Status(constraints: seq<Constraint>, i: nat): bool
    requires i <= |constraints|
  {
    var bound := BoundBefore(constraints, i);
    if bound == -1 then Initially(constraints) else constraints[bound].comparator.Starts()
  }

  lemma {:induction false} FirstMeaningfulIs(constraints: seq<Constraint>) returns (m: nat)
    ensures FirstMeaningful(constraints) == None ==> OnlyExclusions(constraints)
    ensures FirstMeaningful(constraints).Some? ==>
              m < |constraints| && constraints[m].comparator == FirstMeaningful(constraints).value
              && !constraints[m].comparator.Except? && forall i :: 0 <= i < m ==> constraints[i].comparator.Except?
    decreases |constraints|
  {
    m := 0;
    if constraints != [] && constraints[0].comparator.Except? {
      var rest := FirstMeaningfulIs(constraints[1..]);
      m := rest + 1;
    }
  }

  /** A version strictly between constraints `i - 1` and `i` is in exactly when the status says so. */
  lemma GapMeaning(constraints: seq<Constraint>, i: nat, candidate: JavaVersion)
    requires ValidTimeline(constraints) && i <= |constraints|
    requires forall j :: 0 <= j < i ==> Compare(constraints[j].version, candidate) < 0
    requires forall j :: i <= j < |constraints| ==> Compare(candidate, constraints[j].version) < 0
    ensures Status(constraints, i) <==> OnlyExclusions(constraints) || InSome(constraints, candidate)
  {
    hide Compare, ValidTimeline;
    var before, after := BoundBefore(constraints, i), BoundFrom(constraints, i);
    var m := FirstMeaningfulIs(constraints);
    Separated(constraints, i, candidate);
    if Status(constraints, i) {
      if before >= 0 {
        if after < |constraints| {
          BoundsAlternate(constraints, before, after);
        }
        assert Inside(constraints, before, after, candidate);
      } else if FirstMeaningful(constraints).Some? {
        assert after <= m;
        assert Inside(constraints, -1, m, candidate);
      }
    } else {
      forall lower, upper | Inside(constraints, lower, upper, candidate) ensures false {
        EnclosesGap(constraints, i, candidate, lower, upper);
        if before == -1 {
          NothingEncloses(constraints, i, upper, m);
        }
      }
    }
  }

  lemma Separated(constraints: seq<Constraint>, i: nat, candidate: JavaVersion)
    requires i <= |constraints|
    requires forall j :: 0 <= j < i ==> Compare(constraints[j].version, candidate) < 0
    requires forall j :: i <= j < |constraints| ==> Compare(candidate, constraints[j].version) < 0
    ensures forall j :: 0 <= j < i ==> !(Compare(candidate, constraints[j].version) < 0)
    ensures forall j :: i <= j < |constraints| ==> !(Compare(constraints[j].version, candidate) < 0)
  {
    hide Compare;
    forall j | 0 <= j < |constraints|
      ensures Compare(constraints[j].version, candidate) == -Compare(candidate, constraints[j].version)
    {
      CompareReverses(constraints[j].version, candidate);
    }
  }

  /** An interval around the gap starts at the last bound before it. */
  lemma EnclosesGap(constraints: seq<Constraint>, i: nat, candidate: JavaVersion, lower: int, upper: int)
    requires i <= |constraints| && Inside(constraints, lower, upper, candidate)
    requires forall j :: 0 <= j < i ==> !(Compare(candidate, constraints[j].version) < 0)
    requires forall j :: i <= j < |constraints| ==> !(Compare(constraints[j].version, candidate) < 0)
    ensures lower == BoundBefore(constraints, i) && upper == BoundFrom(constraints, i)
  {
    hide Compare;
  }

  /** Before the first bound, only a leading upper bound includes anything. */
  lemma NothingEncloses(constraints: seq<Constraint>, i: nat, upper: int, m: nat)
    requires ValidTimeline(constraints) && i <= |constraints| && BoundBefore(constraints, i) == -1
    requires Interval(constraints, -1, upper) && upper == BoundFrom(constraints, i)
    requires m < |constraints| && !constraints[m].comparator.Except? && !constraints[m].comparator.Ends()
    requires forall j :: 0 <= j < m ==> constraints[j].comparator.Except?
    ensures false
  {
    hide ValidTimeline;
    if constraints[m].comparator.Exactly? {
      if m < upper {
        NoEndAfterEquality(constraints, m, upper);
      }
    }
  }

  lemma {:induction false} ScanMeaning(constraints: seq<Constraint>, i: nat, candidate: JavaVersion)
    requires ValidTimeline(constraints) && i <= |constraints|
    requires forall j :: 0 <= j < i ==> Compare(constraints[j].version, candidate) < 0
    ensures Scan(constraints, i, candidate, Status(constraints, i)) <==> InTimeline(constraints, candidate)
    decreases |constraints| - i
  {
    hide Compare, ValidTimeline, OnlyExclusions, InSome, Initially;
    forall j | 0 <= j < i ensures Compare(candidate, constraints[j].version) > 0 {
      CompareReverses(constraints[j].version, candidate);
    }
    if i == |constraints| {
      GapMeaning(constraints, i, candidate);
    } else {
      CompareReverses(constraints[i].version, candidate);
      var order := Compare(candidate, constraints[i].version);
      if order > 0 {
        ScanMeaning(constraints, i + 1, candidate);
      } else {
        forall j | i < j < |constraints| ensures Compare(candidate, constraints[j].version) < 0 {
          VersionsIncrease(constraints, i, j);
          StrictlyTransitive(candidate, constraints[i].version, constraints[j].version);
        }
        if order < 0 {
          GapMeaning(constraints, i, candidate);
        }
      }
    }
  }

  /** For every accepted range, membership is membership in the intervals between its alternating bounds. */
  lemma ContainsMeansInTimeline(constraints: seq<Constraint>, candidate: JavaVersion)
    requires ValidTimeline(constraints)
    ensures Contained(constraints, candidate) <==> InTimeline(constraints, candidate)
  {
    hide Compare, ValidTimeline, InSome, Initially;
    if constraints != [] {
      ScanMeaning(constraints, 0, candidate);
      assert Status(constraints, 0) == Initially(constraints);
    }
  }

  /** Without the rule on equalities the scan would start wrongly: `=8|<9` would leave out the versions below 8. */
  lemma EqualityRuleIsNeeded()
    ensures var eight, nine, early := JavaVersion([8], None), JavaVersion([9], None), JavaVersion([8], Some([0x65, 0x61]));
            var constraints := [Constraint(Exactly, eight), Constraint(Before, nine)];
            && !Allowed(constraints[..1], constraints[1])
            && !Contained(constraints, early) && InTimeline(constraints, early)
  {
    var eight, nine, early := JavaVersion([8], None), JavaVersion([9], None), JavaVersion([8], Some([0x65, 0x61]));
    var constraints := [Constraint(Exactly, eight), Constraint(Before, nine)];
    assert constraints[..1] == [constraints[0]];
    assert constraints[..1][..0] == [];
    assert CompareNumbers([8], [8], 1) == 0 && CompareNumbers([8], [8], 0) == 0;
    assert Compare(early, eight) == -1 && Compare(early, nine) == -1;
    assert Inside(constraints, -1, 1, early);
  }
}
