/** The interval map that rejects overlapping blob and table-page ranges. */
module Ranges {
  import opened Binary

  datatype Range = Range(offset: nat, length: nat) {
    function End(): nat {
      offset + length
    }
  }

  /** Two nonempty ranges share a byte. */
  predicate Overlap(a: Range, b: Range) {
    a.length > 0 && b.length > 0 && a.offset < b.End() && b.offset < a.End()
  }

  ghost predicate Disjoint(ranges: seq<Range>) {
    forall i, j :: 0 <= i < j < |ranges| ==> !Overlap(ranges[i], ranges[j])
  }

  ghost predicate Inside(ranges: seq<Range>, size: nat) {
    forall i :: 0 <= i < |ranges| ==> ranges[i].End() <= size
  }

  /** The global condition: in bounds and pairwise disjoint. */
  ghost predicate Sound(ranges: seq<Range>, size: nat) {
    Inside(ranges, size) && Disjoint(ranges)
  }

  // ---------- The map of ranges already seen ----------

  type RangeMap = map<nat, nat>

  /** The map holds exactly the nonempty ranges of the list, by offset. */
  ghost predicate Holds(existing: RangeMap, ranges: seq<Range>) {
    && (forall i :: 0 <= i < |ranges| && ranges[i].length > 0 ==>
          ranges[i].offset in existing && existing[ranges[i].offset] == ranges[i].End())
    && (forall k :: k in existing ==> k < existing[k] && Range(k, existing[k] - k) in ranges)
  }

  /** The nearest range starting at or before `offset` reaches beyond it. */
  predicate FloorReaches(existing: RangeMap, offset: nat) {
    exists k :: k in existing && k <= offset && existing[k] > offset
             && forall j :: j in existing && j <= offset ==> j <= k
  }

  /** The nearest range starting at or after `offset` starts before `end`. */
  predicate CeilingStarts(existing: RangeMap, offset: nat, end: nat) {
    exists k :: k in existing && offset <= k < end
             && forall j :: j in existing && offset <= j ==> k <= j
  }

  // ---------- Sorting ----------

  predicate Before(a: Range, b: Range) {
    a.offset < b.offset || (a.offset == b.offset && a.length <= b.length)
  }

  function InsertRange(range: Range, sorted: seq<Range>): (r: seq<Range>)
    ensures multiset(r) == multiset{range} + multiset(sorted) && |r| == |sorted| + 1
  {
    if sorted == [] || Before(range, sorted[0]) then [range] + sorted
    else
      assert sorted == [sorted[0]] + sorted[1..];
      [sorted[0]] + InsertRange(range, sorted[1..])
  }

  function SortRanges(ranges: seq<Range>): (r: seq<Range>)
    ensures multiset(r) == multiset(ranges) && |r| == |ranges|
  {
    if ranges == [] then []
    else
      assert ranges == [ranges[0]] + ranges[1..];
      InsertRange(ranges[0], SortRanges(ranges[1..]))
  }

  ghost predicate Sorted(ranges: seq<Range>) {
    forall i, j :: 0 <= i < j < |ranges| ==> ranges[i].offset <= ranges[j].offset
  }

  lemma {:induction false} InsertKeepsSorted(range: Range, sorted: seq<Range>)
    requires Sorted(sorted)
    ensures Sorted(InsertRange(range, sorted))
    decreases |sorted|
  {
    if sorted != [] && !Before(range, sorted[0]) {
      var rest := InsertRange(range, sorted[1..]);
      InsertKeepsSorted(range, sorted[1..]);
      forall other | other in rest ensures sorted[0].offset <= other.offset {
        assert other in multiset(rest);
        assert other == range || other in sorted[1..];
      }
      PrependSorted(sorted[0], rest);
    }
  }

  lemma PrependSorted(range: Range, sorted: seq<Range>)
    requires Sorted(sorted) && forall other :: other in sorted ==> range.offset <= other.offset
    ensures Sorted([range] + sorted)
  {
  }

  lemma {:induction false} SortIsSorted(ranges: seq<Range>)
    ensures Sorted(SortRanges(ranges))
    decreases |ranges|
  {
    if ranges != [] {
      SortIsSorted(ranges[1..]);
      InsertKeepsSorted(ranges[0], SortRanges(ranges[1..]));
    }
  }

  lemma RepeatedCount(ranges: seq<Range>, i: nat, j: nat)
    requires i < j < |ranges| && ranges[i] == ranges[j]
    ensures multiset(ranges)[ranges[i]] >= 2
  {
    assert ranges == ranges[..j] + [ranges[j]] + ranges[j + 1..];
    assert ranges[..j][i] in multiset(ranges[..j]);
  }

  lemma CountRepeats(ranges: seq<Range>, range: Range)
    requires multiset(ranges)[range] >= 2
    ensures exists k, l :: 0 <= k < l < |ranges| && ranges[k] == range == ranges[l]
  {
    var l :| 0 <= l < |ranges| && ranges[l] == range;
    assert ranges == ranges[..l] + [range] + ranges[l + 1..];
    if range in ranges[..l] {
      var k :| 0 <= k < l && ranges[k] == range;
    } else {
      assert range in multiset(ranges[l + 1..]);
      var m :| l + 1 <= m < |ranges| && ranges[m] == range;
    }
  }

  lemma OverlapIsSymmetric(a: Range, b: Range)
    ensures Overlap(a, b) == Overlap(b, a)
  {
  }

  /** A rearranged list of disjoint ranges is disjoint. */
  lemma DisjointIsUnordered(a: seq<Range>, b: seq<Range>)
    requires multiset(a) == multiset(b) && Disjoint(a)
    ensures Disjoint(b)
  {
    hide Overlap;
    forall i, j | 0 <= i < j < |b| ensures !Overlap(b[i], b[j]) {
      if b[i] == b[j] {
        RepeatedCount(b, i, j);
        CountRepeats(a, b[i]);
      } else {
        assert b[i] in multiset(a) && b[j] in multiset(a);
        var k :| 0 <= k < |a| && a[k] == b[i];
        var l :| 0 <= l < |a| && a[l] == b[j];
        OverlapIsSymmetric(a[k], a[l]);
      }
    }
  }

  lemma SoundIsUnordered(a: seq<Range>, b: seq<Range>, size: nat)
    requires multiset(a) == multiset(b)
    ensures Sound(a, size) <==> Sound(b, size)
  {
    if Inside(a, size) {
      InsideIsUnordered(a, b, size);
    }
    if Inside(b, size) {
      InsideIsUnordered(b, a, size);
    }
    if Disjoint(a) {
      DisjointIsUnordered(a, b);
    }
    if Disjoint(b) {
      DisjointIsUnordered(b, a);
    }
  }

  lemma InsideIsUnordered(a: seq<Range>, b: seq<Range>, size: nat)
    requires multiset(a) == multiset(b) && Inside(a, size)
    ensures Inside(b, size)
  {
    forall i | 0 <= i < |b| ensures b[i].End() <= size {
      assert b[i] in multiset(a);
    }
  }

  // ---------- Neighbour checks are enough ----------

  /** A nonempty range starting at or before `offset` and reaching beyond it shows in the nearest key below. */
  lemma FloorFound(existing: RangeMap, seen: seq<Range>, offset: nat, i: nat)
    requires Holds(existing, seen) && Disjoint(seen) && i < |seen|
    requires seen[i].length > 0 && seen[i].offset <= offset < seen[i].End()
    ensures FloorReaches(existing, offset)
  {
    var k := seen[i].offset;
    forall j | j in existing && j <= offset ensures j <= k {
      if k < j {
        var m :| 0 <= m < |seen| && seen[m] == Range(j, existing[j] - j);
        assert Overlap(seen[i], seen[m]) && Overlap(seen[m], seen[i]);
      }
    }
  }

  lemma FloorMeans(existing: RangeMap, seen: seq<Range>, range: Range)
    requires Holds(existing, seen) && FloorReaches(existing, range.offset) && range.length > 0
    ensures exists i :: 0 <= i < |seen| && Overlap(seen[i], range)
  {
    var k :| k in existing && k <= range.offset && existing[k] > range.offset;
    var m :| 0 <= m < |seen| && seen[m] == Range(k, existing[k] - k);
    assert Overlap(seen[m], range);
  }

  lemma CeilingMeans(existing: RangeMap, seen: seq<Range>, range: Range)
    requires Holds(existing, seen) && CeilingStarts(existing, range.offset, range.End()) && range.length > 0
    ensures exists i :: 0 <= i < |seen| && Overlap(seen[i], range)
  {
    var k :| k in existing && range.offset <= k < range.End();
    var m :| 0 <= m < |seen| && seen[m] == Range(k, existing[k] - k);
    assert Overlap(seen[m], range);
  }

  /** An overlap is with the nearest range on one side. */
  lemma OverlapIsNear(existing: RangeMap, seen: seq<Range>, range: Range, i: nat)
    requires Holds(existing, seen) && Disjoint(seen) && i < |seen| && Overlap(seen[i], range)
    ensures FloorReaches(existing, range.offset) || CeilingStarts(existing, range.offset, range.End())
  {
    hide Disjoint, FloorReaches, CeilingStarts;
    if seen[i].offset <= range.offset {
      FloorFound(existing, seen, range.offset, i);
    } else {
      CeilingFound(existing, seen, range, i);
    }
  }

  /** A nonempty range starting above `range` but before its end shows in the nearest key above. */
  lemma CeilingFound(existing: RangeMap, seen: seq<Range>, range: Range, i: nat)
    requires Holds(existing, seen) && i < |seen|
    requires seen[i].length > 0 && range.offset <= seen[i].offset < range.End()
    ensures CeilingStarts(existing, range.offset, range.End())
  {
    var key := seen[i].offset;
    assert key in existing;
    hide Holds;
    LeastAbove(existing, range.offset, key);
  }

  /** Looking at the two nearest ranges finds an overlap whenever there is one. */
  lemma NeighboursDecide(existing: RangeMap, seen: seq<Range>, range: Range)
    requires Holds(existing, seen) && Disjoint(seen) && range.length > 0
    ensures FloorReaches(existing, range.offset) || CeilingStarts(existing, range.offset, range.End())
       <==> exists i :: 0 <= i < |seen| && Overlap(seen[i], range)
  {
    hide Holds, Disjoint, Overlap, FloorReaches, CeilingStarts;
    if exists i :: 0 <= i < |seen| && Overlap(seen[i], range) {
      var i :| 0 <= i < |seen| && Overlap(seen[i], range);
      OverlapIsNear(existing, seen, range, i);
    }
    if FloorReaches(existing, range.offset) {
      FloorMeans(existing, seen, range);
    }
    if CeilingStarts(existing, range.offset, range.End()) {
      CeilingMeans(existing, seen, range);
    }
  }

  /** Some key is the least at or above a bound when any key is. */
  lemma LeastAbove(existing: RangeMap, bound: nat, key: nat)
    requires key in existing && bound <= key
    ensures exists k :: k in existing && bound <= k <= key && forall j :: j in existing && bound <= j ==> k <= j
    decreases key
  {
    if exists j :: j in existing && bound <= j < key {
      var j :| j in existing && bound <= j < key;
      LeastAbove(existing, bound, j);
    }
  }

  // ---------- Registering ----------

  /** Adds new ranges to those already seen, or rejects them all. */
  method RegisterRanges(existing: RangeMap, ranges: seq<Range>, size: nat, ghost seen: seq<Range>)
    returns (r: Option<RangeMap>)
    requires Holds(existing, seen) && Sound(seen, size)
    ensures r.Some? <==> Sound(seen + ranges, size)
    ensures r.Some? ==> Holds(r.value, seen + ranges)
  {
    hide Sound, Holds, Overlap, Sorted, Accepted;
    var sorted := SortRanges(ranges);
    SortIsSorted(ranges);
    SoundIsUnordered(seen + sorted, seen + ranges, size);
    var previousEnd := 0;
    var nonempty: RangeMap := map[];
    AcceptedStart(seen, sorted, size);
    for i := 0 to |sorted|
      invariant Accepted(seen, sorted, i, previousEnd, nonempty, size)
    {
      var range := sorted[i];
      AcceptedStep(existing, seen, sorted, i, previousEnd, nonempty, size);
      if range.End() > size {
        return None;
      }
      if range.length > 0 {
        if range.offset < previousEnd || FloorReaches(existing, range.offset)
           || CeilingStarts(existing, range.offset, range.End()) {
          return None;
        }
        previousEnd := range.End();
        nonempty := nonempty[range.offset := range.End()];
      }
    }
    AcceptedEnd(existing, seen, sorted, previousEnd, nonempty, size);
    HoldsIsUnordered(existing + nonempty, seen + sorted, seen + ranges);
    r := Some(existing + nonempty);
  }

  /** The first `i` sorted ranges have been checked and collected. */
  ghost predicate Accepted(seen: seq<Range>, sorted: seq<Range>, i: nat, previousEnd: nat, nonempty: RangeMap, size: nat) {
    && i <= |sorted|
    && Sound(seen + sorted[..i], size)
    && Holds(nonempty, sorted[..i])
    && (forall j :: 0 <= j < i && sorted[j].length > 0 ==> sorted[j].End() <= previousEnd)
    && (previousEnd > 0 ==> exists j :: 0 <= j < i && sorted[j].length > 0 && sorted[j].End() == previousEnd)
  }

  lemma AcceptedStart(seen: seq<Range>, sorted: seq<Range>, size: nat)
    requires Sound(seen, size)
    ensures Accepted(seen, sorted, 0, 0, map[], size)
  {
    assert seen + sorted[..0] == seen;
  }

  lemma AcceptedEnd(existing: RangeMap, seen: seq<Range>, sorted: seq<Range>, previousEnd: nat, nonempty: RangeMap, size: nat)
    requires Holds(existing, seen) && Accepted(seen, sorted, |sorted|, previousEnd, nonempty, size)
    ensures Sound(seen + sorted, size) && Holds(existing + nonempty, seen + sorted)
  {
    assert sorted[..|sorted|] == sorted;
    HoldsBoth(existing, seen, nonempty, sorted);
  }

  lemma AcceptedStep(existing: RangeMap, seen: seq<Range>, sorted: seq<Range>, i: nat, previousEnd: nat, nonempty: RangeMap, size: nat)
    requires Holds(existing, seen) && Sound(seen, size) && Sorted(sorted) && i < |sorted|
    requires Accepted(seen, sorted, i, previousEnd, nonempty, size)
    ensures
      var range := sorted[i];
      if range.End() > size then !Sound(seen + sorted, size)
      else if range.length == 0 then Accepted(seen, sorted, i + 1, previousEnd, nonempty, size)
      else if range.offset < previousEnd || FloorReaches(existing, range.offset)
              || CeilingStarts(existing, range.offset, range.End()) then !Sound(seen + sorted, size)
      else Accepted(seen, sorted, i + 1, range.End(), nonempty[range.offset := range.End()], size)
  {
    hide Overlap, FloorReaches, CeilingStarts, Sorted, Holds;
    var range := sorted[i];
    assert seen + sorted[..i + 1] == seen + sorted[..i] + [range];
    assert sorted[..i + 1] == sorted[..i] + [range];
    assert (seen + sorted)[|seen| + i] == range;
    if range.length == 0 {
      EmptyRange(seen + sorted[..i], range);
      HoldsEmpty(nonempty, sorted[..i], range);
    } else if range.End() <= size {
      NeighboursDecide(existing, seen, range);
      NextRange(seen, sorted, i, previousEnd);
      if range.offset >= previousEnd {
        HoldsOneMore(nonempty, sorted[..i], range);
      }
    }
  }

  lemma HoldsEmpty(existing: RangeMap, ranges: seq<Range>, range: Range)
    requires Holds(existing, ranges) && range.length == 0
    ensures Holds(existing, ranges + [range])
  {
  }

  lemma EmptyRange(ranges: seq<Range>, range: Range)
    requires Disjoint(ranges) && range.length == 0
    ensures Disjoint(ranges + [range])
  {
  }

  lemma OneMoreIsDisjoint(ranges: seq<Range>, range: Range)
    ensures Disjoint(ranges + [range]) <==> Disjoint(ranges) && forall k :: 0 <= k < |ranges| ==> !Overlap(ranges[k], range)
  {
    hide Overlap;
    var more := ranges + [range];
    assert forall k :: 0 <= k < |ranges| ==> more[k] == ranges[k];
    assert more[|ranges|] == range;
    if Disjoint(more) {
      forall k | 0 <= k < |ranges| ensures !Overlap(ranges[k], range) {
        assert !Overlap(more[k], more[|ranges|]);
      }
      forall i, j | 0 <= i < j < |ranges| ensures !Overlap(ranges[i], ranges[j]) {
        assert !Overlap(more[i], more[j]);
      }
    }
  }

  lemma FrontIsDisjoint(ranges: seq<Range>, more: seq<Range>)
    requires Disjoint(ranges + more)
    ensures Disjoint(ranges)
  {
    hide Overlap;
    forall i, j | 0 <= i < j < |ranges| ensures !Overlap(ranges[i], ranges[j]) {
      assert !Overlap((ranges + more)[i], (ranges + more)[j]);
    }
  }

  /** In sorted order, the end of the last nonempty range tells whether any earlier one is met. */
  lemma PreviousEndDecides(sorted: seq<Range>, i: nat, previousEnd: nat)
    requires i < |sorted| && Sorted(sorted) && sorted[i].length > 0
    requires forall j :: 0 <= j < i && sorted[j].length > 0 ==> sorted[j].End() <= previousEnd
    requires previousEnd > 0 ==> exists j :: 0 <= j < i && sorted[j].length > 0 && sorted[j].End() == previousEnd
    ensures sorted[i].offset < previousEnd <==> exists j :: 0 <= j < i && Overlap(sorted[j], sorted[i])
  {
    if sorted[i].offset < previousEnd {
      var j :| 0 <= j < i && sorted[j].length > 0 && sorted[j].End() == previousEnd;
      assert Overlap(sorted[j], sorted[i]);
    }
  }

  /** The checks made for one nonempty range decide whether it may join the earlier ones. */
  lemma NextRange(seen: seq<Range>, sorted: seq<Range>, i: nat, previousEnd: nat)
    requires i < |sorted| && Sorted(sorted) && sorted[i].length > 0
    requires Disjoint(seen + sorted[..i])
    requires forall j :: 0 <= j < i && sorted[j].length > 0 ==> sorted[j].End() <= previousEnd
    requires previousEnd > 0 ==> exists j :: 0 <= j < i && sorted[j].length > 0 && sorted[j].End() == previousEnd
    ensures (exists k :: 0 <= k < |seen| && Overlap(seen[k], sorted[i])) || sorted[i].offset < previousEnd
       <==> !Disjoint(seen + sorted[..i + 1])
    ensures !Disjoint(seen + sorted[..i + 1]) ==> !Disjoint(seen + sorted)
  {
    PreviousEndDecides(sorted, i, previousEnd);
    hide Overlap, Disjoint, Sorted;
    var before := seen + sorted[..i];
    OneMoreIsDisjoint(before, sorted[i]);
    assert before + [sorted[i]] == seen + sorted[..i + 1];
    assert forall k :: 0 <= k < |seen| ==> before[k] == seen[k];
    assert forall j :: 0 <= j < i ==> before[|seen| + j] == sorted[j];
    assert forall k :: |seen| <= k < |before| ==> before[k] == sorted[k - |seen|];
    if Disjoint(seen + sorted) {
      assert seen + sorted == (seen + sorted[..i + 1]) + sorted[i + 1..];
      FrontIsDisjoint(seen + sorted[..i + 1], sorted[i + 1..]);
    }
  }

  lemma HoldsOneMore(existing: RangeMap, ranges: seq<Range>, range: Range)
    requires Holds(existing, ranges) && range.length > 0
    requires forall j :: 0 <= j < |ranges| && ranges[j].length > 0 ==> ranges[j].offset != range.offset
    ensures Holds(existing[range.offset := range.End()], ranges + [range])
  {
    var more := existing[range.offset := range.End()];
    forall k | k in more ensures k < more[k] && Range(k, more[k] - k) in ranges + [range] {
      if k != range.offset {
        assert Range(k, existing[k] - k) in ranges;
      } else {
        assert (ranges + [range])[|ranges|] == Range(k, more[k] - k);
      }
    }
  }

  lemma HoldsBoth(a: RangeMap, seen: seq<Range>, b: RangeMap, added: seq<Range>)
    requires Holds(a, seen) && Holds(b, added) && Disjoint(seen + added)
    ensures Holds(a + b, seen + added)
  {
    var all := seen + added;
    forall i | 0 <= i < |all| && all[i].length > 0
      ensures all[i].offset in a + b && (a + b)[all[i].offset] == all[i].End()
    {
      if i < |seen| {
        if all[i].offset in b {
          var other := Range(all[i].offset, b[all[i].offset] - all[i].offset);
          var j :| 0 <= j < |added| && added[j] == other;
          assert Overlap(all[i], all[|seen| + j]);
        }
      } else {
        assert all[i] == added[i - |seen|];
      }
    }
  }

  lemma HoldsIsUnordered(existing: RangeMap, a: seq<Range>, b: seq<Range>)
    requires Holds(existing, a) && multiset(a) == multiset(b)
    ensures Holds(existing, b)
  {
    forall i | 0 <= i < |b| && b[i].length > 0
      ensures b[i].offset in existing && existing[b[i].offset] == b[i].End()
    {
      assert b[i] in multiset(a);
    }
    forall k | k in existing ensures Range(k, existing[k] - k) in b {
      assert Range(k, existing[k] - k) in multiset(b);
    }
  }
}
