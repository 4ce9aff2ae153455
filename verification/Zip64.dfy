/** Finding ZIP64 end records by scanning bounded, overlapping chunks. */
module Zip64 {
  import opened Binary

  /** The bytes of the ZIP64 end-record signature. */
  const SIGNATURE: bytes := [0x50, 0x4b, 0x06, 0x06]

  const CHUNK: nat := 65536

  /** The fixed part of a record, and the least size it can declare after its first twelve bytes. */
  const FIXED: nat := 56
  const LEAST: nat := 44

  /** A record at `position` whose declared length ends exactly at the locator. */
  predicate Record(s: bytes, position: nat, locator: nat) {
    && position + FIXED <= locator <= |s|
    && s[position..position + 4] == SIGNATURE
    && var size := FromLe(s[position + 4..position + 12]);
       size >= LEAST && position + 12 + size == locator
  }

  /** Every record from one position up to another, in order. */
  function Records(s: bytes, lower: nat, upper: nat, locator: nat): seq<nat>
    decreases upper - lower
  {
    if lower >= upper then []
    else (if Record(s, lower, locator) then [lower] else []) + Records(s, lower + 1, upper, locator)
  }

  /** The listing is increasing and holds exactly the records of the range. */
  lemma {:induction false} RecordsMeaning(s: bytes, lower: nat, upper: nat, locator: nat)
    ensures var r := Records(s, lower, upper, locator);
            && (forall position :: position in r <==> lower <= position < upper && Record(s, position, locator))
            && (forall i, j :: 0 <= i < j < |r| ==> r[i] < r[j])
    decreases upper - lower
  {
    hide Record;
    if lower < upper {
      RecordsMeaning(s, lower + 1, upper, locator);
      var rest := Records(s, lower + 1, upper, locator);
      forall j | 0 <= j < |rest| ensures lower < rest[j] {
        assert rest[j] in rest;
      }
    }
  }

  lemma {:induction false} RecordsSplit(s: bytes, lower: nat, middle: nat, upper: nat, locator: nat)
    requires lower <= middle <= upper
    ensures Records(s, lower, upper, locator) == Records(s, lower, middle, locator) + Records(s, middle, upper, locator)
    decreases middle - lower
  {
    hide Record;
    if lower < middle {
      RecordsSplit(s, lower + 1, middle, upper, locator);
    } else {
      assert [] + Records(s, middle, upper, locator) == Records(s, middle, upper, locator);
    }
  }

  /** Too close to the locator for a whole record. */
  lemma {:induction false} NoRecordsAtEnd(s: bytes, lower: nat, upper: nat, locator: nat)
    requires lower + FIXED > locator
    ensures Records(s, lower, upper, locator) == []
    decreases upper - lower
  {
    if lower < upper {
      NoRecordsAtEnd(s, lower + 1, upper, locator);
    }
  }

  function Min(a: nat, b: nat): nat {
    if a < b then a else b
  }

  /** What the limits must allow: the largest chunk, and the number of records found. */
  predicate Admitted(s: bytes, lower: nat, locator: nat, limits: Limits) {
    lower + FIXED <= locator ==> limits.Bytes(Min(locator - lower, CHUNK)) && limits.Elements(|Records(s, lower, locator, locator)|)
  }

  lemma SignatureInChunk(s: bytes, start: nat, length: nat, index: nat)
    requires start + length <= |s| && index + 4 <= length
    ensures s[start..start + length][index..index + 4] == s[start + index..start + index + 4]
  {
    var inside, direct := s[start..start + length][index..index + 4], s[start + index..start + index + 4];
    forall k | 0 <= k < 4 ensures inside[k] == direct[k] {
    }
  }

  lemma NextPosition(found: seq<nat>, s: bytes, position: nat, upper: nat, locator: nat)
    requires position < upper
    ensures found + Records(s, position, upper, locator)
            == (if Record(s, position, locator) then found + [position] else found) + Records(s, position + 1, upper, locator)
  {
    hide Record;
    var rest := Records(s, position + 1, upper, locator);
    assert [] + rest == rest;
    assert found + ([position] + rest) == (found + [position]) + rest;
  }

  /** One chunk: appends the records whose signatures start in it. */
  method ScanChunk(s: bytes, start: nat, length: nat, locator: nat, positions: seq<nat>, limits: Limits) returns (ok: bool, found: seq<nat>)
    requires start + length <= locator <= |s| && FIXED <= length && limits.Bytes(length)
    requires limits.Elements(|positions|)
    ensures ok <==> limits.Elements(|positions| + |Records(s, start, start + length - 3, locator)|)
    ensures ok ==> found == positions + Records(s, start, start + length - 3, locator)
  {
    hide FromLe, Records;
    var chunk := s[start..start + length];
    found := positions;
    ghost var upper := start + length - 3;
    ghost var whole := positions + Records(s, start, upper, locator);
    for index := 0 to |chunk| - 3
      invariant limits.Elements(|found|)
      invariant found + Records(s, start + index, upper, locator) == whole
    {
      var position := start + index;
      SignatureInChunk(s, start, length, index);
      NextPosition(found, s, position, upper, locator);
      if chunk[index..index + 4] != SIGNATURE || position + FIXED > locator {
        continue;
      }
      var size := FromLe(s[position + 4..position + 12]);
      if size >= LEAST && position + 12 + size == locator {
        if !limits.Elements(|found| + 1) {
          assert |whole| >= |found| + 1;
          return false, found;
        }
        found := found + [position];
      }
    }
    NoPositions(found, s, upper, locator);
    ok := true;
  }

  lemma NoPositions(found: seq<nat>, s: bytes, upper: nat, locator: nat)
    ensures found + Records(s, upper, upper, locator) == found
  {
  }

  lemma ChunkStep(positions: seq<nat>, s: bytes, start: nat, next: nat, locator: nat)
    requires start <= next <= locator
    ensures positions + Records(s, start, locator, locator)
            == (positions + Records(s, start, next, locator)) + Records(s, next, locator, locator)
    ensures |positions + Records(s, start, locator, locator)| >= |positions| + |Records(s, start, next, locator)|
  {
    hide Records;
    RecordsSplit(s, start, next, locator, locator);
  }

  /** Steps back three bytes between chunks, so that no signature is missed and none is seen twice. */
  method Zip64Records(s: bytes, lower: nat, locator: nat, limits: Limits) returns (r: Option<seq<nat>>)
    requires locator <= |s|
    ensures r == if Admitted(s, lower, locator, limits) then Some(Records(s, lower, locator, locator)) else None
  {
    hide Records;
    var positions: seq<nat> := [];
    var start := lower;
    ghost var whole := Records(s, lower, locator, locator);
    assert [] + whole == whole;
    while start + FIXED <= locator
      invariant lower <= start && (start > lower ==> lower + FIXED <= locator && limits.Bytes(Min(locator - lower, CHUNK)))
      invariant limits.Elements(|positions|)
      invariant positions + Records(s, start, locator, locator) == whole
      decreases locator - start
    {
      var length := Min(locator - start, CHUNK);
      if !limits.Bytes(length) {
        return None;
      }
      ChunkStep(positions, s, start, start + length - 3, locator);
      var ok, found := ScanChunk(s, start, length, locator, positions, limits);
      if !ok {
        return None;
      }
      positions := found;
      start := start + (length - 3);
    }
    NoRecordsAtEnd(s, start, locator, locator);
    assert positions + [] == positions;
    r := Some(positions);
  }
}
