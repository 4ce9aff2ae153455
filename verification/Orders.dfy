/** Sorted listings of sets, as ordered collections iterate them. */
module Orders {
  import opened Binary
  import opened Cbor

  predicate Least(keys: set<nat>, least: nat) {
    least in keys && forall key :: key in keys ==> least <= key
  }

  lemma {:induction false} LeastExists(keys: set<nat>)
    requires keys != {}
    ensures exists least :: Least(keys, least)
    decreases |keys|
  {
    var key :| key in keys;
    if keys == {key} {
      assert Least(keys, key);
    } else {
      LeastExists(keys - {key});
      var rest :| Least(keys - {key}, rest);
      assert Least(keys, if key < rest then key else rest) by {
        assert forall other :: other in keys ==> other == key || other in keys - {key};
      }
    }
  }

  /** The keys in increasing order. */
  function Ascending(keys: set<nat>): (r: seq<nat>)
    ensures forall key :: key in r <==> key in keys
    decreases |keys|
  {
    if keys == {} then []
    else
      LeastExists(keys);
      var least :| Least(keys, least);
      [least] + Ascending(keys - {least})
  }

  ghost predicate Increasing(versions: seq<nat>) {
    forall i, j :: 0 <= i < j < |versions| ==> versions[i] < versions[j]
  }

  lemma IncreasingPrepend(first: nat, rest: seq<nat>)
    requires Increasing(rest) && forall version :: version in rest ==> first < version
    ensures Increasing([first] + rest)
  {
    forall j | 0 <= j < |rest| ensures first < rest[j] {
      assert rest[j] in rest;
    }
  }

  lemma {:induction false} AscendingIncreases(keys: set<nat>)
    ensures Increasing(Ascending(keys))
    decreases |keys|
  {
    hide Increasing;
    if keys == {} {
      NothingIncreases();
    } else {
      LeastExists(keys);
      var least :| Least(keys, least) && Ascending(keys) == [least] + Ascending(keys - {least});
      AscendingIncreases(keys - {least});
      IncreasingPrepend(least, Ascending(keys - {least}));
    }
  }

  lemma NothingIncreases()
    ensures Increasing([])
  {
  }

  lemma {:induction false} FirstExists(keys: set<bytes>)
    requires keys != {}
    ensures exists first :: First(keys, first)
    decreases |keys|
  {
    var key :| key in keys;
    if keys == {key} {
      assert First(keys, key);
    } else {
      FirstExists(keys - {key});
      var rest :| First(keys - {key}, rest);
      LessIsStrictTotal(key, rest);
      if Less(key, rest) {
        forall other | other in keys && other != key ensures Less(key, other) {
          if other != rest {
            LessIsTransitive(key, rest, other);
          }
        }
        assert First(keys, key);
      } else {
        assert First(keys, rest);
      }
    }
  }

  predicate First(keys: set<bytes>, first: bytes) {
    first in keys && forall other :: other in keys && other != first ==> Less(first, other)
  }

  lemma FirstIsUnique(keys: set<bytes>)
    ensures forall a, b :: First(keys, a) && First(keys, b) ==> a == b
  {
    forall a, b | First(keys, a) && First(keys, b) ensures a == b {
      LessIsStrictTotal(a, b);
    }
  }

  /** The keys in byte order. */
  function Sorted(keys: set<bytes>): (r: seq<bytes>)
    ensures forall key :: key in r <==> key in keys
    decreases |keys|
  {
    if keys == {} then []
    else
      FirstExists(keys);
      FirstIsUnique(keys);
      var first :| First(keys, first);
      [first] + Sorted(keys - {first})
  }

  lemma {:induction false} SortedSize(keys: set<bytes>)
    ensures |Sorted(keys)| == |keys|
    decreases |keys|
  {
    hide First;
    if keys != {} {
      FirstExists(keys);
      var first :| First(keys, first) && Sorted(keys) == [first] + Sorted(keys - {first});
      FirstIsMember(keys, first);
      SortedSize(keys - {first});
    }
  }

  lemma FirstIsMember(keys: set<bytes>, first: bytes)
    requires First(keys, first)
    ensures first in keys
  {
  }

  /** Each key is listed once. */
  lemma {:induction false} SortedIsDistinct(keys: set<bytes>)
    ensures forall i, j :: 0 <= i < j < |Sorted(keys)| ==> Sorted(keys)[i] != Sorted(keys)[j]
    decreases |keys|
  {
    hide First;
    if keys != {} {
      FirstExists(keys);
      var first :| First(keys, first) && Sorted(keys) == [first] + Sorted(keys - {first});
      FirstIsMember(keys, first);
      var rest := Sorted(keys - {first});
      SortedIsDistinct(keys - {first});
      forall j | 0 <= j < |rest| ensures rest[j] != first {
        assert rest[j] in rest;
      }
    }
  }
}
