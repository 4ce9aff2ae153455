/** In-tree symbolic links: resolving a path component by component. */
module Resolution {
  import opened Binary
  import opened Paths
  import opened Trees
  import opened TreeProofs

  /**
   * Follows pending components from a canonical position. At most `budget` links are followed, and a link is
   * refused when it would leave more than `room` components pending. The result is the canonical position
   * and how many links were followed.
   */
  function Walk(nodes: Tree, limits: Limits, pending: seq<bytes>, current: seq<bytes>, budget: nat, room: int): Option<(seq<bytes>, nat)>
    decreases budget, |pending|
  {
    if pending == [] then Some((current, 0))
    else
      var component, rest := pending[0], pending[1..];
      if !IsDir(nodes, Join(current)) then None
      else if component == DOT then Walk(nodes, limits, rest, current, budget, room)
      else if component == DOT_DOT then
        if current == [] then None else Walk(nodes, limits, rest, current[..|current| - 1], budget, room)
      else
        var candidate := Joined(Join(current), component);
        if !limits.Bytes(|candidate|) || candidate !in nodes then None
        else if nodes[candidate].LinkNode? then
          var target := Split(nodes[candidate].target);
          if budget == 0 || |rest| + |target| > room then None
          else Linked(Walk(nodes, limits, target + rest, current, budget - 1, room))
        else Walk(nodes, limits, rest, current + [component], budget, room)
  }

  /** One more link was followed. */
  function Linked(outcome: Option<(seq<bytes>, nat)>): Option<(seq<bytes>, nat)> {
    match outcome
    case None => None
    case Some((position, links)) => Some((position, links + 1))
  }

  /** The canonical path of a relative path. */
  function Resolved(nodes: Tree, limits: Limits, path: bytes): Option<bytes> {
    if !ValidPath(path, true, true, limits) then None
    else
      match Walk(nodes, limits, PartsOf(path), [], limits.maxDepth, limits.maxElements)
      case None => None
      case Some((position, _)) => if Join(position) in nodes then Some(Join(position)) else None
  }

  // ---------- Where a walk can stand ----------

  /** Link targets have nonempty components. */
  ghost predicate GoodLinks(nodes: Tree) {
    forall path :: path in nodes && nodes[path].LinkNode? ==> Components(Split(nodes[path].target))
  }

  /** A canonical position: plain components that lead to a node which is not a link. */
  ghost predicate Stands(nodes: Tree, limits: Limits, position: seq<bytes>) {
    && AllPlain(position)
    && Join(position) in nodes && !nodes[Join(position)].LinkNode?
    && (position == [] || limits.Bytes(|Join(position)|))
  }

  lemma PlainAreComponents(parts: seq<bytes>)
    requires AllPlain(parts)
    ensures Components(parts)
  {
  }

  lemma ParentIsDir(nodes: Tree, path: bytes)
    requires TreeShape(nodes) && path in nodes && path != []
    ensures IsDir(nodes, Parent(path))
  {
  }

  lemma PlainParts(parts: seq<bytes>)
    requires AllPlain(parts) && parts != []
    ensures AllPlain(parts[..|parts| - 1]) && Component(parts[|parts| - 1])
  {
    hide Component;
    assert Plain(parts[|parts| - 1]);
  }

  /** Leaving a component lands on the parent directory. */
  lemma StandsAbove(nodes: Tree, limits: Limits, position: seq<bytes>)
    requires TreeShape(nodes) && Stands(nodes, limits, position) && position != []
    ensures Stands(nodes, limits, position[..|position| - 1]) && IsDir(nodes, Join(position[..|position| - 1]))
    ensures |Join(position[..|position| - 1])| < |Join(position)|
  {
    hide Join, Joined, Parent, TreeShape, AllPlain, Component;
    PlainParts(position);
    var front, last := position[..|position| - 1], position[|position| - 1];
    assert position == front + [last];
    JoinStep(front, last);
    JoinedSplits(Join(front), last);
    ParentIsDir(nodes, Join(position));
  }

  lemma StandsBelow(nodes: Tree, limits: Limits, position: seq<bytes>, component: bytes)
    requires Stands(nodes, limits, position) && Plain(component)
    requires Joined(Join(position), component) in nodes && !nodes[Joined(Join(position), component)].LinkNode?
    requires limits.Bytes(|Joined(Join(position), component)|)
    ensures Stands(nodes, limits, position + [component])
  {
    hide Join, Joined;
    JoinStep(position, component);
  }

  lemma RootStands(nodes: Tree, limits: Limits)
    requires TreeShape(nodes)
    ensures Stands(nodes, limits, [])
  {
  }

  lemma ComponentsConcat(a: seq<bytes>, b: seq<bytes>)
    requires Components(a) && Components(b)
    ensures Components(a + b)
  {
  }

  /** A walk from a canonical position ends at one; the number of links is within the budget. */
  lemma {:induction false} WalkStands(nodes: Tree, limits: Limits, pending: seq<bytes>, current: seq<bytes>, budget: nat, room: int)
    requires TreeShape(nodes) && GoodLinks(nodes) && Components(pending) && Stands(nodes, limits, current)
    requires Walk(nodes, limits, pending, current, budget, room).Some?
    ensures var (position, links) := Walk(nodes, limits, pending, current, budget, room).value;
            Stands(nodes, limits, position) && links <= budget
    decreases budget, |pending|
  {
    hide TreeShape, Stands, Join, Joined, Split;
    if pending != [] {
      var component, rest := pending[0], pending[1..];
      var candidate := Joined(Join(current), component);
      if component == DOT {
        WalkStands(nodes, limits, rest, current, budget, room);
      } else if component == DOT_DOT {
        StandsAbove(nodes, limits, current);
        WalkStands(nodes, limits, rest, current[..|current| - 1], budget, room);
      } else if nodes[candidate].LinkNode? {
        ComponentsConcat(Split(nodes[candidate].target), rest);
        WalkStands(nodes, limits, Split(nodes[candidate].target) + rest, current, budget - 1, room);
      } else {
        StandsBelow(nodes, limits, current, component);
        WalkStands(nodes, limits, rest, current + [component], budget, room);
      }
    }
  }

  // ---------- Composition ----------

  /** The second walk continues where the first one ended, with the links that are left. */
  function Continued(first: Option<(seq<bytes>, nat)>, nodes: Tree, limits: Limits, pending: seq<bytes>, budget: nat, room: int)
    : Option<(seq<bytes>, nat)>
  {
    match first
    case None => None
    case Some((middle, links)) =>
      if links > budget then None
      else
        match Walk(nodes, limits, pending, middle, budget - links, room)
        case None => None
        case Some((position, more)) => Some((position, links + more))
  }

  /** Resolving `first` and then `second` is resolving `second` from the result of `first`; link counts add. */
  lemma {:induction false} WalkComposes(nodes: Tree, limits: Limits, first: seq<bytes>, second: seq<bytes>, current: seq<bytes>, budget: nat, room: int)
    ensures Walk(nodes, limits, first + second, current, budget, room)
            == Continued(Walk(nodes, limits, first, current, budget, room - |second|), nodes, limits, second, budget, room)
    decreases budget, |first|
  {
    hide Join, Joined, Split, IsDir;
    if first == [] {
      assert first + second == second;
    } else {
      var component, rest := first[0], first[1..];
      assert (first + second)[0] == component && (first + second)[1..] == rest + second;
      var candidate := Joined(Join(current), component);
      if component == DOT {
        WalkComposes(nodes, limits, rest, second, current, budget, room);
      } else if component == DOT_DOT {
        if current != [] {
          WalkComposes(nodes, limits, rest, second, current[..|current| - 1], budget, room);
        }
      } else if candidate in nodes && nodes[candidate].LinkNode? {
        if budget > 0 {
          var target := Split(nodes[candidate].target);
          assert target + (rest + second) == (target + rest) + second;
          WalkComposes(nodes, limits, target + rest, second, current, budget - 1, room);
        }
      } else {
        WalkComposes(nodes, limits, rest, second, current + [component], budget, room);
      }
    }
  }

  // ---------- More budget changes nothing ----------

  /** A successful walk is the same walk under any larger budget and room. */
  lemma {:induction false} WalkIsMonotone(nodes: Tree, limits: Limits, pending: seq<bytes>, current: seq<bytes>,
                                          budget: nat, room: int, more: nat, wider: int)
    requires Walk(nodes, limits, pending, current, budget, room).Some? && budget <= more && room <= wider
    ensures Walk(nodes, limits, pending, current, more, wider) == Walk(nodes, limits, pending, current, budget, room)
    decreases budget, |pending|
  {
    hide Join, Joined, Split, IsDir;
    if pending != [] {
      var component, rest := pending[0], pending[1..];
      var candidate := Joined(Join(current), component);
      if component == DOT {
        WalkIsMonotone(nodes, limits, rest, current, budget, room, more, wider);
      } else if component == DOT_DOT {
        WalkIsMonotone(nodes, limits, rest, current[..|current| - 1], budget, room, more, wider);
      } else if nodes[candidate].LinkNode? {
        WalkIsMonotone(nodes, limits, Split(nodes[candidate].target) + rest, current, budget - 1, room, more - 1, wider);
      } else {
        WalkIsMonotone(nodes, limits, rest, current + [component], budget, room, more, wider);
      }
    }
  }

  /** The path denotes the canonical position, with no limit on links or pending components. */
  ghost predicate Denotes(nodes: Tree, limits: Limits, pending: seq<bytes>, position: seq<bytes>) {
    exists budget: nat, room: int, links: nat :: Walk(nodes, limits, pending, [], budget, room) == Some((position, links))
  }

  /** A path denotes at most one position. */
  lemma DenotesIsFunctional(nodes: Tree, limits: Limits, pending: seq<bytes>, a: seq<bytes>, b: seq<bytes>)
    requires Denotes(nodes, limits, pending, a) && Denotes(nodes, limits, pending, b)
    ensures a == b
  {
    hide Walk;
    var p: nat, q: int, j: nat :| Walk(nodes, limits, pending, [], p, q) == Some((a, j));
    var r: nat, s: int, k: nat :| Walk(nodes, limits, pending, [], r, s) == Some((b, k));
    var budget, room := if p < r then r else p, if q < s then s else q;
    WalkIsMonotone(nodes, limits, pending, [], p, q, budget, room);
    WalkIsMonotone(nodes, limits, pending, [], r, s, budget, room);
  }

  // ---------- Canonical paths ----------

  lemma {:induction false} StandsOnDirs(nodes: Tree, limits: Limits, position: seq<bytes>, k: nat)
    requires TreeShape(nodes) && Stands(nodes, limits, position) && k <= |position|
    ensures Stands(nodes, limits, position[..k]) && (k < |position| ==> IsDir(nodes, Join(position[..k])))
    decreases |position|
  {
    hide TreeShape, Join;
    if k < |position| {
      StandsAbove(nodes, limits, position);
      var front := position[..|position| - 1];
      assert front[..k] == position[..k];
      StandsOnDirs(nodes, limits, front, k);
      assert k == |front| ==> front[..k] == front;
    } else {
      assert position[..k] == position;
    }
  }

  /** A canonical position walks to itself without following a link. */
  lemma {:induction false} CanonicalWalks(nodes: Tree, limits: Limits, position: seq<bytes>, k: nat, budget: nat, room: int)
    requires TreeShape(nodes) && Stands(nodes, limits, position) && k <= |position|
    ensures Walk(nodes, limits, position[k..], position[..k], budget, room) == Some((position, 0))
    decreases |position| - k
  {
    hide TreeShape, Join, Joined, Split;
    if k == |position| {
      assert position[..k] == position;
    } else {
      StandsOnDirs(nodes, limits, position, k);
      StandsOnDirs(nodes, limits, position, k + 1);
      assert position[..k + 1] == position[..k] + [position[k]];
      JoinStep(position[..k], position[k]);
      assert position[k..][1..] == position[k + 1..];
      CanonicalWalks(nodes, limits, position, k + 1, budget, room);
    }
  }
}
