/** The expansion is a faithful, finite unfolding of the tree. */
module MaterializationProofs {
  import opened Binary
  import opened Text
  import opened Paths
  import opened ResourceChecks
  import opened Trees
  import opened TreeProofs
  import opened Resolution
  import opened ResolutionTheorems
  import opened Materialization

  /** The paths of the tree, each once, and a tree that links can be resolved in. */
  ghost predicate Ready(job: Job) {
    && Resolvable(job.nodes, job.treeLimits)
    && (forall path :: path in job.paths <==> path in job.nodes)
    && Distinct(job.paths)
  }

  /** Some of the canonical children of a directory, each once. */
  ghost predicate Siblings(job: Job, children: seq<bytes>, source: bytes) {
    && (forall i :: 0 <= i < |children| ==>
          children[i] in job.nodes && children[i] != [] && Parent(children[i]) == source && CanonicalPath(children[i]))
    && Distinct(children)
  }

  ghost predicate Distinct<T>(items: seq<T>) {
    forall i, j :: 0 <= i < j < |items| ==> items[i] != items[j]
  }

  lemma DistinctAppend<T>(items: seq<T>, last: T)
    requires Distinct(items) && last !in items
    ensures Distinct(items + [last])
  {
  }

  lemma DistinctLast<T>(items: seq<T>)
    requires Distinct(items) && items != []
    ensures Distinct(items[..|items| - 1]) && items[|items| - 1] !in items[..|items| - 1]
  {
  }

  lemma {:induction false} ChildrenAreDistinct(paths: seq<bytes>, source: bytes)
    requires Distinct(paths)
    ensures Distinct(ChildrenOf(paths, source))
    decreases |paths|
  {
    hide Distinct;
    if paths == [] {
      assert Distinct<bytes>([]) by { NothingIsDistinct(); }
    } else {
      var front, last := paths[..|paths| - 1], paths[|paths| - 1];
      DistinctLast(paths);
      ChildrenAreDistinct(front, source);
      assert ChildrenOf(front, source) + [] == ChildrenOf(front, source);
      DistinctAppend(ChildrenOf(front, source), last);
    }
  }

  lemma NothingIsDistinct()
    ensures Distinct<bytes>([])
  {
  }

  lemma ChildrenAreSiblings(job: Job, source: bytes)
    requires Ready(job)
    ensures Siblings(job, ChildrenOf(job.paths, source), source)
  {
    hide CanonicalPath, TreeShape, GoodLinks, TreeFits;
    ChildrenAreDistinct(job.paths, source);
    var children := ChildrenOf(job.paths, source);
    forall i | 0 <= i < |children|
      ensures children[i] in job.nodes && children[i] != [] && Parent(children[i]) == source && CanonicalPath(children[i])
    {
      assert children[i] in children;
    }
  }

  lemma SiblingsRest(job: Job, children: seq<bytes>, source: bytes)
    requires Siblings(job, children, source) && children != []
    ensures Siblings(job, children[1..], source)
    ensures forall child :: child in children[1..] ==> child != children[0]
    ensures children[0] in job.nodes && children[0] != [] && Parent(children[0]) == source && CanonicalPath(children[0])
  {
    hide CanonicalPath;
  }

  // ---------- Counts and sizes ----------

  function Total(outs: seq<Output>): nat {
    if outs == [] then 0 else (if outs[0].FileOut? then |outs[0].data| else 0) + Total(outs[1..])
  }

  lemma {:induction false} TotalConcat(a: seq<Output>, b: seq<Output>)
    ensures Total(a + b) == Total(a) + Total(b)
    decreases |a|
  {
    if a == [] {
      assert a + b == b;
    } else {
      TotalConcat(a[1..], b);
      assert (a + b)[1..] == a[1..] + b;
    }
  }

  lemma TotalOne(output: Output)
    ensures Total([output]) == if output.FileOut? then |output.data| else 0
  {
    assert [output][1..] == [];
  }

  /** Counters advance by exactly what was written, and never past a limit. */
  ghost predicate Counted(job: Job, outs: seq<Output>, st: Progress, end: Progress) {
    && end.count == st.count + |outs| && end.bytes == st.bytes + Total(outs)
    && (outs != [] ==> job.limits.Elements(end.count))
    && (st.bytes <= job.maxBytes ==> end.bytes <= job.maxBytes)
  }

  lemma CountedConcat(job: Job, a: seq<Output>, b: seq<Output>, st: Progress, middle: Progress, end: Progress)
    requires Counted(job, a, st, middle) && Counted(job, b, middle, end)
    ensures Counted(job, a + b, st, end)
  {
    TotalConcat(a, b);
  }

  lemma {:induction false} AllCounted(job: Job, children: seq<bytes>, output: bytes, depth: nat, active: set<bytes>, st: Progress)
    requires depth <= job.limits.maxDepth && ExpandedAll(job, children, output, depth, active, st).Some?
    ensures var (outs, end) := ExpandedAll(job, children, output, depth, active, st).value;
            Counted(job, outs, st, end)
    decreases Levels(job, depth), 0, |children| + 1
  {
    if children != [] {
      hide ExpandedOne, Counted;
      var (first, middle) := ExpandedOne(job, children[0], output, depth, active, st).value;
      var (rest, end) := ExpandedAll(job, children[1..], output, depth, active, middle).value;
      OneCounted(job, children[0], output, depth, active, st);
      AllCounted(job, children[1..], output, depth, active, middle);
      CountedConcat(job, first, rest, st, middle, end);
    }
  }

  lemma {:induction false} OneCounted(job: Job, path: bytes, output: bytes, depth: nat, active: set<bytes>, st: Progress)
    requires depth <= job.limits.maxDepth && ExpandedOne(job, path, output, depth, active, st).Some?
    ensures var (outs, end) := ExpandedOne(job, path, output, depth, active, st).value;
            Counted(job, outs, st, end)
    decreases Levels(job, depth), 0, 0
  {
    hide Resolved, Rendered, JarSignature, Joined, NameOf, ChildrenOf, ExpandedAll;
    var destination, canonical := Joined(output, NameOf(path)), Resolved(job.nodes, job.treeLimits, path).value;
    if IsDir(job.nodes, canonical) {
      var children, next := ChildrenOf(job.paths, canonical), Progress(st.count + 1, st.bytes);
      AllCounted(job, children, destination, depth + 1, active + {canonical}, next);
      var (below, end) := ExpandedAll(job, children, destination, depth + 1, active + {canonical}, next).value;
      TotalConcat([DirectoryOut(destination, canonical)], below);
      TotalOne(DirectoryOut(destination, canonical));
    } else if Rendered(job, destination, canonical).Some? {
      TotalOne(FileOut(destination, canonical, Rendered(job, destination, canonical).value));
    }
  }

  // ---------- Names ----------

  /** Every name lies at or below `top`. */
  ghost predicate AllUnder(outs: seq<Output>, top: bytes) {
    forall i :: 0 <= i < |outs| ==> top in Ancestors(outs[i].path)
  }

  /** Every name lies at or below the destination of one of the children. */
  ghost predicate UnderSome(outs: seq<Output>, output: bytes, children: seq<bytes>) {
    forall i :: 0 <= i < |outs| ==> UnderChild(outs[i].path, output, children)
  }

  ghost predicate UnderChild(path: bytes, output: bytes, children: seq<bytes>) {
    exists k :: 0 <= k < |children| && Above(Joined(output, NameOf(children[k])), path)
  }

  predicate Above(above: bytes, path: bytes) {
    above in Ancestors(path)
  }

  lemma {:induction false} AboveDestination(output: bytes, name: bytes, path: bytes)
    requires Component(name) && Joined(output, name) in Ancestors(path)
    ensures output == [] || output in Ancestors(path)
    ensures |path| > |output|
  {
    hide Joined, Component, Parent;
    JoinedSplits(output, name);
    AncestorsAreClosed(path, Joined(output, name));
    AncestorsAreAbove(path, Joined(output, name));
  }

  lemma {:induction false} AllAreUnder(job: Job, children: seq<bytes>, source: bytes, output: bytes, depth: nat, active: set<bytes>, st: Progress)
    requires Ready(job) && Siblings(job, children, source)
    requires depth <= job.limits.maxDepth && ExpandedAll(job, children, output, depth, active, st).Some?
    ensures UnderSome(ExpandedAll(job, children, output, depth, active, st).value.0, output, children)
    decreases Levels(job, depth), 0, |children| + 1
  {
    if children != [] {
      hide ExpandedOne, Ready, Siblings, Joined, NameOf, Ancestors, CanonicalPath;
      var (first, middle) := ExpandedOne(job, children[0], output, depth, active, st).value;
      var (rest, end) := ExpandedAll(job, children[1..], output, depth, active, middle).value;
      SiblingsRest(job, children, source);
      OneIsUnder(job, children[0], output, depth, active, st);
      AllAreUnder(job, children[1..], source, output, depth, active, middle);
      UnderConcat(first, rest, output, children);
    }
  }

  lemma UnderConcat(first: seq<Output>, rest: seq<Output>, output: bytes, children: seq<bytes>)
    requires children != [] && AllUnder(first, Joined(output, NameOf(children[0]))) && UnderSome(rest, output, children[1..])
    ensures UnderSome(first + rest, output, children)
  {
    hide Joined, NameOf, Ancestors;
    forall i | 0 <= i < |first + rest| ensures UnderChild((first + rest)[i].path, output, children) {
      if i < |first| {
        assert Above(Joined(output, NameOf(children[0])), (first + rest)[i].path);
      } else {
        assert UnderChild(rest[i - |first|].path, output, children[1..]);
        var k :| 0 <= k < |children[1..]| && Above(Joined(output, NameOf(children[1..][k])), rest[i - |first|].path);
        assert children[1..][k] == children[k + 1];
      }
    }
  }

  lemma {:induction false} OneIsUnder(job: Job, path: bytes, output: bytes, depth: nat, active: set<bytes>, st: Progress)
    requires Ready(job) && path != [] && CanonicalPath(path)
    requires depth <= job.limits.maxDepth && ExpandedOne(job, path, output, depth, active, st).Some?
    ensures AllUnder(ExpandedOne(job, path, output, depth, active, st).value.0, Joined(output, NameOf(path)))
    decreases Levels(job, depth), 0, 0
  {
    hide Resolved, Rendered, JarSignature, Joined, NameOf, ChildrenOf, ExpandedAll, Ready, CanonicalPath, Parent;
    var destination, canonical := Joined(output, NameOf(path)), Resolved(job.nodes, job.treeLimits, path).value;
    CanonicalSplits(path);
    JoinedSplits(output, NameOf(path));
    assert destination in Ancestors(destination);
    if IsDir(job.nodes, canonical) && !(job.nodes[canonical].FileNode?) {
      var children, next := ChildrenOf(job.paths, canonical), Progress(st.count + 1, st.bytes);
      ChildrenAreSiblings(job, canonical);
      AllAreUnder(job, children, canonical, destination, depth + 1, active + {canonical}, next);
      var below := ExpandedAll(job, children, destination, depth + 1, active + {canonical}, next).value.0;
      BelowIsUnder(job, below, canonical, destination, children);
    }
  }

  lemma BelowIsUnder(job: Job, below: seq<Output>, source: bytes, destination: bytes, children: seq<bytes>)
    requires Siblings(job, children, source) && UnderSome(below, destination, children) && destination != []
    ensures AllUnder(below, destination)
    ensures forall i :: 0 <= i < |below| ==> |below[i].path| > |destination|
  {
    hide Joined, NameOf, Ancestors, CanonicalPath, Plain;
    forall i | 0 <= i < |below| ensures destination in Ancestors(below[i].path) && |below[i].path| > |destination| {
      assert UnderChild(below[i].path, destination, children);
      var k :| 0 <= k < |children| && Above(Joined(destination, NameOf(children[k])), below[i].path);
      CanonicalSplits(children[k]);
      PlainIsComponent(NameOf(children[k]));
      AboveDestination(destination, NameOf(children[k]), below[i].path);
    }
  }

  lemma PlainIsComponent(name: bytes)
    requires Plain(name)
    ensures Component(name)
  {
  }

  // ---------- Distinct names, parents first ----------

  ghost predicate DistinctNames(outs: seq<Output>) {
    forall i, j :: 0 <= i < j < |outs| ==> outs[i].path != outs[j].path
  }

  ghost predicate HasParent(outs: seq<Output>, i: nat, output: bytes)
    requires i < |outs|
  {
    Parent(outs[i].path) == output || exists j :: 0 <= j < i && outs[j].DirectoryOut? && outs[j].path == Parent(outs[i].path)
  }

  /** Names are distinct, and each comes after its parent directory unless that is `output`. */
  ghost predicate Ordered(outs: seq<Output>, output: bytes) {
    DistinctNames(outs) && forall i :: 0 <= i < |outs| ==> HasParent(outs, i, output)
  }

  lemma OrderedConcat(first: seq<Output>, rest: seq<Output>, output: bytes)
    requires Ordered(first, output) && Ordered(rest, output)
    requires forall i, j :: 0 <= i < |first| && 0 <= j < |rest| ==> first[i].path != rest[j].path
    ensures Ordered(first + rest, output)
  {
    hide Parent;
    var all := first + rest;
    forall i | 0 <= i < |all| ensures HasParent(all, i, output) {
      if i < |first| {
        assert HasParent(first, i, output);
        if Parent(first[i].path) != output {
          var j :| 0 <= j < i && first[j].DirectoryOut? && first[j].path == Parent(first[i].path);
          assert all[j] == first[j];
        }
      } else {
        assert HasParent(rest, i - |first|, output);
        if Parent(rest[i - |first|].path) != output {
          var j :| 0 <= j < i - |first| && rest[j].DirectoryOut? && rest[j].path == Parent(rest[i - |first|].path);
          assert all[j + |first|] == rest[j];
        }
      }
    }
  }

  lemma OrderedUnder(destination: bytes, source: bytes, below: seq<Output>, output: bytes)
    requires Ordered(below, destination) && Parent(destination) == output
    requires forall i :: 0 <= i < |below| ==> |below[i].path| > |destination|
    ensures Ordered([DirectoryOut(destination, source)] + below, output)
  {
    hide Parent;
    var all := [DirectoryOut(destination, source)] + below;
    forall i | 0 <= i < |all| ensures HasParent(all, i, output) {
      if i > 0 {
        assert HasParent(below, i - 1, destination);
        if Parent(below[i - 1].path) == destination {
          assert all[0].path == destination;
        } else {
          var j :| 0 <= j < i - 1 && below[j].DirectoryOut? && below[j].path == Parent(below[i - 1].path);
          assert all[j + 1] == below[j];
        }
      }
    }
    forall i, j | 0 <= i < j < |all| ensures all[i].path != all[j].path {
      if i == 0 {
        assert |below[j - 1].path| > |destination|;
      }
    }
  }

  /** Two paths above the same path, with the same parent, are the same. */
  lemma {:induction false} OneAboveEachParent(path: bytes, a: bytes, b: bytes)
    requires a in Ancestors(path) && b in Ancestors(path) && Parent(a) == Parent(b)
    ensures a == b
    decreases |path|
  {
    hide Parent;
    if a != path && b != path {
      OneAboveEachParent(Parent(path), a, b);
    } else if a != b {
      var other := if a == path then b else a;
      AncestorsAreAbove(Parent(path), other);
      AncestorsAreClosed(path, other);
    }
  }

  /** What different children bring cannot collide. */
  lemma SiblingsApart(job: Job, first: seq<Output>, rest: seq<Output>, children: seq<bytes>, source: bytes, output: bytes)
    requires Siblings(job, children, source) && children != []
    requires AllUnder(first, Joined(output, NameOf(children[0]))) && UnderSome(rest, output, children[1..])
    ensures forall i, j :: 0 <= i < |first| && 0 <= j < |rest| ==> first[i].path != rest[j].path
  {
    hide Joined, NameOf, Parent, Ancestors, CanonicalPath, Plain, Distinct;
    SiblingsRest(job, children, source);
    forall i, j | 0 <= i < |first| && 0 <= j < |rest| ensures first[i].path != rest[j].path {
      assert UnderChild(rest[j].path, output, children[1..]);
      var k :| 0 <= k < |children[1..]| && Above(Joined(output, NameOf(children[1..][k])), rest[j].path);
      var a, b := children[0], children[1..][k];
      assert b == children[k + 1] && b in children[1..];
      if first[i].path == rest[j].path {
        assert Joined(output, NameOf(a)) in Ancestors(first[i].path);
        SameNameSamePath(a, b, output, first[i].path);
      }
    }
  }

  lemma SameNameSamePath(a: bytes, b: bytes, output: bytes, path: bytes)
    requires CanonicalPath(a) && CanonicalPath(b) && a != [] && b != [] && Parent(a) == Parent(b)
    requires Joined(output, NameOf(a)) in Ancestors(path) && Joined(output, NameOf(b)) in Ancestors(path)
    ensures a == b
  {
    hide Joined, NameOf, Parent, Ancestors, CanonicalPath, Plain;
    CanonicalSplits(a);
    CanonicalSplits(b);
    PlainIsComponent(NameOf(a));
    PlainIsComponent(NameOf(b));
    JoinedSplits(output, NameOf(a));
    JoinedSplits(output, NameOf(b));
    OneAboveEachParent(path, Joined(output, NameOf(a)), Joined(output, NameOf(b)));
  }

  lemma {:induction false} AllOrdered(job: Job, children: seq<bytes>, source: bytes, output: bytes, depth: nat, active: set<bytes>, st: Progress)
    requires Ready(job) && Siblings(job, children, source)
    requires depth <= job.limits.maxDepth && ExpandedAll(job, children, output, depth, active, st).Some?
    ensures Ordered(ExpandedAll(job, children, output, depth, active, st).value.0, output)
    decreases Levels(job, depth), 0, |children| + 1
  {
    if children == [] {
      NothingOrdered(output);
    } else {
      hide ExpandedOne, Ready, Siblings, Joined, NameOf, Ancestors, CanonicalPath, Ordered;
      var (first, middle) := ExpandedOne(job, children[0], output, depth, active, st).value;
      var (rest, end) := ExpandedAll(job, children[1..], output, depth, active, middle).value;
      SiblingsRest(job, children, source);
      OneIsUnder(job, children[0], output, depth, active, st);
      AllAreUnder(job, children[1..], source, output, depth, active, middle);
      SiblingsApart(job, first, rest, children, source, output);
      OneOrdered(job, children[0], output, depth, active, st);
      AllOrdered(job, children[1..], source, output, depth, active, middle);
      OrderedConcat(first, rest, output);
    }
  }

  lemma NothingOrdered(output: bytes)
    ensures Ordered([], output)
  {
  }

  lemma OneFileOrdered(out: Output, output: bytes)
    requires Parent(out.path) == output
    ensures Ordered([out], output)
  {
    assert HasParent([out], 0, output);
  }

  lemma {:induction false} OneOrdered(job: Job, path: bytes, output: bytes, depth: nat, active: set<bytes>, st: Progress)
    requires Ready(job) && path != [] && CanonicalPath(path)
    requires depth <= job.limits.maxDepth && ExpandedOne(job, path, output, depth, active, st).Some?
    ensures Ordered(ExpandedOne(job, path, output, depth, active, st).value.0, output)
    decreases Levels(job, depth), 0, 0
  {
    hide Resolved, Rendered, JarSignature, Joined, NameOf, ChildrenOf, ExpandedAll, Ready, CanonicalPath, Parent, Ordered;
    var destination, canonical := Joined(output, NameOf(path)), Resolved(job.nodes, job.treeLimits, path).value;
    CanonicalSplits(path);
    JoinedSplits(output, NameOf(path));
    NothingOrdered(output);
    if IsDir(job.nodes, canonical) {
      var children, next := ChildrenOf(job.paths, canonical), Progress(st.count + 1, st.bytes);
      ChildrenAreSiblings(job, canonical);
      AllAreUnder(job, children, canonical, destination, depth + 1, active + {canonical}, next);
      AllOrdered(job, children, canonical, destination, depth + 1, active + {canonical}, next);
      var below := ExpandedAll(job, children, destination, depth + 1, active + {canonical}, next).value.0;
      BelowIsUnder(job, below, canonical, destination, children);
      OrderedUnder(destination, canonical, below, output);
    } else if Rendered(job, destination, canonical).Some? {
      OneFileOrdered(FileOut(destination, canonical, Rendered(job, destination, canonical).value), output);
    }
  }

  // ---------- Every name denotes its source ----------

  /** The name leads, through however many links, to the node it was copied from. */
  ghost predicate Faithful(job: Job, out: Output) {
    && CanonicalPath(out.path) && CanonicalPath(out.source)
    && Denotes(job.nodes, job.treeLimits, PartsOf(out.path), PartsOf(out.source))
    && match out
       case DirectoryOut(_, source) => IsDir(job.nodes, source)
       case FileOut(path, source, data) =>
         source in job.nodes && job.nodes[source].FileNode? && Rendered(job, path, source) == Some(data)
  }

  ghost predicate AllFaithful(job: Job, outs: seq<Output>) {
    forall i :: 0 <= i < |outs| ==> Faithful(job, outs[i])
  }

  /** A walk along the output continues into a child exactly as a walk along the source does. */
  lemma DenotesChild(job: Job, output: bytes, source: bytes, path: bytes)
    requires Ready(job) && CanonicalPath(output) && CanonicalPath(source) && IsDir(job.nodes, source)
    requires Denotes(job.nodes, job.treeLimits, PartsOf(output), PartsOf(source))
    requires path in job.nodes && path != [] && Parent(path) == source && CanonicalPath(path)
    requires Resolved(job.nodes, job.treeLimits, path).Some?
    ensures var destination, canonical := Joined(output, NameOf(path)), Resolved(job.nodes, job.treeLimits, path).value;
            && CanonicalPath(destination) && CanonicalPath(canonical)
            && Denotes(job.nodes, job.treeLimits, PartsOf(destination), PartsOf(canonical))
  {
    hide Joined, NameOf, Parent, CanonicalPath, Resolvable, ValidPath, PartsOf, Walk, Denotes, Plain;
    var nodes, limits, name := job.nodes, job.treeLimits, NameOf(path);
    CanonicalSplits(path);
    CanonicalJoins(source, name);
    CanonicalJoins(output, name);
    var position := Walk(nodes, limits, PartsOf(path), [], limits.maxDepth, limits.maxElements).value.0;
    PathWalks(nodes, limits, path);
    PositionIsCanonical(nodes, limits, position);
    DenotesStands(job, output, source);
    ChildStep(nodes, limits, PartsOf(output), PartsOf(source), name, position);
  }

  lemma PositionIsCanonical(nodes: Tree, limits: Limits, position: seq<bytes>)
    requires Stands(nodes, limits, position)
    ensures CanonicalPath(Join(position)) && PartsOf(Join(position)) == position
  {
    hide CanonicalPath;
    JoinIsCanonical(position);
  }

  lemma DenotesStands(job: Job, output: bytes, source: bytes)
    requires Ready(job) && CanonicalPath(output)
    requires Denotes(job.nodes, job.treeLimits, PartsOf(output), PartsOf(source))
    ensures TreeShape(job.nodes) && Stands(job.nodes, job.treeLimits, PartsOf(source))
  {
    hide TreeShape, GoodLinks, GoodPaths, TreeFits, Walk, PartsOf, Stands, Join;
    var parts := PartsOf(output);
    var budget: nat, room: int, links: nat :| Walk(job.nodes, job.treeLimits, parts, [], budget, room) == Some((PartsOf(source), links));
    RootStands(job.nodes, job.treeLimits);
    PlainAreComponents(parts);
    WalkStands(job.nodes, job.treeLimits, parts, [], budget, room);
  }

  lemma ChildStep(nodes: Tree, limits: Limits, output: seq<bytes>, source: seq<bytes>, name: bytes, position: seq<bytes>)
    requires TreeShape(nodes) && Stands(nodes, limits, source)
    requires Denotes(nodes, limits, output, source)
    requires var walk := Walk(nodes, limits, source + [name], [], limits.maxDepth, limits.maxElements); walk.Some? && walk.value.0 == position
    ensures Denotes(nodes, limits, output + [name], position)
  {
    hide Walk, TreeShape, Join;
    var room := limits.maxElements;
    var budget: nat, wide: int, links: nat :| Walk(nodes, limits, output, [], budget, wide) == Some((source, links));
    WalkComposes(nodes, limits, source, [name], [], limits.maxDepth, room);
    SourceWalks(nodes, limits, source, limits.maxDepth, room);
    var more := Walk(nodes, limits, [name], source, limits.maxDepth, room).value.1;
    LinksWithinBudget(nodes, limits, output, [], budget, wide);
    var large: nat, larger: int := budget + limits.maxDepth, (if wide < room then room else wide) + 1;
    WalkIsMonotone(nodes, limits, output, [], budget, wide, large, larger - 1);
    WalkIsMonotone(nodes, limits, [name], source, limits.maxDepth, room, large - links, larger);
    WalkComposes(nodes, limits, output, [name], [], large, larger);
    assert Walk(nodes, limits, output + [name], [], large, larger) == Some((position, links + more));
  }

  lemma {:induction false} LinksWithinBudget(nodes: Tree, limits: Limits, pending: seq<bytes>, current: seq<bytes>, budget: nat, room: int)
    requires Walk(nodes, limits, pending, current, budget, room).Some?
    ensures Walk(nodes, limits, pending, current, budget, room).value.1 <= budget
    decreases budget, |pending|
  {
    hide Join, Joined, Split, IsDir;
    if pending != [] {
      var component, rest := pending[0], pending[1..];
      var candidate := Joined(Join(current), component);
      if component == DOT {
        LinksWithinBudget(nodes, limits, rest, current, budget, room);
      } else if component == DOT_DOT {
        LinksWithinBudget(nodes, limits, rest, current[..|current| - 1], budget, room);
      } else if nodes[candidate].LinkNode? {
        LinksWithinBudget(nodes, limits, Split(nodes[candidate].target) + rest, current, budget - 1, room);
      } else {
        LinksWithinBudget(nodes, limits, rest, current + [component], budget, room);
      }
    }
  }

  /** The walk to a child of a canonical directory passes through that directory without links. */
  lemma SourceWalks(nodes: Tree, limits: Limits, source: seq<bytes>, budget: nat, room: int)
    requires TreeShape(nodes) && Stands(nodes, limits, source)
    ensures Walk(nodes, limits, source, [], budget, room - 1) == Some((source, 0))
  {
    hide TreeShape, Join, Walk;
    CanonicalWalks(nodes, limits, source, 0, budget, room - 1);
    assert source[0..] == source && source[..0] == [];
  }
}
