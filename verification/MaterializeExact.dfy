/** When an expansion succeeds: every way down the tree must be good, and the whole must fit. */
module MaterializationExactness {
  import opened Binary
  import opened Text
  import opened Paths
  import opened Trees
  import opened Resolution
  import opened ResolutionTheorems
  import opened Materialization
  import opened MaterializationProofs

  // ---------- The expansion without its counters ----------

  function Unfolded(job: Job, source: bytes, output: bytes, depth: nat, active: set<bytes>): Option<seq<Output>>
    decreases Levels(job, depth), 1, 0
  {
    if depth > job.limits.maxDepth || source in active then None
    else UnfoldedAll(job, ChildrenOf(job.paths, source), output, depth, active + {source})
  }

  function UnfoldedAll(job: Job, children: seq<bytes>, output: bytes, depth: nat, active: set<bytes>): Option<seq<Output>>
    requires depth <= job.limits.maxDepth
    decreases Levels(job, depth), 0, |children| + 1
  {
    if children == [] then Some([])
    else
      match (UnfoldedOne(job, children[0], output, depth, active), UnfoldedAll(job, children[1..], output, depth, active))
      case (Some(first), Some(rest)) => Some(first + rest)
      case _ => None
  }

  function UnfoldedOne(job: Job, path: bytes, output: bytes, depth: nat, active: set<bytes>): Option<seq<Output>>
    requires depth <= job.limits.maxDepth
    decreases Levels(job, depth), 0, 0
  {
    var destination := Joined(output, NameOf(path));
    match Resolved(job.nodes, job.treeLimits, path)
    case None => None
    case Some(canonical) =>
      if !job.limits.Bytes(|destination|) || canonical !in job.nodes then None
      else
        match job.nodes[canonical]
        case Dir(_) =>
          (match Unfolded(job, canonical, destination, depth + 1, active)
           case None => None
           case Some(below) => Some([DirectoryOut(destination, canonical)] + below))
        case FileNode(_, _) =>
          if JarSignature(destination) then Some([])
          else
            (match Rendered(job, destination, canonical)
             case None => None
             case Some(data) => Some([FileOut(destination, canonical, data)]))
        case LinkNode(_, _) => None
  }

  /** The counters only stop an expansion that would not fit as a whole. */
  ghost predicate Fits(job: Job, outs: seq<Output>, st: Progress) {
    job.limits.Elements(st.count + |outs|) && st.bytes + Total(outs) <= job.maxBytes
  }

  ghost function Counting(job: Job, outs: Option<seq<Output>>, st: Progress): Option<(seq<Output>, Progress)> {
    match outs
    case None => None
    case Some(all) => if Fits(job, all, st) then Some((all, Progress(st.count + |all|, st.bytes + Total(all)))) else None
  }

  lemma CountingConcat(job: Job, first: seq<Output>, rest: seq<Output>, st: Progress)
    ensures Total(first + rest) == Total(first) + Total(rest)
    ensures var middle := Progress(st.count + |first|, st.bytes + Total(first));
            Fits(job, first + rest, st) <==> Fits(job, first, st) && Fits(job, rest, middle)
  {
    TotalConcat(first, rest);
  }

  lemma {:induction false} AllCount(job: Job, children: seq<bytes>, output: bytes, depth: nat, active: set<bytes>, st: Progress)
    requires depth <= job.limits.maxDepth && Fits(job, [], st)
    ensures ExpandedAll(job, children, output, depth, active, st) == Counting(job, UnfoldedAll(job, children, output, depth, active), st)
    decreases Levels(job, depth), 0, |children| + 1
  {
    hide ExpandedOne, UnfoldedOne, Total;
    if children == [] {
      NothingCounts(job, st);
    } else {
      OneCount(job, children[0], output, depth, active, st);
      var first, rest := UnfoldedOne(job, children[0], output, depth, active), UnfoldedAll(job, children[1..], output, depth, active);
      if first.Some? && Fits(job, first.value, st) {
        var middle := Progress(st.count + |first.value|, st.bytes + Total(first.value));
        NothingCounts(job, middle);
        AllCount(job, children[1..], output, depth, active, middle);
      }
      if first.Some? && rest.Some? {
        CountingConcat(job, first.value, rest.value, st);
      }
    }
  }

  lemma NothingCounts(job: Job, st: Progress)
    ensures Total([]) == 0 && (Fits(job, [], st) <==> job.limits.Elements(st.count) && st.bytes <= job.maxBytes)
  {
  }

  lemma {:induction false} OneCount(job: Job, path: bytes, output: bytes, depth: nat, active: set<bytes>, st: Progress)
    requires depth <= job.limits.maxDepth && Fits(job, [], st)
    ensures ExpandedOne(job, path, output, depth, active, st) == Counting(job, UnfoldedOne(job, path, output, depth, active), st)
    decreases Levels(job, depth), 0, 0
  {
    hide ExpandedAll, UnfoldedAll, Resolved, Rendered, JarSignature, Total;
    NothingCounts(job, st);
    var destination := Joined(output, NameOf(path));
    var resolved := Resolved(job.nodes, job.treeLimits, path);
    if resolved.Some? && resolved.value in job.nodes {
      var canonical := resolved.value;
      if job.nodes[canonical].Dir? {
        var here := [DirectoryOut(destination, canonical)];
        var next := Progress(st.count + 1, st.bytes);
        TotalOne(here[0]);
        NothingCounts(job, next);
        if depth + 1 <= job.limits.maxDepth && canonical !in active && job.limits.Elements(st.count + 1) {
          AllCount(job, ChildrenOf(job.paths, canonical), destination, depth + 1, active + {canonical}, next);
        }
        var below := Unfolded(job, canonical, destination, depth + 1, active);
        if below.Some? {
          CountingConcat(job, here, below.value, st);
        }
      } else if Rendered(job, destination, canonical).Some? {
        TotalOne(FileOut(destination, canonical, Rendered(job, destination, canonical).value));
      }
    }
  }

  // ---------- Ways down ----------

  /** The directory that a sequence of children ends in; the root for none. */
  function EndOf(job: Job, trail: seq<bytes>): Option<bytes> {
    if trail == [] then Some([])
    else
      match Resolved(job.nodes, job.treeLimits, trail[|trail| - 1])
      case None => None
      case Some(canonical) => if IsDir(job.nodes, canonical) then Some(canonical) else None
  }

  /** Each path is a child of the directory that the earlier ones end in. */
  ghost predicate Trail(job: Job, trail: seq<bytes>) {
    trail == [] || (
      var front, last := trail[..|trail| - 1], trail[|trail| - 1];
      Trail(job, front) && last in job.nodes && last != [] && EndOf(job, front) == Some(Parent(last)))
  }

  /** Where the archive puts the last path of a trail. */
  function OutputOf(trail: seq<bytes>): bytes {
    if trail == [] then [] else Joined(OutputOf(trail[..|trail| - 1]), NameOf(trail[|trail| - 1]))
  }

  /** The directories opened on the way, the last one included. */
  ghost function Sources(job: Job, trail: seq<bytes>): set<bytes> {
    (if trail == [] then {} else Sources(job, trail[..|trail| - 1]))
    + if EndOf(job, trail).Some? then {EndOf(job, trail).value} else {}
  }

  /**
   * The last path of a trail resolves, its name fits, a file can be rendered unless it is a signature, and a
   * directory is neither too deep nor open already.
   */
  ghost predicate Good(job: Job, trail: seq<bytes>)
    requires trail != []
  {
    var front, last := trail[..|trail| - 1], trail[|trail| - 1];
    var destination := OutputOf(trail);
    match Resolved(job.nodes, job.treeLimits, last)
    case None => false
    case Some(canonical) =>
      && job.limits.Bytes(|destination|) && canonical in job.nodes
      && match job.nodes[canonical]
         case Dir(_) => |trail| <= job.limits.maxDepth && canonical !in Sources(job, front)
         case FileNode(_, _) => JarSignature(destination) || Rendered(job, destination, canonical).Some?
         case LinkNode(_, _) => false
  }

  /** Every way down from some children of a directory is good. */
  ghost predicate AllGood(job: Job, trail: seq<bytes>, children: seq<bytes>) {
    forall down :: Extends(job, trail, children, down) ==> Good(job, down)
  }

  ghost predicate Extends(job: Job, trail: seq<bytes>, children: seq<bytes>, down: seq<bytes>) {
    Trail(job, down) && |trail| < |down| && down[..|trail|] == trail && down[|trail|] in children
  }

  /** Children of the directory that a trail ends in. */
  ghost predicate ChildrenFrom(job: Job, trail: seq<bytes>, children: seq<bytes>) {
    && Trail(job, trail) && EndOf(job, trail).Some?
    && forall child :: child in children ==> child in job.nodes && child != [] && Parent(child) == EndOf(job, trail).value
  }

  lemma TrailMore(job: Job, trail: seq<bytes>, child: bytes)
    ensures Trail(job, trail + [child]) <==> Trail(job, trail) && child in job.nodes && child != [] && EndOf(job, trail) == Some(Parent(child))
    ensures OutputOf(trail + [child]) == Joined(OutputOf(trail), NameOf(child))
    ensures Sources(job, trail + [child])
            == Sources(job, trail) + if EndOf(job, trail + [child]).Some? then {EndOf(job, trail + [child]).value} else {}
  {
    hide EndOf;
    assert (trail + [child])[..|trail|] == trail;
  }

  lemma {:induction false} TrailFront(job: Job, trail: seq<bytes>, count: nat)
    requires Trail(job, trail) && count <= |trail|
    ensures Trail(job, trail[..count])
    ensures count < |trail| ==> trail[count] in job.nodes && trail[count] != [] && EndOf(job, trail[..count]) == Some(Parent(trail[count]))
    decreases |trail|
  {
    hide EndOf;
    if count < |trail| {
      var front := trail[..|trail| - 1];
      TrailFront(job, front, count);
      assert front[..count] == trail[..count];
    } else {
      assert trail[..count] == trail;
    }
  }

  /** The children of the directory that a new trail ends in. */
  lemma Below(job: Job, trail: seq<bytes>, child: bytes, canonical: bytes)
    requires Ready(job) && Trail(job, trail + [child]) && EndOf(job, trail + [child]) == Some(canonical)
    ensures ChildrenFrom(job, trail + [child], ChildrenOf(job.paths, canonical))
  {
    hide Trail, EndOf, Resolvable;
  }

  /** What is unfolded has only good ways down. */
  lemma {:induction false} UnfoldedIsGood(job: Job, children: seq<bytes>, trail: seq<bytes>, down: seq<bytes>)
    requires Ready(job) && ChildrenFrom(job, trail, children) && |trail| <= job.limits.maxDepth
    requires UnfoldedAll(job, children, OutputOf(trail), |trail|, Sources(job, trail)).Some? && Extends(job, trail, children, down)
    ensures Good(job, down)
    decreases Levels(job, |trail|), |children| + 1
  {
    hide Ready, Trail, EndOf, Sources, OutputOf, UnfoldedOne, ChildrenOf, ChildrenFrom, Good;
    var child := down[|trail|];
    if child != children[0] {
      FewerChildren(job, trail, children);
      UnfoldedIsGood(job, children[1..], trail, down);
    } else {
      OneIsGood(job, child, trail, down);
    }
  }

  lemma FewerChildren(job: Job, trail: seq<bytes>, children: seq<bytes>)
    requires ChildrenFrom(job, trail, children) && children != []
    ensures ChildrenFrom(job, trail, children[1..])
    ensures children[0] in job.nodes && children[0] != [] && EndOf(job, trail) == Some(Parent(children[0])) && Trail(job, trail)
  {
    hide Trail, EndOf;
    assert children[0] in children;
  }

  lemma {:induction false} OneIsGood(job: Job, child: bytes, trail: seq<bytes>, down: seq<bytes>)
    requires Ready(job) && |trail| <= job.limits.maxDepth
    requires UnfoldedOne(job, child, OutputOf(trail), |trail|, Sources(job, trail)).Some?
    requires Trail(job, down) && |trail| < |down| && down[..|trail|] == trail && down[|trail|] == child
    ensures Good(job, down)
    decreases Levels(job, |trail|), 0
  {
    hide Ready, Trail, Sources, OutputOf, UnfoldedAll, ChildrenOf, Resolved, Rendered, JarSignature;
    var here := trail + [child];
    TrailMore(job, trail, child);
    TrailFront(job, down, |trail| + 1);
    assert down[..|trail| + 1] == here;
    if |down| == |trail| + 1 {
      assert down == here && here[..|here| - 1] == trail;
    } else {
      var canonical := EndOf(job, here).value;
      Below(job, trail, child, canonical);
      assert down[|here|] in ChildrenOf(job.paths, canonical) by { InChildren(job, down[|here|], canonical); }
      UnfoldedIsGood(job, ChildrenOf(job.paths, canonical), here, down);
    }
  }

  lemma InChildren(job: Job, child: bytes, source: bytes)
    requires Ready(job) && child in job.nodes && child != [] && Parent(child) == source
    ensures child in ChildrenOf(job.paths, source)
  {
    hide Resolvable;
  }

  /** Where every way down is good, everything unfolds. */
  lemma {:induction false} GoodUnfolds(job: Job, children: seq<bytes>, trail: seq<bytes>)
    requires Ready(job) && ChildrenFrom(job, trail, children) && |trail| <= job.limits.maxDepth && AllGood(job, trail, children)
    ensures UnfoldedAll(job, children, OutputOf(trail), |trail|, Sources(job, trail)).Some?
    decreases Levels(job, |trail|), |children| + 1
  {
    hide Ready, Trail, EndOf, Sources, OutputOf, UnfoldedOne, ChildrenOf, ChildrenFrom, Good;
    if children != [] {
      FewerChildren(job, trail, children);
      assert children == [children[0]] + children[1..];
      assert forall down :: Extends(job, trail, children[1..], down) ==> Extends(job, trail, children, down);
      assert forall down :: Extends(job, trail, [children[0]], down) ==> Extends(job, trail, children, down);
      OneUnfolds(job, children[0], trail);
      GoodUnfolds(job, children[1..], trail);
    }
  }

  lemma {:induction false} OneUnfolds(job: Job, child: bytes, trail: seq<bytes>)
    requires Ready(job) && |trail| <= job.limits.maxDepth && AllGood(job, trail, [child])
    requires Trail(job, trail) && child in job.nodes && child != [] && EndOf(job, trail) == Some(Parent(child))
    ensures UnfoldedOne(job, child, OutputOf(trail), |trail|, Sources(job, trail)).Some?
    decreases Levels(job, |trail|), 0
  {
    hide Ready, Trail, Sources, OutputOf, UnfoldedAll, ChildrenOf, Resolved, Rendered, JarSignature;
    var here := trail + [child];
    TrailMore(job, trail, child);
    assert here[..|trail|] == trail;
    assert Extends(job, trail, [child], here);
    assert Good(job, here);
    var canonical := Resolved(job.nodes, job.treeLimits, child).value;
    if job.nodes[canonical].Dir? {
      Below(job, trail, child, canonical);
      forall down | Extends(job, here, ChildrenOf(job.paths, canonical), down) ensures Good(job, down) {
        assert down[..|trail|] == here[..|trail|] && down[|trail|] == here[|trail|];
        assert Extends(job, trail, [child], down);
      }
      GoodUnfolds(job, ChildrenOf(job.paths, canonical), here);
    }
  }

  // ---------- The whole tree ----------

  /** What would be written if nothing had to fit. */
  function Outputs(job: Job): seq<Output> {
    var all := Unfolded(job, [], [], 0, {});
    if all.Some? then all.value else []
  }

  /**
   * An expansion succeeds exactly when every way down is good (its paths resolve, its files render, and no
   * directory is too deep or repeats on its own way) and the entries fit as a whole.
   */
  lemma MaterializedExactly(job: Job)
    requires Ready(job)
    ensures Materialized(job).Some?
       <==> (forall trail :: trail != [] && Trail(job, trail) ==> Good(job, trail))
            && job.limits.Elements(|Outputs(job)|) && Total(Outputs(job)) <= job.maxBytes
    ensures Materialized(job).Some? ==> Materialized(job).value.0 == Outputs(job)
  {
    hide Trail, Good, UnfoldedAll, ExpandedAll, ChildrenOf, Total, Ready, ChildrenFrom;
    var children, none: seq<bytes> := ChildrenOf(job.paths, []), [];
    RootChildren(job);
    assert Sources(job, none) == {} + {[]};
    NothingCounts(job, Progress(0, 0));
    AllCount(job, children, [], 0, {} + {[]}, Progress(0, 0));
    if forall trail :: trail != [] && Trail(job, trail) ==> Good(job, trail) {
      GoodUnfolds(job, children, none);
    }
    if UnfoldedAll(job, children, [], 0, {} + {[]}).Some? {
      forall trail | trail != [] && Trail(job, trail) ensures Good(job, trail) {
        TrailFront(job, trail, 0);
        assert trail[..0] == none;
        InChildren(job, trail[0], []);
        UnfoldedIsGood(job, children, none, trail);
      }
    }
  }

  lemma RootChildren(job: Job)
    requires Ready(job)
    ensures ChildrenFrom(job, [], ChildrenOf(job.paths, []))
  {
    hide Resolvable;
  }

  /** A directory that repeats on its own way makes the whole expansion fail. */
  lemma CyclesFail(job: Job, trail: seq<bytes>)
    requires Ready(job) && trail != [] && Trail(job, trail)
    requires EndOf(job, trail).Some? && EndOf(job, trail).value in Sources(job, trail[..|trail| - 1])
    ensures Materialized(job) == None
  {
    hide Trail, Sources, Ready, Materialized;
    MaterializedExactly(job);
    assert !Good(job, trail);
  }
}
