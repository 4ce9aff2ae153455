/** The theorem about a whole materialisation, and the traversal that performs it. */
module MaterializationTheorems {
  import opened Binary
  import opened Text
  import opened Paths
  import opened ResourceChecks
  import opened Trees
  import opened Resolution
  import opened ResolutionTheorems
  import opened Materialization
  import opened MaterializationProofs

  // ---------- Faithful names ----------

  /** An output directory whose name denotes a canonical directory. */
  ghost predicate Opened(job: Job, output: bytes, source: bytes) {
    && CanonicalPath(output) && CanonicalPath(source) && IsDir(job.nodes, source)
    && Denotes(job.nodes, job.treeLimits, PartsOf(output), PartsOf(source))
  }

  lemma {:induction false} AllAreFaithful(job: Job, children: seq<bytes>, source: bytes, output: bytes, depth: nat, active: set<bytes>, st: Progress)
    requires Ready(job) && Siblings(job, children, source) && Opened(job, output, source)
    requires depth <= job.limits.maxDepth && ExpandedAll(job, children, output, depth, active, st).Some?
    ensures AllFaithful(job, ExpandedAll(job, children, output, depth, active, st).value.0)
    decreases Levels(job, depth), 0, |children| + 1
  {
    hide ExpandedOne, Ready, Siblings, Opened, Faithful, CanonicalPath, Parent;
    if children != [] {
      var (first, middle) := ExpandedOne(job, children[0], output, depth, active, st).value;
      SiblingsRest(job, children, source);
      OneIsFaithful(job, children[0], source, output, depth, active, st);
      AllAreFaithful(job, children[1..], source, output, depth, active, middle);
    }
  }

  lemma {:induction false} OneIsFaithful(job: Job, path: bytes, source: bytes, output: bytes, depth: nat, active: set<bytes>, st: Progress)
    requires Ready(job) && Opened(job, output, source)
    requires path in job.nodes && path != [] && Parent(path) == source && CanonicalPath(path)
    requires depth <= job.limits.maxDepth && ExpandedOne(job, path, output, depth, active, st).Some?
    ensures AllFaithful(job, ExpandedOne(job, path, output, depth, active, st).value.0)
    decreases Levels(job, depth), 0, 0
  {
    hide Resolved, Rendered, JarSignature, Joined, NameOf, ChildrenOf, ExpandedAll, Ready, CanonicalPath, Parent, PartsOf, Denotes;
    var destination, canonical := Joined(output, NameOf(path)), Resolved(job.nodes, job.treeLimits, path).value;
    DenotesChild(job, output, source, path);
    if IsDir(job.nodes, canonical) {
      var children, next := ChildrenOf(job.paths, canonical), Progress(st.count + 1, st.bytes);
      ChildrenAreSiblings(job, canonical);
      AllAreFaithful(job, children, canonical, destination, depth + 1, active + {canonical}, next);
    }
  }

  // ---------- Nothing is missing ----------

  /** The child was left out as a signature file, or appears at its destination. */
  ghost predicate Supplied(job: Job, outs: seq<Output>, destination: bytes, child: bytes) {
    && Resolved(job.nodes, job.treeLimits, child).Some?
    && var canonical := Resolved(job.nodes, job.treeLimits, child).value;
       || (canonical in job.nodes && job.nodes[canonical].FileNode? && JarSignature(destination))
       || exists i :: 0 <= i < |outs| && outs[i].path == destination && outs[i].source == canonical
  }

  ghost predicate ChildrenSupplied(job: Job, outs: seq<Output>, output: bytes, children: seq<bytes>) {
    forall k :: 0 <= k < |children| ==> Supplied(job, outs, Joined(output, NameOf(children[k])), children[k])
  }

  /** Every directory that was written has all its children. */
  ghost predicate Complete(job: Job, outs: seq<Output>) {
    forall i :: 0 <= i < |outs| && outs[i].DirectoryOut? ==>
      ChildrenSupplied(job, outs, outs[i].path, ChildrenOf(job.paths, outs[i].source))
  }

  lemma SuppliedLater(job: Job, outs: seq<Output>, more: seq<Output>, destination: bytes, child: bytes)
    requires Supplied(job, outs, destination, child) && forall out :: out in outs ==> out in more
    ensures Supplied(job, more, destination, child)
  {
    hide Resolved, JarSignature;
    var canonical := Resolved(job.nodes, job.treeLimits, child).value;
    if i :| 0 <= i < |outs| && outs[i].path == destination && outs[i].source == canonical {
      assert outs[i] in more;
    }
  }

  lemma ChildrenSuppliedLater(job: Job, outs: seq<Output>, more: seq<Output>, output: bytes, children: seq<bytes>)
    requires ChildrenSupplied(job, outs, output, children) && forall out :: out in outs ==> out in more
    ensures ChildrenSupplied(job, more, output, children)
  {
    hide Supplied, Joined, NameOf;
    forall k | 0 <= k < |children| ensures Supplied(job, more, Joined(output, NameOf(children[k])), children[k]) {
      SuppliedLater(job, outs, more, Joined(output, NameOf(children[k])), children[k]);
    }
  }

  lemma CompleteConcat(job: Job, a: seq<Output>, b: seq<Output>)
    requires Complete(job, a) && Complete(job, b)
    ensures Complete(job, a + b)
  {
    hide ChildrenSupplied, ChildrenOf;
    var all := a + b;
    forall i | 0 <= i < |all| && all[i].DirectoryOut?
      ensures ChildrenSupplied(job, all, all[i].path, ChildrenOf(job.paths, all[i].source))
    {
      var part := if i < |a| then a else b;
      assert all[i] == if i < |a| then a[i] else b[i - |a|];
      ChildrenSuppliedLater(job, part, all, all[i].path, ChildrenOf(job.paths, all[i].source));
    }
  }

  lemma NothingMissing(job: Job, output: bytes)
    ensures Complete(job, []) && ChildrenSupplied(job, [], output, [])
  {
  }

  lemma {:induction false} AllComplete(job: Job, children: seq<bytes>, output: bytes, depth: nat, active: set<bytes>, st: Progress)
    requires depth <= job.limits.maxDepth && ExpandedAll(job, children, output, depth, active, st).Some?
    ensures var outs := ExpandedAll(job, children, output, depth, active, st).value.0;
            Complete(job, outs) && ChildrenSupplied(job, outs, output, children)
    decreases Levels(job, depth), 0, |children| + 1
  {
    NothingMissing(job, output);
    if children != [] {
      hide ExpandedOne, Complete, Supplied, ChildrenSupplied, Joined, NameOf;
      var (first, middle) := ExpandedOne(job, children[0], output, depth, active, st).value;
      var (rest, end) := ExpandedAll(job, children[1..], output, depth, active, middle).value;
      OneComplete(job, children[0], output, depth, active, st);
      AllComplete(job, children[1..], output, depth, active, middle);
      CompleteConcat(job, first, rest);
      ChildrenSuppliedStep(job, first, rest, output, children);
    }
  }

  lemma ChildrenSuppliedStep(job: Job, first: seq<Output>, rest: seq<Output>, output: bytes, children: seq<bytes>)
    requires children != [] && Supplied(job, first, Joined(output, NameOf(children[0])), children[0])
    requires ChildrenSupplied(job, rest, output, children[1..])
    ensures ChildrenSupplied(job, first + rest, output, children)
  {
    hide Supplied, Joined, NameOf;
    SuppliedLater(job, first, first + rest, Joined(output, NameOf(children[0])), children[0]);
    ChildrenSuppliedLater(job, rest, first + rest, output, children[1..]);
    forall k | 0 <= k < |children| ensures Supplied(job, first + rest, Joined(output, NameOf(children[k])), children[k]) {
      assert k > 0 ==> children[k] == children[1..][k - 1];
    }
  }

  lemma {:induction false} OneComplete(job: Job, path: bytes, output: bytes, depth: nat, active: set<bytes>, st: Progress)
    requires depth <= job.limits.maxDepth && ExpandedOne(job, path, output, depth, active, st).Some?
    ensures var outs := ExpandedOne(job, path, output, depth, active, st).value.0;
            Complete(job, outs) && Supplied(job, outs, Joined(output, NameOf(path)), path)
    decreases Levels(job, depth), 0, 0
  {
    hide Resolved, Rendered, JarSignature, Joined, NameOf, ChildrenOf, ExpandedAll, ChildrenSupplied;
    var destination, canonical := Joined(output, NameOf(path)), Resolved(job.nodes, job.treeLimits, path).value;
    if IsDir(job.nodes, canonical) {
      var children, next := ChildrenOf(job.paths, canonical), Progress(st.count + 1, st.bytes);
      AllComplete(job, children, destination, depth + 1, active + {canonical}, next);
      var below := ExpandedAll(job, children, destination, depth + 1, active + {canonical}, next).value.0;
      var outs := [DirectoryOut(destination, canonical)] + below;
      assert outs[0] == DirectoryOut(destination, canonical);
      ChildrenSuppliedLater(job, below, outs, destination, children);
      DirectoryComplete(job, destination, canonical, below);
    } else if !(job.nodes[canonical].FileNode? && JarSignature(destination)) {
      var out := FileOut(destination, canonical, Rendered(job, destination, canonical).value);
      assert [out][0] == out;
    }
  }

  lemma DirectoryComplete(job: Job, destination: bytes, source: bytes, below: seq<Output>)
    requires Complete(job, below) && ChildrenSupplied(job, below, destination, ChildrenOf(job.paths, source))
    ensures Complete(job, [DirectoryOut(destination, source)] + below)
  {
    hide ChildrenSupplied, ChildrenOf;
    var all := [DirectoryOut(destination, source)] + below;
    forall i | 0 <= i < |all| && all[i].DirectoryOut?
      ensures ChildrenSupplied(job, all, all[i].path, ChildrenOf(job.paths, all[i].source))
    {
      assert i > 0 ==> all[i] == below[i - 1];
      ChildrenSuppliedLater(job, below, all, all[i].path, ChildrenOf(job.paths, all[i].source));
    }
  }

  // ---------- No directory inside itself ----------

  ghost predicate Avoids(outs: seq<Output>, active: set<bytes>) {
    forall i :: 0 <= i < |outs| && outs[i].DirectoryOut? ==> outs[i].source !in active
  }

  /** One directory lies inside another. */
  predicate Nested(outs: seq<Output>, i: nat, j: nat)
    requires i < |outs| && j < |outs|
  {
    i != j && outs[i].DirectoryOut? && outs[j].DirectoryOut? && outs[i].path in Ancestors(outs[j].path)
  }

  /** A directory never contains, at any depth, another copy of its own source. */
  ghost predicate Acyclic(outs: seq<Output>) {
    forall i, j :: 0 <= i < |outs| && 0 <= j < |outs| && Nested(outs, i, j) ==> outs[i].source != outs[j].source
  }

  lemma {:induction false} AllAvoid(job: Job, children: seq<bytes>, source: bytes, output: bytes, depth: nat, active: set<bytes>, st: Progress)
    requires Ready(job) && Siblings(job, children, source)
    requires depth <= job.limits.maxDepth && ExpandedAll(job, children, output, depth, active, st).Some?
    ensures var outs := ExpandedAll(job, children, output, depth, active, st).value.0;
            Avoids(outs, active) && Acyclic(outs)
    decreases Levels(job, depth), 0, |children| + 1
  {
    if children != [] {
      hide ExpandedOne, Ready, Siblings, Joined, NameOf, Ancestors, CanonicalPath, Parent, Acyclic, Avoids, AllUnder, UnderSome;
      var (first, middle) := ExpandedOne(job, children[0], output, depth, active, st).value;
      var (rest, end) := ExpandedAll(job, children[1..], output, depth, active, middle).value;
      SiblingsRest(job, children, source);
      OneIsUnder(job, children[0], output, depth, active, st);
      AllAreUnder(job, children[1..], source, output, depth, active, middle);
      OneAvoids(job, children[0], output, depth, active, st);
      AllAvoid(job, children[1..], source, output, depth, active, middle);
      SiblingsAcyclic(job, first, rest, children, source, output);
      AvoidsConcat(first, rest, active);
    } else {
      FewAcyclic();
    }
  }

  lemma AvoidsConcat(a: seq<Output>, b: seq<Output>, active: set<bytes>)
    requires Avoids(a, active) && Avoids(b, active)
    ensures Avoids(a + b, active)
  {
  }

  lemma SiblingsAcyclic(job: Job, first: seq<Output>, rest: seq<Output>, children: seq<bytes>, source: bytes, output: bytes)
    requires Siblings(job, children, source) && children != [] && Acyclic(first) && Acyclic(rest)
    requires AllUnder(first, Joined(output, NameOf(children[0]))) && UnderSome(rest, output, children[1..])
    ensures Acyclic(first + rest)
  {
    hide Joined, NameOf, Parent, Ancestors, CanonicalPath, Siblings, UnderSome, AllUnder;
    var all := first + rest;
    forall i, j | 0 <= i < |first| && |first| <= j < |all| ensures !Nested(all, i, j) && !Nested(all, j, i) {
      NeitherAbove(job, first, rest, children, source, output, i, j - |first|);
    }
    forall i, j | 0 <= i < |all| && 0 <= j < |all| && Nested(all, i, j) ensures all[i].source != all[j].source {
      if i < |first| && j < |first| {
        assert Nested(first, i, j);
      } else if i >= |first| && j >= |first| {
        assert Nested(rest, i - |first|, j - |first|);
      }
    }
  }

  lemma NeitherAbove(job: Job, first: seq<Output>, rest: seq<Output>, children: seq<bytes>, source: bytes, output: bytes, i: nat, j: nat)
    requires Siblings(job, children, source) && children != [] && i < |first| && j < |rest|
    requires AllUnder(first, Joined(output, NameOf(children[0]))) && UnderSome(rest, output, children[1..])
    ensures first[i].path !in Ancestors(rest[j].path) && rest[j].path !in Ancestors(first[i].path)
  {
    hide Joined, NameOf, Parent, Ancestors, CanonicalPath;
    SiblingsRest(job, children, source);
    assert UnderChild(rest[j].path, output, children[1..]);
    var k :| 0 <= k < |children[1..]| && Above(Joined(output, NameOf(children[1..][k])), rest[j].path);
    var a, b := children[0], children[1..][k];
    assert b == children[k + 1] && b in children[1..];
    assert Joined(output, NameOf(a)) in Ancestors(first[i].path);
    if first[i].path in Ancestors(rest[j].path) {
      AboveIsTransitive(rest[j].path, first[i].path, Joined(output, NameOf(a)));
      SameNameSamePath(a, b, output, rest[j].path);
    }
    if rest[j].path in Ancestors(first[i].path) {
      AboveIsTransitive(first[i].path, rest[j].path, Joined(output, NameOf(b)));
      SameNameSamePath(a, b, output, first[i].path);
    }
  }

  /** Being above is transitive. */
  lemma {:induction false} AboveIsTransitive(path: bytes, middle: bytes, above: bytes)
    requires middle in Ancestors(path) && above in Ancestors(middle)
    ensures above in Ancestors(path)
    decreases |path|
  {
    if middle != path {
      AboveIsTransitive(Parent(path), middle, above);
    }
  }

  lemma {:induction false} OneAvoids(job: Job, path: bytes, output: bytes, depth: nat, active: set<bytes>, st: Progress)
    requires Ready(job) && path != [] && CanonicalPath(path)
    requires depth <= job.limits.maxDepth && ExpandedOne(job, path, output, depth, active, st).Some?
    ensures var outs := ExpandedOne(job, path, output, depth, active, st).value.0;
            Avoids(outs, active) && Acyclic(outs)
    decreases Levels(job, depth), 0, 0
  {
    hide Resolved, Rendered, JarSignature, Joined, NameOf, ChildrenOf, ExpandedAll, Ready, CanonicalPath, Parent, Acyclic;
    var destination, canonical := Joined(output, NameOf(path)), Resolved(job.nodes, job.treeLimits, path).value;
    CanonicalSplits(path);
    JoinedSplits(output, NameOf(path));
    FewAcyclic();
    if IsDir(job.nodes, canonical) {
      var children, next := ChildrenOf(job.paths, canonical), Progress(st.count + 1, st.bytes);
      ChildrenAreSiblings(job, canonical);
      AllAvoid(job, children, canonical, destination, depth + 1, active + {canonical}, next);
      AllAreUnder(job, children, canonical, destination, depth + 1, active + {canonical}, next);
      var below := ExpandedAll(job, children, destination, depth + 1, active + {canonical}, next).value.0;
      BelowIsUnder(job, below, canonical, destination, children);
      DirectoryAcyclic(destination, canonical, below);
    }
  }

  lemma FewAcyclic()
    ensures forall outs: seq<Output> :: |outs| <= 1 ==> Acyclic(outs)
  {
  }

  lemma DirectoryAcyclic(destination: bytes, source: bytes, below: seq<Output>)
    requires Acyclic(below) && Avoids(below, {source})
    requires forall i :: 0 <= i < |below| ==> |below[i].path| > |destination|
    ensures Acyclic([DirectoryOut(destination, source)] + below)
  {
    hide Ancestors;
    var all := [DirectoryOut(destination, source)] + below;
    forall i, j | 0 <= i < |all| && 0 <= j < |all| && Nested(all, i, j) ensures all[i].source != all[j].source {
      if j == 0 {
        AncestorsAreAbove(destination, all[i].path);
      } else if i > 0 {
        assert Nested(below, i - 1, j - 1);
      }
    }
  }

  // ---------- The whole archive ----------

  /**
   * A successful materialisation writes distinct names, every directory before what it contains. Each name
   * denotes the node it was copied from, nothing but signature files is left out, no directory contains a
   * copy of itself, and the counters are exact and within their limits.
   */
  lemma MaterializedIsFaithful(job: Job)
    requires Ready(job) && Materialized(job).Some?
    ensures var (outs, end) := Materialized(job).value;
            && DistinctNames(outs)
            && (forall i :: 0 <= i < |outs| ==> HasParent(outs, i, []))
            && AllFaithful(job, outs)
            && ChildrenSupplied(job, outs, [], ChildrenOf(job.paths, [])) && Complete(job, outs)
            && Acyclic(outs) && Avoids(outs, {[]})
            && end == Progress(|outs|, Total(outs)) && job.limits.Elements(|outs|) && Total(outs) <= job.maxBytes
  {
    hide Ready, ExpandedAll, ChildrenOf, Siblings, HasParent, AllFaithful, ChildrenSupplied, Complete, Acyclic, Opened, DistinctNames;
    var children, st := ChildrenOf(job.paths, []), Progress(0, 0);
    var none: set<bytes>, root: set<bytes> := {}, {[]};
    assert none + root == root;
    ChildrenAreSiblings(job, []);
    RootIsOpened(job);
    AllCounted(job, children, [], 0, {[]}, st);
    AllOrdered(job, children, [], [], 0, {[]}, st);
    AllAreFaithful(job, children, [], [], 0, {[]}, st);
    AllComplete(job, children, [], 0, {[]}, st);
    AllAvoid(job, children, [], [], 0, {[]}, st);
  }

  lemma RootIsOpened(job: Job)
    requires Ready(job)
    ensures Opened(job, [], [])
  {
    hide GoodLinks, GoodPaths, TreeFits;
    RootIsCanonical();
    assert Walk(job.nodes, job.treeLimits, [], [], 0, 0) == Some(([], 0));
  }

  // ---------- The traversal ----------

  function ListOf(groups: map<bytes, seq<bytes>>, source: bytes): seq<bytes> {
    if source in groups then groups[source] else []
  }

  /** Each group lists the children of its directory, in iteration order. */
  ghost predicate Grouped(groups: map<bytes, seq<bytes>>, paths: seq<bytes>) {
    forall source :: ListOf(groups, source) == ChildrenOf(paths, source)
  }

  lemma GroupStep(groups: map<bytes, seq<bytes>>, paths: seq<bytes>, i: nat)
    requires i < |paths| && Grouped(groups, paths[..i])
    ensures Grouped(if paths[i] == [] then groups else groups[Parent(paths[i]) := ListOf(groups, Parent(paths[i])) + [paths[i]]], paths[..i + 1])
  {
    hide Parent;
    var path := paths[i];
    var next := if path == [] then groups else groups[Parent(path) := ListOf(groups, Parent(path)) + [path]];
    assert paths[..i + 1][..i] == paths[..i] && paths[..i + 1][i] == path;
    forall source ensures ListOf(next, source) == ChildrenOf(paths[..i + 1], source) {
      assert ListOf(groups, source) == ChildrenOf(paths[..i], source);
      assert ListOf(groups, source) + [] == ListOf(groups, source);
    }
  }

  method GroupChildren(paths: seq<bytes>) returns (groups: map<bytes, seq<bytes>>)
    ensures Grouped(groups, paths)
  {
    hide Parent, Grouped, ListOf, ChildrenOf;
    groups := map[];
    assert Grouped(groups, paths[..0]) by { NoGroups(); assert paths[..0] == []; }
    for i := 0 to |paths|
      invariant Grouped(groups, paths[..i])
    {
      GroupStep(groups, paths, i);
      if paths[i] != [] {
        groups := groups[Parent(paths[i]) := ListOf(groups, Parent(paths[i])) + [paths[i]]];
      }
    }
    assert paths[..|paths|] == paths;
  }

  lemma NoGroups()
    ensures Grouped(map[], [])
  {
  }

  class Materializer {
    const job: Job
    var children: map<bytes, seq<bytes>>
    var active: set<bytes>
    var count: nat
    var bytes: nat
    var archive: seq<Output>

    /** The children were grouped by their parents. */
    ghost predicate Valid()
      reads this
    {
      Grouped(children, job.paths)
    }

    constructor (job: Job)
      ensures Valid() && this.job == job && active == {} && count == 0 && bytes == 0 && archive == []
    {
      var groups := GroupChildren(job.paths);
      this.job, active, count, bytes, archive := job, {}, 0, 0, [];
      this.children := groups;
    }

    /** Writes a directory subtree; on success the active set is what it was. */
    method WriteDirectory(source: Binary.bytes, output: Binary.bytes, depth: nat) returns (ok: bool)
      requires Valid()
      modifies this
      ensures Valid() && children == old(children) && old(archive) <= archive && old(active) <= active
      ensures match Expanded(job, source, output, depth, old(active), Progress(old(count), old(bytes)))
              case None => !ok
              case Some((outs, end)) =>
                ok && archive == old(archive) + outs && Progress(count, bytes) == end && active == old(active)
      decreases Levels(job, depth), 1, 0
    {
      hide ExpandedAll, ExpandedOne, ChildrenOf;
      if depth > job.limits.maxDepth {
        return false;
      }
      if source in active {
        return false;
      }
      active := active + {source};
      var listed := ListOf(children, source);
      ghost var open := active;
      ghost var whole := ExpandedAll(job, listed, output, depth, open, Progress(count, bytes));
      ghost var done: seq<Output> := [];
      assert listed[0..] == listed;
      ContinuesStarts(whole);
      for i := 0 to |listed|
        invariant Valid() && children == old(children) && active == open
        invariant archive == old(archive) + done
        invariant Continues(whole, done, ExpandedAll(job, listed[i..], output, depth, open, Progress(count, bytes)))
      {
        ExpandedStep(job, listed, i, output, depth, open, Progress(count, bytes));
        ghost var one := ExpandedOne(job, listed[i], output, depth, open, Progress(count, bytes));
        var good := WriteChild(listed[i], output, depth);
        if !good {
          return false;
        }
        ContinuesStep(whole, done, one.value.0, ExpandedAll(job, listed[i + 1..], output, depth, open, one.value.1));
        done := done + one.value.0;
      }
      ExpandedEnd(job, listed, output, depth, open, Progress(count, bytes));
      assert done + [] == done;
      active := active - {source};
      ok := true;
    }

    method WriteChild(path: Binary.bytes, output: Binary.bytes, depth: nat) returns (ok: bool)
      requires Valid() && depth <= job.limits.maxDepth
      modifies this
      ensures Valid() && children == old(children) && old(archive) <= archive && old(active) <= active
      ensures match ExpandedOne(job, path, output, depth, old(active), Progress(old(count), old(bytes)))
              case None => !ok
              case Some((outs, end)) =>
                ok && archive == old(archive) + outs && Progress(count, bytes) == end && active == old(active)
      decreases Levels(job, depth), 0, 0
    {
      hide Resolved, Rendered, JarSignature, Joined, NameOf, ChildrenOf, ExpandedAll;
      var destination := Joined(output, NameOf(path));
      if !job.limits.Bytes(|destination|) {
        return false;
      }
      var canonical := Resolved(job.nodes, job.treeLimits, path);
      if canonical == None || canonical.value !in job.nodes {
        return false;
      }
      var node := job.nodes[canonical.value];
      if node.FileNode? && JarSignature(destination) {
        assert archive + [] == archive;
        return true;
      }
      count := count + 1;
      if !job.limits.Elements(count) {
        return false;
      }
      match node
      case Dir(_) =>
        archive := archive + [DirectoryOut(destination, canonical.value)];
        ghost var first := archive;
        ok := WriteDirectory(canonical.value, destination, depth + 1);
        if ok {
          ghost var below := archive[|first|..];
          assert old(archive) + ([DirectoryOut(destination, canonical.value)] + below) == first + below;
        }
      case FileNode(_, _) =>
        var data := Rendered(job, destination, canonical.value);
        if data == None || bytes + |data.value| > job.maxBytes {
          return false;
        }
        bytes := bytes + |data.value|;
        archive := archive + [FileOut(destination, canonical.value, data.value)];
        ok := true;
      case LinkNode(_, _) =>
        ok := false;
    }
  }

  /** What has been written so far, then the rest, is the whole outcome. */
  ghost predicate Continues(whole: Option<(seq<Output>, Progress)>, done: seq<Output>, rest: Option<(seq<Output>, Progress)>) {
    match rest
    case None => whole == None
    case Some((more, end)) => whole == Some((done + more, end))
  }

  lemma ContinuesStarts(whole: Option<(seq<Output>, Progress)>)
    ensures Continues(whole, [], whole)
  {
    if whole.Some? {
      assert [] + whole.value.0 == whole.value.0;
    }
  }

  lemma ExpandedStep(job: Job, children: seq<bytes>, i: nat, output: bytes, depth: nat, active: set<bytes>, st: Progress)
    requires depth <= job.limits.maxDepth && i < |children|
    ensures ExpandedAll(job, children[i..], output, depth, active, st)
            == match ExpandedOne(job, children[i], output, depth, active, st)
               case None => None
               case Some((first, middle)) =>
                 match ExpandedAll(job, children[i + 1..], output, depth, active, middle)
                 case None => None
                 case Some((rest, end)) => Some((first + rest, end))
  {
    hide ExpandedOne;
    assert children[i..][1..] == children[i + 1..];
  }

  lemma ExpandedEnd(job: Job, children: seq<bytes>, output: bytes, depth: nat, active: set<bytes>, st: Progress)
    requires depth <= job.limits.maxDepth
    ensures ExpandedAll(job, children[|children|..], output, depth, active, st) == Some(([], st))
  {
  }

  lemma ContinuesStep(whole: Option<(seq<Output>, Progress)>, done: seq<Output>, first: seq<Output>, next: Option<(seq<Output>, Progress)>)
    requires Continues(whole, done, match next case None => None case Some((more, end)) => Some((first + more, end)))
    ensures Continues(whole, done + first, next)
  {
    if next.Some? {
      assert done + (first + next.value.0) == (done + first) + next.value.0;
    }
  }
}
