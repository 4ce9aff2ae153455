/** Root-relative slash-separated paths and their components. */
module Paths {
  import opened Binary
  import opened Text

  const DOT: bytes := [0x2e]
  const DOT_DOT: bytes := [0x2e, 0x2e]

  /** A path one component longer; the root adds no separator. */
  function Joined(parent: bytes, name: bytes): bytes {
    ClassName(parent, name)
  }

  /** The path before the last component; the root for a single component. */
  function Parent(path: bytes): (r: bytes)
    ensures path != [] ==> |r| < |path|
  {
    PackageOf(path)
  }

  /** Nonempty and without a slash. */
  predicate Component(name: bytes) {
    name != [] && SLASH !in name
  }

  /** A component that is not a navigation step. */
  predicate Plain(name: bytes) {
    Component(name) && name != DOT && name != DOT_DOT
  }

  ghost predicate Components(parts: seq<bytes>) {
    forall i :: 0 <= i < |parts| ==> Component(parts[i])
  }

  ghost predicate AllPlain(parts: seq<bytes>) {
    forall i :: 0 <= i < |parts| ==> Plain(parts[i])
  }

  /** The parts between slashes. */
  function Split(path: bytes): (r: seq<bytes>)
    ensures |r| >= 1
    ensures forall i :: 0 <= i < |r| ==> SLASH !in r[i]
    decreases |path|
  {
    match LastSlash(path)
    case None => [path]
    case Some(slash) => Split(path[..slash]) + [path[slash + 1..]]
  }

  function Join(parts: seq<bytes>): bytes {
    if parts == [] then [] else Joined(Join(parts[..|parts| - 1]), parts[|parts| - 1])
  }

  lemma LastSlashIs(path: bytes, slash: nat)
    requires slash < |path| && path[slash] == SLASH
    requires forall i :: slash < i < |path| ==> path[i] != SLASH
    ensures LastSlash(path) == Some(slash)
  {
    assert path[slash] == SLASH;
  }

  lemma NoSlash(path: bytes)
    requires SLASH !in path
    ensures LastSlash(path) == None
  {
  }

  /** Joining a component is undone by taking the parent and the name. */
  lemma JoinedSplits(parent: bytes, name: bytes)
    requires Component(name)
    ensures Parent(Joined(parent, name)) == parent && NameOf(Joined(parent, name)) == name
    ensures |Joined(parent, name)| > |parent|
  {
    if parent == [] {
      NoSlash(name);
    } else {
      LastSlashIs(parent + [SLASH] + name, |parent|);
    }
  }

  lemma JoinStep(parts: seq<bytes>, name: bytes)
    ensures Join(parts + [name]) == Joined(Join(parts), name)
  {
    assert (parts + [name])[..|parts|] == parts;
  }

  lemma JoinIsRoot(parts: seq<bytes>)
    requires Components(parts)
    ensures Join(parts) == [] <==> parts == []
  {
  }

  /** Distinct component lists have distinct paths. */
  lemma {:induction false} JoinIsInjective(a: seq<bytes>, b: seq<bytes>)
    requires Components(a) && Components(b) && Join(a) == Join(b)
    ensures a == b
    decreases |a|
  {
    JoinIsRoot(a);
    JoinIsRoot(b);
    if a != [] {
      var frontA, lastA := a[..|a| - 1], a[|a| - 1];
      var frontB, lastB := b[..|b| - 1], b[|b| - 1];
      JoinedSplits(Join(frontA), lastA);
      JoinedSplits(Join(frontB), lastB);
      JoinIsInjective(frontA, frontB);
      assert a == frontA + [lastA] && b == frontB + [lastB];
    }
  }

  /** Splitting undoes joining. */
  lemma {:induction false} SplitJoin(parts: seq<bytes>)
    requires Components(parts) && parts != []
    ensures Split(Join(parts)) == parts
    decreases |parts|
  {
    var front, last := parts[..|parts| - 1], parts[|parts| - 1];
    var path := Join(parts);
    assert parts == front + [last];
    JoinedSplits(Join(front), last);
    if front == [] {
      NoSlash(path);
    } else {
      JoinIsRoot(front);
      SplitJoin(front);
      LastSlashIs(path, |Join(front)|);
      assert path[..|Join(front)|] == Join(front);
    }
  }

  /** Joining undoes splitting when no part is empty. */
  lemma {:induction false} JoinSplit(path: bytes)
    requires Components(Split(path))
    ensures Join(Split(path)) == path && path != []
    decreases |path|
  {
    var parts := Split(path);
    match LastSlash(path)
    case None =>
      assert Component(parts[0]);
      assert parts[..0] == [];
    case Some(slash) =>
      var front := Split(path[..slash]);
      assert parts[..|parts| - 1] == front;
      forall i | 0 <= i < |front| ensures Component(front[i]) {
        assert Component(parts[i]);
      }
      JoinSplit(path[..slash]);
      SplitClassName(path);
  }

  /** The components of a root-relative path; the root has none. */
  function PartsOf(path: bytes): seq<bytes> {
    if path == [] then [] else Split(path)
  }

  /** The rules of a path: `root` admits the empty one, and `navigation` admits dots as components. */
  predicate ValidPath(path: bytes, root: bool, navigation: bool, limits: Limits) {
    limits.Bytes(|path|) && (
      || (root && path == [])
      || (limits.Elements(|Split(path)|)
          && forall i :: 0 <= i < |Split(path)| ==> Split(path)[i] != [] && (navigation || Plain(Split(path)[i]))))
  }

  /** A valid path is the joining of its components. */
  lemma ValidPathParts(path: bytes, root: bool, navigation: bool, limits: Limits)
    requires ValidPath(path, root, navigation, limits)
    ensures Components(PartsOf(path)) && Join(PartsOf(path)) == path
    ensures !navigation ==> AllPlain(PartsOf(path))
    ensures limits.Elements(|PartsOf(path)|)
  {
    if path != [] {
      JoinSplit(path);
    }
  }

  /** The path itself and every nonempty path above it. */
  function Ancestors(path: bytes): (r: set<bytes>)
    decreases |path|
  {
    if path == [] then {} else {path} + Ancestors(Parent(path))
  }

  lemma {:induction false} AncestorsAreClosed(path: bytes, above: bytes)
    requires above in Ancestors(path)
    ensures above != [] && (Parent(above) == [] || Parent(above) in Ancestors(path))
    decreases |path|
  {
    if above != path {
      AncestorsAreClosed(Parent(path), above);
    }
  }

  /** The ancestors of a joined list of components are its nonempty prefixes. */
  lemma {:induction false} AncestorsOfJoin(parts: seq<bytes>, path: bytes)
    requires Components(parts)
    ensures path in Ancestors(Join(parts)) <==> exists k :: 1 <= k <= |parts| && path == Join(parts[..k])
    decreases |parts|
  {
    if parts != [] {
      var front, last := parts[..|parts| - 1], parts[|parts| - 1];
      JoinedSplits(Join(front), last);
      AncestorsOfJoin(front, path);
      assert parts[..|parts|] == parts;
      assert forall k :: 0 <= k <= |front| ==> front[..k] == parts[..k];
    }
  }

  // ---------- Canonical paths ----------

  /** The joining of plain components; the root is the joining of none. */
  ghost predicate CanonicalPath(path: bytes) {
    AllPlain(PartsOf(path)) && Join(PartsOf(path)) == path
  }

  lemma JoinIsCanonical(parts: seq<bytes>)
    requires AllPlain(parts)
    ensures CanonicalPath(Join(parts)) && PartsOf(Join(parts)) == parts
  {
    hide Join, Split;
    assert Components(parts);
    JoinIsRoot(parts);
    if parts != [] {
      SplitJoin(parts);
    }
  }

  /** A canonical path is its parent and its last component, and the parent is canonical. */
  lemma CanonicalSplits(path: bytes)
    requires CanonicalPath(path) && path != []
    ensures CanonicalPath(Parent(path)) && Plain(NameOf(path)) && Joined(Parent(path), NameOf(path)) == path
  {
    hide Join, Split, Joined, Parent, NameOf;
    var parts := PartsOf(path);
    JoinIsRoot(parts);
    var front, last := parts[..|parts| - 1], parts[|parts| - 1];
    assert parts == front + [last];
    JoinStep(front, last);
    JoinedSplits(Join(front), last);
    JoinIsCanonical(front);
  }

  lemma CanonicalJoins(parent: bytes, name: bytes)
    requires CanonicalPath(parent) && Plain(name)
    ensures CanonicalPath(Joined(parent, name)) && PartsOf(Joined(parent, name)) == PartsOf(parent) + [name]
  {
    hide Join, Split, Joined;
    JoinStep(PartsOf(parent), name);
    JoinIsCanonical(PartsOf(parent) + [name]);
  }

  lemma {:induction false} CanonicalAncestors(path: bytes, above: bytes)
    requires CanonicalPath(path) && above in Ancestors(path)
    ensures CanonicalPath(above)
    decreases |path|
  {
    hide CanonicalPath;
    if above != path {
      CanonicalSplits(path);
      CanonicalAncestors(Parent(path), above);
    }
  }

  lemma ValidIsCanonical(path: bytes, limits: Limits)
    requires ValidPath(path, true, false, limits)
    ensures CanonicalPath(path)
  {
    ValidPathParts(path, true, false, limits);
  }
}
