/** Expanding a merged tree, links included, into a finite list of archive entries. */
module Materialization {
  import opened Binary
  import opened Text
  import opened Paths
  import opened Trees
  import opened Resolution

  /** An archive entry: its name, and the canonical path it came from. */
  datatype Output =
    | DirectoryOut(path: bytes, source: bytes)
    | FileOut(path: bytes, source: bytes, data: bytes)

  /**
   * What is expanded: the merged tree with its paths in iteration order and its own limits, the limits on the
   * output, and the functions that read a file and rewrite a manifest.
   */
  datatype Job = Job(nodes: Tree, paths: seq<bytes>, treeLimits: Limits, limits: Limits, maxBytes: nat,
                     read: bytes -> Option<bytes>, rewrite: bytes -> Option<bytes>)

  datatype Progress = Progress(count: nat, bytes: nat)

  // ---------- Names that are treated specially ----------

  function Upper(s: bytes): bytes {
    if s == [] then [] else [if 0x61 <= s[0] <= 0x7a then s[0] - 0x20 else s[0]] + Upper(s[1..])
  }

  predicate EndsWith(s: bytes, suffix: bytes) {
    |s| >= |suffix| && s[|s| - |suffix|..] == suffix
  }

  /** The bytes of `META-INF` and `MANIFEST.MF`. */
  const META_INF: bytes := [0x4d, 0x45, 0x54, 0x41, 0x2d, 0x49, 0x4e, 0x46]
  const MANIFEST_MF: bytes := [0x4d, 0x41, 0x4e, 0x49, 0x46, 0x45, 0x53, 0x54, 0x2e, 0x4d, 0x46]

  /** The bytes of `SIG-`, `.SF`, `.RSA`, `.DSA` and `.EC`. */
  const SIG: bytes := [0x53, 0x49, 0x47, 0x2d]
  const SIGNATURE_SUFFIXES: seq<bytes> := [[0x2e, 0x53, 0x46], [0x2e, 0x52, 0x53, 0x41], [0x2e, 0x44, 0x53, 0x41], [0x2e, 0x45, 0x43]]

  /** A signature file directly inside META-INF. */
  predicate JarSignature(path: bytes) {
    && LastSlash(path).Some?
    && Upper(PackageOf(path)) == META_INF
    && var name := Upper(NameOf(path));
       SIG <= name || exists i :: 0 <= i < |SIGNATURE_SUFFIXES| && EndsWith(name, SIGNATURE_SUFFIXES[i])
  }

  predicate IsManifest(path: bytes) {
    Upper(path) == META_INF + [SLASH] + MANIFEST_MF
  }

  // ---------- The expansion ----------

  /** The canonical children of a canonical directory, in iteration order. */
  function ChildrenOf(paths: seq<bytes>, source: bytes): (r: seq<bytes>)
    ensures forall path :: path in r <==> path in paths && path != [] && Parent(path) == source
  {
    if paths == [] then []
    else
      var front, last := paths[..|paths| - 1], paths[|paths| - 1];
      assert paths == front + [last];
      ChildrenOf(front, source) + if last != [] && Parent(last) == source then [last] else []
  }

  function Rendered(job: Job, destination: bytes, canonical: bytes): Option<bytes> {
    match job.read(canonical)
    case None => None
    case Some(data) => if IsManifest(destination) then job.rewrite(data) else Some(data)
  }

  /** How many more levels may be opened. */
  function Levels(job: Job, depth: nat): nat {
    if depth > job.limits.maxDepth then 0 else job.limits.maxDepth + 1 - depth
  }

  /** A directory's subtree, rejecting a source that is already being expanded. */
  function Expanded(job: Job, source: bytes, output: bytes, depth: nat, active: set<bytes>, st: Progress): Option<(seq<Output>, Progress)>
    decreases Levels(job, depth), 1, 0
  {
    if depth > job.limits.maxDepth || source in active then None
    else ExpandedAll(job, ChildrenOf(job.paths, source), output, depth, active + {source}, st)
  }

  function ExpandedAll(job: Job, children: seq<bytes>, output: bytes, depth: nat, active: set<bytes>, st: Progress): Option<(seq<Output>, Progress)>
    requires depth <= job.limits.maxDepth
    decreases Levels(job, depth), 0, |children| + 1
  {
    if children == [] then Some(([], st))
    else
      match ExpandedOne(job, children[0], output, depth, active, st)
      case None => None
      case Some((first, middle)) =>
        match ExpandedAll(job, children[1..], output, depth, active, middle)
        case None => None
        case Some((rest, end)) => Some((first + rest, end))
  }

  function ExpandedOne(job: Job, path: bytes, output: bytes, depth: nat, active: set<bytes>, st: Progress): Option<(seq<Output>, Progress)>
    requires depth <= job.limits.maxDepth
    decreases Levels(job, depth), 0, 0
  {
    var destination := Joined(output, NameOf(path));
    match Resolved(job.nodes, job.treeLimits, path)
    case None => None
    case Some(canonical) =>
      if !job.limits.Bytes(|destination|) || canonical !in job.nodes then None
      else if job.nodes[canonical].FileNode? && JarSignature(destination) then Some(([], st))
      else if !job.limits.Elements(st.count + 1) then None
      else
        match job.nodes[canonical]
        case Dir(_) =>
          (match Expanded(job, canonical, destination, depth + 1, active, Progress(st.count + 1, st.bytes))
           case None => None
           case Some((below, end)) => Some(([DirectoryOut(destination, canonical)] + below, end)))
        case FileNode(_, _) =>
          (match Rendered(job, destination, canonical)
           case None => None
           case Some(data) =>
             if st.bytes + |data| > job.maxBytes then None
             else Some(([FileOut(destination, canonical, data)], Progress(st.count + 1, st.bytes + |data|))))
        case LinkNode(_, _) => None
  }

  /** The archive entries of a whole tree. */
  function Materialized(job: Job): Option<(seq<Output>, Progress)> {
    Expanded(job, [], [], 0, {}, Progress(0, 0))
  }
}
