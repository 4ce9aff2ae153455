/** Importing an archive: the Multi-Release split into layers, and the one check that covers every runtime. */
module Imports {
  import opened Binary
  import opened Cbor
  import opened Text
  import opened Paths
  import opened Contents
  import opened Resources
  import opened ResourceCode
  import opened Trees
  import opened Conditions
  import opened Orders
  import Blobs
  import Versions
  import VersionText
  import Manifests
  import ManifestTheorems

  datatype Resource =
    | DirectoryItem(metadata: Item)
    | FileItem(data: bytes, metadata: Item)
    | LinkItem(target: bytes, metadata: Item)

  type Group = map<bytes, Resource>

  // ---------- Which layer a path belongs to ----------

  /** The bytes of `META-INF/versions/`, `META-INF` and `META-INF/`. */
  const VERSIONS: bytes := META_INF_SLASH + [0x76, 0x65, 0x72, 0x73, 0x69, 0x6f, 0x6e, 0x73, 0x2f]
  const META_INF: bytes := [0x4d, 0x45, 0x54, 0x41, 0x2d, 0x49, 0x4e, 0x46]
  const META_INF_SLASH: bytes := [0x4d, 0x45, 0x54, 0x41, 0x2d, 0x49, 0x4e, 0x46, 0x2f]

  /** A feature version of at least 9, without leading zeroes. */
  predicate VersionNumber(text: bytes) {
    Versions.Numeric(text) && text[0] != 0x30 && 9 <= Versions.FromDigits(text) <= Versions.MAX_NUMBER
  }

  /** The layer and logical path of a resource; version 0 is the base. */
  function VersionOf(name: bytes, resource: Resource, multiRelease: bool): Option<(nat, bytes)> {
    if !multiRelease || !(VERSIONS <= name) then Some((0, name))
    else
      var (number, rest) := VersionText.Cut(name[|VERSIONS|..], SLASH);
      var suffix := if rest == None then [] else rest.value;
      if !VersionNumber(number) then Some((0, name))
      else if suffix == META_INF || META_INF_SLASH <= suffix then None
      else if suffix == [] && !resource.DirectoryItem? then None
      else Some((Versions.FromDigits(number), suffix))
  }

  function GroupAt(groups: map<nat, Group>, version: nat): Group {
    if version in groups then groups[version] else map[]
  }

  /** The resources of each version; two resources may not meet at one logical path. */
  function Grouped(items: seq<(bytes, Resource)>, multiRelease: bool): Option<map<nat, Group>> {
    if items == [] then Some(map[0 := map[]])
    else
      var (name, resource) := items[|items| - 1];
      match (Grouped(items[..|items| - 1], multiRelease), VersionOf(name, resource, multiRelease))
      case (Some(groups), Some((version, logical))) =>
        if logical in GroupAt(groups, version) then None
        else Some(groups[version := GroupAt(groups, version)[logical := resource]])
      case _ => None
  }

  // ---------- One layer ----------

  function EntryFor(name: bytes, resource: Resource): Entry
    requires !resource.DirectoryItem?
  {
    match resource
    case FileItem(data, metadata) => File(name, InlineContent(data), metadata)
    case LinkItem(target, metadata) => Link(name, target, metadata)
  }

  /** Explicit directories and the parents of everything else. */
  function DirectoryPaths(group: Group): set<bytes> {
    (set path | path in group && group[path].DirectoryItem?) + (set path | path in group && !group[path].DirectoryItem? :: Parent(path))
  }

  function NamesUnder(group: Group, directory: bytes): set<bytes> {
    set path | path in group && !group[path].DirectoryItem? && Parent(path) == directory :: NameOf(path)
  }

  /** The entries of the listed names; a name that stands for no entry is passed over. */
  function EntriesFor(group: Group, directory: bytes, names: seq<bytes>): seq<Entry> {
    if names == [] then []
    else
      var name := names[|names| - 1];
      var path := Joined(directory, name);
      EntriesFor(group, directory, names[..|names| - 1])
      + if path in group && !group[path].DirectoryItem? then [EntryFor(name, group[path])] else []
  }

  /** A directory that is only a parent has no metadata of its own. */
  function MetadataFor(group: Group, path: bytes): Item {
    if path in group && group[path].DirectoryItem? then group[path].metadata else EMPTY_MAP
  }

  function DirectoryFor(group: Group, path: bytes): Directory {
    Directory(path, MetadataFor(group, path), EntriesFor(group, path, Sorted(NamesUnder(group, path))))
  }

  function DirectoriesFor(group: Group, paths: seq<bytes>): seq<Directory> {
    if paths == [] then [] else DirectoriesFor(group, paths[..|paths| - 1]) + [DirectoryFor(group, paths[|paths| - 1])]
  }

  function LayerFor(version: nat, group: Group): Layer {
    Layer(if version == 0 then EMPTY_MAP else Threshold(version), DirectoriesFor(group, Sorted(DirectoryPaths(group))))
  }

  function LayersFor(groups: map<nat, Group>, versions: seq<nat>): (r: seq<Layer>)
    ensures |r| == |versions|
  {
    if versions == [] then []
    else LayersFor(groups, versions[..|versions| - 1]) + [LayerFor(versions[|versions| - 1], GroupAt(groups, versions[|versions| - 1]))]
  }

  // ---------- The check ----------

  /** How a context evaluates any condition. */
  function Evaluator(context: Context): Item -> Option<bool> {
    item => if Accepts(item) then Matches(item, context) else None
  }

  /** A Java runtime of the largest version. */
  const LATEST := Context([], [], None, Some(Runtime(JAVA, Some(Feature(Versions.MAX_NUMBER)), [])))

  function UncheckedRoot(layers: seq<Layer>): Root {
    Root(Blobs.BlobRef(0, 0), EMPTY_MAP, layers)
  }

  /** The imported layers, checked by a single merge for the largest Java version. */
  function ImportedLayers(items: seq<(bytes, Resource)>, multiRelease: bool, limits: Limits): Option<seq<Layer>> {
    match Grouped(items, multiRelease)
    case None => None
    case Some(groups) =>
      var layers := LayersFor(groups, Ascending(groups.Keys));
      if limits.Elements(|groups|) && ValidRoot(UncheckedRoot(layers), limits) && Merged(layers, Evaluator(LATEST), limits).Some?
      then Some(layers) else None
  }

  method BuildLayers(items: seq<(bytes, Resource)>, multiRelease: bool, limits: Limits) returns (r: Option<seq<Layer>>)
    ensures r == ImportedLayers(items, multiRelease, limits)
  {
    hide VersionOf, LayerFor, ValidRoot, Ascending;
    var groups: map<nat, Group> := map[0 := map[]];
    assert items[..0] == [];
    for i := 0 to |items|
      invariant Grouped(items[..i], multiRelease) == Some(groups)
    {
      GroupingFails(items, i + 1, multiRelease);
      assert items[..i + 1][..i] == items[..i];
      var (name, resource) := items[i];
      var place := VersionOf(name, resource, multiRelease);
      if place == None {
        return None;
      }
      var (version, logical) := place.value;
      if logical in GroupAt(groups, version) {
        return None;
      }
      groups := groups[version := GroupAt(groups, version)[logical := resource]];
    }
    assert items[..|items|] == items;
    if !limits.Elements(|groups|) {
      return None;
    }
    var versions := Ascending(groups.Keys);
    var layers: seq<Layer> := [];
    assert versions[..0] == [];
    for i := 0 to |versions|
      invariant layers == LayersFor(groups, versions[..i])
    {
      assert versions[..i + 1][..i] == versions[..i];
      layers := layers + [LayerFor(versions[i], GroupAt(groups, versions[i]))];
    }
    assert versions[..|versions|] == versions;
    var valid := ValidateRoot(UncheckedRoot(layers), limits);
    if !valid {
      return None;
    }
    var tree := Merge(layers, Evaluator(LATEST), limits);
    r := if tree == None then None else Some(layers);
  }

  lemma {:induction false} GroupingFails(items: seq<(bytes, Resource)>, count: nat, multiRelease: bool)
    requires count <= |items|
    ensures Grouped(items[..count], multiRelease) == None ==> Grouped(items, multiRelease) == None
    decreases |items|
  {
    hide VersionOf;
    if count < |items| {
      var front := items[..|items| - 1];
      assert front[..count] == items[..count];
      GroupingFails(front, count, multiRelease);
    } else {
      assert items[..count] == items;
    }
  }

  // ---------- The manifest ----------

  /** The bytes of `META-INF/MANIFEST.MF`, `multi-release` and `true`. */
  const MANIFEST: bytes := META_INF_SLASH + [0x4d, 0x41, 0x4e, 0x49, 0x46, 0x45, 0x53, 0x54, 0x2e, 0x4d, 0x46]
  const MULTI_RELEASE: bytes := [0x6d, 0x75, 0x6c, 0x74, 0x69, 0x2d, 0x72, 0x65, 0x6c, 0x65, 0x61, 0x73, 0x65]
  const TRUE: bytes := [0x74, 0x72, 0x75, 0x65]

  function ItemAt(items: seq<(bytes, Resource)>, name: bytes): Option<Resource> {
    if items == [] then None else if items[0].0 == name then Some(items[0].1) else ItemAt(items[1..], name)
  }

  /** No manifest, or the parsed one; a manifest that is not a file is an error. */
  function ManifestOf(items: seq<(bytes, Resource)>, limits: Limits): Option<Option<Manifests.Manifest>> {
    match ItemAt(items, MANIFEST)
    case None => Some(None)
    case Some(FileItem(data, _)) =>
      (match Manifests.Parsed(data, limits)
       case None => None
       case Some(manifest) => Some(Some(manifest)))
    case _ => None
  }

  predicate MultiRelease(manifest: Option<Manifests.Manifest>) {
    manifest.Some? && MULTI_RELEASE in manifest.value.main && Manifests.Lower(manifest.value.main[MULTI_RELEASE]) == TRUE
  }

  /** The manifest and the layers; versioned paths count only when the manifest says so. */
  function ImportedRoot(items: seq<(bytes, Resource)>, limits: Limits): Option<(Option<Manifests.Manifest>, seq<Layer>)> {
    match ManifestOf(items, limits)
    case None => None
    case Some(manifest) =>
      match ImportedLayers(items, MultiRelease(manifest), limits)
      case None => None
      case Some(layers) => Some((manifest, layers))
  }

  method ImportRoot(items: seq<(bytes, Resource)>, limits: Limits) returns (r: Option<(Option<Manifests.Manifest>, seq<Layer>)>)
    ensures r == ImportedRoot(items, limits)
  {
    hide ImportedLayers, Manifests.Parsed, MultiRelease;
    var manifest: Option<Manifests.Manifest> := None;
    match ItemAt(items, MANIFEST) {
      case None =>
      case Some(FileItem(data, _)) =>
        manifest := ManifestTheorems.Parse(data, limits);
        if manifest == None {
          return None;
        }
      case _ =>
        return None;
    }
    var layers := BuildLayers(items, MultiRelease(manifest), limits);
    r := if layers == None then None else Some((manifest, layers.value));
  }
}
