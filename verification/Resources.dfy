/** Resource roots: layers of directories, their structural rules and their encoding. */
module Resources {
  import opened Binary
  import opened Cbor
  import opened CborValues
  import opened DataPools
  import opened Text
  import opened Paths
  import opened Names
  import opened Contents
  import Blobs

  /** What a directory says about one of its names: a file, a link, or that the name is gone. */
  datatype Entry =
    | File(name: bytes, content: Content, metadata: Item)
    | Link(name: bytes, target: bytes, metadata: Item)
    | Tombstone(name: bytes)

  datatype Directory = Directory(path: bytes, metadata: Item, entries: seq<Entry>)

  datatype Layer = Layer(condition: Item, directories: seq<Directory>)

  datatype Root = Root(dataPool: Blobs.BlobRef, metadata: Item, layers: seq<Layer>)

  // ---------- Structural rules ----------

  const MIN_TIMESTAMP: int := -31_557_014_167_219_200_000_000_000
  const MAX_TIMESTAMP: int := 31_556_889_864_403_199_999_999_999

  predicate Timestamp(item: Option<Item>) {
    item == None || (AsInteger(item.value).Some? && MIN_TIMESTAMP <= AsInteger(item.value).value <= MAX_TIMESTAMP)
  }

  /** Metadata fields allowed on each kind of resource. */
  predicate ValidMetadata(item: Item, file: bool, permissions: bool) {
    && Blobs.IntegerKeys(item)
    && (var checksum := Get(item, 0);
        checksum.Some? ==> file && checksum.value.ByteString? && Blobs.IsChecksum(checksum.value.data))
    && (var comment := Get(item, 1); comment.Some? ==> comment.value.TextString?)
    && Timestamp(Get(item, 2)) && Timestamp(Get(item, 3)) && Timestamp(Get(item, 4))
    && (var mode := Get(item, 5);
        mode.Some? ==> permissions && mode.value.Unsigned? && mode.value.value <= 4095)
  }

  predicate ValidEntry(entry: Entry, limits: Limits) {
    && Plain(entry.name)
    && match entry
       case File(_, _, metadata) => ValidMetadata(metadata, true, true)
       case Link(_, target, metadata) => ValidPath(target, false, true, limits) && ValidMetadata(metadata, false, false)
       case Tombstone(_) => true
  }

  /** Strictly earlier in byte order. */
  predicate Before(a: bytes, b: bytes) {
    Less(a, b)
  }

  predicate ValidDirectory(directory: Directory, limits: Limits) {
    && ValidPath(directory.path, true, false, limits)
    && ValidMetadata(directory.metadata, false, true)
    && limits.Elements(|directory.entries|)
    && (forall i :: 0 <= i < |directory.entries| ==>
          ValidEntry(directory.entries[i], limits) && limits.Bytes(|Joined(directory.path, directory.entries[i].name)|))
    && (forall i :: 0 < i < |directory.entries| ==> Before(directory.entries[i - 1].name, directory.entries[i].name))
  }

  /** Every nonempty path that a layer needs as a directory. */
  function Closure(directories: seq<Directory>): (r: set<bytes>) {
    if directories == [] then {} else Ancestors(directories[0].path) + Closure(directories[1..])
  }

  /** The paths of the files and links directly in a directory. */
  function FilesIn(path: bytes, entries: seq<Entry>): set<bytes> {
    if entries == [] then {}
    else (if entries[0].Tombstone? then {} else {Joined(path, entries[0].name)}) + FilesIn(path, entries[1..])
  }

  function Files(directories: seq<Directory>): set<bytes> {
    if directories == [] then {} else FilesIn(directories[0].path, directories[0].entries) + Files(directories[1..])
  }

  /** One layer on its own: sorted unique paths and names, and no path both a directory and something else. */
  predicate ValidLayer(layer: Layer, limits: Limits) {
    var directories := layer.directories;
    && limits.Elements(|directories|)
    && (forall i :: 0 <= i < |directories| ==> ValidDirectory(directories[i], limits))
    && (forall i :: 0 < i < |directories| ==> Before(directories[i - 1].path, directories[i].path))
    && (Closure(directories) == {} || limits.Elements(|Closure(directories)| + 1))
    && limits.Elements(|Files(directories)|)
    && Closure(directories) !! Files(directories)
  }

  /** Integer keys or nonempty text keys, and an acceptable root name if there is one. */
  predicate ValidRootMetadata(item: Item) {
    && item.Map?
    && (forall i :: 0 <= i < |item.entries| ==>
          item.entries[i].key.Unsigned? || (item.entries[i].key.TextString? && item.entries[i].key.text != []))
    && (var name := Get(item, 0);
        name.Some? ==>
          name.value.TextString?
          && Plain(name.value.text) && 0x5c !in name.value.text && 0 !in name.value.text)
  }

  predicate ValidRoot(root: Root, limits: Limits) {
    && ValidRootMetadata(root.metadata)
    && limits.Elements(|root.layers|)
    && forall i :: 0 <= i < |root.layers| ==> ValidLayer(root.layers[i], limits)
  }

  // ---------- Writing ----------

  const FILE_TAG: bytes := [0x52, 0x45, 0x53, 0x00]
  const LINK_TAG: bytes := [0x53, 0x59, 0x4d, 0x4c]
  const TOMBSTONE_TAG: bytes := [0x54, 0x4f, 0x4d, 0x42]

  function WrittenEntry(entry: Entry, p: PoolState): (r: (bytes, PoolState))
    requires p.Consistent()
    ensures r.1.Consistent() && Grows(p, r.1)
  {
    var (name, p1) := WrittenName(entry.name, p);
    match entry
    case File(_, content, metadata) => (FILE_TAG + name + ContentBytes(content) + EncodeSized(metadata), p1)
    case Link(_, target, metadata) =>
      var (text, p2) := WrittenName(target, p1);
      GrowsTransitive(p, p1, p2);
      (LINK_TAG + name + text + EncodeSized(metadata), p2)
    case Tombstone(_) => (TOMBSTONE_TAG + name, p1)
  }

  function WrittenEntries(entries: seq<Entry>, p: PoolState): (r: (bytes, PoolState))
    requires p.Consistent()
    ensures r.1.Consistent() && Grows(p, r.1)
  {
    if entries == [] then GrowsReflexive(p); ([], p)
    else
      var (first, p1) := WrittenEntry(entries[0], p);
      var (rest, p2) := WrittenEntries(entries[1..], p1);
      GrowsTransitive(p, p1, p2);
      (first + rest, p2)
  }

  function WrittenDirectory(directory: Directory, p: PoolState): (r: (bytes, PoolState))
    requires p.Consistent()
    ensures r.1.Consistent() && Grows(p, r.1)
  {
    InternedGrows(p, directory.path);
    var (p1, index) := Interned(p, directory.path);
    var (entries, p2) := WrittenEntries(directory.entries, p1);
    GrowsTransitive(p, p1, p2);
    (Vuint(index) + EncodeSized(directory.metadata) + Vuint(|directory.entries|) + ContentBytes(InlineContent(entries)), p2)
  }

  function WrittenDirectories(directories: seq<Directory>, p: PoolState): (r: (bytes, PoolState))
    requires p.Consistent()
    ensures r.1.Consistent() && Grows(p, r.1)
  {
    if directories == [] then GrowsReflexive(p); ([], p)
    else
      var (first, p1) := WrittenDirectory(directories[0], p);
      var (rest, p2) := WrittenDirectories(directories[1..], p1);
      GrowsTransitive(p, p1, p2);
      (first + rest, p2)
  }

  function WrittenLayer(layer: Layer, p: PoolState): (r: (bytes, PoolState))
    requires p.Consistent()
    ensures r.1.Consistent() && Grows(p, r.1)
  {
    var (directories, q) := WrittenDirectories(layer.directories, p);
    (EncodeSized(layer.condition) + Vuint(|layer.directories|) + directories, q)
  }

  function WrittenLayers(layers: seq<Layer>, p: PoolState): (r: (bytes, PoolState))
    requires p.Consistent()
    ensures r.1.Consistent() && Grows(p, r.1)
  {
    if layers == [] then GrowsReflexive(p); ([], p)
    else
      var (first, p1) := WrittenLayer(layers[0], p);
      var (rest, p2) := WrittenLayers(layers[1..], p1);
      GrowsTransitive(p, p1, p2);
      (first + rest, p2)
  }

  /** The whole root, and the pool after interning every missing name. */
  function WrittenRoot(root: Root, p: PoolState): (r: (bytes, PoolState))
    requires p.Consistent()
    ensures r.1.Consistent() && Grows(p, r.1)
  {
    var (layers, q) := WrittenLayers(root.layers, p);
    (RefBytes(root.dataPool) + EncodeSized(root.metadata) + Vuint(|root.layers|) + layers, q)
  }

  predicate WritableEntries(entries: seq<Entry>) {
    forall i :: 0 <= i < |entries| ==> entries[i].File? ==> AllAdmissible(entries[i].content.steps)
  }

  predicate WritableDirectories(directories: seq<Directory>) {
    forall i :: 0 <= i < |directories| ==> WritableEntries(directories[i].entries)
  }

  predicate Writable(layers: seq<Layer>) {
    forall i :: 0 <= i < |layers| ==> WritableDirectories(layers[i].directories)
  }

  /** A root that breaks no rule, encoded within the writer's limits. */
  function EncodedRoot(root: Root, p: PoolState, limits: Limits): Option<(bytes, PoolState)>
    requires p.Consistent()
  {
    if ValidRoot(root, limits) && Writable(root.layers) && limits.Bytes(|WrittenRoot(root, p).0|)
    then Some(WrittenRoot(root, p)) else None
  }

  // ---------- Reading ----------

  function DirectoryEntryAt(pool: seq<bytes>, s: bytes, pos: nat, limits: Limits): (r: Read<Entry>)
    ensures r.Got? ==> pos < r.next <= |s|
  {
    match TakeAt(s, pos, 4)
    case Failed => Failed
    case Got(tag, start) =>
      match NameFrom(pool, s, start, limits)
      case Failed => Failed
      case Got(name, next) =>
        if tag == FILE_TAG then
          match ContentAt(s, next, limits)
          case Failed => Failed
          case Got(content, after) =>
            (match SizedItemAt(s, after, limits)
             case Failed => Failed
             case Got(metadata, end) => Got(File(name, content, metadata), end))
        else if tag == LINK_TAG then
          match NameFrom(pool, s, next, limits)
          case Failed => Failed
          case Got(target, after) =>
            (match SizedItemAt(s, after, limits)
             case Failed => Failed
             case Got(metadata, end) => Got(Link(name, target, metadata), end))
        else if tag == TOMBSTONE_TAG then Got(Tombstone(name), next)
        else Failed
  }

  function EntriesAt(pool: seq<bytes>, s: bytes, pos: nat, count: nat, limits: Limits): (r: Read<seq<Entry>>)
    ensures r.Got? ==> pos <= r.next && (pos <= |s| ==> r.next <= |s|)
    decreases count
  {
    if count == 0 then Got([], pos)
    else
      match DirectoryEntryAt(pool, s, pos, limits)
      case Failed => Failed
      case Got(first, next) =>
        match EntriesAt(pool, s, next, count - 1, limits)
        case Failed => Failed
        case Got(rest, end) => Got([first] + rest, end)
  }

  /** All entries of a directory, consuming every byte of its content. */
  function EntriesOf(view: Blobs.View, pool: seq<bytes>, content: Content, count: nat): Option<seq<Entry>> {
    match ResolveEntries(view, content)
    case None => None
    case Some(data) =>
      if !view.limits.Bytes(|data|) then None
      else
        match EntriesAt(pool, data, 0, count, view.limits)
        case Failed => None
        case Got(entries, end) => if end == |data| then Some(entries) else None
  }

  function DirectoryAt(view: Blobs.View, pool: seq<bytes>, s: bytes, pos: nat): (r: Read<Directory>)
    ensures r.Got? ==> pos < r.next <= |s|
  {
    match VuintAt(s, pos)
    case Failed => Failed
    case Got(index, a) =>
      match SizedItemAt(s, a, view.limits)
      case Failed => Failed
      case Got(metadata, b) =>
        match VuintAt(s, b)
        case Failed => Failed
        case Got(count, c) =>
          match ContentAt(s, c, view.limits)
          case Failed => Failed
          case Got(content, end) =>
            if TextAt(pool, index) == None || !view.limits.Elements(count) then Failed
            else
              match EntriesOf(view, pool, content, count)
              case None => Failed
              case Some(entries) => Got(Directory(TextAt(pool, index).value, metadata, entries), end)
  }

  function DirectoriesAt(view: Blobs.View, pool: seq<bytes>, s: bytes, pos: nat, count: nat): (r: Read<seq<Directory>>)
    ensures r.Got? ==> pos <= r.next && (pos <= |s| ==> r.next <= |s|)
    decreases count
  {
    if count == 0 then Got([], pos)
    else
      match DirectoryAt(view, pool, s, pos)
      case Failed => Failed
      case Got(first, next) =>
        match DirectoriesAt(view, pool, s, next, count - 1)
        case Failed => Failed
        case Got(rest, end) => Got([first] + rest, end)
  }

  /** Conditions are checked by their own schema, which may be any test. */
  function LayerAt(view: Blobs.View, accepts: Item -> bool, pool: seq<bytes>, s: bytes, pos: nat): (r: Read<Layer>)
    ensures r.Got? ==> pos < r.next <= |s|
  {
    match SizedItemAt(s, pos, view.limits)
    case Failed => Failed
    case Got(condition, a) =>
      match VuintAt(s, a)
      case Failed => Failed
      case Got(count, b) =>
        if !accepts(condition) || !view.limits.Elements(count) then Failed
        else
          match DirectoriesAt(view, pool, s, b, count)
          case Failed => Failed
          case Got(directories, end) => Got(Layer(condition, directories), end)
  }

  function LayersAt(view: Blobs.View, accepts: Item -> bool, pool: seq<bytes>, s: bytes, pos: nat, count: nat): (r: Read<seq<Layer>>)
    ensures r.Got? ==> pos <= r.next && (pos <= |s| ==> r.next <= |s|)
    decreases count
  {
    if count == 0 then Got([], pos)
    else
      match LayerAt(view, accepts, pool, s, pos)
      case Failed => Failed
      case Got(first, next) =>
        match LayersAt(view, accepts, pool, s, next, count - 1)
        case Failed => Failed
        case Got(rest, end) => Got([first] + rest, end)
  }

  /** The metadata and layers after the pool reference. */
  function BodyAt(view: Blobs.View, accepts: Item -> bool, pool: seq<bytes>, s: bytes, pos: nat): (r: Read<(Item, seq<Layer>)>)
    ensures r.Got? ==> r.next <= |s|
  {
    match SizedItemAt(s, pos, view.limits)
    case Failed => Failed
    case Got(metadata, a) =>
      match VuintAt(s, a)
      case Failed => Failed
      case Got(count, b) =>
        if !view.limits.Elements(count) then Failed
        else
          match LayersAt(view, accepts, pool, s, b, count)
          case Failed => Failed
          case Got(layers, end) => Got((metadata, layers), end)
  }

  /** The entries of the data pool that a reference names. */
  function PoolAt(view: Blobs.View, reference: Blobs.BlobRef): Option<seq<bytes>> {
    match Blobs.Resolve(view, reference, false)
    case None => None
    case Some(encoded) => DecodePool(encoded, view.limits)
  }

  /** The root that the whole input encodes and its pool of names; files keep their descriptors. */
  function DecodedRoot(view: Blobs.View, accepts: Item -> bool, s: bytes): Option<(Root, seq<bytes>)> {
    if !view.limits.Bytes(|s|) then None
    else
      match RefAt(s, 0)
      case Failed => None
      case Got(reference, start) =>
        match PoolAt(view, reference)
        case None => None
        case Some(pool) =>
          match BodyAt(view, accepts, pool, s, start)
          case Failed => None
          case Got((metadata, layers), end) =>
            var root := Root(reference, metadata, layers);
            if end == |s| && ValidRoot(root, view.limits) then Some((root, pool)) else None
  }

  // ---------- What a reader's limits admit ----------

  predicate FitsName(name: bytes, limits: Limits) {
    name != [] && Utf8(name) && limits.Bytes(|name|) && (HasClassSuffix(name) ==> limits.Elements(2))
  }

  predicate FitsEntry(entry: Entry, limits: Limits) {
    && FitsName(entry.name, limits)
    && match entry
       case File(_, content, metadata) => FitsContent(content, limits) && FitsItem(metadata, limits)
       case Link(_, target, metadata) => FitsName(target, limits) && FitsItem(metadata, limits)
       case Tombstone(_) => true
  }

  predicate FitsDirectory(directory: Directory, limits: Limits) {
    && Utf8(directory.path) && FitsItem(directory.metadata, limits)
    && limits.Elements(|directory.entries|)
    && forall i :: 0 <= i < |directory.entries| ==> FitsEntry(directory.entries[i], limits)
  }

  predicate FitsLayer(layer: Layer, accepts: Item -> bool, limits: Limits) {
    && accepts(layer.condition) && FitsItem(layer.condition, limits)
    && limits.Elements(|layer.directories|)
    && forall i :: 0 <= i < |layer.directories| ==> FitsDirectory(layer.directories[i], limits)
  }

  /** Names are UTF-8, values are deterministic CBOR, and no part exceeds a limit. */
  predicate FitsRoot(root: Root, accepts: Item -> bool, limits: Limits) {
    && FitsItem(root.metadata, limits)
    && limits.Elements(|root.layers|)
    && forall i :: 0 <= i < |root.layers| ==> FitsLayer(root.layers[i], accepts, limits)
  }

  // ---------- Reading a file ----------

  /** Restores a file's logical bytes and verifies its checksum, if it has one. */
  function ReadFile(view: Blobs.View, content: Content, metadata: Item, pool: seq<bytes>): Option<bytes> {
    match ResolveFile(view, content, pool)
    case None => None
    case Some(data) =>
      match Get(metadata, 0)
      case None => Some(data)
      case Some(item) =>
        if item.ByteString? && Blobs.IsChecksum(item.data) && Blobs.Verifies(view.codec, item.data, data)
        then Some(data) else None
  }
}
