/** JAR manifests: sections of folded headers, and the form written for a runtime. */
module Manifests {
  import opened Binary
  import opened Text
  import opened Orders

  /** Values by lowercase header name. */
  type Attributes = map<bytes, bytes>

  datatype Manifest = Manifest(main: Attributes, entries: map<bytes, Attributes>)

  const EMPTY := Manifest(map[], map[])

  const CR: byte := 0x0d
  const LF: byte := 0x0a
  const SPACE: byte := 0x20
  const COLON: byte := 0x3a

  predicate Newline(b: byte) {
    b == CR || b == LF
  }

  // ---------- Lines ----------

  function LineEnd(s: bytes, pos: nat): (r: Option<nat>)
    requires pos <= |s|
    ensures r.Some? ==> pos <= r.value < |s| && Newline(s[r.value]) && forall i :: pos <= i < r.value ==> !Newline(s[i])
    ensures r == None ==> forall i :: pos <= i < |s| ==> !Newline(s[i])
    decreases |s| - pos
  {
    if pos == |s| then None else if Newline(s[pos]) then Some(pos) else LineEnd(s, pos + 1)
  }

  /** The position after the line break at `end`; CRLF is one break. */
  function AfterBreak(s: bytes, end: nat): (r: nat)
    requires end < |s|
    ensures end < r <= |s|
  {
    if s[end] == CR && end + 1 < |s| && s[end + 1] == LF then end + 2 else end + 1
  }

  /** The newline-terminated lines from `pos` on. */
  function LinesFrom(s: bytes, pos: nat): Option<seq<bytes>>
    requires pos <= |s|
    decreases |s| - pos
  {
    if pos == |s| then Some([])
    else
      match LineEnd(s, pos)
      case None => None
      case Some(end) =>
        match LinesFrom(s, AfterBreak(s, end))
        case None => None
        case Some(rest) => Some([s[pos..end]] + rest)
  }

  // ---------- Sections ----------

  predicate Alphanumeric(b: byte) {
    0x30 <= b <= 0x39 || 0x41 <= b <= 0x5a || 0x61 <= b <= 0x7a
  }

  predicate HeaderByte(b: byte) {
    Alphanumeric(b) || b == 0x2d || b == 0x5f
  }

  /** At most seventy bytes, so that a name and its separator fit on one line. */
  predicate HeaderName(name: bytes) {
    name != [] && |name| <= 70 && Alphanumeric(name[0]) && forall i :: 0 <= i < |name| ==> HeaderByte(name[i])
  }

  function LowerByte(b: byte): byte {
    if 0x41 <= b <= 0x5a then b + 0x20 else b
  }

  function Lower(s: bytes): (r: bytes)
    ensures |r| == |s| && forall i :: 0 <= i < |s| ==> r[i] == LowerByte(s[i])
  {
    if s == [] then [] else [LowerByte(s[0])] + Lower(s[1..])
  }

  function ColonIn(line: bytes): (r: Option<nat>)
    ensures r.Some? ==> r.value < |line| && line[r.value] == COLON && COLON !in line[..r.value]
    ensures r == None ==> COLON !in line
  {
    if line == [] then None
    else if line[0] == COLON then Some(0)
    else
      match ColonIn(line[1..])
      case None => None
      case Some(i) => assert line[..i + 1] == [line[0]] + line[1..][..i]; Some(i + 1)
  }

  /** The lowercase name and the value of a header line. */
  function HeaderOf(line: bytes): Option<(bytes, bytes)> {
    match ColonIn(line)
    case None => None
    case Some(colon) =>
      if HeaderName(line[..colon]) && colon + 1 < |line| && line[colon + 1] == SPACE
      then Some((Lower(line[..colon]), line[colon + 2..])) else None
  }

  /** The bytes of `name`. */
  const NAME: bytes := [0x6e, 0x61, 0x6d, 0x65]

  /** Adds attributes in order; the last value of a name stays. */
  function Added(target: Attributes, section: seq<(bytes, bytes)>): Option<Attributes> {
    if section == [] then Some(target)
    else
      match Added(target, section[..|section| - 1])
      case None => None
      case Some(before) =>
        var (name, value) := section[|section| - 1];
        if !Utf8(value) || name == NAME then None else Some(before[name := value])
  }

  /** A completed section joins the main attributes or the entry it names. */
  function WithSection(m: Manifest, section: seq<(bytes, bytes)>, main: bool): Option<Manifest> {
    if section == [] then Some(m)
    else if main then
      match Added(m.main, section)
      case None => None
      case Some(attributes) => Some(m.(main := attributes))
    else if section[0].0 != NAME || section[0].1 == [] || !Utf8(section[0].1) then None
    else
      var entry := section[0].1;
      match Added(if entry in m.entries then m.entries[entry] else map[], section[1..])
      case None => None
      case Some(attributes) => Some(m.(entries := m.entries[entry := attributes]))
  }

  /** What the lines make of a manifest, given the section read so far. */
  function ParseLines(lines: seq<bytes>, section: seq<(bytes, bytes)>, main: bool, m: Manifest, limits: Limits): Option<Manifest> {
    if lines == [] then WithSection(m, section, main)
    else
      var line := lines[0];
      if 0 in line then None
      else if line == [] then
        match WithSection(m, section, main)
        case None => None
        case Some(next) => ParseLines(lines[1..], [], false, next, limits)
      else if line[0] == SPACE then
        if section == [] || !limits.Bytes(|section[|section| - 1].1| + |line| - 1) then None
        else
          var (name, value) := section[|section| - 1];
          ParseLines(lines[1..], section[..|section| - 1] + [(name, value + line[1..])], main, m, limits)
      else
        match HeaderOf(line)
        case None => None
        case Some(header) =>
          if !limits.Elements(|section| + 1) then None else ParseLines(lines[1..], section + [header], main, m, limits)
  }

  /** A whole manifest; an unterminated last line is an error. */
  function Parsed(s: bytes, limits: Limits): Option<Manifest> {
    if !limits.Bytes(|s|) then None
    else
      match LinesFrom(s, 0)
      case None => None
      case Some(lines) =>
        match ParseLines(lines, [], true, EMPTY, limits)
        case None => None
        case Some(m) => if limits.Elements(|m.entries|) then Some(m) else None
  }

  // ---------- Writing ----------

  const WIDTH: nat := 72

  /** The lines after the first, each starting with a space. */
  function Continuations(rest: bytes): seq<bytes> {
    if rest == [] then []
    else if |rest| < WIDTH then [[SPACE] + rest]
    else [[SPACE] + rest[..WIDTH - 1]] + Continuations(rest[WIDTH - 1..])
  }

  /** A header folded at 72 bytes, wherever that falls. */
  function Folded(header: bytes): seq<bytes> {
    if |header| <= WIDTH then [header] else [header[..WIDTH]] + Continuations(header[WIDTH..])
  }

  function Header(name: bytes, value: bytes): bytes {
    name + [COLON, SPACE] + value
  }

  function TextOf(lines: seq<bytes>): bytes {
    if lines == [] then [] else lines[0] + [CR, LF] + TextOf(lines[1..])
  }

  /** The bytes of `Manifest-Version`, `manifest-version`, `class-path`, `Name` and `1.0`. */
  const VERSION_HEADER: bytes := [0x4d, 0x61, 0x6e, 0x69, 0x66, 0x65, 0x73, 0x74, 0x2d, 0x56, 0x65, 0x72, 0x73, 0x69, 0x6f, 0x6e]
  const VERSION: bytes := [0x6d, 0x61, 0x6e, 0x69, 0x66, 0x65, 0x73, 0x74, 0x2d, 0x76, 0x65, 0x72, 0x73, 0x69, 0x6f, 0x6e]
  const CLASS_PATH: bytes := [0x63, 0x6c, 0x61, 0x73, 0x73, 0x2d, 0x70, 0x61, 0x74, 0x68]
  const NAME_HEADER: bytes := [0x4e, 0x61, 0x6d, 0x65]
  const DEFAULT_VERSION: bytes := [0x31, 0x2e, 0x30]

  /** The bytes of `signature-version`, `magic`, `-digest` and `-digest-`. */
  const SIGNATURE_VERSION: bytes := [0x73, 0x69, 0x67, 0x6e, 0x61, 0x74, 0x75, 0x72, 0x65, 0x2d, 0x76, 0x65, 0x72, 0x73, 0x69, 0x6f, 0x6e]
  const MAGIC: bytes := [0x6d, 0x61, 0x67, 0x69, 0x63]
  const DIGEST: bytes := [0x2d, 0x64, 0x69, 0x67, 0x65, 0x73, 0x74]
  const DIGEST_DASH: bytes := DIGEST + [0x2d]

  predicate PartAt(s: bytes, part: bytes, i: nat) {
    i + |part| <= |s| && s[i..i + |part|] == part
  }

  predicate Contains(s: bytes, part: bytes) {
    exists i :: 0 <= i <= |s| && PartAt(s, part, i)
  }

  /** Attributes that only make sense while the archive is signed. */
  predicate SignatureHeader(name: bytes) {
    || name == SIGNATURE_VERSION || name == MAGIC
    || (|name| >= |DIGEST| && name[|name| - |DIGEST|..] == DIGEST)
    || Contains(name, DIGEST_DASH)
  }

  function VersionOf(m: Manifest): bytes {
    if VERSION in m.main then m.main[VERSION] else DEFAULT_VERSION
  }

  /** Main attributes written after the version. */
  function MainKept(m: Manifest): Attributes {
    map name | name in m.main && name != VERSION && name != CLASS_PATH && !SignatureHeader(name) :: m.main[name]
  }

  function AttributesKept(attributes: Attributes): Attributes {
    map name | name in attributes && !SignatureHeader(name) :: attributes[name]
  }

  /** Entries that keep at least one attribute. */
  function EntriesKept(m: Manifest): map<bytes, Attributes> {
    map entry | entry in m.entries && AttributesKept(m.entries[entry]) != map[] :: AttributesKept(m.entries[entry])
  }

  /** The manifest that a runtime should see. */
  function ForRuntime(m: Manifest): Manifest {
    Manifest(MainKept(m)[VERSION := VersionOf(m)], EntriesKept(m))
  }

  function HeaderLines(attributes: Attributes, names: seq<bytes>): seq<bytes>
    requires forall name :: name in names ==> name in attributes
  {
    if names == [] then []
    else HeaderLines(attributes, names[..|names| - 1]) + Folded(Header(names[|names| - 1], attributes[names[|names| - 1]]))
  }

  function EntryLines(name: bytes, attributes: Attributes): seq<bytes> {
    Folded(Header(NAME_HEADER, name)) + HeaderLines(attributes, Sorted(attributes.Keys)) + [[]]
  }

  function EntriesLines(entries: map<bytes, Attributes>, names: seq<bytes>): seq<bytes>
    requires forall name :: name in names ==> name in entries
  {
    if names == [] then []
    else EntriesLines(entries, names[..|names| - 1]) + EntryLines(names[|names| - 1], entries[names[|names| - 1]])
  }

  /** The version, the kept main attributes, and each kept entry after a blank line. */
  function RuntimeLines(m: Manifest): seq<bytes> {
    Folded(Header(VERSION_HEADER, VersionOf(m))) + HeaderLines(MainKept(m), Sorted(MainKept(m).Keys)) + [[]]
    + EntriesLines(EntriesKept(m), Sorted(EntriesKept(m).Keys))
  }

  function RuntimeText(m: Manifest): bytes {
    TextOf(RuntimeLines(m))
  }
}
