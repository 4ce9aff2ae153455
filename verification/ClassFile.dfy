/** Class files whose constant-pool strings move into a shared pool (JVMS, section 4.4), and how they come back. */
module ClassFile {
  import opened Binary
  import opened DataPools
  import opened Text

  /** A constant-pool record: its tag and its exact body. */
  datatype Constant = Constant(tag: byte, body: bytes)

  const CLASS_MAGIC: bytes := [0xca, 0xfe, 0xba, 0xbe]
  const TRANSFORMED_MAGIC: bytes := [0xca, 0xfe, 0xca, 0x70]

  const CLASS_TAG: byte := 0xfe
  const TEMPLATE_TAG: byte := 0xfd
  const STRING_TAG: byte := 0xff

  // ---------- Constant-pool framing ----------

  /** The body length of a fixed-size record, or zero for UTF-8 and unknown tags. */
  function FixedLength(tag: byte): nat {
    match tag
    case 3 | 4 | 9 | 10 | 11 | 12 | 17 | 18 => 4
    case 5 | 6 => 8
    case 7 | 8 | 16 | 19 | 20 => 2
    case 15 => 3
    case _ => 0
  }

  /** Long and double constants occupy two slots. */
  predicate Wide(tag: byte) {
    tag == 5 || tag == 6
  }

  function BodyAt(tag: byte, s: bytes, pos: nat): (r: Read<bytes>)
    ensures r.Got? ==> pos < r.next <= |s|
  {
    if tag == 1 then
      if pos + 2 > |s| then Failed else TakeAt(s, pos, 2 + FromBe16(s[pos], s[pos + 1]))
    else if FixedLength(tag) > 0 then TakeAt(s, pos, FixedLength(tag))
    else Failed
  }

  /** The constants filling the slots from `slot` to `count`. */
  function ScanFrom(s: bytes, pos: nat, slot: nat, count: nat): (r: Read<seq<Option<Constant>>>)
    ensures r.Got? ==> pos <= r.next && (pos <= |s| ==> r.next <= |s|)
    decreases count - slot
  {
    if slot >= count then Got([], pos)
    else if pos >= |s| then Failed
    else
      match BodyAt(s[pos], s, pos + 1)
      case Failed => Failed
      case Got(body, next) =>
        var slots := if Wide(s[pos]) then [Some(Constant(s[pos], body)), None] else [Some(Constant(s[pos], body))];
        if slot + |slots| > count then Failed
        else
          match ScanFrom(s, next, slot + |slots|, count)
          case Failed => Failed
          case Got(rest, end) => Got(slots + rest, end)
  }

  /** All slots including the unused slot zero, and where the class body starts. */
  datatype Scanned = Scanned(constants: seq<Option<Constant>>, bodyStart: nat)

  function ScanPool(s: bytes, limits: Limits): (r: Result<Scanned>)
    ensures r.Ok? ==> 10 <= r.value.bodyStart <= |s|
  {
    if !limits.Bytes(|s|) then Err(LimitExceeded)
    else if |s| < 10 || s[..4] != CLASS_MAGIC then Err(Invalid)
    else
      var count := FromBe16(s[8], s[9]);
      if !limits.Elements(count) then Err(LimitExceeded)
      else if count == 0 then Err(Invalid)
      else
        match ScanFrom(s, 10, 1, count)
        case Failed => Err(Invalid)
        case Got(constants, next) => Ok(Scanned([None] + constants, next))
  }

  // ---------- Choosing encodings ----------

  /** Modified UTF-8 that is also UTF-8: no zero byte and nothing beyond the basic plane. */
  predicate Eligible(text: bytes) {
    Utf8(text) && forall b :: b in text ==> b != 0 && b < 0xf0
  }

  /** Where a class name inside a descriptor stops. */
  function NameEnd(s: bytes, pos: nat): (r: nat)
    requires pos <= |s|
    ensures pos <= r <= |s|
    decreases |s| - pos
  {
    if pos < |s| && s[pos] !in STOPPERS then NameEnd(s, pos + 1) else pos
  }

  /** The bytes `;<.:>[()` end a name; only the first three end one that is shared. */
  const STOPPERS: bytes := [0x3b, 0x3c, 0x2e, 0x3a, 0x3e, 0x5b, 0x28, 0x29]
  const SHARED_STOPPERS: bytes := [0x3b, 0x3c, 0x2e]

  const LETTER_L: byte := 0x4c

  /** A descriptor starts with one of `([L<`. */
  const TEMPLATE_STARTS: bytes := [0x28, 0x5b, 0x4c, 0x3c]

  predicate SharedName(s: bytes, start: nat, end: nat)
    requires start <= end <= |s|
  {
    && start < end < |s|
    && s[end] in SHARED_STOPPERS
    && s[start] != SLASH
    && s[end - 1] != SLASH
  }

  /** A reference to two pool entries, and the pool after interning them. */
  function NameReference(name: bytes, p: PoolState): (r: (bytes, PoolState))
    requires p.Consistent()
    ensures r.1.Consistent() && Grows(p, r.1)
  {
    var (p1, package) := Interned(p, PackageOf(name));
    var (p2, simple) := Interned(p1, NameOf(name));
    InternedGrows(p, PackageOf(name));
    InternedGrows(p1, NameOf(name));
    GrowsTransitive(p, p1, p2);
    (Vuint(package) + Vuint(simple), p2)
  }

  /** The template for `s` from `pos`: its bytes, whether anything is shared, and the pool. */
  datatype Template = Template(output: bytes, changed: bool, pool: PoolState)

  function TemplateFrom(s: bytes, pos: nat, p: PoolState): (r: Template)
    requires p.Consistent() && pos <= |s|
    ensures r.pool.Consistent() && Grows(p, r.pool)
    ensures !r.changed ==> r.pool == p
    decreases |s| - pos
  {
    if pos == |s| then GrowsReflexive(p); Template([], false, p)
    else if s[pos] != LETTER_L then
      var rest := TemplateFrom(s, pos + 1, p);
      rest.(output := [s[pos]] + rest.output)
    else
      var start := pos + 1;
      var end := NameEnd(s, start);
      var (reference, q) := NameReference(s[start..end], p);
      if SharedName(s, start, end) && 1 + |reference| < end - start then
        var rest := TemplateFrom(s, end, q);
        GrowsTransitive(p, q, rest.pool);
        Template([LETTER_L, 0] + reference + rest.output, true, rest.pool)
      else
        var rest := TemplateFrom(s, end, p);
        rest.(output := [LETTER_L] + s[start..end] + rest.output)
  }

  /** Only strings shaped like descriptors and signatures are tried. */
  function EncodedTemplate(text: bytes, p: PoolState): (r: Template)
    requires p.Consistent()
    ensures r.pool.Consistent() && Grows(p, r.pool)
    ensures !r.changed ==> r.pool == p
  {
    GrowsReflexive(p);
    if text != [] && text[0] in TEMPLATE_STARTS then TemplateFrom(text, 0, p) else Template([], false, p)
  }

  /** The candidate external form of one eligible string; empty when there is none. */
  function Candidate(text: bytes, isClass: bool, p: PoolState): (r: (bytes, PoolState))
    requires p.Consistent()
    ensures r.1.Consistent() && Grows(p, r.1)
  {
    if isClass && (text == [] || (text[0] != 0x5b && text[0] != SLASH)) then
      if NameOf(text) == [] then GrowsReflexive(p); ([], p)
      else var (reference, q) := NameReference(text, p); ([CLASS_TAG] + reference, q)
    else
      var template := EncodedTemplate(text, p);
      if template.changed then
        var (q, index) := Interned(template.pool, template.output);
        InternedGrows(template.pool, template.output);
        GrowsTransitive(p, template.pool, q);
        ([TEMPLATE_TAG] + Vuint(index), q)
      else
        var (q, index) := Interned(template.pool, text);
        InternedGrows(p, text);
        ([STRING_TAG] + Vuint(index), q)
  }

  /** The external form that replaces a constant, or nothing when it would not pay off. */
  function Replacement(c: Constant, isClass: bool, p: PoolState): (r: (bytes, PoolState))
    requires p.Consistent()
    ensures r.1.Consistent() && Grows(p, r.1)
    ensures r.0 == [] ==> r.1 == p
  {
    GrowsReflexive(p);
    if c.tag != 1 || |c.body| < 2 || !Eligible(c.body[2..]) then ([], p)
    else
      var (candidate, q) := Candidate(c.body[2..], isClass, p);
      if |candidate| > |c.body| then ([], p) else (candidate, q)
  }

  /** Slots named by Class constants. */
  function Classes(constants: seq<Option<Constant>>): set<nat> {
    set c | c in constants && c.Some? && c.value.tag == 7 && |c.value.body| >= 2
      :: FromBe16(c.value.body[0], c.value.body[1])
  }

  function TransformFrom(constants: seq<Option<Constant>>, slot: nat, classes: set<nat>, p: PoolState): (r: (bytes, PoolState))
    requires p.Consistent() && slot <= |constants|
    ensures r.1.Consistent() && Grows(p, r.1)
    decreases |constants| - slot
  {
    if slot == |constants| then GrowsReflexive(p); ([], p)
    else if constants[slot] == None then TransformFrom(constants, slot + 1, classes, p)
    else
      var c := constants[slot].value;
      var (replacement, q) := Replacement(c, slot in classes, p);
      var (rest, end) := TransformFrom(constants, slot + 1, classes, q);
      GrowsTransitive(p, q, end);
      ((if replacement == [] then [c.tag] + c.body else replacement) + rest, end)
  }

  /** What a call returns and the pool it leaves behind. */
  datatype Transformed = Transformed(outcome: Result<Option<bytes>>, pool: PoolState)

  /** A smaller class file whose strings live in the pool, or nothing with the pool unchanged. */
  function Transform(s: bytes, p: PoolState, limits: Limits): (r: Transformed)
    requires p.Consistent()
    ensures r.pool.Consistent() && Grows(p, r.pool)
    ensures !(r.outcome.Ok? && r.outcome.value.Some?) ==> r.pool == p
  {
    GrowsReflexive(p);
    match ScanPool(s, limits)
    case Err(kind) => Transformed(Err(kind), p)
    case Ok(Scanned(constants, bodyStart)) =>
      var (pool, q) := TransformFrom(constants, 1, Classes(constants), p);
      var output := TRANSFORMED_MAGIC + s[4..10] + pool + s[bodyStart..];
      if |output| + |Vuint(|s|)| + 2 >= |s| then Transformed(Ok(None), p)
      else Transformed(Ok(Some(output)), q)
  }

  // ---------- Restoring ----------

  const MAX_STRING: nat := 65535

  /** The position of the next zero byte, or the end. */
  function NextZero(s: bytes, pos: nat): (r: nat)
    requires pos <= |s|
    ensures pos <= r <= |s| && (r < |s| ==> s[r] == 0)
    ensures forall i :: pos <= i < r ==> s[i] != 0
    decreases |s| - pos
  {
    if pos < |s| && s[pos] != 0 then NextZero(s, pos + 1) else pos
  }

  /** The class name named by two indices at `pos`. */
  function NameAt(s: bytes, pos: nat, entries: seq<bytes>): (r: Read<bytes>)
    ensures r.Got? ==> pos < r.next <= |s|
  {
    match VuintAt(s, pos)
    case Failed => Failed
    case Got(package, next) =>
      match VuintAt(s, next)
      case Failed => Failed
      case Got(name, end) =>
        if package < |entries| && name < |entries| && entries[name] != []
        then Got(ClassName(entries[package], entries[name]), end)
        else Failed
  }

  predicate Fits(length: nat, limits: Limits) {
    length <= MAX_STRING && limits.Bytes(length)
  }

  /** Expands a template from `pos`, after `done` has been produced. */
  function ExpandFrom(s: bytes, pos: nat, done: bytes, entries: seq<bytes>, limits: Limits): Option<bytes>
    requires pos <= |s|
    decreases |s| - pos
  {
    if pos == |s| then Some(done)
    else
      var zero := NextZero(s, pos);
      var literal := done + s[pos..zero];
      if !Fits(|literal|, limits) then None
      else if zero == |s| then Some(literal)
      else
        match NameAt(s, zero + 1, entries)
        case Failed => None
        case Got(name, next) =>
          if !Fits(|literal + name|, limits) then None else ExpandFrom(s, next, literal + name, entries, limits)
  }

  function Expand(s: bytes, entries: seq<bytes>, limits: Limits): Option<bytes> {
    if limits.Bytes(|s|) then ExpandFrom(s, 0, [], entries, limits) else None
  }

  /** The string that an external record at `pos` stands for. */
  function ExternalAt(tag: byte, s: bytes, pos: nat, entries: seq<bytes>, limits: Limits): (r: Read<bytes>)
    ensures r.Got? ==> pos < r.next <= |s|
    ensures r.Got? ==> |r.value| <= MAX_STRING
  {
    if tag == CLASS_TAG then
      match NameAt(s, pos, entries)
      case Failed => Failed
      case Got(name, next) => if |name| <= MAX_STRING then Got(name, next) else Failed
    else
      match VuintAt(s, pos)
      case Failed => Failed
      case Got(index, next) =>
        if index >= |entries| then Failed
        else if tag == STRING_TAG then
          if |entries[index]| <= MAX_STRING then Got(entries[index], next) else Failed
        else
          match Expand(entries[index], entries, limits)
          case None => Failed
          case Some(text) => if |text| <= MAX_STRING then Got(text, next) else Failed
  }

  predicate External(tag: byte) {
    tag >= 0xfd
  }

  /** The ordinary record that the bytes at `pos` stand for. */
  function RecordAt(s: bytes, pos: nat, entries: seq<bytes>, limits: Limits): (r: Read<bytes>)
    requires pos < |s|
    ensures r.Got? ==> pos < r.next <= |s|
  {
    if External(s[pos]) then
      match ExternalAt(s[pos], s, pos + 1, entries, limits)
      case Failed => Failed
      case Got(text, next) => Got([1] + Be16(|text|) + text, next)
    else
      match BodyAt(s[pos], s, pos + 1)
      case Failed => Failed
      case Got(body, next) => Got([s[pos]] + body, next)
  }

  /** Restores the slots from `slot` to `count` and then the class body, after `done`. */
  function RestoreFrom(s: bytes, pos: nat, slot: nat, count: nat, done: bytes, entries: seq<bytes>, limits: Limits): Option<bytes>
    requires pos <= |s|
    decreases count - slot
  {
    if slot >= count then
      if limits.Bytes(|done| + |s| - pos) then Some(done + s[pos..]) else None
    else if pos == |s| then None
    else
      match RecordAt(s, pos, entries, limits)
      case Failed => None
      case Got(record, next) =>
        var width := if Wide(s[pos]) then 2 else 1;
        if !limits.Bytes(|done| + |record|) || slot + width > count then None
        else RestoreFrom(s, next, slot + width, count, done + record, entries, limits)
  }

  /** The ordinary class file that a transformed one stands for. */
  function Restore(s: bytes, entries: seq<bytes>, limits: Limits): Option<bytes> {
    if !limits.Bytes(|s|) || |s| < 10 || s[..4] != TRANSFORMED_MAGIC then None
    else
      var count := FromBe16(s[8], s[9]);
      if count == 0 || !limits.Elements(count) then None
      else RestoreFrom(s, 10, 1, count, CLASS_MAGIC + s[4..10], entries, limits)
  }
}
