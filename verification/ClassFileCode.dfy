/** The class-file transform as it runs: cursors, a growing output, and a pool rolled back in place. */
module ClassFileCode {
  import opened Binary
  import opened DataPools
  import opened Text
  import opened ClassFile

  // ---------- Scanning ----------

  method ReadU16(decoder: Decoder) returns (r: Option<nat>)
    requires decoder.Valid()
    modifies decoder
    ensures decoder.Valid()
    ensures var pos := old(decoder.position);
            if pos + 2 <= |decoder.input|
            then r == Some(FromBe16(decoder.input[pos], decoder.input[pos + 1])) && decoder.position == pos + 2
            else r == None
  {
    var two := decoder.Take(2);
    r := if two.Some? then Some(FromBe16(two.value[0], two.value[1])) else None;
  }

  method ReadConstant(tag: byte, decoder: Decoder) returns (ok: bool)
    requires decoder.Valid()
    modifies decoder
    ensures decoder.Valid()
    ensures match BodyAt(tag, decoder.input, old(decoder.position))
            case Got(body, next) => ok && decoder.position == next && old(decoder.position) <= next
                                 && decoder.input[old(decoder.position)..next] == body
            case Failed => !ok
  {
    var taken: Option<bytes>;
    if tag == 1 {
      var length := ReadU16(decoder);
      if length == None {
        return false;
      }
      taken := decoder.Take(length.value);
    } else {
      if FixedLength(tag) == 0 {
        return false;
      }
      taken := decoder.Take(FixedLength(tag));
    }
    ok := taken.Some?;
  }

  /** `whole` is what the remaining slots give once those already read are put before them. */
  ghost predicate SlotsPending(whole: Read<seq<Option<Constant>>>, done: seq<Option<Constant>>,
                               rest: Read<seq<Option<Constant>>>) {
    match rest
    case Failed => whole == Failed
    case Got(more, next) => whole == Got(done + more, next)
  }

  lemma SlotsStep(whole: Read<seq<Option<Constant>>>, done: seq<Option<Constant>>, s: bytes, pos: nat, slot: nat, count: nat)
    requires slot < count && SlotsPending(whole, done, ScanFrom(s, pos, slot, count))
    ensures
      if pos >= |s| || BodyAt(s[pos], s, pos + 1) == Failed then whole == Failed
      else
        var body := BodyAt(s[pos], s, pos + 1);
        var c := Some(Constant(s[pos], body.value));
        var slots := if Wide(s[pos]) then [c, None] else [c];
        if slot + |slots| > count then whole == Failed
        else SlotsPending(whole, done + slots, ScanFrom(s, body.next, slot + |slots|, count))
  {
    if pos < |s| && BodyAt(s[pos], s, pos + 1).Got? {
      var body := BodyAt(s[pos], s, pos + 1);
      var c := Some(Constant(s[pos], body.value));
      var slots := if Wide(s[pos]) then [c, None] else [c];
      if slot + |slots| <= count {
        var rest := ScanFrom(s, body.next, slot + |slots|, count);
        if rest.Got? {
          assert done + (slots + rest.value) == done + slots + rest.value;
        }
      }
    }
  }

  lemma SlotsStart(s: bytes, pos: nat, slot: nat, count: nat)
    ensures SlotsPending(match ScanFrom(s, pos, slot, count)
                         case Failed => Failed
                         case Got(slots, next) => Got([None] + slots, next), [None], ScanFrom(s, pos, slot, count))
  {
  }

  method Scan(s: bytes, limits: Limits) returns (r: Result<Scanned>)
    ensures r == ScanPool(s, limits)
  {
    if !limits.Bytes(|s|) {
      return Err(LimitExceeded);
    }
    var decoder := new Decoder(s, limits);
    var magic := decoder.Take(4);
    if magic != Some(CLASS_MAGIC) {
      return Err(Invalid);
    }
    var version := decoder.Take(4);
    if version == None {
      return Err(Invalid);
    }
    var count := ReadU16(decoder);
    if count == None {
      return Err(Invalid);
    }
    if !limits.Elements(count.value) {
      return Err(LimitExceeded);
    }
    if count.value == 0 {
      return Err(Invalid);
    }
    var constants := ScanSlots(decoder, count.value);
    r := if constants == None then Err(Invalid) else Ok(Scanned(constants.value, decoder.position));
  }

  method ScanSlots(decoder: Decoder, count: nat) returns (r: Option<seq<Option<Constant>>>)
    requires decoder.Valid() && count > 0
    modifies decoder
    ensures decoder.Valid()
    ensures match ScanFrom(decoder.input, old(decoder.position), 1, count)
            case Failed => r == None
            case Got(slots, next) => r == Some([None] + slots) && decoder.position == next
  {
    hide ScanFrom, BodyAt;
    var s := decoder.input;
    ghost var scan := ScanFrom(s, decoder.position, 1, count);
    ghost var whole := match scan case Failed => Failed case Got(slots, next) => Got([None] + slots, next);
    var constants: seq<Option<Constant>> := [None];
    SlotsStart(s, decoder.position, 1, count);
    while |constants| < count
      invariant decoder.Valid() && 1 <= |constants| <= count
      invariant SlotsPending(whole, constants, ScanFrom(s, decoder.position, |constants|, count))
      decreases count - |constants|
    {
      SlotsStep(whole, constants, s, decoder.position, |constants|, count);
      ghost var done := constants;
      var tag := decoder.U8();
      if tag == None {
        return None;
      }
      var start := decoder.position;
      var ok := ReadConstant(tag.value, decoder);
      if !ok {
        return None;
      }
      constants := constants + [Some(Constant(tag.value, s[start..decoder.position]))];
      if Wide(tag.value) {
        if |constants| == count {
          return None;
        }
        assert constants + [None] == done + [constants[|done|], None];
        constants := constants + [None];
      }
    }
    SlotsEnd(s, decoder.position, |constants|, count);
    assert constants + [] == constants;
    r := Some(constants);
  }

  lemma SlotsEnd(s: bytes, pos: nat, slot: nat, count: nat)
    requires slot >= count
    ensures ScanFrom(s, pos, slot, count) == Got([], pos)
  {
  }

  // ---------- Templates ----------

  /** Interning a name's two halves, as the transform does. */
  method InternName(name: bytes, pool: DataPoolBuilder) returns (reference: bytes)
    requires pool.Valid()
    modifies pool
    ensures pool.Valid() && (reference, pool.State()) == NameReference(name, old(pool.State()))
  {
    hide PoolState.Consistent, Grows, Interned;
    var package := pool.Intern(PackageOf(name));
    reference := WriteVuint([], package);
    assert reference == Vuint(package);
    var simple := pool.Intern(NameOf(name));
    reference := WriteVuint(reference, simple);
  }

  ghost predicate TemplatePending(whole: Template, output: bytes, changed: bool, rest: Template) {
    whole == Template(output + rest.output, changed || rest.changed, rest.pool)
  }

  lemma TemplateLetter(whole: Template, output: bytes, changed: bool, s: bytes, pos: nat, p: PoolState)
    requires p.Consistent() && pos < |s| && s[pos] != LETTER_L
    requires TemplatePending(whole, output, changed, TemplateFrom(s, pos, p))
    ensures TemplatePending(whole, output + [s[pos]], changed, TemplateFrom(s, pos + 1, p))
  {
    hide PoolState.Consistent, Grows, NameReference;
  }

  lemma TemplateName(whole: Template, output: bytes, changed: bool, s: bytes, pos: nat, p: PoolState)
    requires p.Consistent() && pos < |s| && s[pos] == LETTER_L
    requires TemplatePending(whole, output, changed, TemplateFrom(s, pos, p))
    ensures
      var end := NameEnd(s, pos + 1);
      var (reference, q) := NameReference(s[pos + 1..end], p);
      if SharedName(s, pos + 1, end) && 1 + |reference| < end - (pos + 1)
      then TemplatePending(whole, output + [LETTER_L] + [0] + reference, true, TemplateFrom(s, end, q))
      else TemplatePending(whole, output + [LETTER_L] + s[pos + 1..end], changed, TemplateFrom(s, end, p))
  {
    hide PoolState.Consistent, Grows, NameReference, SharedName;
    var end := NameEnd(s, pos + 1);
    var (reference, q) := NameReference(s[pos + 1..end], p);
    if SharedName(s, pos + 1, end) && 1 + |reference| < end - (pos + 1) {
      var rest := TemplateFrom(s, end, q);
      assert output + ([LETTER_L, 0] + reference + rest.output) == output + [LETTER_L] + [0] + reference + rest.output;
    } else {
      var rest := TemplateFrom(s, end, p);
      assert output + ([LETTER_L] + s[pos + 1..end] + rest.output) == output + [LETTER_L] + s[pos + 1..end] + rest.output;
    }
  }

  method EncodeTemplate(s: bytes, pool: DataPoolBuilder) returns (r: Option<bytes>)
    requires pool.Valid()
    modifies pool
    ensures pool.Valid()
    ensures var t := EncodedTemplate(s, old(pool.State()));
            r == (if t.changed then Some(t.output) else None) && pool.State() == t.pool
  {
    hide TemplateFrom, PoolState.Consistent, Grows, NameReference;
    if s == [] || s[0] !in TEMPLATE_STARTS {
      return None;
    }
    ghost var whole := TemplateFrom(s, 0, pool.State());
    var output, position, changed := [], 0, false;
    assert [] + whole.output == whole.output;
    while position < |s|
      invariant pool.Valid() && position <= |s|
      invariant TemplatePending(whole, output, changed, TemplateFrom(s, position, pool.State()))
      decreases |s| - position
    {
      if s[position] != LETTER_L {
        TemplateLetter(whole, output, changed, s, position, pool.State());
        output, position := output + [s[position]], position + 1;
      } else {
        TemplateName(whole, output, changed, s, position, pool.State());
        output, position := output + [LETTER_L], position + 1;
        var shared: bool;
        output, position, shared := EncodeName(s, position, output, pool);
        changed := changed || shared;
      }
    }
    TemplateDone(s, pool.State());
    assert whole.output == output;
    r := if changed then Some(output) else None;
  }

  lemma TemplateDone(s: bytes, p: PoolState)
    requires p.Consistent()
    ensures TemplateFrom(s, |s|, p) == Template([], false, p)
  {
  }

  /** Writes the name after an `L`, by reference when that is shorter, rolling the pool back otherwise. */
  method EncodeName(s: bytes, start: nat, output: bytes, pool: DataPoolBuilder)
    returns (r: bytes, position: nat, shared: bool)
    requires pool.Valid() && start <= |s|
    modifies pool
    ensures pool.Valid() && position == NameEnd(s, start)
    ensures
      var (reference, q) := NameReference(s[start..position], old(pool.State()));
      if SharedName(s, start, position) && 1 + |reference| < position - start
      then shared && r == output + [0] + reference && pool.State() == q
      else !shared && r == output + s[start..position] && pool.State() == old(pool.State())
  {
    hide PoolState.Consistent, Grows, NameReference;
    var end := start;
    while end < |s| && s[end] !in STOPPERS
      invariant start <= end <= |s| && NameEnd(s, start) == NameEnd(s, end)
    {
      end := end + 1;
    }
    position, shared, r := end, false, output + s[start..end];
    if end == start || end == |s| || s[end] !in SHARED_STOPPERS || s[start] == SLASH || s[end - 1] == SLASH {
      return;
    }
    var checkpoint := pool.Len();
    ghost var before := pool.State();
    var reference := InternName(s[start..end], pool);
    if 1 + |reference| < end - start {
      shared, r := true, output + [0] + reference;
    } else {
      TruncatedUndoesGrowth(before, pool.State());
      StateFits(before, pool.State());
      pool.Truncate(checkpoint);
    }
  }

  lemma StateFits(before: PoolState, after: PoolState)
    requires before.Consistent() && Grows(before, after)
    ensures Max(|before.entries|, 1) == |before.entries| <= |after.entries|
  {
  }

  // ---------- Constants ----------

  method EncodeCandidate(text: bytes, isClass: bool, pool: DataPoolBuilder) returns (replacement: bytes)
    requires pool.Valid()
    modifies pool
    ensures pool.Valid() && (replacement, pool.State()) == Candidate(text, isClass, old(pool.State()))
  {
    hide PoolState.Consistent, Grows, NameReference, EncodedTemplate;
    replacement := [];
    if isClass && !(text != [] && text[0] == 0x5b) && !(text != [] && text[0] == SLASH) {
      if NameOf(text) != [] {
        var reference := InternName(text, pool);
        replacement := [CLASS_TAG] + reference;
      }
    } else {
      var template := EncodeTemplate(text, pool);
      if template.Some? {
        var index := pool.Intern(template.value);
        replacement := WriteVuint([TEMPLATE_TAG], index);
      } else {
        var index := pool.Intern(text);
        replacement := WriteVuint([STRING_TAG], index);
      }
    }
  }

  method EncodeConstant(c: Constant, isClass: bool, pool: DataPoolBuilder) returns (replacement: bytes)
    requires pool.Valid()
    modifies pool
    ensures pool.Valid() && (replacement, pool.State()) == Replacement(c, isClass, old(pool.State()))
  {
    hide PoolState.Consistent, Grows, Candidate;
    replacement := [];
    if c.tag == 1 && |c.body| >= 2 && Eligible(c.body[2..]) {
      var before := pool.Len();
      ghost var state := pool.State();
      replacement := EncodeCandidate(c.body[2..], isClass, pool);
      if |replacement| > |c.body| {
        TruncatedUndoesGrowth(state, pool.State());
        StateFits(state, pool.State());
        pool.Truncate(before);
        replacement := [];
      }
    }
  }

  lemma TransformPending(constants: seq<Option<Constant>>, slot: nat, classes: set<nat>, p: PoolState)
    requires p.Consistent() && slot < |constants|
    ensures
      var here := TransformFrom(constants, slot, classes, p);
      if constants[slot] == None then here == TransformFrom(constants, slot + 1, classes, p)
      else
        var c := constants[slot].value;
        var (replacement, q) := Replacement(c, slot in classes, p);
        var rest := TransformFrom(constants, slot + 1, classes, q);
        here == ((if replacement == [] then [c.tag] + c.body else replacement) + rest.0, rest.1)
  {
    hide PoolState.Consistent, Grows, Replacement;
  }

  method EncodeConstants(constants: seq<Option<Constant>>, header: bytes, pool: DataPoolBuilder) returns (output: bytes)
    requires pool.Valid() && |constants| > 0
    modifies pool
    ensures pool.Valid()
    ensures var (slots, q) := TransformFrom(constants, 1, Classes(constants), old(pool.State()));
            output == header + slots && pool.State() == q
  {
    hide PoolState.Consistent, Grows, Replacement, TransformFrom, Classes;
    var classes := Classes(constants);
    ghost var whole := TransformFrom(constants, 1, classes, pool.State());
    output := header;
    for index := 1 to |constants|
      invariant pool.Valid()
      invariant header + whole.0 == output + TransformFrom(constants, index, classes, pool.State()).0
      invariant whole.1 == TransformFrom(constants, index, classes, pool.State()).1
    {
      TransformPending(constants, index, classes, pool.State());
      if constants[index].Some? {
        var c := constants[index].value;
        var replacement := EncodeConstant(c, index in classes, pool);
        output := output + if replacement == [] then [c.tag] + c.body else replacement;
      }
    }
    TransformDone(constants, classes, pool.State());
  }

  lemma TransformDone(constants: seq<Option<Constant>>, classes: set<nat>, p: PoolState)
    requires p.Consistent()
    ensures TransformFrom(constants, |constants|, classes, p) == ([], p)
  {
  }

  /** The transform against a pool in place; when it yields no output, the pool is as before. */
  method TransformClass(s: bytes, pool: DataPoolBuilder, limits: Limits) returns (r: Result<Option<bytes>>)
    requires pool.Valid()
    modifies pool
    ensures pool.Valid() && Transformed(r, pool.State()) == Transform(s, old(pool.State()), limits)
  {
    hide PoolState.Consistent, Grows, TransformFrom, ScanPool, Classes;
    var scanned := Scan(s, limits);
    if scanned.Err? {
      return Err(scanned.kind);
    }
    var checkpoint := pool.Len();
    ghost var before := pool.State();
    ScannedSlots(s, limits);
    var output := EncodeConstants(scanned.value.constants, TRANSFORMED_MAGIC + s[4..10], pool);
    output := output + s[scanned.value.bodyStart..];
    var descriptorSize := WriteVuint([], |s|);
    if |output| + |descriptorSize| + 2 >= |s| {
      TruncatedUndoesGrowth(before, pool.State());
      StateFits(before, pool.State());
      pool.Truncate(checkpoint);
      return Ok(None);
    }
    r := Ok(Some(output));
  }

  lemma ScannedSlots(s: bytes, limits: Limits)
    requires ScanPool(s, limits).Ok?
    ensures |ScanPool(s, limits).value.constants| > 0
  {
  }

  // ---------- Restoring ----------

  method GetEntry(index: Option<nat>, pool: DataPool) returns (r: Option<bytes>)
    requires pool.Valid()
    ensures r == if index.Some? then EntryAt(pool.Entries(), index.value) else None
  {
    r := if index.Some? then pool.Get(index.value) else None;
  }

  /** Reads the two indices of a class name. */
  method ReadName(decoder: Decoder, pool: DataPool) returns (r: Option<bytes>)
    requires decoder.Valid() && pool.Valid()
    modifies decoder
    ensures decoder.Valid()
    ensures match NameAt(decoder.input, old(decoder.position), pool.Entries())
            case Got(name, next) => r == Some(name) && decoder.position == next
            case Failed => r == None
  {
    hide DataPool.Entries, DataPool.Valid, VuintAt;
    var index := decoder.ReadVuint();
    var package := GetEntry(index, pool);
    if package == None {
      return None;
    }
    index := decoder.ReadVuint();
    var name := GetEntry(index, pool);
    if name == None || name.value == [] {
      return None;
    }
    r := Some(if package.value == [] then name.value else package.value + [SLASH] + name.value);
  }

  method RestoreTemplate(s: bytes, pool: DataPool, limits: Limits) returns (r: Option<bytes>)
    requires pool.Valid()
    ensures r == Expand(s, pool.Entries(), limits)
  {
    hide DataPool.Entries, DataPool.Valid, NameAt, Fits;
    if !limits.Bytes(|s|) {
      return None;
    }
    var input := new Decoder(s, limits);
    var output: bytes := [];
    while input.Remaining() != 0
      invariant input.Valid() && input.input == s && input.limits == limits
      invariant ExpandFrom(s, 0, [], pool.Entries(), limits) == ExpandFrom(s, input.position, output, pool.Entries(), limits)
      decreases |s| - input.position
    {
      var zero := NextZero(s, input.position);
      if !Fits(|output| + zero - input.position, limits) {
        return None;
      }
      var literal := input.Take(zero - input.position);
      output := output + literal.value;
      if input.Remaining() == 0 {
        break;
      }
      var escape := input.U8();
      var name := ReadName(input, pool);
      if name == None || !Fits(|output| + |name.value|, limits) {
        return None;
      }
      output := output + name.value;
    }
    r := Some(output);
  }

  method ReadExternal(tag: byte, decoder: Decoder, pool: DataPool) returns (r: Option<bytes>)
    requires decoder.Valid() && pool.Valid()
    modifies decoder
    ensures decoder.Valid()
    ensures match ExternalAt(tag, decoder.input, old(decoder.position), pool.Entries(), decoder.limits)
            case Got(text, next) => r == Some(text) && decoder.position == next
            case Failed => r == None
  {
    hide DataPool.Entries, DataPool.Valid, VuintAt, NameAt, Expand;
    if tag == CLASS_TAG {
      r := ReadName(decoder, pool);
    } else {
      var index := decoder.ReadVuint();
      r := GetEntry(index, pool);
      if r.Some? && tag != STRING_TAG {
        r := RestoreTemplate(r.value, pool, decoder.limits);
      }
    }
    if r.Some? && |r.value| > MAX_STRING {
      r := None;
    }
  }

  method ReadRecord(decoder: Decoder, pool: DataPool) returns (r: Option<bytes>)
    requires decoder.Valid() && pool.Valid() && decoder.position < |decoder.input|
    modifies decoder
    ensures decoder.Valid()
    ensures match RecordAt(decoder.input, old(decoder.position), pool.Entries(), decoder.limits)
            case Got(record, next) => r == Some(record) && decoder.position == next
            case Failed => r == None
  {
    hide DataPool.Entries, DataPool.Valid, ExternalAt, BodyAt;
    var tag := decoder.U8();
    if External(tag.value) {
      var text := ReadExternal(tag.value, decoder, pool);
      if text == None {
        return None;
      }
      r := Some([1] + Be16(|text.value|) + text.value);
    } else {
      var start := decoder.position;
      var ok := ReadConstant(tag.value, decoder);
      r := if ok then Some([tag.value] + decoder.input[start..decoder.position]) else None;
    }
  }

  /** Undoes the transform against the entries of a pool. */
  method RestoreClass(s: bytes, pool: DataPool, limits: Limits) returns (r: Option<bytes>)
    requires pool.Valid()
    ensures r == Restore(s, pool.Entries(), limits)
  {
    hide DataPool.Entries, DataPool.Valid, RecordAt, RestoreFrom;
    if !limits.Bytes(|s|) {
      return None;
    }
    var decoder := new Decoder(s, limits);
    var magic := decoder.Take(4);
    if magic != Some(TRANSFORMED_MAGIC) {
      return None;
    }
    var version := decoder.Take(4);
    if version == None {
      return None;
    }
    var count := ReadU16(decoder);
    if count == None || count.value == 0 || !limits.Elements(count.value) {
      return None;
    }
    var output := RestoreSlots(decoder, count.value, CLASS_MAGIC + s[4..10], pool);
    r := output;
  }

  method RestoreSlots(decoder: Decoder, count: nat, header: bytes, pool: DataPool) returns (r: Option<bytes>)
    requires decoder.Valid() && pool.Valid() && count > 0
    modifies decoder
    ensures r == RestoreFrom(decoder.input, old(decoder.position), 1, count, header, pool.Entries(), decoder.limits)
  {
    hide DataPool.Entries, DataPool.Valid, RecordAt;
    ghost var entries := pool.Entries();
    ghost var whole := RestoreFrom(decoder.input, decoder.position, 1, count, header, entries, decoder.limits);
    var output := header;
    var index := 1;
    while index < count
      invariant decoder.Valid() && 1 <= index <= count
      invariant whole == RestoreFrom(decoder.input, decoder.position, index, count, output, entries, decoder.limits)
      decreases count - index
    {
      if decoder.Remaining() == 0 {
        return None;
      }
      var tag := decoder.input[decoder.position];
      var record := ReadRecord(decoder, pool);
      if record == None || !decoder.limits.Bytes(|output| + |record.value|) {
        return None;
      }
      output := output + record.value;
      if Wide(tag) {
        index := index + 1;
        if index >= count {
          return None;
        }
      }
      index := index + 1;
    }
    if !decoder.limits.Bytes(|output| + decoder.Remaining()) {
      return None;
    }
    ghost var pos := decoder.position;
    var body := decoder.Take(decoder.Remaining());
    assert decoder.input[pos..] == body.value;
    r := Some(output + body.value);
  }
}
