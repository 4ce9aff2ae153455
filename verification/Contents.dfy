/** File content: inline or blob-backed bytes, and the logical transforms applied to them. */
module Contents {
  import opened Binary
  import opened Cbor
  import opened CborValues
  import opened DataPools
  import opened Blobs
  import opened BlobStores
  import ClassFile
  import ClassFileCode

  datatype Source = Inline(data: bytes) | Blob(reference: BlobRef)

  /** A transform in encoding order: the length it must restore, its identifier and its properties. */
  datatype Step = Step(inputSize: u64, kind: byte, properties: Item) {
    function ExplicitPool(): Option<Item> {
      Get(properties, 0)
    }
  }

  datatype Content = Content(source: Source, steps: seq<Step>)

  const CLASSFILE: byte := 1

  function InlineContent(data: bytes): Content {
    Content(Inline(data), [])
  }

  /** Only CLASSFILE is supported, and an explicit pool must be a blob reference. */
  predicate Admissible(step: Step) {
    && IntegerKeys(step.properties)
    && step.kind == CLASSFILE
    && (step.ExplicitPool().Some? ==> ItemRef(step.ExplicitPool().value).Some?)
  }

  predicate AllAdmissible(steps: seq<Step>) {
    forall i :: 0 <= i < |steps| ==> Admissible(steps[i])
  }

  // ---------- Descriptors ----------

  function RefBytes(reference: BlobRef): bytes {
    Vuint(reference.pool) + Vuint(reference.index)
  }

  function RefAt(s: bytes, pos: nat): (r: Read<BlobRef>)
    ensures r.Got? ==> pos < r.next <= |s|
  {
    match VuintAt(s, pos)
    case Failed => Failed
    case Got(pool, next) =>
      match VuintAt(s, next)
      case Failed => Failed
      case Got(index, end) => Got(BlobRef(pool, index), end)
  }

  function SourceBytes(source: Source): bytes {
    match source
    case Inline(data) => [0] + Sized(data)
    case Blob(reference) => [1] + RefBytes(reference)
  }

  function SourceAt(s: bytes, pos: nat, limits: Limits): (r: Read<Source>)
    ensures r.Got? ==> pos < r.next <= |s|
  {
    if pos >= |s| then Failed
    else if s[pos] == 0 then
      match SizedAt(s, pos + 1, limits)
      case Failed => Failed
      case Got(data, next) => Got(Inline(data), next)
    else if s[pos] == 1 then
      match RefAt(s, pos + 1)
      case Failed => Failed
      case Got(reference, next) => Got(Blob(reference), next)
    else Failed
  }

  function StepBytes(step: Step): bytes {
    Vuint(step.inputSize) + [step.kind] + EncodeSized(step.properties)
  }

  function StepsBytes(steps: seq<Step>): bytes {
    if steps == [] then [] else StepBytes(steps[0]) + StepsBytes(steps[1..])
  }

  function StepAt(s: bytes, pos: nat, limits: Limits): (r: Read<Step>)
    ensures r.Got? ==> pos < r.next <= |s| && Admissible(r.value)
  {
    match VuintAt(s, pos)
    case Failed => Failed
    case Got(inputSize, next) =>
      if next >= |s| then Failed
      else
        match SizedItemAt(s, next + 1, limits)
        case Failed => Failed
        case Got(properties, end) =>
          var step := Step(inputSize, s[next], properties);
          if limits.Bytes(inputSize) && Admissible(step) then Got(step, end) else Failed
  }

  function StepsAt(s: bytes, pos: nat, count: nat, limits: Limits): (r: Read<seq<Step>>)
    ensures r.Got? ==> pos <= r.next && (pos <= |s| ==> r.next <= |s|)
    decreases count
  {
    if count == 0 then Got([], pos)
    else
      match StepAt(s, pos, limits)
      case Failed => Failed
      case Got(first, next) =>
        match StepsAt(s, next, count - 1, limits)
        case Failed => Failed
        case Got(rest, end) => Got([first] + rest, end)
  }

  function ContentBytes(content: Content): bytes {
    SourceBytes(content.source) + Vuint(|content.steps|) + StepsBytes(content.steps)
  }

  /** The descriptor that starts at `pos`, if its source and its steps are known kinds. */
  function ContentAt(s: bytes, pos: nat, limits: Limits): (r: Read<Content>)
    ensures r.Got? ==> pos < r.next <= |s|
  {
    match SourceAt(s, pos, limits)
    case Failed => Failed
    case Got(source, next) =>
      match VuintAt(s, next)
      case Failed => Failed
      case Got(count, start) =>
        if !limits.Elements(count) then Failed
        else
          match StepsAt(s, start, count, limits)
          case Failed => Failed
          case Got(steps, end) => Got(Content(source, steps), end)
  }

  // ---------- What a reader's limits admit ----------

  /** A value that a reader with these limits accepts in a sized field. */
  predicate FitsItem(item: Item, limits: Limits) {
    Valid(item, 0, limits) && limits.Bytes(|SizedBody(item)|)
  }

  predicate FitsStep(step: Step, limits: Limits) {
    Admissible(step) && limits.Bytes(step.inputSize) && FitsItem(step.properties, limits)
  }

  predicate FitsContent(content: Content, limits: Limits) {
    && (content.source.Inline? ==> limits.Bytes(|content.source.data|))
    && limits.Elements(|content.steps|)
    && forall i :: 0 <= i < |content.steps| ==> FitsStep(content.steps[i], limits)
  }

  lemma RefRoundTrip(s: bytes, pos: nat, reference: BlobRef)
    requires At(s, pos, RefBytes(reference))
    ensures RefAt(s, pos) == Got(reference, pos + |RefBytes(reference)|)
  {
    hide At, VuintAt, Vuint;
    AtConcat(s, pos, Vuint(reference.pool), Vuint(reference.index));
    VuintRoundTrip(s, pos, reference.pool);
    VuintRoundTrip(s, pos + |Vuint(reference.pool)|, reference.index);
  }

  lemma LeadingByte(s: bytes, pos: nat, first: byte, rest: bytes)
    requires At(s, pos, [first] + rest)
    ensures pos < |s| && s[pos] == first && At(s, pos + 1, rest)
  {
    AtConcat(s, pos, [first], rest);
    assert s[pos..pos + 1][0] == s[pos];
  }

  lemma SourceRoundTrip(s: bytes, pos: nat, source: Source, limits: Limits)
    requires At(s, pos, SourceBytes(source)) && (source.Inline? ==> limits.Bytes(|source.data|))
    ensures SourceAt(s, pos, limits) == Got(source, pos + |SourceBytes(source)|)
  {
    hide At, SizedAt, Sized, RefAt, RefBytes;
    match source
    case Inline(data) =>
      LeadingByte(s, pos, 0, Sized(data));
      SizedRoundTrip(s, pos + 1, data, limits);
    case Blob(reference) =>
      LeadingByte(s, pos, 1, RefBytes(reference));
      RefRoundTrip(s, pos + 1, reference);
  }

  lemma StepRoundTrip(s: bytes, pos: nat, step: Step, limits: Limits)
    requires At(s, pos, StepBytes(step)) && FitsStep(step, limits)
    ensures StepAt(s, pos, limits) == Got(step, pos + |StepBytes(step)|)
  {
    hide At, VuintAt, Vuint, SizedItemAt, EncodeSized, Valid, SizedBody, Admissible;
    var size, tail := Vuint(step.inputSize), EncodeSized(step.properties);
    assert StepBytes(step) == size + ([step.kind] + tail);
    AtConcat(s, pos, size, [step.kind] + tail);
    VuintRoundTrip(s, pos, step.inputSize);
    LeadingByte(s, pos + |size|, step.kind, tail);
    SizedItemRoundTrip(s, pos + |size| + 1, step.properties, limits);
  }

  lemma {:induction false} StepsRoundTrip(s: bytes, pos: nat, steps: seq<Step>, limits: Limits)
    requires At(s, pos, StepsBytes(steps))
    requires forall i :: 0 <= i < |steps| ==> FitsStep(steps[i], limits)
    ensures StepsAt(s, pos, |steps|, limits) == Got(steps, pos + |StepsBytes(steps)|)
    decreases |steps|
  {
    hide At, StepAt, StepBytes, FitsStep;
    if steps != [] {
      AtConcat(s, pos, StepBytes(steps[0]), StepsBytes(steps[1..]));
      StepRoundTrip(s, pos, steps[0], limits);
      StepsRoundTrip(s, pos + |StepBytes(steps[0])|, steps[1..], limits);
      assert steps == [steps[0]] + steps[1..];
    }
  }

  /** A written descriptor that the reader's limits admit reads back. */
  lemma ContentRoundTrip(s: bytes, pos: nat, content: Content, limits: Limits)
    requires At(s, pos, ContentBytes(content)) && FitsContent(content, limits)
    ensures ContentAt(s, pos, limits) == Got(content, pos + |ContentBytes(content)|)
  {
    hide At, VuintAt, Vuint, SourceAt, SourceBytes, StepsAt, StepsBytes, FitsStep;
    var source, count, steps := SourceBytes(content.source), Vuint(|content.steps|), StepsBytes(content.steps);
    AtConcat(s, pos, source + count, steps);
    AtConcat(s, pos, source, count);
    SourceRoundTrip(s, pos, content.source, limits);
    VuintRoundTrip(s, pos + |source|, |content.steps|);
    StepsRoundTrip(s, pos + |source| + |count|, content.steps, limits);
  }

  // ---------- Resolving ----------

  function ResolveSource(view: View, source: Source): Option<bytes> {
    match source
    case Inline(data) => if view.limits.Bytes(|data|) then Some(data) else None
    case Blob(reference) => Resolve(view, reference, false)
  }

  /** The pool that a step restores against: the named one, or the root's. */
  function PoolOf(view: View, step: Step, root: seq<bytes>): Option<seq<bytes>> {
    match step.ExplicitPool()
    case None => Some(root)
    case Some(item) =>
      match ItemRef(item)
      case None => None
      case Some(reference) =>
        match Resolve(view, reference, false)
        case None => None
        case Some(encoded) => DecodePool(encoded, view.limits)
  }

  /** Undoes one step, checking the length it must give back. */
  function Undo(view: View, data: bytes, step: Step, root: seq<bytes>): (r: Option<bytes>)
    ensures r.Some? ==> |r.value| == step.inputSize
  {
    if !view.limits.Bytes(step.inputSize) || !Admissible(step) then None
    else
      match PoolOf(view, step, root)
      case None => None
      case Some(entries) =>
        match ClassFile.Restore(data, entries, view.limits)
        case None => None
        case Some(restored) => if |restored| == step.inputSize then Some(restored) else None
  }

  /** Undoes the steps from the last to the first. */
  function UndoAll(view: View, data: bytes, steps: seq<Step>, root: seq<bytes>): Option<bytes>
    decreases |steps|
  {
    if steps == [] then Some(data)
    else
      match Undo(view, data, steps[|steps| - 1], root)
      case None => None
      case Some(restored) => UndoAll(view, restored, steps[..|steps| - 1], root)
  }

  /** The logical bytes of a file. */
  function ResolveFile(view: View, content: Content, root: seq<bytes>): Option<bytes> {
    match ResolveSource(view, content.source)
    case None => None
    case Some(data) => UndoAll(view, data, content.steps, root)
  }

  /** The bytes of a directory's entries, which may not be transformed. */
  function ResolveEntries(view: View, content: Content): Option<bytes> {
    if content.steps != [] then None else ResolveSource(view, content.source)
  }

  // ---------- Writing and reading in place ----------

  /** Adds the bytes of a descriptor, unless a step is inadmissible. */
  method WriteContent(out: bytes, content: Content) returns (r: Option<bytes>)
    ensures r == if AllAdmissible(content.steps) then Some(out + ContentBytes(content)) else None
  {
    hide Admissible, Vuint, EncodeSized, Sized, StepsBytes, StepBytes;
    for i := 0 to |content.steps|
      invariant forall j :: 0 <= j < i ==> Admissible(content.steps[j])
    {
      if !Admissible(content.steps[i]) {
        return None;
      }
    }
    var written := out;
    match content.source {
      case Inline(data) =>
        written := WriteSized(written + [0], data);
      case Blob(reference) =>
        written := WriteVuint(written + [1], reference.pool);
        written := WriteVuint(written, reference.index);
    }
    written := WriteVuint(written, |content.steps|);
    ghost var head := written;
    HeadWritten(out, content, head);
    assert content.steps[0..] == content.steps;
    for i := 0 to |content.steps|
      invariant written + StepsBytes(content.steps[i..]) == out + ContentBytes(content)
    {
      var step := content.steps[i];
      StepWritten(written, step);
      NextStep(written, content.steps, i);
      written := WriteVuint(written, step.inputSize);
      written := WriteSized(written + [step.kind], SizedBody(step.properties));
    }
    assert content.steps[|content.steps|..] == [];
    NoSteps(written);
    r := Some(written);
  }

  lemma HeadWritten(out: bytes, content: Content, head: bytes)
    requires head == (match content.source
                      case Inline(data) => out + [0] + Sized(data)
                      case Blob(reference) => out + [1] + Vuint(reference.pool) + Vuint(reference.index)) + Vuint(|content.steps|)
    ensures head + StepsBytes(content.steps) == out + ContentBytes(content)
  {
    hide Vuint, Sized, StepsBytes;
  }

  lemma NextStep(before: bytes, steps: seq<Step>, i: nat)
    requires i < |steps|
    ensures before + StepsBytes(steps[i..]) == (before + StepBytes(steps[i])) + StepsBytes(steps[i + 1..])
  {
    hide StepBytes;
    assert steps[i..][0] == steps[i] && steps[i..][1..] == steps[i + 1..];
  }

  lemma NoSteps(before: bytes)
    ensures before + StepsBytes([]) == before
  {
  }

  lemma StepWritten(before: bytes, step: Step)
    ensures before + Vuint(step.inputSize) + [step.kind] + Sized(SizedBody(step.properties)) == before + StepBytes(step)
  {
    hide Vuint, Sized;
  }

  /** Reads one descriptor at the cursor. */
  method ReadContent(decoder: Decoder) returns (r: Option<Content>)
    requires decoder.Valid()
    modifies decoder
    ensures decoder.Valid()
    ensures match ContentAt(decoder.input, old(decoder.position), decoder.limits)
            case Got(content, next) => r == Some(content) && decoder.position == next
            case Failed => r == None
  {
    hide VuintAt, SizedAt, StepAt;
    var tag := decoder.U8();
    if tag == None {
      return None;
    }
    var source: Source;
    if tag.value == 0 {
      var data := decoder.ReadSized();
      if data == None {
        return None;
      }
      source := Inline(data.value);
    } else if tag.value == 1 {
      var pool := decoder.ReadVuint();
      if pool == None {
        return None;
      }
      var index := decoder.ReadVuint();
      if index == None {
        return None;
      }
      source := Blob(BlobRef(pool.value, index.value));
    } else {
      return None;
    }
    var count := decoder.ReadVuint();
    if count == None || !decoder.limits.Elements(count.value) {
      return None;
    }
    ghost var whole := StepsAt(decoder.input, decoder.position, count.value, decoder.limits);
    var steps := [];
    assert whole.Got? ==> [] + whole.value == whole.value;
    for i: int := 0 to count.value
      invariant decoder.Valid()
      invariant StepsPending(whole, steps, StepsAt(decoder.input, decoder.position, count.value - i, decoder.limits))
    {
      StepsPendingStep(whole, steps, decoder.input, decoder.position, count.value - i, decoder.limits);
      var step := ReadStep(decoder);
      if step == None {
        return None;
      }
      steps := steps + [step.value];
    }
    assert steps + [] == steps;
    r := Some(Content(source, steps));
  }

  ghost predicate StepsPending(whole: Read<seq<Step>>, done: seq<Step>, rest: Read<seq<Step>>) {
    match rest
    case Failed => whole == Failed
    case Got(more, next) => whole == Got(done + more, next)
  }

  lemma StepsPendingStep(whole: Read<seq<Step>>, done: seq<Step>, s: bytes, pos: nat, count: nat, limits: Limits)
    requires count > 0 && StepsPending(whole, done, StepsAt(s, pos, count, limits))
    ensures match StepAt(s, pos, limits)
            case Failed => whole == Failed
            case Got(first, next) => StepsPending(whole, done + [first], StepsAt(s, next, count - 1, limits))
  {
    hide StepAt;
    var read := StepAt(s, pos, limits);
    if read.Got? {
      var rest := StepsAt(s, read.next, count - 1, limits);
      if rest.Got? {
        assert done + ([read.value] + rest.value) == (done + [read.value]) + rest.value;
      }
    }
  }

  method ReadStep(decoder: Decoder) returns (r: Option<Step>)
    requires decoder.Valid()
    modifies decoder
    ensures decoder.Valid()
    ensures match StepAt(decoder.input, old(decoder.position), decoder.limits)
            case Got(step, next) => r == Some(step) && decoder.position == next
            case Failed => r == None
  {
    hide VuintAt, Admissible, SizedItemAt;
    var inputSize := decoder.ReadVuint();
    if inputSize == None {
      return None;
    }
    var kind := decoder.U8();
    if kind == None {
      return None;
    }
    var properties := ReadItem(decoder);
    if properties == None {
      return None;
    }
    var step := Step(inputSize.value, kind.value, properties.value);
    r := if decoder.limits.Bytes(inputSize.value) && Admissible(step) then Some(step) else None;
  }

  /** Reads a sized value, in which only an empty field stands for the empty map. */
  method ReadItem(decoder: Decoder) returns (r: Option<Item>)
    requires decoder.Valid()
    modifies decoder
    ensures decoder.Valid()
    ensures match SizedItemAt(decoder.input, old(decoder.position), decoder.limits)
            case Got(item, next) => r == Some(item) && decoder.position == next
            case Failed => r == None
  {
    hide Parse, SizedAt;
    var body := decoder.ReadSized();
    if body == None {
      return None;
    }
    if body.value == [] {
      return Some(EMPTY_MAP);
    }
    r := Parse(body.value, decoder.limits);
    if r == Some(EMPTY_MAP) {
      r := None;
    }
  }

  /** What a descriptor denotes, through a store; steps that name no pool are undone against `root`. */
  method RestoreFile(store: BlobStore, content: Content, root: DataPool) returns (r: Option<bytes>)
    requires store.Valid() && root.Valid()
    modifies store
    ensures store.Valid()
    ensures r.Some? ==> r == ResolveFile(store.view, content, root.Entries())
    ensures Finds(r, ResolveFile(Trusted(store.view), content, root.Entries()))
  {
    hide Resolve, Admissible, ClassFile.Restore, DecodePool, BlobStore.Valid, Trusted, DataPool.Entries, DataPool.Valid;
    TrustedCodec(store.view);
    match content.source {
      case Inline(data) => r := if store.view.limits.Bytes(|data|) then Some(data) else None;
      case Blob(reference) => r := store.ResolveBlob(reference, false);
    }
    if r == None {
      return;
    }
    ghost var whole, trusted := ResolveFile(store.view, content, root.Entries()), ResolveFile(Trusted(store.view), content, root.Entries());
    var left := |content.steps|;
    assert content.steps[..left] == content.steps;
    while left > 0
      invariant store.Valid()
      invariant 0 <= left <= |content.steps| && r.Some?
      invariant whole == UndoAll(store.view, r.value, content.steps[..left], root.Entries())
      invariant trusted.Some? ==> trusted == UndoAll(Trusted(store.view), r.value, content.steps[..left], root.Entries())
    {
      left := left - 1;
      var step := content.steps[left];
      assert content.steps[..left + 1][..left] == content.steps[..left];
      r := UndoStep(store, r.value, step, root);
      if r == None {
        return;
      }
    }
  }

  method UndoStep(store: BlobStore, data: bytes, step: Step, root: DataPool) returns (r: Option<bytes>)
    requires store.Valid() && root.Valid()
    modifies store
    ensures store.Valid()
    ensures r.Some? ==> r == Undo(store.view, data, step, root.Entries())
    ensures Finds(r, Undo(Trusted(store.view), data, step, root.Entries()))
  {
    hide Resolve, Admissible, ClassFile.Restore, DecodePool, BlobStore.Valid, Trusted, DataPool.Entries, DataPool.Valid;
    TrustedCodec(store.view);
    if !store.view.limits.Bytes(step.inputSize) || !Admissible(step) {
      return None;
    }
    var pool := root;
    if step.ExplicitPool().Some? {
      var reference := ItemRef(step.ExplicitPool().value);
      if reference == None {
        return None;
      }
      var encoded := store.ResolveBlob(reference.value, false);
      if encoded == None {
        return None;
      }
      var decoded := DataPools.Decode(encoded.value, store.view.limits);
      if decoded == None {
        return None;
      }
      pool := decoded.value;
    }
    r := ClassFileCode.RestoreClass(data, pool, store.view.limits);
    if r.Some? && |r.value| != step.inputSize {
      r := None;
    }
  }
}
