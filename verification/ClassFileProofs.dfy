/** Transformed class files restore to their exact bytes, however much the pool has grown since. */
module ClassFileProofs {
  import opened Binary
  import opened DataPools
  import opened Text
  import opened ClassFile

  // ---------- Framing ----------

  /** A record as the class file spells it. */
  function Framed(c: Constant): bytes {
    [c.tag] + c.body
  }

  function FramedFrom(constants: seq<Option<Constant>>, slot: nat): bytes
    requires slot <= |constants|
    decreases |constants| - slot
  {
    if slot == |constants| then []
    else if constants[slot] == None then FramedFrom(constants, slot + 1)
    else Framed(constants[slot].value) + FramedFrom(constants, slot + 1)
  }

  /** The body has the length its tag calls for. */
  predicate Proper(c: Constant) {
    if c.tag == 1 then |c.body| >= 2 && |c.body| == 2 + FromBe16(c.body[0], c.body[1])
    else FixedLength(c.tag) > 0 && |c.body| == FixedLength(c.tag)
  }

  /** The slots from `slot` hold proper records, wide ones followed by a reserved slot. */
  ghost predicate ProperFrom(constants: seq<Option<Constant>>, slot: nat)
    requires slot <= |constants|
    decreases |constants| - slot
  {
    slot == |constants| || (
      && constants[slot].Some?
      && Proper(constants[slot].value)
      && if Wide(constants[slot].value.tag)
         then slot + 1 < |constants| && constants[slot + 1] == None && ProperFrom(constants, slot + 2)
         else ProperFrom(constants, slot + 1))
  }

  lemma BodyAtMeaning(tag: byte, s: bytes, pos: nat)
    requires BodyAt(tag, s, pos).Got?
    ensures var r := BodyAt(tag, s, pos);
            Proper(Constant(tag, r.value)) && s[pos..r.next] == r.value
  {
  }

  lemma BodyAtRoundTrip(c: Constant, s: bytes, pos: nat)
    requires Proper(c) && At(s, pos, c.body)
    ensures BodyAt(c.tag, s, pos) == Got(c.body, pos + |c.body|)
  {
    if c.tag == 1 {
      assert s[pos] == c.body[0] && s[pos + 1] == c.body[1];
    }
  }

  /** The slots of one record in front of proper slots are proper, and spell the record and the rest. */
  lemma SlotsSpell(before: seq<Option<Constant>>, c: Constant, rest: seq<Option<Constant>>)
    requires Proper(c)
    ensures
      var slots := if Wide(c.tag) then [Some(c), None] else [Some(c)];
      var all := before + slots + rest;
      ProperFrom(all, |before| + |slots|) ==>
        ProperFrom(all, |before|) && FramedFrom(all, |before|) == Framed(c) + FramedFrom(all, |before| + |slots|)
  {
    hide Proper;
    var slots := if Wide(c.tag) then [Some(c), None] else [Some(c)];
    var all := before + slots + rest;
    assert all[|before|] == Some(c);
    if Wide(c.tag) {
      assert all[|before| + 1] == None;
    }
  }

  /** Scanning loses nothing: the slots spell the bytes they were read from. */
  lemma {:induction false} ScanIsLossless(s: bytes, pos: nat, before: seq<Option<Constant>>, count: nat)
    requires pos <= |s| && |before| <= count
    requires ScanFrom(s, pos, |before|, count).Got?
    ensures var r := ScanFrom(s, pos, |before|, count);
            var all := before + r.value;
            |all| == count && ProperFrom(all, |before|) && FramedFrom(all, |before|) == s[pos..r.next]
    decreases count - |before|
  {
    hide BodyAt, Proper, ProperFrom, FramedFrom, ScanFrom;
    if |before| < count {
      ScanUnfold(s, pos, |before|, count);
      BodyAtMeaning(s[pos], s, pos + 1);
      var body := BodyAt(s[pos], s, pos + 1);
      var c := Constant(s[pos], body.value);
      var slots := if Wide(s[pos]) then [Some(c), None] else [Some(c)];
      ScanIsLossless(s, body.next, before + slots, count);
      var rest, r := ScanFrom(s, body.next, |before| + |slots|, count), ScanFrom(s, pos, |before|, count);
      SlotsSpell(before, c, rest.value);
      assert before + (slots + rest.value) == before + slots + rest.value;
      assert s[pos..r.next] == [s[pos]] + s[pos + 1..body.next] + s[body.next..r.next];
    } else {
      NothingScanned(s, pos, before);
    }
  }

  lemma ScanUnfold(s: bytes, pos: nat, slot: nat, count: nat)
    requires slot < count && ScanFrom(s, pos, slot, count).Got?
    ensures pos < |s| && BodyAt(s[pos], s, pos + 1).Got?
    ensures
      var body := BodyAt(s[pos], s, pos + 1);
      var c := Constant(s[pos], body.value);
      var slots := if Wide(s[pos]) then [Some(c), None] else [Some(c)];
      && slot + |slots| <= count
      && var rest := ScanFrom(s, body.next, slot + |slots|, count);
         rest.Got? && ScanFrom(s, pos, slot, count) == Got(slots + rest.value, rest.next)
  {
    hide BodyAt;
  }

  lemma NothingScanned(s: bytes, pos: nat, before: seq<Option<Constant>>)
    requires pos <= |s|
    ensures ScanFrom(s, pos, |before|, |before|) == Got([], pos)
    ensures ProperFrom(before, |before|) && FramedFrom(before, |before|) == s[pos..pos] && before + [] == before
  {
  }

  // ---------- One reference ----------

  lemma NameReferenceReads(name: bytes, p: PoolState, s: bytes, pos: nat, entries: seq<bytes>)
    requires p.Consistent() && NameOf(name) != [] && LastSlash(name) != Some(0)
    requires At(s, pos, NameReference(name, p).0)
    requires Within(NameReference(name, p).1, entries) && |entries| <= U64_LIMIT
    ensures NameAt(s, pos, entries) == Got(name, pos + |NameReference(name, p).0|)
  {
    hide Grows, At, PoolState.Consistent, PackageOf, NameOf, LastSlash, VuintAt, Vuint, Interned, Within, ClassName;
    var (p1, package) := Interned(p, PackageOf(name));
    var (p2, simple) := Interned(p1, NameOf(name));
    InternedGrows(p, PackageOf(name));
    InternedReads(p1, NameOf(name), entries);
    WithinEarlier(p1, p2, entries) by {
      InternedGrows(p1, NameOf(name));
    }
    InternedReads(p, PackageOf(name), entries);
    TwoVuints(s, pos, package, simple);
    SplitClassName(name);
  }

  lemma InternedReads(p: PoolState, value: bytes, entries: seq<bytes>)
    requires p.Consistent() && Within(Interned(p, value).0, entries)
    ensures var index := Interned(p, value).1;
            index < |entries| && entries[index] == value
  {
    InternedGrows(p, value);
  }

  lemma TwoVuints(s: bytes, pos: nat, a: u64, b: u64)
    requires At(s, pos, Vuint(a) + Vuint(b))
    ensures VuintAt(s, pos) == Got(a, pos + |Vuint(a)|)
    ensures VuintAt(s, pos + |Vuint(a)|) == Got(b, pos + |Vuint(a)| + |Vuint(b)|)
  {
    hide At, VuintAt, Vuint;
    AtConcat(s, pos, Vuint(a), Vuint(b));
    VuintRoundTrip(s, pos, a);
    VuintRoundTrip(s, pos + |Vuint(a)|, b);
  }

  // ---------- Templates ----------

  lemma NextZeroSkips(s: bytes, pos: nat, length: nat)
    requires pos + length <= |s|
    requires forall i :: pos <= i < pos + length ==> s[i] != 0
    ensures NextZero(s, pos) == NextZero(s, pos + length)
    decreases length
  {
    if length > 0 {
      NextZeroSkips(s, pos + 1, length - 1);
    }
  }

  /** A literal run may be split anywhere without changing what is expanded. */
  lemma ExpandLiteral(s: bytes, pos: nat, length: nat, done: bytes, entries: seq<bytes>, limits: Limits)
    requires pos + length <= |s|
    requires forall i :: pos <= i < pos + length ==> s[i] != 0
    requires Fits(|done| + length, limits)
    ensures ExpandFrom(s, pos, done, entries, limits)
         == ExpandFrom(s, pos + length, done + s[pos..pos + length], entries, limits)
  {
    hide NameAt, Fits;
    NextZeroSkips(s, pos, length);
    if pos + length == |s| {
      assert NextZero(s, |s|) == |s|;
      assert length == 0 ==> done + s[pos..pos + length] == done;
    } else {
      var zero := NextZero(s, pos);
      assert done + s[pos..pos + length] + s[pos + length..zero] == done + s[pos..zero];
    }
  }

  lemma ExpandReference(s: bytes, pos: nat, done: bytes, name: bytes, next: nat, entries: seq<bytes>, limits: Limits)
    requires pos < |s| && s[pos] == 0
    requires NameAt(s, pos + 1, entries) == Got(name, next)
    requires Fits(|done| + |name|, limits)
    ensures ExpandFrom(s, pos, done, entries, limits) == ExpandFrom(s, next, done + name, entries, limits)
  {
    assert NextZero(s, pos) == pos;
    assert done + s[pos..pos] == done;
  }

  lemma {:induction false} TemplateIsNoLonger(s: bytes, pos: nat, p: PoolState)
    requires p.Consistent() && pos <= |s|
    ensures |TemplateFrom(s, pos, p).output| <= |s| - pos
    decreases |s| - pos
  {
    hide Grows, PoolState.Consistent, NameReference, SharedName;
    if pos < |s| {
      if s[pos] != LETTER_L {
        TemplateIsNoLonger(s, pos + 1, p);
      } else {
        var end := NameEnd(s, pos + 1);
        TemplateIsNoLonger(s, end, p);
        TemplateIsNoLonger(s, end, NameReference(s[pos + 1..end], p).1);
      }
    }
  }

  lemma SharedNameSplits(s: bytes, start: nat, end: nat)
    requires start <= end <= |s| && SharedName(s, start, end)
    ensures NameOf(s[start..end]) != [] && LastSlash(s[start..end]) != Some(0)
  {
    var name := s[start..end];
    assert name[0] == s[start] && name[|name| - 1] == s[end - 1];
  }

  /** A template written from `pos` expands to the text from `pos`. */
  lemma {:induction false} TemplateExpands(s: bytes, pos: nat, p: PoolState, t: bytes, at: nat, done: bytes,
                                           entries: seq<bytes>, limits: Limits)
    requires p.Consistent() && pos <= |s| && 0 !in s
    requires At(t, at, TemplateFrom(s, pos, p).output) && at + |TemplateFrom(s, pos, p).output| == |t|
    requires Within(TemplateFrom(s, pos, p).pool, entries) && |entries| <= U64_LIMIT
    requires Fits(|done| + |s| - pos, limits)
    ensures ExpandFrom(t, at, done, entries, limits) == Some(done + s[pos..])
    decreases |s| - pos
  {
    hide At, Grows, PoolState.Consistent, NameReference, SharedName, Fits, NameAt, Within, ExpandFrom, TemplateFrom, Shares;
    if pos == |s| {
      TemplateEnd(s, p, t, done, entries, limits);
      assert done + s[pos..] == done;
    } else {
      var end := PieceEnd(s, pos);
      if s[pos] == LETTER_L && Shares(s, pos + 1, end, p) {
        var (reference, p1) := NameReference(s[pos + 1..end], p);
        TemplateShared(s, pos, end, p, t, at, done, entries, limits);
        TemplateExpands(s, end, p1, t, at + 2 + |reference|, done + s[pos..end], entries, limits);
      } else {
        TemplateLiteral(s, pos, end, p, t, at, done, entries, limits);
        TemplateExpands(s, end, p, t, at + end - pos, done + s[pos..end], entries, limits);
      }
      JoinTail(done, s, pos, end);
    }
  }

  lemma TemplateEnd(s: bytes, p: PoolState, t: bytes, done: bytes, entries: seq<bytes>, limits: Limits)
    requires p.Consistent()
    ensures TemplateFrom(s, |s|, p).output == []
    ensures ExpandFrom(t, |t|, done, entries, limits) == Some(done)
  {
  }

  lemma JoinTail(done: bytes, s: bytes, pos: nat, end: nat)
    requires pos <= end <= |s|
    ensures done + s[pos..end] + s[end..] == done + s[pos..]
  {
    assert s[pos..end] + s[end..] == s[pos..];
  }

  /** Where the piece starting at `pos` stops: one byte, or an `L` and the name after it. */
  function PieceEnd(s: bytes, pos: nat): (r: nat)
    requires pos < |s|
    ensures pos < r <= |s|
  {
    if s[pos] == LETTER_L then NameEnd(s, pos + 1) else pos + 1
  }

  /** Whether the name at `start` is replaced by a reference. */
  ghost predicate Shares(s: bytes, start: nat, end: nat, p: PoolState)
    requires p.Consistent() && start <= end <= |s|
  {
    SharedName(s, start, end) && 1 + |NameReference(s[start..end], p).0| < end - start
  }

  lemma LiteralPiece(s: bytes, pos: nat, end: nat, p: PoolState)
    requires p.Consistent() && pos < |s| && end == PieceEnd(s, pos)
    requires !(s[pos] == LETTER_L && Shares(s, pos + 1, end, p))
    ensures TemplateFrom(s, pos, p).pool == TemplateFrom(s, end, p).pool
    ensures TemplateFrom(s, pos, p).output == s[pos..end] + TemplateFrom(s, end, p).output
  {
    hide NameReference, SharedName, PoolState.Consistent, Grows;
    if s[pos] == LETTER_L {
      assert [LETTER_L] + s[pos + 1..end] == s[pos..end];
    } else {
      assert [s[pos]] == s[pos..end];
    }
  }

  lemma TemplateLiteral(s: bytes, pos: nat, end: nat, p: PoolState, t: bytes, at: nat, done: bytes,
                        entries: seq<bytes>, limits: Limits)
    requires p.Consistent() && pos < |s| && end == PieceEnd(s, pos) && 0 !in s
    requires !(s[pos] == LETTER_L && Shares(s, pos + 1, end, p))
    requires At(t, at, TemplateFrom(s, pos, p).output)
    requires Fits(|done| + |s| - pos, limits)
    ensures TemplateFrom(s, pos, p).pool == TemplateFrom(s, end, p).pool
    ensures |TemplateFrom(s, pos, p).output| == end - pos + |TemplateFrom(s, end, p).output|
    ensures ExpandFrom(t, at, done, entries, limits)
         == ExpandFrom(t, at + end - pos, done + s[pos..end], entries, limits)
    ensures At(t, at + end - pos, TemplateFrom(s, end, p).output)
  {
    hide Shares, TemplateFrom, ExpandFrom, PoolState.Consistent, PieceEnd, At;
    LiteralPiece(s, pos, end, p);
    AtConcat(t, at, s[pos..end], TemplateFrom(s, end, p).output);
    ExpandLiteralPiece(t, at, s[pos..end], done, entries, limits);
  }

  lemma ExpandLiteralPiece(t: bytes, at: nat, piece: bytes, done: bytes, entries: seq<bytes>, limits: Limits)
    requires At(t, at, piece) && 0 !in piece && Fits(|done| + |piece|, limits)
    ensures ExpandFrom(t, at, done, entries, limits) == ExpandFrom(t, at + |piece|, done + piece, entries, limits)
  {
    hide ExpandFrom;
    forall i | at <= i < at + |piece| ensures t[i] != 0 {
      assert t[at..at + |piece|][i - at] == t[i];
    }
    ExpandLiteral(t, at, |piece|, done, entries, limits);
  }

  lemma TemplateShared(s: bytes, pos: nat, end: nat, p: PoolState, t: bytes, at: nat, done: bytes,
                       entries: seq<bytes>, limits: Limits)
    requires p.Consistent() && pos < |s| && s[pos] == LETTER_L && end == PieceEnd(s, pos)
    requires Shares(s, pos + 1, end, p)
    requires Fits(|done| + |s| - pos, limits)
    requires At(t, at, TemplateFrom(s, pos, p).output)
    requires Within(TemplateFrom(s, pos, p).pool, entries) && |entries| <= U64_LIMIT
    ensures var (reference, p1) := NameReference(s[pos + 1..end], p);
            && ExpandFrom(t, at, done, entries, limits)
            == ExpandFrom(t, at + 2 + |reference|, done + s[pos..end], entries, limits)
            && At(t, at + 2 + |reference|, TemplateFrom(s, end, p1).output)
            && TemplateFrom(s, pos, p).pool == TemplateFrom(s, end, p1).pool
            && |TemplateFrom(s, pos, p).output| == 2 + |reference| + |TemplateFrom(s, end, p1).output|
  {
    hide Grows, PoolState.Consistent, NameReference, ExpandFrom, NameAt, SharedName, Within, At;
    var name := s[pos + 1..end];
    var (reference, p1) := NameReference(name, p);
    var rest := TemplateFrom(s, end, p1);
    SharedNameSplits(s, pos + 1, end);
    TemplateSharedAt(t, at, reference, rest.output);
    WithinEarlier(p1, rest.pool, entries);
    NameReferenceReads(name, p, t, at + 2, entries);
    ExpandLiteral(t, at, 1, done, entries, limits);
    ExpandReference(t, at + 1, done + t[at..at + 1], name, at + 2 + |reference|, entries, limits);
    assert done + t[at..at + 1] + name == done + s[pos..end];
  }

  lemma TemplateSharedAt(t: bytes, at: nat, reference: bytes, rest: bytes)
    requires At(t, at, [LETTER_L, 0] + reference + rest)
    ensures t[at] == LETTER_L && t[at + 1] == 0
    ensures At(t, at + 2, reference) && At(t, at + 2 + |reference|, rest)
  {
    AtConcat(t, at, [LETTER_L, 0] + reference, rest);
    AtConcat(t, at, [LETTER_L, 0], reference);
    assert t[at..at + 2][0] == LETTER_L && t[at..at + 2][1] == 0;
  }

  // ---------- One constant ----------

  /** An external candidate reads back as its text. */
  lemma CandidateReads(text: bytes, isClass: bool, p: PoolState, s: bytes, pos: nat, entries: seq<bytes>, limits: Limits)
    requires p.Consistent() && 0 !in text && Fits(|text|, limits)
    requires Candidate(text, isClass, p).0 != [] && At(s, pos, Candidate(text, isClass, p).0)
    requires Within(Candidate(text, isClass, p).1, entries) && |entries| <= U64_LIMIT
    ensures pos < |s| && External(s[pos])
    ensures ExternalAt(s[pos], s, pos + 1, entries, limits) == Got(text, pos + |Candidate(text, isClass, p).0|)
  {
    hide Grows, PoolState.Consistent, NameReference, At, Within, NameOf, Interned, TemplateFrom, NameAt, VuintAt, Vuint, Expand;
    if isClass && (text == [] || (text[0] != 0x5b && text[0] != SLASH)) {
      TaggedAt(s, pos, CLASS_TAG, NameReference(text, p).0);
      assert LastSlash(text) != Some(0);
      NameReferenceReads(text, p, s, pos + 1, entries);
    } else {
      var template := EncodedTemplate(text, p);
      if template.changed {
        var index := IndexReads(TEMPLATE_TAG, template.pool, template.output, s, pos, entries);
        InternedGrows(template.pool, template.output);
        WithinEarlier(template.pool, Interned(template.pool, template.output).0, entries);
        TemplateReads(text, p, entries, limits);
      } else {
        var index := IndexReads(STRING_TAG, p, text, s, pos, entries);
      }
    }
  }

  lemma TaggedAt(s: bytes, pos: nat, tag: byte, rest: bytes)
    requires At(s, pos, [tag] + rest)
    ensures s[pos] == tag && At(s, pos + 1, rest)
  {
    AtConcat(s, pos, [tag], rest);
    assert s[pos..pos + 1][0] == tag;
  }

  lemma IndexReads(tag: byte, p: PoolState, value: bytes, s: bytes, pos: nat, entries: seq<bytes>) returns (index: nat)
    requires p.Consistent() && Within(Interned(p, value).0, entries) && |entries| <= U64_LIMIT
    requires At(s, pos, [tag] + Vuint(Interned(p, value).1))
    ensures s[pos] == tag
    ensures VuintAt(s, pos + 1) == Got(index, pos + 1 + |Vuint(Interned(p, value).1)|)
    ensures index < |entries| && entries[index] == value
  {
    hide At, PoolState.Consistent, Interned, Within, VuintAt;
    index := Interned(p, value).1;
    InternedReads(p, value, entries);
    TaggedAt(s, pos, tag, Vuint(index));
    VuintRoundTrip(s, pos + 1, index);
  }

  lemma TemplateReads(text: bytes, p: PoolState, entries: seq<bytes>, limits: Limits)
    requires p.Consistent() && 0 !in text && Fits(|text|, limits)
    requires Within(TemplateFrom(text, 0, p).pool, entries) && |entries| <= U64_LIMIT
    ensures Expand(TemplateFrom(text, 0, p).output, entries, limits) == Some(text)
  {
    hide TemplateFrom, Within, ExpandFrom, PoolState.Consistent;
    var t := TemplateFrom(text, 0, p).output;
    TemplateIsNoLonger(text, 0, p);
    AtSelf(t);
    TemplateExpands(text, 0, p, t, 0, [], entries, limits);
    assert [] + text[0..] == text;
  }

  /** How a constant is written: its replacement, or its own record. */
  function Written(c: Constant, isClass: bool, p: PoolState): bytes
    requires p.Consistent()
  {
    var replacement := Replacement(c, isClass, p).0;
    if replacement == [] then Framed(c) else replacement
  }

  /** Either way, the written record reads back as the original one. */
  lemma WrittenReads(c: Constant, isClass: bool, p: PoolState, s: bytes, pos: nat, entries: seq<bytes>, limits: Limits)
    requires p.Consistent() && Proper(c) && limits.Bytes(|c.body|)
    requires At(s, pos, Written(c, isClass, p))
    requires Within(Replacement(c, isClass, p).1, entries) && |entries| <= U64_LIMIT
    ensures pos < |s| && Wide(s[pos]) == Wide(c.tag)
    ensures RecordAt(s, pos, entries, limits) == Got(Framed(c), pos + |Written(c, isClass, p)|)
  {
    hide PoolState.Consistent, At, Within, Candidate, BodyAt, ExternalAt;
    if Replacement(c, isClass, p).0 == [] {
      TaggedAt(s, pos, c.tag, c.body);
      BodyAtRoundTrip(c, s, pos + 1);
    } else {
      CandidateReads(c.body[2..], isClass, p, s, pos, entries, limits);
      FramedString(c);
    }
  }

  lemma FramedString(c: Constant)
    requires Proper(c) && c.tag == 1
    ensures |c.body[2..]| < 0x10000 && [1] + Be16(|c.body[2..]|) + c.body[2..] == Framed(c)
  {
    assert c.body == [c.body[0], c.body[1]] + c.body[2..];
  }

  // ---------- The whole pool ----------

  lemma {:induction false} SlotsRestore(s: bytes, pos: nat, constants: seq<Option<Constant>>, slot: nat, classes: set<nat>,
                                        p: PoolState, done: bytes, entries: seq<bytes>, limits: Limits)
    requires slot <= |constants| && ProperFrom(constants, slot) && p.Consistent()
    requires At(s, pos, TransformFrom(constants, slot, classes, p).0)
    requires Within(TransformFrom(constants, slot, classes, p).1, entries) && |entries| <= U64_LIMIT
    requires limits.Bytes(|done| + |FramedFrom(constants, slot)|)
    ensures RestoreFrom(s, pos, slot, |constants|, done, entries, limits)
         == RestoreFrom(s, pos + |TransformFrom(constants, slot, classes, p).0|, |constants|, |constants|,
                        done + FramedFrom(constants, slot), entries, limits)
    decreases |constants| - slot
  {
    hide PoolState.Consistent, At, Within, Proper, Replacement, RecordAt, Framed, Grows;
    if slot == |constants| {
      assert done + [] == done;
    } else {
      var c := constants[slot].value;
      var q := Replacement(c, slot in classes, p).1;
      var written := Written(c, slot in classes, p);
      var next := if Wide(c.tag) then slot + 2 else slot + 1;
      TransformStep(constants, slot, next, classes, p);
      AtConcat(s, pos, written, TransformFrom(constants, next, classes, q).0);
      WithinEarlier(q, TransformFrom(constants, next, classes, q).1, entries);
      assert |FramedFrom(constants, slot)| == |Framed(c)| + |FramedFrom(constants, next)|;
      assert |Framed(c)| > |c.body| by { FramedLength(c); }
      WrittenReads(c, slot in classes, p, s, pos, entries, limits);
      SlotsRestore(s, pos + |written|, constants, next, classes, q, done + Framed(c), entries, limits);
      assert done + Framed(c) + FramedFrom(constants, next) == done + (Framed(c) + FramedFrom(constants, next));
    }
  }

  lemma FramedLength(c: Constant)
    ensures |Framed(c)| == 1 + |c.body|
  {
  }

  lemma TransformStep(constants: seq<Option<Constant>>, slot: nat, next: nat, classes: set<nat>, p: PoolState)
    requires p.Consistent() && slot < next <= |constants| && constants[slot].Some? && next <= slot + 2
    requires next == slot + 2 ==> constants[slot + 1] == None
    ensures var c := constants[slot].value;
            var q := Replacement(c, slot in classes, p).1;
            && TransformFrom(constants, slot, classes, p).0
            == Written(c, slot in classes, p) + TransformFrom(constants, next, classes, q).0
            && TransformFrom(constants, slot, classes, p).1 == TransformFrom(constants, next, classes, q).1
            && FramedFrom(constants, slot) == Framed(c) + FramedFrom(constants, next)
  {
    hide PoolState.Consistent, Replacement, Grows;
  }

  // ---------- Whole class files ----------

  /** A transformed class file is smaller and restores to the original bytes. */
  lemma TransformRoundTrip(s: bytes, p: PoolState, entries: seq<bytes>, limits: Limits)
    requires p.Consistent()
    requires Transform(s, p, limits).outcome.Ok? && Transform(s, p, limits).outcome.value.Some?
    requires Within(Transform(s, p, limits).pool, entries) && |entries| <= U64_LIMIT
    ensures var output := Transform(s, p, limits).outcome.value.value;
            |output| < |s| && Restore(output, entries, limits) == Some(s)
  {
    hide PoolState.Consistent, Within, TransformFrom, ScanFrom, RestoreFrom, ProperFrom, FramedFrom, Classes, Grows, Vuint, At;
    var Scanned(constants, bodyStart) := ScanPool(s, limits).value;
    var count := FromBe16(s[8], s[9]);
    var pool := TransformFrom(constants, 1, Classes(constants), p).0;
    var output := Transform(s, p, limits).outcome.value.value;
    ScanIsLossless(s, 10, [None], count);
    TransformedLayout(s, pool, bodyStart, output);
    var done := CLASS_MAGIC + s[4..10];
    assert done == s[..10] by { assert s[..10] == s[..4] + s[4..10]; }
    SlotsRestore(output, 10, constants, 1, Classes(constants), p, done, entries, limits);
    RestoreBody(output, 10 + |pool|, count, done + s[10..bodyStart], entries, limits);
    assert s[..10] + s[10..bodyStart] + s[bodyStart..] == s;
  }

  lemma TransformedLayout(s: bytes, pool: bytes, bodyStart: nat, output: bytes)
    requires 10 <= bodyStart <= |s|
    requires output == TRANSFORMED_MAGIC + s[4..10] + pool + s[bodyStart..]
    ensures output[..4] == TRANSFORMED_MAGIC && output[4..10] == s[4..10]
    ensures output[8] == s[8] && output[9] == s[9]
    ensures At(output, 10, pool) && output[10 + |pool|..] == s[bodyStart..]
  {
  }

  lemma RestoreBody(s: bytes, pos: nat, count: nat, done: bytes, entries: seq<bytes>, limits: Limits)
    requires pos <= |s| && limits.Bytes(|done| + |s| - pos)
    ensures RestoreFrom(s, pos, count, count, done, entries, limits) == Some(done + s[pos..])
  {
  }

  // ---------- Runs of calls on one builder ----------

  /** The outcomes of successive calls, and the pool they leave. */
  function TransformAll(inputs: seq<bytes>, p: PoolState, limits: Limits): (r: (seq<Result<Option<bytes>>>, PoolState))
    requires p.Consistent()
    ensures |r.0| == |inputs| && r.1.Consistent() && Grows(p, r.1)
    decreases |inputs|
  {
    if inputs == [] then GrowsReflexive(p); ([], p)
    else
      var first := Transform(inputs[0], p, limits);
      var rest := TransformAll(inputs[1..], first.pool, limits);
      GrowsTransitive(p, first.pool, rest.1);
      ([first.outcome] + rest.0, rest.1)
  }

  /** Whatever the other calls did, every output restores against any pool that continues the final one. */
  lemma {:induction false} RunRestores(inputs: seq<bytes>, p: PoolState, entries: seq<bytes>, limits: Limits, i: nat)
    requires p.Consistent() && i < |inputs|
    requires Within(TransformAll(inputs, p, limits).1, entries) && |entries| <= U64_LIMIT
    ensures match TransformAll(inputs, p, limits).0[i]
            case Ok(Some(output)) => Restore(output, entries, limits) == Some(inputs[i])
            case _ => true
    decreases |inputs|
  {
    hide PoolState.Consistent, Within, Transform, Restore, Grows;
    var first := Transform(inputs[0], p, limits);
    if i == 0 {
      if first.outcome.Ok? && first.outcome.value.Some? {
        WithinEarlier(first.pool, TransformAll(inputs, p, limits).1, entries);
        TransformRoundTrip(inputs[0], p, entries, limits);
      }
    } else {
      RunRestores(inputs[1..], first.pool, entries, limits, i - 1);
    }
  }

  /** Inputs whose call produced a class file. */
  function Productive(inputs: seq<bytes>, outcomes: seq<Result<Option<bytes>>>): seq<bytes>
    requires |inputs| == |outcomes|
  {
    if inputs == [] then []
    else (if outcomes[0].Ok? && outcomes[0].value.Some? then [inputs[0]] else []) + Productive(inputs[1..], outcomes[1..])
  }

  /** Calls that return nothing or fail leave no trace: the run without them ends in the same builder. */
  lemma {:induction false} UnproductiveCallsLeaveNoTrace(inputs: seq<bytes>, p: PoolState, limits: Limits)
    requires p.Consistent()
    ensures TransformAll(Productive(inputs, TransformAll(inputs, p, limits).0), p, limits).1 == TransformAll(inputs, p, limits).1
    decreases |inputs|
  {
    hide PoolState.Consistent, Transform, Grows;
    if inputs != [] {
      var first := Transform(inputs[0], p, limits);
      var rest := TransformAll(inputs[1..], first.pool, limits);
      assert TransformAll(inputs, p, limits).0[1..] == rest.0;
      UnproductiveCallsLeaveNoTrace(inputs[1..], first.pool, limits);
      var productive := Productive(inputs[1..], rest.0);
      if first.outcome.Ok? && first.outcome.value.Some? {
        assert ([inputs[0]] + productive)[1..] == productive;
      } else {
        assert [] + productive == productive;
      }
    }
  }
}
