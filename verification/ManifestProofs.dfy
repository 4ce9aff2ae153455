/** What is written for a runtime reads back as the runtime's manifest. */
module ManifestProofs {
  import opened Binary
  import opened Text
  import opened Orders
  import opened Manifests

  // ---------- Lines ----------

  /** Neither a line break nor a zero byte. */
  ghost predicate Clean(s: bytes) {
    forall i :: 0 <= i < |s| ==> s[i] != 0 && !Newline(s[i])
  }

  ghost predicate AllClean(lines: seq<bytes>) {
    forall i :: 0 <= i < |lines| ==> Clean(lines[i])
  }

  lemma {:induction false} LineEndIs(s: bytes, pos: nat, end: nat)
    requires pos <= end < |s| && Newline(s[end]) && forall i :: pos <= i < end ==> !Newline(s[i])
    ensures LineEnd(s, pos) == Some(end)
    decreases end - pos
  {
    if pos < end {
      LineEndIs(s, pos + 1, end);
    }
  }

  lemma LineAt(s: bytes, pos: nat, line: bytes)
    requires At(s, pos, line + [CR, LF]) && Clean(line)
    ensures LineEnd(s, pos) == Some(pos + |line|) && AfterBreak(s, pos + |line|) == pos + |line| + 2
    ensures s[pos..pos + |line|] == line
  {
    AtConcat(s, pos, line, [CR, LF]);
    BreakAt(s, pos + |line|);
    forall i | pos <= i < pos + |line| ensures !Newline(s[i]) {
      assert s[i] == s[pos..pos + |line|][i - pos] == line[i - pos];
    }
    LineEndIs(s, pos, pos + |line|);
  }

  lemma BreakAt(s: bytes, pos: nat)
    requires At(s, pos, [CR, LF])
    ensures s[pos] == CR && s[pos + 1] == LF
  {
    var mark := s[pos..pos + 2];
    assert s[pos] == mark[0] && s[pos + 1] == mark[1];
  }

  /** Written lines are read back, one for one. */
  lemma {:induction false} LinesReadBack(s: bytes, pos: nat, lines: seq<bytes>)
    requires At(s, pos, TextOf(lines)) && pos + |TextOf(lines)| == |s| && AllClean(lines)
    ensures LinesFrom(s, pos) == Some(lines)
    decreases |lines|
  {
    hide At, Clean, LineEnd, AfterBreak;
    if lines != [] {
      var line := lines[0];
      AtConcat(s, pos, line + [CR, LF], TextOf(lines[1..]));
      LineAt(s, pos, line);
      LinesReadBack(s, pos + |line| + 2, lines[1..]);
      assert [line] + lines[1..] == lines;
    }
  }

  // ---------- One folded header ----------

  lemma {:induction false} ContinuationsParse(rest: bytes, more: seq<bytes>, section: seq<(bytes, bytes)>, name: bytes, value: bytes, main: bool,
                                              m: Manifest, limits: Limits)
    requires Clean(rest) && limits.Bytes(|value| + |rest|)
    ensures ParseLines(Continuations(rest) + more, section + [(name, value)], main, m, limits)
            == ParseLines(more, section + [(name, value + rest)], main, m, limits)
    decreases |rest|
  {
    hide ParseLines, Continuations, Clean;
    if rest == [] {
      NoContinuation(more);
      assert value + [] == value;
    } else {
      var chunk := if |rest| < WIDTH then rest else rest[..WIDTH - 1];
      var tail := if |rest| < WIDTH then [] else rest[WIDTH - 1..];
      assert rest == chunk + tail;
      CleanParts(chunk, tail);
      ContinuationStep(chunk, Continuations(tail) + more, section, name, value, main, m, limits);
      OneContinuation(rest, more);
      ContinuationsParse(tail, more, section, name, value + chunk, main, m, limits);
      assert (value + chunk) + tail == value + rest;
    }
  }

  lemma NoContinuation(more: seq<bytes>)
    ensures Continuations([]) + more == more
  {
    assert [] + more == more;
  }

  lemma CleanParts(a: bytes, b: bytes)
    requires Clean(a + b)
    ensures Clean(a) && Clean(b)
  {
    forall i | 0 <= i < |a| ensures a[i] != 0 && !Newline(a[i]) {
      assert (a + b)[i] == a[i];
    }
    forall i | 0 <= i < |b| ensures b[i] != 0 && !Newline(b[i]) {
      assert (a + b)[|a| + i] == b[i];
    }
  }

  lemma OneContinuation(rest: bytes, more: seq<bytes>)
    requires rest != []
    ensures var chunk := if |rest| < WIDTH then rest else rest[..WIDTH - 1];
            var tail := if |rest| < WIDTH then [] else rest[WIDTH - 1..];
            Continuations(rest) + more == [[SPACE] + chunk] + (Continuations(tail) + more)
  {
    if |rest| < WIDTH {
      var none: bytes := [];
      assert Continuations(none) == [];
    }
  }

  lemma ContinuationStep(chunk: bytes, lines: seq<bytes>, section: seq<(bytes, bytes)>, name: bytes, value: bytes, main: bool, m: Manifest, limits: Limits)
    requires Clean(chunk) && limits.Bytes(|value| + |chunk|)
    ensures ParseLines([[SPACE] + chunk] + lines, section + [(name, value)], main, m, limits)
            == ParseLines(lines, section + [(name, value + chunk)], main, m, limits)
  {
    hide HeaderOf, WithSection;
    var line := [SPACE] + chunk;
    var all, before := [line] + lines, section + [(name, value)];
    assert all[0] == line && all[1..] == lines && line[1..] == chunk;
    assert 0 !in line;
    assert before[..|before| - 1] == section;
  }

  lemma {:induction false} ColonIs(line: bytes, colon: nat)
    requires colon < |line| && line[colon] == COLON && COLON !in line[..colon]
    ensures ColonIn(line) == Some(colon)
    decreases |line|
  {
    if colon > 0 {
      assert line[..colon] == [line[0]] + line[1..][..colon - 1];
      ColonIs(line[1..], colon - 1);
    }
  }

  lemma HeaderReads(name: bytes, value: bytes)
    requires HeaderName(name)
    ensures HeaderOf(Header(name, value)) == Some((Lower(name), value))
  {
    hide Lower;
    var line := Header(name, value);
    assert COLON !in name;
    assert line[..|name|] == name && line[|name| + 2..] == value;
    ColonIs(line, |name|);
  }

  lemma FirstLineParses(name: bytes, value: bytes, lines: seq<bytes>, section: seq<(bytes, bytes)>, main: bool, m: Manifest, limits: Limits)
    requires HeaderName(name) && Clean(value) && limits.Elements(|section| + 1)
    ensures ParseLines([Header(name, value)] + lines, section, main, m, limits)
            == ParseLines(lines, section + [(Lower(name), value)], main, m, limits)
  {
    hide HeaderOf, WithSection, Lower;
    var line := Header(name, value);
    var all := [line] + lines;
    assert all[0] == line && all[1..] == lines;
    HeaderReads(name, value);
    assert line[0] == name[0];
    assert 0 !in line;
  }

  /** A folded header adds one attribute with its whole value, wherever the fold falls. */
  lemma FoldedParses(name: bytes, value: bytes, more: seq<bytes>, section: seq<(bytes, bytes)>, main: bool, m: Manifest, limits: Limits)
    requires HeaderName(name) && Clean(value) && limits.Elements(|section| + 1) && limits.Bytes(|value|)
    ensures ParseLines(Folded(Header(name, value)) + more, section, main, m, limits)
            == ParseLines(more, section + [(Lower(name), value)], main, m, limits)
  {
    hide ParseLines, Lower, Continuations;
    var header := Header(name, value);
    if |header| <= WIDTH {
      FirstLineParses(name, value, more, section, main, m, limits);
    } else {
      var cut := WIDTH - |name| - 2;
      assert header[..WIDTH] == Header(name, value[..cut]) && header[WIDTH..] == value[cut..];
      assert Folded(header) + more == [header[..WIDTH]] + (Continuations(value[cut..]) + more);
      FirstLineParses(name, value[..cut], Continuations(value[cut..]) + more, section, main, m, limits);
      ContinuationsParse(value[cut..], more, section, Lower(name), value[..cut], main, m, limits);
      assert value[..cut] + value[cut..] == value;
    }
  }

  // ---------- Attributes ----------

  /** Lowercase header names other than `name`, with clean UTF-8 values. */
  ghost predicate Good(attributes: Attributes) {
    forall name :: name in attributes ==>
      HeaderName(name) && Lower(name) == name && name != NAME && Utf8(attributes[name]) && Clean(attributes[name])
  }

  predicate Short(attributes: Attributes, limits: Limits) {
    forall name :: name in attributes ==> limits.Bytes(|attributes[name]|)
  }

  function Pairs(attributes: Attributes, names: seq<bytes>): (r: seq<(bytes, bytes)>)
    requires forall name :: name in names ==> name in attributes
    ensures |r| == |names|
  {
    if names == [] then [] else Pairs(attributes, names[..|names| - 1]) + [(names[|names| - 1], attributes[names[|names| - 1]])]
  }

  lemma NamesFront(names: seq<bytes>)
    requires names != []
    ensures forall name :: name in names <==> name in names[..|names| - 1] || name == names[|names| - 1]
  {
    assert names == names[..|names| - 1] + [names[|names| - 1]];
  }

  lemma {:induction false} HeadersParse(attributes: Attributes, names: seq<bytes>, more: seq<bytes>, section: seq<(bytes, bytes)>, main: bool,
                                        m: Manifest, limits: Limits)
    requires Good(attributes) && Short(attributes, limits) && (forall name :: name in names ==> name in attributes)
    requires limits.Elements(|section| + |names|)
    ensures ParseLines(HeaderLines(attributes, names) + more, section, main, m, limits)
            == ParseLines(more, section + Pairs(attributes, names), main, m, limits)
    decreases |names|
  {
    hide ParseLines, Folded, HeaderName, Clean, Utf8;
    if names == [] {
      assert HeaderLines(attributes, names) + more == more && section + [] == section;
    } else {
      var front, last := names[..|names| - 1], names[|names| - 1];
      NamesFront(names);
      var folded := Folded(Header(last, attributes[last]));
      assert HeaderLines(attributes, names) + more == HeaderLines(attributes, front) + (folded + more);
      HeadersParse(attributes, front, folded + more, section, main, m, limits);
      var before := section + Pairs(attributes, front);
      FoldedParses(last, attributes[last], more, before, main, m, limits);
      assert before + [(last, attributes[last])] == section + Pairs(attributes, names);
    }
  }

  function Restricted(attributes: Attributes, names: seq<bytes>): Attributes {
    map name | name in attributes && name in names :: attributes[name]
  }

  lemma {:induction false} PairsAdd(target: Attributes, section: seq<(bytes, bytes)>, attributes: Attributes, names: seq<bytes>)
    requires Good(attributes) && (forall name :: name in names ==> name in attributes)
    requires Added(target, section).Some?
    ensures Added(target, section + Pairs(attributes, names)) == Some(Added(target, section).value + Restricted(attributes, names))
    decreases |names|
  {
    hide Utf8, HeaderName, Clean, Lower;
    var base := Added(target, section).value;
    if names == [] {
      assert section + Pairs(attributes, names) == section && base + Restricted(attributes, names) == base;
    } else {
      var front, last := names[..|names| - 1], names[|names| - 1];
      NamesFront(names);
      PairsAdd(target, section, attributes, front);
      var all := section + Pairs(attributes, names);
      assert all == (section + Pairs(attributes, front)) + [(last, attributes[last])];
      assert all[..|all| - 1] == section + Pairs(attributes, front) && all[|all| - 1] == (last, attributes[last]);
      assert (base + Restricted(attributes, front))[last := attributes[last]] == base + Restricted(attributes, names);
    }
  }

  lemma RestrictedToAll(attributes: Attributes)
    ensures Restricted(attributes, Sorted(attributes.Keys)) == attributes
  {
  }

  // ---------- Entries ----------

  ghost predicate GoodEntries(entries: map<bytes, Attributes>) {
    forall entry :: entry in entries ==> entry != [] && Utf8(entry) && Clean(entry) && Good(entries[entry])
  }

  ghost predicate EntriesAdmitted(entries: map<bytes, Attributes>, limits: Limits) {
    forall entry :: entry in entries ==>
      limits.Bytes(|entry|) && Short(entries[entry], limits) && limits.Elements(|entries[entry]| + 1)
  }

  /** The pairs of an entry, after its name, make the entry. */
  lemma EntryAdds(name: bytes, attributes: Attributes, m: Manifest)
    requires name != [] && Utf8(name) && Good(attributes) && name !in m.entries
    ensures WithSection(m, [(NAME, name)] + Pairs(attributes, Sorted(attributes.Keys)), false)
            == Some(m.(entries := m.entries[name := attributes]))
  {
    hide Utf8, Good, Sorted, Added;
    var none: seq<(bytes, bytes)>, empty: Attributes := [], map[];
    var pairs := Pairs(attributes, Sorted(attributes.Keys));
    NothingAdded(empty);
    PairsAdd(empty, none, attributes, Sorted(attributes.Keys));
    RestrictedToAll(attributes);
    assert none + pairs == pairs && empty + attributes == attributes;
    assert ([(NAME, name)] + pairs)[1..] == pairs;
  }

  lemma NothingAdded(target: Attributes)
    ensures Added(target, []) == Some(target)
  {
  }

  /** A first header, then attributes, then a blank line: one whole section. */
  lemma SectionParses(name: bytes, value: bytes, attributes: Attributes, more: seq<bytes>, main: bool, m: Manifest, limits: Limits)
    requires HeaderName(name) && Clean(value) && limits.Bytes(|value|)
    requires Good(attributes) && Short(attributes, limits) && limits.Elements(|attributes| + 1)
    requires WithSection(m, [(Lower(name), value)] + Pairs(attributes, Sorted(attributes.Keys)), main).Some?
    ensures
      var section := [(Lower(name), value)] + Pairs(attributes, Sorted(attributes.Keys));
      ParseLines(Folded(Header(name, value)) + HeaderLines(attributes, Sorted(attributes.Keys)) + [[]] + more, [], main, m, limits)
      == ParseLines(more, [], false, WithSection(m, section, main).value, limits)
  {
    hide ParseLines, Folded, Clean, Good, HeaderName, Sorted, HeaderLines, Lower, Short, WithSection, Pairs;
    var names := Sorted(attributes.Keys);
    var headers, blank: bytes, none: seq<(bytes, bytes)> := HeaderLines(attributes, names), [], [];
    var first := [(Lower(name), value)];
    assert Folded(Header(name, value)) + headers + [blank] + more == Folded(Header(name, value)) + (headers + ([blank] + more));
    FoldedParses(name, value, headers + ([blank] + more), none, main, m, limits);
    assert none + first == first;
    SortedSize(attributes.Keys);
    HeadersParse(attributes, names, [blank] + more, first, main, m, limits);
    BlankParses(more, first + Pairs(attributes, names), main, m, limits);
  }

  lemma EntryParses(name: bytes, attributes: Attributes, more: seq<bytes>, m: Manifest, limits: Limits)
    requires name != [] && Utf8(name) && Clean(name) && Good(attributes) && name !in m.entries
    requires limits.Bytes(|name|) && Short(attributes, limits) && limits.Elements(|attributes| + 1)
    ensures ParseLines(EntryLines(name, attributes) + more, [], false, m, limits)
            == ParseLines(more, [], false, m.(entries := m.entries[name := attributes]), limits)
  {
    hide ParseLines, Folded, Utf8, Clean, Good, HeaderName, Sorted, HeaderLines, Lower, Short, WithSection, Pairs;
    NameHeader();
    EntryAdds(name, attributes, m);
    SectionParses(NAME_HEADER, name, attributes, more, false, m, limits);
  }

  lemma NameHeader()
    ensures HeaderName(NAME_HEADER) && Lower(NAME_HEADER) == NAME && HeaderName(VERSION_HEADER) && Lower(VERSION_HEADER) == VERSION
    ensures HeaderName(VERSION) && Lower(VERSION) == VERSION && VERSION != NAME
  {
    hide Lower, HeaderName;
    assert Lower(NAME_HEADER) == NAME;
    LowerIs(VERSION_HEADER, VERSION);
    LowerIs(VERSION, VERSION);
    NamesAreValid();
  }

  lemma LowerIs(s: bytes, t: bytes)
    requires |s| == |t| && forall i :: 0 <= i < |s| ==> LowerByte(s[i]) == t[i]
    ensures Lower(s) == t
  {
    hide Lower;
  }

  lemma NamesAreValid()
    ensures HeaderName(NAME_HEADER) && HeaderName(VERSION_HEADER) && HeaderName(VERSION)
  {
    hide Lower;
  }

  /** A blank line completes the section. */
  lemma BlankParses(more: seq<bytes>, section: seq<(bytes, bytes)>, main: bool, m: Manifest, limits: Limits)
    requires WithSection(m, section, main).Some?
    ensures ParseLines([[]] + more, section, main, m, limits) == ParseLines(more, [], false, WithSection(m, section, main).value, limits)
  {
    hide WithSection, HeaderOf;
    var blank: bytes := [];
    var all := [blank] + more;
    assert all[0] == blank && all[1..] == more;
  }

  function RestrictedEntries(entries: map<bytes, Attributes>, names: seq<bytes>): map<bytes, Attributes> {
    map name | name in entries && name in names :: entries[name]
  }

  ghost predicate Once(names: seq<bytes>) {
    forall i, j :: 0 <= i < j < |names| ==> names[i] != names[j]
  }

  lemma {:induction false} EntriesParse(entries: map<bytes, Attributes>, names: seq<bytes>, more: seq<bytes>, main: Attributes, limits: Limits)
    requires GoodEntries(entries) && EntriesAdmitted(entries, limits) && (forall name :: name in names ==> name in entries) && Once(names)
    ensures ParseLines(EntriesLines(entries, names) + more, [], false, Manifest(main, map[]), limits)
            == ParseLines(more, [], false, Manifest(main, RestrictedEntries(entries, names)), limits)
    decreases |names|
  {
    hide ParseLines, EntryLines, Good, Utf8, Clean, Short, RestrictedEntries, EntriesLines;
    if names == [] {
      NoEntries(entries, more);
    } else {
      var front, last := names[..|names| - 1], names[|names| - 1];
      NamesFront(names);
      RestrictedOneMore(entries, names);
      EntriesParse(entries, front, EntryLines(last, entries[last]) + more, main, limits);
      LastEntryLines(entries, names, more);
      EntryParses(last, entries[last], more, Manifest(main, RestrictedEntries(entries, front)), limits);
    }
  }

  lemma NoEntries(entries: map<bytes, Attributes>, more: seq<bytes>)
    ensures EntriesLines(entries, []) + more == more && RestrictedEntries(entries, []) == map[]
  {
  }

  lemma RestrictedOneMore(entries: map<bytes, Attributes>, names: seq<bytes>)
    requires names != [] && Once(names) && names[|names| - 1] in entries
    ensures var front, last := names[..|names| - 1], names[|names| - 1];
            && Once(front) && last !in RestrictedEntries(entries, front)
            && RestrictedEntries(entries, front)[last := entries[last]] == RestrictedEntries(entries, names)
  {
    NamesFront(names);
    var front, last := names[..|names| - 1], names[|names| - 1];
    assert last !in front;
  }

  lemma LastEntryLines(entries: map<bytes, Attributes>, names: seq<bytes>, more: seq<bytes>)
    requires names != [] && forall name :: name in names ==> name in entries
    ensures var front, last := names[..|names| - 1], names[|names| - 1];
            && (forall name :: name in front ==> name in entries)
            && EntriesLines(entries, names) + more == EntriesLines(entries, front) + (EntryLines(last, entries[last]) + more)
  {
    hide EntryLines;
    NamesFront(names);
  }

  // ---------- The whole manifest ----------

  ghost predicate WellFormed(m: Manifest) {
    Good(m.main) && GoodEntries(m.entries)
  }

  /** The limits admit the written form. */
  ghost predicate Admitted(m: Manifest, limits: Limits) {
    && limits.Bytes(|RuntimeText(m)|)
    && limits.Bytes(|VersionOf(m)|) && Short(MainKept(m), limits) && limits.Elements(|MainKept(m)| + 1)
    && EntriesAdmitted(EntriesKept(m), limits) && limits.Elements(|EntriesKept(m)|)
  }

  lemma KeptIsGood(m: Manifest)
    requires WellFormed(m)
    ensures Good(MainKept(m)) && GoodEntries(EntriesKept(m)) && Clean(VersionOf(m)) && Utf8(VersionOf(m))
  {
    hide Utf8, HeaderName, Lower, SignatureHeader;
    DefaultIsText();
  }

  lemma DefaultIsText()
    ensures Utf8(DEFAULT_VERSION) && Clean(DEFAULT_VERSION)
  {
    assert Utf8From(DEFAULT_VERSION, 3);
    assert Utf8From(DEFAULT_VERSION, 2);
    assert Utf8From(DEFAULT_VERSION, 1);
  }

  lemma MainParses(m: Manifest, more: seq<bytes>, limits: Limits)
    requires WellFormed(m) && Admitted(m, limits)
    ensures ParseLines(Folded(Header(VERSION_HEADER, VersionOf(m))) + HeaderLines(MainKept(m), Sorted(MainKept(m).Keys)) + [[]] + more, [], true, EMPTY, limits)
            == ParseLines(more, [], false, Manifest(ForRuntime(m).main, map[]), limits)
  {
    hide ParseLines, Folded, Utf8, Clean, Good, HeaderName, Sorted, HeaderLines, Lower, RuntimeText, MainKept, EntriesKept, VersionOf, EntriesAdmitted,
         Short, WithSection, Pairs, EntriesLines, RuntimeLines;
    KeptIsGood(m);
    NameHeader();
    MainAdds(m);
    SectionParses(VERSION_HEADER, VersionOf(m), MainKept(m), more, true, EMPTY, limits);
  }

  lemma MainAdds(m: Manifest)
    requires Good(MainKept(m)) && Utf8(VersionOf(m))
    ensures WithSection(EMPTY, [(VERSION, VersionOf(m))] + Pairs(MainKept(m), Sorted(MainKept(m).Keys)), true)
            == Some(Manifest(ForRuntime(m).main, map[]))
  {
    hide Utf8, Good, Sorted, Added, MainKept, VersionOf, EntriesKept;
    var kept, version := MainKept(m), VersionOf(m);
    FirstAdds(version);
    PairsAdd(map[], [(VERSION, version)], kept, Sorted(kept.Keys));
    RestrictedToAll(kept);
    VersionIsApart(m);
    assert map[VERSION := version] + kept == kept[VERSION := version];
  }

  lemma FirstAdds(version: bytes)
    requires Utf8(version)
    ensures Added(map[], [(VERSION, version)]) == Some(map[VERSION := version])
  {
    hide Utf8;
    var section, none: seq<(bytes, bytes)>, empty: Attributes := [(VERSION, version)], [], map[];
    assert section[..0] == none && Added(empty, none) == Some(empty);
    NameHeader();
  }

  lemma VersionIsApart(m: Manifest)
    ensures VERSION !in MainKept(m)
  {
  }

  lemma {:induction false} ContinuationsFit(rest: bytes, i: nat)
    requires Clean(rest) && i < |Continuations(rest)|
    ensures |Continuations(rest)[i]| <= WIDTH && Clean(Continuations(rest)[i])
    decreases |rest|
  {
    if |rest| >= WIDTH && i > 0 {
      ContinuationsFit(rest[WIDTH - 1..], i - 1);
    }
  }

  lemma FoldedFits(name: bytes, value: bytes)
    requires HeaderName(name) && Clean(value)
    ensures AllFit(Folded(Header(name, value)))
  {
    hide Continuations;
    var header := Header(name, value);
    forall i | 0 <= i < |header| ensures header[i] != 0 && !Newline(header[i]) {
      if i >= |name| + 2 {
        assert header[i] == value[i - |name| - 2];
      }
    }
    if |header| > WIDTH {
      forall i | 0 <= i < |Continuations(header[WIDTH..])|
        ensures |Continuations(header[WIDTH..])[i]| <= WIDTH && Clean(Continuations(header[WIDTH..])[i])
      {
        ContinuationsFit(header[WIDTH..], i);
      }
    }
  }

  /** Lines that a reader accepts as lines, none longer than the width. */
  ghost predicate AllFit(lines: seq<bytes>) {
    forall i :: 0 <= i < |lines| ==> |lines[i]| <= WIDTH && Clean(lines[i])
  }

  lemma FitConcat(a: seq<bytes>, b: seq<bytes>)
    requires AllFit(a) && AllFit(b)
    ensures AllFit(a + b)
  {
    hide Clean;
  }

  lemma {:induction false} HeadersFit(attributes: Attributes, names: seq<bytes>)
    requires Good(attributes) && forall name :: name in names ==> name in attributes
    ensures AllFit(HeaderLines(attributes, names))
    decreases |names|
  {
    hide Folded, HeaderName, Clean, Utf8, AllFit, Lower;
    if names == [] {
      NothingFits();
    } else {
      NamesFront(names);
      HeadersFit(attributes, names[..|names| - 1]);
      FoldedFits(names[|names| - 1], attributes[names[|names| - 1]]);
      FitConcat(HeaderLines(attributes, names[..|names| - 1]), Folded(Header(names[|names| - 1], attributes[names[|names| - 1]])));
    }
  }

  lemma NothingFits()
    ensures AllFit([]) && AllFit([[]])
  {
  }

  lemma {:induction false} EntriesFit(entries: map<bytes, Attributes>, names: seq<bytes>)
    requires GoodEntries(entries) && forall name :: name in names ==> name in entries
    ensures AllFit(EntriesLines(entries, names))
    decreases |names|
  {
    hide Folded, HeaderName, Clean, Utf8, AllFit, Good, Sorted, HeaderLines, Lower;
    NothingFits();
    if names != [] {
      var front, last := names[..|names| - 1], names[|names| - 1];
      NamesFront(names);
      EntriesFit(entries, front);
      NameHeader();
      FoldedFits(NAME_HEADER, last);
      var attributes := entries[last];
      HeadersFit(attributes, Sorted(attributes.Keys));
      FitConcat(Folded(Header(NAME_HEADER, last)), HeaderLines(attributes, Sorted(attributes.Keys)));
      FitConcat(Folded(Header(NAME_HEADER, last)) + HeaderLines(attributes, Sorted(attributes.Keys)), [[]]);
      FitConcat(EntriesLines(entries, front), EntryLines(last, attributes));
    }
  }

  /** Every written line is at most 72 bytes, even where a fold splits a UTF-8 sequence. */
  lemma LinesFit(m: Manifest)
    requires WellFormed(m)
    ensures AllFit(RuntimeLines(m))
  {
    hide Folded, HeaderName, Clean, Utf8, AllFit, Good, Sorted, HeaderLines, EntriesLines, MainKept, EntriesKept, VersionOf, Lower;
    KeptIsGood(m);
    NameHeader();
    NothingFits();
    var version, headers := Folded(Header(VERSION_HEADER, VersionOf(m))), HeaderLines(MainKept(m), Sorted(MainKept(m).Keys));
    FoldedFits(VERSION_HEADER, VersionOf(m));
    HeadersFit(MainKept(m), Sorted(MainKept(m).Keys));
    EntriesFit(EntriesKept(m), Sorted(EntriesKept(m).Keys));
    FitConcat(version, headers);
    FitConcat(version + headers, [[]]);
    FitConcat(version + headers + [[]], EntriesLines(EntriesKept(m), Sorted(EntriesKept(m).Keys)));
  }
}
