/** Parsed manifests survive the rewriting for a runtime, and the loops that parse and print them. */
module ManifestTheorems {
  import opened Binary
  import opened Text
  import opened Orders
  import opened Manifests
  import opened ManifestProofs

  // ---------- Reading back ----------

  lemma FitIsClean(lines: seq<bytes>)
    requires AllFit(lines)
    ensures AllClean(lines)
  {
    hide Clean;
  }

  /** The written form of a well-formed manifest parses to exactly what the runtime should see. */
  lemma RuntimeReadsBack(m: Manifest, limits: Limits)
    requires WellFormed(m) && Admitted(m, limits)
    ensures Parsed(RuntimeText(m), limits) == Some(ForRuntime(m))
  {
    hide ParseLines, Folded, HeaderLines, EntriesLines, MainKept, VersionOf, EntriesKept, Sorted, WellFormed, EntriesAdmitted, Short, LinesFrom, TextOf,
         GoodEntries, AllFit;
    var entries := EntriesKept(m);
    var names, none := Sorted(entries.Keys), EntriesLines(entries, Sorted(entries.Keys));
    LinesFit(m);
    FitIsClean(RuntimeLines(m));
    AtSelf(RuntimeText(m));
    LinesReadBack(RuntimeText(m), 0, RuntimeLines(m));
    MainParses(m, none, limits);
    KeptIsGood(m);
    NamesOnce(entries);
    var end: seq<bytes> := [];
    assert none + end == none;
    EntriesParse(entries, names, end, ForRuntime(m).main, limits);
    AllRestricted(entries);
    NoMoreLines(ForRuntime(m), limits);
  }

  lemma NamesOnce(entries: map<bytes, Attributes>)
    ensures Once(Sorted(entries.Keys)) && forall name :: name in Sorted(entries.Keys) ==> name in entries
  {
    SortedIsDistinct(entries.Keys);
  }

  lemma AllRestricted(entries: map<bytes, Attributes>)
    ensures RestrictedEntries(entries, Sorted(entries.Keys)) == entries
  {
  }

  lemma NoMoreLines(m: Manifest, limits: Limits)
    ensures ParseLines([], [], false, m, limits) == Some(m)
  {
  }

  lemma KeptTwice(attributes: Attributes)
    ensures AttributesKept(AttributesKept(attributes)) == AttributesKept(attributes)
  {
    hide SignatureHeader;
  }

  /** Rewriting a rewritten manifest changes nothing. */
  lemma RuntimeIsIdempotent(m: Manifest)
    ensures ForRuntime(ForRuntime(m)) == ForRuntime(m) && RuntimeText(ForRuntime(m)) == RuntimeText(m)
  {
    hide SignatureHeader, HeaderLines, EntriesLines, Folded, Sorted, TextOf, AttributesKept;
    var once := ForRuntime(m);
    assert MainKept(once) == MainKept(m) && VersionOf(once) == VersionOf(m);
    forall entry | entry in m.entries ensures AttributesKept(AttributesKept(m.entries[entry])) == AttributesKept(m.entries[entry]) {
      KeptTwice(m.entries[entry]);
    }
    assert EntriesKept(once) == EntriesKept(m);
  }

  // ---------- What parsing guarantees ----------

  ghost predicate Unbroken(line: bytes) {
    forall i :: 0 <= i < |line| ==> !Newline(line[i])
  }

  lemma {:induction false} LinesAreUnbroken(s: bytes, pos: nat)
    requires pos <= |s| && LinesFrom(s, pos).Some?
    ensures forall i :: 0 <= i < |LinesFrom(s, pos).value| ==> Unbroken(LinesFrom(s, pos).value[i])
    decreases |s| - pos
  {
    if pos < |s| {
      LinesAreUnbroken(s, AfterBreak(s, LineEnd(s, pos).value));
    }
  }

  ghost predicate GoodSection(section: seq<(bytes, bytes)>) {
    forall i :: 0 <= i < |section| ==> HeaderName(section[i].0) && Lower(section[i].0) == section[i].0 && Clean(section[i].1)
  }

  lemma LowerKeepsName(name: bytes)
    requires HeaderName(name)
    ensures HeaderName(Lower(name)) && Lower(Lower(name)) == Lower(name)
  {
    hide Lower;
  }

  lemma HeaderIsGood(line: bytes)
    requires Clean(line) && HeaderOf(line).Some?
    ensures var (name, value) := HeaderOf(line).value;
            HeaderName(name) && Lower(name) == name && Clean(value)
  {
    hide Lower, HeaderName;
    LowerKeepsName(line[..ColonIn(line).value]);
  }

  lemma {:induction false} AddedIsGood(target: Attributes, section: seq<(bytes, bytes)>)
    requires Good(target) && GoodSection(section) && Added(target, section).Some?
    ensures Good(Added(target, section).value)
    decreases |section|
  {
    hide Utf8, HeaderName, Clean, Lower;
    if section != [] {
      AddedIsGood(target, section[..|section| - 1]);
    }
  }

  lemma SectionKeepsForm(m: Manifest, section: seq<(bytes, bytes)>, main: bool)
    requires WellFormed(m) && GoodSection(section) && WithSection(m, section, main).Some?
    ensures WellFormed(WithSection(m, section, main).value)
  {
    hide Utf8, HeaderName, Clean, Lower, Added, Good;
    if section != [] {
      if main {
        AddedIsGood(m.main, section);
      } else {
        var entry := section[0].1;
        NothingIsGood();
        AddedIsGood(if entry in m.entries then m.entries[entry] else map[], section[1..]);
      }
    }
  }

  lemma NothingIsGood()
    ensures Good(map[])
  {
  }

  lemma ContinuedIsGood(section: seq<(bytes, bytes)>, line: bytes)
    requires GoodSection(section) && section != [] && Clean(line) && line != []
    ensures var (name, value) := section[|section| - 1];
            GoodSection(section[..|section| - 1] + [(name, value + line[1..])])
  {
    hide HeaderName, Lower;
    var (name, value) := section[|section| - 1];
    assert Clean(value + line[1..]) by {
      assert Clean(section[|section| - 1].1);
    }
  }

  lemma {:induction false} ParsingKeepsForm(lines: seq<bytes>, section: seq<(bytes, bytes)>, main: bool, m: Manifest, limits: Limits)
    requires (forall i :: 0 <= i < |lines| ==> Unbroken(lines[i])) && GoodSection(section) && WellFormed(m)
    requires ParseLines(lines, section, main, m, limits).Some?
    ensures WellFormed(ParseLines(lines, section, main, m, limits).value)
    decreases |lines|
  {
    hide WellFormed, WithSection, HeaderOf, GoodSection, Clean;
    if lines == [] {
      SectionKeepsForm(m, section, main);
    } else {
      var line := lines[0];
      UnbrokenIsClean(line);
      NoSection();
      if line == [] {
        SectionKeepsForm(m, section, main);
        ParsingKeepsForm(lines[1..], [], false, WithSection(m, section, main).value, limits);
      } else if line[0] == SPACE {
        var (name, value) := section[|section| - 1];
        ContinuedIsGood(section, line);
        ParsingKeepsForm(lines[1..], section[..|section| - 1] + [(name, value + line[1..])], main, m, limits);
      } else {
        var header := HeaderOf(line).value;
        HeaderIsGood(line);
        SectionMore(section, header);
        ParsingKeepsForm(lines[1..], section + [header], main, m, limits);
      }
    }
  }

  lemma UnbrokenIsClean(line: bytes)
    requires Unbroken(line) && 0 !in line
    ensures Clean(line)
  {
  }

  lemma NoSection()
    ensures GoodSection([])
  {
  }

  lemma SectionMore(section: seq<(bytes, bytes)>, header: (bytes, bytes))
    requires GoodSection(section) && HeaderName(header.0) && Lower(header.0) == header.0 && Clean(header.1)
    ensures GoodSection(section + [header])
  {
    hide HeaderName, Lower, Clean;
  }

  /** Every parsed manifest is well formed. */
  lemma ParsedIsWellFormed(s: bytes, limits: Limits)
    requires Parsed(s, limits).Some?
    ensures WellFormed(Parsed(s, limits).value)
  {
    hide LinesFrom, ParseLines, Unbroken, GoodSection;
    LinesAreUnbroken(s, 0);
    NoSection();
    NothingIsGood();
    ParsingKeepsForm(LinesFrom(s, 0).value, [], true, EMPTY, limits);
  }

  /**
   * For every manifest that parses, the runtime form parses to that manifest without main Class-Path and
   * signature attributes, with a version, and without entries left empty; doing it again changes nothing.
   */
  lemma RuntimeManifestIsFaithful(s: bytes, limits: Limits, reader: Limits)
    requires Parsed(s, limits).Some? && Admitted(Parsed(s, limits).value, reader)
    ensures var m := Parsed(s, limits).value;
            && Parsed(RuntimeText(m), reader) == Some(ForRuntime(m))
            && RuntimeText(Parsed(RuntimeText(m), reader).value) == RuntimeText(m)
            && AllFit(RuntimeLines(m))
  {
    hide Parsed, RuntimeText, RuntimeLines, ForRuntime, WellFormed, Admitted, AllFit;
    var m := Parsed(s, limits).value;
    ParsedIsWellFormed(s, limits);
    RuntimeReadsBack(m, reader);
    RuntimeIsIdempotent(m);
    LinesFit(m);
  }

  // ---------- The loops ----------

  /** What is left to write: a whole header, or the rest of one after its continuation space. */
  function Left(remaining: bytes, capacity: nat): bytes {
    if capacity == WIDTH then TextOf(Folded(remaining)) else Pending(remaining)
  }

  lemma NextLine(remaining: bytes, capacity: nat)
    requires remaining != [] && (capacity == WIDTH || capacity == WIDTH - 1)
    ensures var length := if |remaining| < capacity then |remaining| else capacity;
            var rest := remaining[length..];
            Left(remaining, capacity) == remaining[..length] + [CR, LF] + (if rest == [] then [] else [SPACE]) + Left(rest, WIDTH - 1)
  {
    hide Folded, Pending, TextOf;
    var length := if |remaining| < capacity then |remaining| else capacity;
    var rest := remaining[length..];
    if capacity == WIDTH {
      FirstChunk(remaining);
    } else {
      NextChunk(remaining);
    }
    if rest == [] {
      NothingPending();
    }
  }

  lemma NothingPending()
    ensures Pending([]) == []
  {
  }

  /** Writes a header, shrinking what remains line by line. */
  method WriteHeader(out: bytes, name: bytes, value: bytes) returns (r: bytes)
    ensures r == out + TextOf(Folded(Header(name, value)))
  {
    hide Left, Folded, TextOf, Pending;
    var remaining, capacity: nat := Header(name, value), WIDTH;
    r := out;
    ghost var whole := Left(remaining, capacity);
    WholeHeader(remaining);
    while remaining != []
      invariant capacity == WIDTH - 1 || (capacity == WIDTH && remaining != [])
      invariant r + Left(remaining, capacity) == out + whole
      decreases |remaining|
    {
      var length := if |remaining| < capacity then |remaining| else capacity;
      NextLine(remaining, capacity);
      ghost var before, chunk := r, remaining[..length];
      r := r + remaining[..length];
      r := r + [CR, LF];
      remaining := remaining[length..];
      if remaining != [] {
        r := r + [SPACE];
      }
      capacity := WIDTH - 1;
      assert before + (chunk + [CR, LF] + (if remaining == [] then [] else [SPACE]) + Left(remaining, capacity)) == r + Left(remaining, capacity);
    }
    WholeHeader(remaining);
    assert r + [] == r;
  }

  lemma WholeHeader(header: bytes)
    ensures Left(header, WIDTH) == TextOf(Folded(header)) && Left([], WIDTH - 1) == []
  {
    NothingPending();
  }

  /** What a partly written header still has to produce, once the leading space is out. */
  function Pending(remaining: bytes): bytes {
    if remaining == [] then [] else TextOf(Continuations(remaining))[1..]
  }

  lemma FirstChunk(header: bytes)
    requires header != []
    ensures var length := if |header| < WIDTH then |header| else WIDTH;
            TextOf(Folded(header)) == header[..length] + [CR, LF] + (if header[length..] == [] then [] else [SPACE] + Pending(header[length..]))
  {
    if |header| <= WIDTH {
      OneLine(header);
      assert header[..|header|] == header;
    } else {
      var rest := header[WIDTH..];
      var lines := [header[..WIDTH]] + Continuations(rest);
      assert lines[0] == header[..WIDTH] && lines[1..] == Continuations(rest);
      LeadingSpace(rest);
    }
  }

  lemma OneLine(line: bytes)
    ensures TextOf([line]) == line + [CR, LF]
  {
    var lines := [line];
    assert lines[1..] == [];
    assert TextOf([]) == [];
  }

  lemma LeadingSpace(rest: bytes)
    requires rest != []
    ensures TextOf(Continuations(rest)) == [SPACE] + Pending(rest)
  {
    var text := TextOf(Continuations(rest));
    assert Continuations(rest)[0][0] == SPACE;
    assert text[0] == SPACE;
  }

  lemma NextChunk(rest: bytes)
    requires rest != []
    ensures var length := if |rest| < WIDTH - 1 then |rest| else WIDTH - 1;
            Pending(rest) == rest[..length] + [CR, LF] + (if rest[length..] == [] then [] else [SPACE] + Pending(rest[length..]))
  {
    hide Pending, TextOf, Continuations;
    var length := if |rest| < WIDTH - 1 then |rest| else WIDTH - 1;
    var chunk, tail := rest[..length], rest[length..];
    var after := if tail == [] then [] else [SPACE] + Pending(tail);
    LeadingSpace(rest);
    ContinuationText(rest);
    NoText();
    if tail != [] {
      LeadingSpace(tail);
    }
    assert [SPACE] + Pending(rest) == [SPACE] + (chunk + [CR, LF] + after);
    WithoutSpace(Pending(rest), chunk + [CR, LF] + after);
  }

  lemma ContinuationText(rest: bytes)
    requires rest != []
    ensures var length := if |rest| < WIDTH - 1 then |rest| else WIDTH - 1;
            TextOf(Continuations(rest)) == [SPACE] + rest[..length] + [CR, LF] + TextOf(Continuations(rest[length..]))
  {
    hide TextOf, Continuations;
    var length := if |rest| < WIDTH - 1 then |rest| else WIDTH - 1;
    ContinuationFront(rest);
    TextFront([SPACE] + rest[..length], Continuations(rest[length..]));
  }

  lemma ContinuationFront(rest: bytes)
    requires rest != []
    ensures var length := if |rest| < WIDTH - 1 then |rest| else WIDTH - 1;
            Continuations(rest) == [[SPACE] + rest[..length]] + Continuations(rest[length..])
  {
    if |rest| < WIDTH {
      assert rest[..|rest|] == rest && rest[|rest|..] == [];
    }
  }

  lemma TextFront(line: bytes, lines: seq<bytes>)
    ensures TextOf([line] + lines) == line + [CR, LF] + TextOf(lines)
  {
    assert ([line] + lines)[1..] == lines;
  }

  lemma NoText()
    ensures TextOf(Continuations([])) == []
  {
  }

  lemma WithoutSpace(a: bytes, b: bytes)
    requires [SPACE] + a == [SPACE] + b
    ensures a == b
  {
    assert ([SPACE] + a)[1..] == a && ([SPACE] + b)[1..] == b;
  }

  /** Parses line by line, keeping the section read so far. */
  method Parse(s: bytes, limits: Limits) returns (r: Option<Manifest>)
    ensures r == Parsed(s, limits)
  {
    hide LineEnd, HeaderOf, WithSection, AfterBreak;
    if !limits.Bytes(|s|) {
      return None;
    }
    var m, section: seq<(bytes, bytes)>, main, position := EMPTY, [], true, 0;
    while position < |s|
      invariant position <= |s|
      invariant Parsed(s, limits) == Finished(LinesFrom(s, position), section, main, m, limits)
      decreases |s| - position
    {
      var end := LineEnd(s, position);
      if end == None {
        return None;
      }
      var line := s[position..end.value];
      LineStep(s, position, section, main, m, limits);
      position := AfterBreak(s, end.value);
      if 0 in line {
        return None;
      }
      if line == [] {
        var next := WithSection(m, section, main);
        if next == None {
          return None;
        }
        m, section, main := next.value, [], false;
      } else if line[0] == SPACE {
        if section == [] || !limits.Bytes(|section[|section| - 1].1| + |line| - 1) {
          return None;
        }
        var (name, value) := section[|section| - 1];
        section := section[..|section| - 1] + [(name, value + line[1..])];
      } else {
        var header := HeaderOf(line);
        if header == None || !limits.Elements(|section| + 1) {
          return None;
        }
        section := section + [header.value];
      }
    }
    var last := WithSection(m, section, main);
    r := if last.Some? && limits.Elements(|last.value.entries|) then last else None;
  }

  /** What remains of a parse, from the lines that are left. */
  function Finished(lines: Option<seq<bytes>>, section: seq<(bytes, bytes)>, main: bool, m: Manifest, limits: Limits): Option<Manifest> {
    match lines
    case None => None
    case Some(rest) =>
      match ParseLines(rest, section, main, m, limits)
      case None => None
      case Some(result) => if limits.Elements(|result.entries|) then Some(result) else None
  }

  lemma LineStep(s: bytes, pos: nat, section: seq<(bytes, bytes)>, main: bool, m: Manifest, limits: Limits)
    requires pos < |s| && LineEnd(s, pos).Some?
    ensures var line := s[pos..LineEnd(s, pos).value];
            var rest := LinesFrom(s, AfterBreak(s, LineEnd(s, pos).value));
            Finished(LinesFrom(s, pos), section, main, m, limits)
            == if 0 in line then None
               else if line == [] then
                 match WithSection(m, section, main)
                 case None => None
                 case Some(next) => Finished(rest, [], false, next, limits)
               else if line[0] == SPACE then
                 if section == [] || !limits.Bytes(|section[|section| - 1].1| + |line| - 1) then None
                 else
                   var (name, value) := section[|section| - 1];
                   Finished(rest, section[..|section| - 1] + [(name, value + line[1..])], main, m, limits)
               else
                 match HeaderOf(line)
                 case None => None
                 case Some(header) => if !limits.Elements(|section| + 1) then None else Finished(rest, section + [header], main, m, limits)
  {
    hide LineEnd, HeaderOf, WithSection, AfterBreak;
    var line := s[pos..LineEnd(s, pos).value];
    var rest := LinesFrom(s, AfterBreak(s, LineEnd(s, pos).value));
    if rest.Some? {
      assert ([line] + rest.value)[1..] == rest.value;
    }
  }

  lemma {:induction false} TextConcat(a: seq<bytes>, b: seq<bytes>)
    ensures TextOf(a + b) == TextOf(a) + TextOf(b)
    decreases |a|
  {
    if a == [] {
      assert a + b == b;
    } else {
      TextConcat(a[1..], b);
      assert (a + b)[1..] == a[1..] + b;
    }
  }

  method WriteHeaders(out: bytes, attributes: Attributes, names: seq<bytes>) returns (r: bytes)
    requires forall name :: name in names ==> name in attributes
    ensures r == out + TextOf(HeaderLines(attributes, names))
  {
    hide Folded, TextOf;
    r := out;
    assert names[..0] == [] && HeaderLines(attributes, []) == [];
    OneLineEnd();
    assert out + [] == out;
    for i := 0 to |names|
      invariant r == out + TextOf(HeaderLines(attributes, names[..i]))
    {
      assert names[..i + 1][..i] == names[..i];
      TextConcat(HeaderLines(attributes, names[..i]), Folded(Header(names[i], attributes[names[i]])));
      r := WriteHeader(r, names[i], attributes[names[i]]);
    }
    assert names[..|names|] == names;
  }

  lemma OneLineEnd()
    ensures TextOf([]) == [] && TextOf([[]]) == [CR, LF]
  {
    var none: bytes := [];
    OneLine(none);
    assert none + [CR, LF] == [CR, LF];
  }

  /** Prints the manifest that a runtime should see. */
  method WriteRuntime(m: Manifest) returns (r: bytes)
    ensures r == RuntimeText(m)
  {
    hide Folded, TextOf, HeaderLines, Sorted, MainKept, EntriesKept, VersionOf;
    var kept, entries := MainKept(m), EntriesKept(m);
    OneLineEnd();
    r := WriteHeader([], VERSION_HEADER, VersionOf(m));
    r := WriteHeaders(r, kept, Sorted(kept.Keys));
    r := r + [CR, LF];
    ghost var head := Folded(Header(VERSION_HEADER, VersionOf(m))) + HeaderLines(kept, Sorted(kept.Keys)) + [[]];
    TextConcat(Folded(Header(VERSION_HEADER, VersionOf(m))), HeaderLines(kept, Sorted(kept.Keys)));
    TextConcat(Folded(Header(VERSION_HEADER, VersionOf(m))) + HeaderLines(kept, Sorted(kept.Keys)), [[]]);
    var names := Sorted(entries.Keys);
    assert names[..0] == [] && EntriesLines(entries, []) == [] && TextOf(head) + [] == TextOf(head);
    for i := 0 to |names|
      invariant r == TextOf(head) + TextOf(EntriesLines(entries, names[..i]))
    {
      assert names[..i + 1][..i] == names[..i];
      var attributes := entries[names[i]];
      r := WriteHeader(r, NAME_HEADER, names[i]);
      r := WriteHeaders(r, attributes, Sorted(attributes.Keys));
      r := r + [CR, LF];
      TextConcat(Folded(Header(NAME_HEADER, names[i])), HeaderLines(attributes, Sorted(attributes.Keys)));
      TextConcat(Folded(Header(NAME_HEADER, names[i])) + HeaderLines(attributes, Sorted(attributes.Keys)), [[]]);
      TextConcat(EntriesLines(entries, names[..i]), EntryLines(names[i], attributes));
    }
    assert names[..|names|] == names;
    TextConcat(head, EntriesLines(entries, names));
  }
}
