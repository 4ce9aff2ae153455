/** UTF-8 validity and the byte-level string searches that the formats rely on. */
module Text {
  import opened Binary

  const SLASH: byte := 0x2f

  predicate Continuation(b: byte) {
    0x80 <= b < 0xc0
  }

  /** The length of the UTF-8 sequence starting at `i`, or zero when none is well formed there. */
  function SequenceLength(s: bytes, i: nat): (r: nat)
    requires i < |s|
    ensures i + r <= |s|
  {
    var lead := s[i];
    if lead < 0x80 then 1
    else if i + 1 >= |s| || !Continuation(s[i + 1]) then 0
    else if 0xc2 <= lead < 0xe0 then 2
    else if i + 2 >= |s| || !Continuation(s[i + 2]) then 0
    else if lead == 0xe0 then if s[i + 1] >= 0xa0 then 3 else 0
    else if lead == 0xed then if s[i + 1] < 0xa0 then 3 else 0
    else if 0xe1 <= lead < 0xf0 then 3
    else if i + 3 >= |s| || !Continuation(s[i + 3]) then 0
    else if lead == 0xf0 then if s[i + 1] >= 0x90 then 4 else 0
    else if lead == 0xf4 then if s[i + 1] < 0x90 then 4 else 0
    else if 0xf1 <= lead < 0xf4 then 4
    else 0
  }

  predicate Utf8From(s: bytes, i: nat)
    requires i <= |s|
    decreases |s| - i
  {
    i == |s| || (SequenceLength(s, i) > 0 && Utf8From(s, i + SequenceLength(s, i)))
  }

  predicate Utf8(s: bytes) {
    Utf8From(s, 0)
  }

  /** The position of the last slash. */
  function LastSlash(s: bytes): (r: Option<nat>)
    ensures r.Some? ==> r.value < |s| && s[r.value] == SLASH
    ensures forall i :: (if r.Some? then r.value + 1 else 0) <= i < |s| ==> s[i] != SLASH
  {
    if s == [] then None
    else if s[|s| - 1] == SLASH then Some(|s| - 1)
    else LastSlash(s[..|s| - 1])
  }

  /** The text before the last slash, or nothing. */
  function PackageOf(s: bytes): bytes {
    match LastSlash(s)
    case None => []
    case Some(slash) => s[..slash]
  }

  /** The text after the last slash, or all of it. */
  function NameOf(s: bytes): bytes {
    match LastSlash(s)
    case None => s
    case Some(slash) => s[slash + 1..]
  }

  /** A package and a simple name put back together. */
  function ClassName(package: bytes, name: bytes): bytes {
    if package == [] then name else package + [SLASH] + name
  }

  /** Splitting at the last slash loses nothing unless the text starts with its only slash. */
  lemma SplitClassName(s: bytes)
    ensures ClassName(PackageOf(s), NameOf(s)) == s <==> LastSlash(s) != Some(0)
  {
    match LastSlash(s)
    case None =>
    case Some(slash) => assert s[..slash] + [SLASH] + s[slash + 1..] == s;
  }
}
