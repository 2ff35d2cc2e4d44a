/** luaL_gsub, src/api/lauxlib.cpp:431-453: global substitution of a plain pattern. */
module Substitution {
  import opened LuaValue
  import opened StringBuffer

  predicate OccursAt(s: string, pattern: string, i: nat) {
    i + |pattern| <= |s| && s[i..i + |pattern|] == pattern
  }

  predicate NoneBefore(s: string, pattern: string, n: nat) {
    forall j | 0 <= j < n :: !OccursAt(s, pattern, j)
  }

  predicate Free(s: string, pattern: string) {
    NoneBefore(s, pattern, |s| + 1)
  }

  /** The C library's strstr. */
  method StrStr(s: string, pattern: string) returns (found: Option<nat>)
    ensures found == FirstOccurrence(s, pattern)
  {
    var i := 0;
    FirstOccurrenceIs(s, pattern);
    while i + |pattern| <= |s|
      invariant i <= |s| + 1 && NoneBefore(s, pattern, i)
    {
      if s[i..i + |pattern|] == pattern {
        assert OccursAt(s, pattern, i);
        return Some(i);
      }
      i := i + 1;
    }
    return None;
  }

  function FirstOccurrence(s: string, pattern: string): (r: Option<nat>)
    ensures r.Some? ==> r.value + |pattern| <= |s|
  {
    if OccursAt(s, pattern, 0) then Some(0)
    else if s == "" then None
    else match FirstOccurrence(s[1..], pattern)
      case Some(i) => Some(i + 1)
      case None => None
  }

  lemma OccursInTail(s: string, pattern: string, j: nat)
    requires s != ""
    ensures OccursAt(s, pattern, j + 1) <==> OccursAt(s[1..], pattern, j)
  {
    if j + 1 + |pattern| <= |s| {
      assert s[1..][j..j + |pattern|] == s[j + 1..j + 1 + |pattern|];
    }
  }

  lemma NoneInTail(s: string, pattern: string, n: nat)
    requires s != "" && NoneBefore(s[1..], pattern, n) && !OccursAt(s, pattern, 0)
    ensures NoneBefore(s, pattern, n + 1)
  {
    forall j | 0 < j < n + 1
      ensures !OccursAt(s, pattern, j)
    {
      OccursInTail(s, pattern, j - 1);
    }
  }

  lemma {:induction false} FirstOccurrenceIs(s: string, pattern: string)
    ensures match FirstOccurrence(s, pattern)
            case None => Free(s, pattern)
            case Some(i) => OccursAt(s, pattern, i) && NoneBefore(s, pattern, i)
  {
    if !OccursAt(s, pattern, 0) && s != "" {
      FirstOccurrenceIs(s[1..], pattern);
      match FirstOccurrence(s[1..], pattern) {
        case None => NoneInTail(s, pattern, |s|);
        case Some(i) =>
          NoneInTail(s, pattern, i);
          OccursInTail(s, pattern, i);
      }
    }
  }

  /** Only one place is the first. */
  lemma FirstIsUnique(s: string, pattern: string, i: nat)
    requires OccursAt(s, pattern, i) && NoneBefore(s, pattern, i)
    ensures FirstOccurrence(s, pattern) == Some(i)
  {
    FirstOccurrenceIs(s, pattern);
  }

  /** What the loop of luaL_gsub computes from here on. */
  function Replaced(s: string, pattern: string, replacement: string): string
    requires pattern != ""
    decreases |s|
  {
    match FirstOccurrence(s, pattern)
    case None => s
    case Some(i) => s[..i] + replacement + Replaced(s[i + |pattern|..], pattern, replacement)
  }

  /** The gaps laid out in order with the separator between neighbours. */
  function Interleave(gaps: seq<string>, separator: string): string
    requires gaps != []
  {
    if |gaps| == 1 then gaps[0] else gaps[0] + separator + Interleave(gaps[1..], separator)
  }

  /** The gap ends at the leftmost occurrence of the pattern that follows it. */
  predicate ClosedByFirst(gap: string, pattern: string) {
    NoneBefore(gap + pattern, pattern, |gap|)
  }

  /** s cut at the leftmost non-overlapping occurrences of the pattern. */
  ghost predicate LeftmostCut(s: string, pattern: string, gaps: seq<string>) {
    && gaps != []
    && s == Interleave(gaps, pattern)
    && (forall k | 0 <= k < |gaps| - 1 :: ClosedByFirst(gaps[k], pattern))
    && Free(gaps[|gaps| - 1], pattern)
  }

  function Cut(s: string, pattern: string): (gaps: seq<string>)
    requires pattern != ""
    ensures gaps != []
    decreases |s|
  {
    match FirstOccurrence(s, pattern)
    case None => [s]
    case Some(i) => [s[..i]] + Cut(s[i + |pattern|..], pattern)
  }

  /** Whether the pattern occurs before the end of the gap depends on nothing further on. */
  lemma OccurrenceIsLocal(gap: string, pattern: string, rest: string, j: nat)
    requires j <= |gap|
    ensures OccursAt(gap + pattern + rest, pattern, j) <==> OccursAt(gap + pattern, pattern, j)
  {
    assert (gap + pattern + rest)[j..j + |pattern|] == (gap + pattern)[j..j + |pattern|];
  }

  lemma CutAt(s: string, pattern: string, i: nat)
    requires OccursAt(s, pattern, i)
    ensures s == s[..i] + pattern + s[i + |pattern|..]
  {
    assert s[i..] == s[i..i + |pattern|] + s[i + |pattern|..];
    assert s == s[..i] + s[i..];
  }

  lemma CutHead(s: string, pattern: string, i: nat)
    requires FirstOccurrence(s, pattern) == Some(i)
    ensures i + |pattern| <= |s| && s == s[..i] + pattern + s[i + |pattern|..] && ClosedByFirst(s[..i], pattern)
  {
    FirstOccurrenceIs(s, pattern);
    CutAt(s, pattern, i);
    forall j | 0 <= j < i
      ensures !OccursAt(s[..i] + pattern, pattern, j)
    {
      OccurrenceIsLocal(s[..i], pattern, s[i + |pattern|..], j);
    }
  }

  /** Every text has a leftmost cut, and replacing keeps its gaps and nothing else. */
  lemma {:induction false} ReplacedFillsTheCut(s: string, pattern: string, replacement: string)
    requires pattern != ""
    ensures LeftmostCut(s, pattern, Cut(s, pattern))
    ensures Replaced(s, pattern, replacement) == Interleave(Cut(s, pattern), replacement)
    decreases |s|
  {
    FirstOccurrenceIs(s, pattern);
    match FirstOccurrence(s, pattern)
    case None =>
    case Some(i) =>
      CutHead(s, pattern, i);
      var rest := s[i + |pattern|..];
      ReplacedFillsTheCut(rest, pattern, replacement);
      var gaps := Cut(s, pattern);
      assert gaps[1..] == Cut(rest, pattern);
      forall k | 0 <= k < |gaps| - 1
        ensures ClosedByFirst(gaps[k], pattern)
      {
        assert k > 0 ==> gaps[k] == Cut(rest, pattern)[k - 1];
      }
  }

  lemma FirstGap(gap: string, pattern: string, rest: string)
    requires pattern != "" && ClosedByFirst(gap, pattern)
    ensures FirstOccurrence(gap + pattern + rest, pattern) == Some(|gap|)
    ensures (gap + pattern + rest)[..|gap|] == gap && (gap + pattern + rest)[|gap| + |pattern|..] == rest
  {
    var s := gap + pattern + rest;
    assert s[|gap|..|gap| + |pattern|] == pattern;
    forall j | 0 <= j < |gap|
      ensures !OccursAt(s, pattern, j)
    {
      OccurrenceIsLocal(gap, pattern, rest, j);
    }
    FirstIsUnique(s, pattern, |gap|);
  }

  lemma RestOfCut(s: string, pattern: string, gaps: seq<string>)
    requires LeftmostCut(s, pattern, gaps) && |gaps| > 1
    ensures s == gaps[0] + pattern + Interleave(gaps[1..], pattern)
    ensures LeftmostCut(Interleave(gaps[1..], pattern), pattern, gaps[1..])
  {
    assert forall k | 0 <= k < |gaps| - 1 :: gaps[1..][k] == gaps[k + 1];
  }

  /** There is only one leftmost cut. */
  lemma {:induction false} CutIsUnique(s: string, pattern: string, gaps: seq<string>)
    requires pattern != "" && LeftmostCut(s, pattern, gaps)
    ensures gaps == Cut(s, pattern)
    decreases |gaps|
  {
    if |gaps| == 1 {
      FirstOccurrenceIs(s, pattern);
      assert gaps == [s];
    } else {
      var rest := Interleave(gaps[1..], pattern);
      RestOfCut(s, pattern, gaps);
      CutIsUnique(rest, pattern, gaps[1..]);
      CutBegins(gaps[0], pattern, rest);
      assert gaps == [gaps[0]] + gaps[1..];
    }
  }

  lemma CutBegins(gap: string, pattern: string, rest: string)
    requires pattern != "" && ClosedByFirst(gap, pattern)
    ensures Cut(gap + pattern + rest, pattern) == [gap] + Cut(rest, pattern)
  {
    FirstGap(gap, pattern, rest);
  }

  /** Replacing a pattern by itself gives the text back. */
  lemma ReplacingByItself(s: string, pattern: string)
    requires pattern != ""
    ensures Replaced(s, pattern, pattern) == s
  {
    ReplacedFillsTheCut(s, pattern, pattern);
  }

  predicate AllWithout(gaps: seq<string>, c: char) {
    forall k | 0 <= k < |gaps| :: c !in gaps[k]
  }

  lemma {:induction false} GapsComeFromTheText(gaps: seq<string>, separator: string, c: char)
    requires gaps != [] && c !in Interleave(gaps, separator)
    ensures AllWithout(gaps, c)
  {
    if |gaps| > 1 {
      var text := Interleave(gaps, separator);
      assert text == gaps[0] + (separator + Interleave(gaps[1..], separator));
      GapsComeFromTheText(gaps[1..], separator, c);
      assert forall k | 1 <= k < |gaps| :: gaps[k] == gaps[1..][k - 1];
    }
  }

  lemma OccurrenceStarts(s: string, pattern: string, j: nat)
    requires pattern != "" && j < |s|
    ensures OccursAt(s, pattern, j) ==> s[j] == pattern[0]
  {
    if j + |pattern| <= |s| {
      assert s[j..j + |pattern|][0] == s[j];
    }
  }

  /** A text without the pattern's first character can hold no occurrence that starts in it. */
  lemma ClosedWithoutFirstChar(gap: string, pattern: string)
    requires pattern != "" && pattern[0] !in gap
    ensures ClosedByFirst(gap, pattern) && Free(gap, pattern)
  {
    forall j | 0 <= j < |gap|
      ensures !OccursAt(gap + pattern, pattern, j) && !OccursAt(gap, pattern, j)
    {
      OccurrenceStarts(gap + pattern, pattern, j);
      OccurrenceStarts(gap, pattern, j);
    }
  }

  /** A replacement that begins with a character foreign to the text is undone by the
      opposite replacement. */
  lemma ReplacingBack(s: string, pattern: string, replacement: string)
    requires pattern != "" && replacement != "" && replacement[0] !in s
    ensures Replaced(Replaced(s, pattern, replacement), replacement, pattern) == s
  {
    ReplacedFillsTheCut(s, pattern, replacement);
    var t, gaps := Replaced(s, pattern, replacement), Cut(s, pattern);
    GapsComeFromTheText(gaps, pattern, replacement[0]);
    forall k | 0 <= k < |gaps|
      ensures ClosedByFirst(gaps[k], replacement) && Free(gaps[k], replacement)
    {
      ClosedWithoutFirstChar(gaps[k], replacement);
    }
    CutIsUnique(t, replacement, gaps);
    ReplacedFillsTheCut(t, replacement, pattern);
  }

  /** One round of the loop: the text before the match, then the replacement. */
  method AddGap(buffer: Buffer, gap: string, replacement: string)
    requires buffer.Valid(buffer.L.slots)
    modifies buffer, buffer.L, buffer.buffer
    ensures buffer.Valid(buffer.L.slots) && buffer.Below(buffer.L.slots) == old(buffer.Below(buffer.L.slots))
    ensures buffer.Contents(buffer.L.slots) == old(buffer.Contents(buffer.L.slots)) + gap + replacement
  {
    buffer.AddLString(gap);
    buffer.AddLString(replacement);
  }

  lemma Regroup(a: string, b: string, c: string, d: string)
    ensures a + (b + c + d) == (a + b + c) + d
  {
  }

  lemma OneMatchDone(done: string, current: string, pattern: string, replacement: string, i: nat)
    requires pattern != "" && FirstOccurrence(current, pattern) == Some(i)
    ensures done + Replaced(current, pattern, replacement)
         == (done + current[..i] + replacement) + Replaced(current[i + |pattern|..], pattern, replacement)
  {
    var gap, rest := current[..i], Replaced(current[i + |pattern|..], pattern, replacement);
    assert Replaced(current, pattern, replacement) == gap + replacement + rest;
    Regroup(done, gap, replacement, rest);
  }

  /** Fills a fresh buffer, whatever its size. */
  method Substitute(buffer: Buffer, source: string, pattern: string, replacement: string)
    requires pattern != ""
    requires buffer.Valid(buffer.L.slots) && buffer.Contents(buffer.L.slots) == ""
    modifies buffer, buffer.L, buffer.buffer
    ensures buffer.Valid(buffer.L.slots) && buffer.Below(buffer.L.slots) == old(buffer.Below(buffer.L.slots))
    ensures buffer.Contents(buffer.L.slots) == Replaced(source, pattern, replacement)
  {
    var current := source;
    var found := StrStr(current, pattern);
    while found.Some?
      invariant buffer.Valid(buffer.L.slots) && buffer.Below(buffer.L.slots) == old(buffer.Below(buffer.L.slots))
      invariant found == FirstOccurrence(current, pattern)
      invariant buffer.Contents(buffer.L.slots) + Replaced(current, pattern, replacement)
             == Replaced(source, pattern, replacement)
      decreases |current|
    {
      var i := found.value;
      ghost var done := buffer.Contents(buffer.L.slots);
      OneMatchDone(done, current, pattern, replacement, i);
      AddGap(buffer, current[..i], replacement);
      current := current[i + |pattern|..];
      found := StrStr(current, pattern);
    }
    buffer.AddLString(current);
  }

  /** luaL_gsub leaves one string on the stack. Of a non-empty pattern every leftmost
      occurrence is replaced; an empty one replaces nothing. */
  method GSub(L: LuaStack, bufferSize: nat, source: string, pattern: string, replacement: string)
    requires bufferSize > 0
    modifies L
    ensures pattern == "" ==> L.slots == old(L.slots) + [Str(source)]
    ensures pattern != "" ==> L.slots == old(L.slots) + [Str(Interleave(Cut(source, pattern), replacement))]
  {
    if pattern == "" {
      L.slots := L.slots + [Str(source)];
      return;
    }
    var buffer := new Buffer(L, bufferSize);
    Substitute(buffer, source, pattern, replacement);
    buffer.PushResult();
    ReplacedFillsTheCut(source, pattern, replacement);
  }
}
