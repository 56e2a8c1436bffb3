/** Character-level string helpers shared by the topic extractor and the comparator. */
module Text {

  /** One character of Python's `str.lower()`: the ASCII capitals and the Latin-1 capitals
      (the accented letters of Portuguese text) map to their small letters; every other
      character maps to itself. */
  function LowerChar(c: char): char
  {
    if 'A' <= c <= 'Z' || ('\U{C0}' <= c <= '\U{DE}' && c != '\U{D7}') then
      (c as int + 32) as char
    else
      c
  }

  /** `s.lower()`, character by character (so the length never changes). */
  function Lower(s: string): (r: string)
    ensures |r| == |s|
    ensures forall i :: 0 <= i < |s| ==> r[i] == LowerChar(s[i])
  {
    seq(|s|, i requires 0 <= i < |s| => LowerChar(s[i]))
  }

  /** Lowering twice is lowering once: no small letter is lowered again. */
  lemma LowerIdempotent(s: string)
    ensures Lower(Lower(s)) == Lower(s)
  {
    forall i | 0 <= i < |s|
      ensures Lower(Lower(s))[i] == Lower(s)[i]
    {
      var c := s[i];
      assert LowerChar(LowerChar(c)) == LowerChar(c);
    }
  }

  /** The case-insensitive search finds every exact occurrence: where `pattern` occurs in `text`,
      the lowered pattern occurs in the lowered text at the same position. */
  lemma LowerKeepsOccurrence(text: string, pattern: string, p: nat)
    requires OccursAt(text, pattern, p)
    ensures OccursAt(Lower(text), Lower(pattern), p)
  {
    forall k | 0 <= k < |pattern|
      ensures Lower(text)[p + k] == Lower(pattern)[k]
    {
      assert text[p + k] == text[p..p + |pattern|][k];
    }
  }

  /** `pattern` occurs in `text` starting at position `p`. */
  predicate OccursAt(text: string, pattern: string, p: nat)
  {
    p + |pattern| <= |text| && text[p..p + |pattern|] == pattern
  }

  /** `pattern in text`, Python's substring test. */
  ghost predicate Contains(text: string, pattern: string)
  {
    exists p: nat :: OccursAt(text, pattern, p)
  }

  /** `sep.join(items)`. */
  function JoinWith(items: seq<string>, sep: string): string
  {
    if |items| == 0 then ""
    else if |items| == 1 then items[0]
    else items[0] + sep + JoinWith(items[1..], sep)
  }

  /** `''.join(items)`. */
  function Concat(items: seq<string>): string
  {
    if items == [] then "" else items[0] + Concat(items[1..])
  }

  function Min(x: int, y: int): int
  {
    if x <= y then x else y
  }
}
