/** What `re.findall(r'(.{0,500}' + re.escape(topic) + r'.{0,500})', text, re.DOTALL)` returns.

    The pattern is specified relationally by `Matches`. `MatchAt` gives, in closed form, the match
    Python's regex engine reports from a search position. The engine takes the leftmost start.
    Backtracking then tries the leading `.{0,500}` longest first, so the topic sits at its LAST
    occurrence within 500 characters of the start. The trailing `.{0,500}` is then as long as
    possible. The lemma `MatchAtLeftmostLongest` states that `MatchAt` makes exactly this choice. */
module TopicPattern {
  import opened Wrappers
  import opened Text

  /** The bound of each `.{0,500}` of the pattern. */
  const Window: nat := 500

  /** One match: text[start..end], with the topic found at position `at`. */
  datatype Match = Match(start: nat, at: nat, end: nat)

  /** text[s..e] matches the pattern with the topic at p: at most `Window` characters before it,
      at most `Window` after it (DOTALL, so `.` is any character, newlines included). */
  ghost predicate Matches(text: string, topic: string, s: nat, p: nat, e: nat)
  {
    && s <= p <= s + Window
    && OccursAt(text, topic, p)
    && p + |topic| <= e <= |text|
    && e <= p + |topic| + Window
  }

  /** The first occurrence of `topic` at or after `from`, if any. */
  function NextOccurrence(text: string, topic: string, from: nat): (r: Option<nat>)
    requires from <= |text|
    decreases |text| - from
    ensures r.Some? ==> from <= r.value && OccursAt(text, topic, r.value)
    ensures r.Some? ==> forall p: nat :: from <= p < r.value ==> !OccursAt(text, topic, p)
    ensures r.None? ==> forall p: nat :: from <= p ==> !OccursAt(text, topic, p)
  {
    if OccursAt(text, topic, from) then Some(from)
    else if from == |text| then None
    else NextOccurrence(text, topic, from + 1)
  }

  /** The last occurrence of `topic` in [known, hi], given that `known` is one. */
  function LastOccurrence(text: string, topic: string, known: nat, hi: nat): (r: nat)
    requires known <= hi && OccursAt(text, topic, known)
    decreases hi
    ensures known <= r <= hi && OccursAt(text, topic, r)
    ensures forall p: nat :: r < p <= hi ==> !OccursAt(text, topic, p)
  {
    if OccursAt(text, topic, hi) then hi else LastOccurrence(text, topic, known, hi - 1)
  }

  /** The match a search from `pos` reports: none exactly when no match of the pattern starts at
      or after `pos`, otherwise a match of the pattern from `pos` on. */
  function MatchAt(text: string, topic: string, pos: nat): (r: Option<Match>)
    requires pos <= |text|
    ensures r.None? ==> forall s: nat, p: nat, e: nat :: pos <= s ==> !Matches(text, topic, s, p, e)
    ensures r.Some? ==> pos <= r.value.start && Matches(text, topic, r.value.start, r.value.at, r.value.end)
    ensures r.Some? ==> r.value.start <= r.value.at && r.value.at + |topic| <= r.value.end <= |text|
  {
    match NextOccurrence(text, topic, pos)
    case None => None
    case Some(first) =>
      var start := if first >= pos + Window then first - Window else pos;
      var at := LastOccurrence(text, topic, first, Min(start + Window, |text|));
      var stop := at + |topic|;
      Some(Match(start, at, stop + Min(Window, |text| - stop)))
  }

  /** The match reported is the one the engine settles on: the leftmost start, then the topic as
      far right as the leading `.{0,500}` allows, then the longest trailing part. */
  lemma MatchAtLeftmostLongest(text: string, topic: string, pos: nat)
    requires pos <= |text| && MatchAt(text, topic, pos).Some?
    ensures var m := MatchAt(text, topic, pos).value;
      && (forall s: nat, p: nat, e: nat :: pos <= s < m.start ==> !Matches(text, topic, s, p, e))
      && (forall p: nat, e: nat :: Matches(text, topic, m.start, p, e) ==> p <= m.at)
      && (forall e: nat :: Matches(text, topic, m.start, m.at, e) ==> e <= m.end)
  {
  }

  /** An empty match is only possible for an empty topic, at the very end of the text. */
  lemma EmptyMatchAtEnd(text: string, topic: string, pos: nat)
    requires pos <= |text| && MatchAt(text, topic, pos).Some?
    requires MatchAt(text, topic, pos).value.start == MatchAt(text, topic, pos).value.end
    ensures topic == [] && MatchAt(text, topic, pos).value.start == |text|
  {
  }

  /** `re.findall` from search position `pos`: the match found, then the search resumes at its
      end. An empty match (only at the end of the text) ends the search, because the next
      search must advance past it. The matches lie in the text from `pos` on, left to right,
      without overlapping. */
  function FindAllFrom(text: string, topic: string, pos: nat): (ms: seq<Match>)
    requires pos <= |text|
    decreases |text| - pos
    ensures forall i :: 0 <= i < |ms| ==> pos <= ms[i].start <= ms[i].end <= |text|
    ensures forall i :: 0 < i < |ms| ==> ms[i - 1].end <= ms[i].start
  {
    match MatchAt(text, topic, pos)
    case None => []
    case Some(m) =>
      if m.start == m.end then [m]
      else [m] + FindAllFrom(text, topic, m.end)
  }

  /** Every match `re.findall` returns is a match of the pattern. */
  lemma {:induction false} FindAllMatches(text: string, topic: string, pos: nat)
    requires pos <= |text|
    decreases |text| - pos
    ensures forall i :: 0 <= i < |FindAllFrom(text, topic, pos)| ==>
      Matches(text, topic, FindAllFrom(text, topic, pos)[i].start, FindAllFrom(text, topic, pos)[i].at,
        FindAllFrom(text, topic, pos)[i].end)
  {
    var ms := FindAllFrom(text, topic, pos);
    if MatchAt(text, topic, pos).Some? {
      var m := MatchAt(text, topic, pos).value;
      if m.start != m.end {
        var rest := FindAllFrom(text, topic, m.end);
        FindAllMatches(text, topic, m.end);
        assert ms == [m] + rest;
        forall i | 0 < i < |ms|
          ensures Matches(text, topic, ms[i].start, ms[i].at, ms[i].end)
        {
          assert ms[i] == rest[i - 1];
        }
      }
    }
  }

  /** `re.findall` returns nothing exactly when the topic does not occur from `pos` on. */
  lemma FindAllEmpty(text: string, topic: string, pos: nat)
    requires pos <= |text|
    ensures FindAllFrom(text, topic, pos) == [] <==> forall p: nat :: pos <= p ==> !OccursAt(text, topic, p)
  {
    match MatchAt(text, topic, pos)
    case None =>
      NoMatchMeansAbsent(text, topic, pos);
    case Some(m) =>
      assert OccursAt(text, topic, m.at);
  }

  /** Without a match from `pos` on, the topic does not occur from `pos` on. */
  lemma NoMatchMeansAbsent(text: string, topic: string, pos: nat)
    requires pos <= |text| && MatchAt(text, topic, pos).None?
    ensures forall p: nat :: pos <= p ==> !OccursAt(text, topic, p)
  {
    forall p: nat | pos <= p
      ensures !OccursAt(text, topic, p)
    {
      assert !Matches(text, topic, p, p, p + |topic|);
    }
  }

  /** `re.findall` over the whole text. */
  function FindAll(text: string, topic: string): seq<Match>
  {
    FindAllFrom(text, topic, 0)
  }

  /** No occurrence is skipped: every occurrence of the topic that starts inside the text starts
      inside some match (it may still run past that match's end and be cut there). */
  lemma {:induction false} FindAllCoversOccurrences(text: string, topic: string, pos: nat, p: nat)
    requires pos <= p < |text| && OccursAt(text, topic, p)
    ensures exists i ::
      (0 <= i < |FindAllFrom(text, topic, pos)| &&
       FindAllFrom(text, topic, pos)[i].start <= p < FindAllFrom(text, topic, pos)[i].end)
    decreases |text| - pos
  {
    var ms := FindAllFrom(text, topic, pos);
    SearchReachesOccurrence(text, topic, pos, p);
    var m := MatchAt(text, topic, pos).value;
    if p < m.end {
      assert ms[0] == m;
    } else {
      if m.start == m.end {
        EmptyMatchAtEnd(text, topic, pos);
      }
      var rest := FindAllFrom(text, topic, m.end);
      assert ms == [m] + rest;
      FindAllCoversOccurrences(text, topic, m.end, p);
      var i :| 0 <= i < |rest| && rest[i].start <= p < rest[i].end;
      assert ms[i + 1] == rest[i];
    }
  }

  /** A search from `pos` finds a match that starts no later than any occurrence after `pos`. */
  lemma SearchReachesOccurrence(text: string, topic: string, pos: nat, p: nat)
    requires pos <= p < |text| && OccursAt(text, topic, p)
    ensures MatchAt(text, topic, pos).Some? && MatchAt(text, topic, pos).value.start <= p
  {
    assert Matches(text, topic, p, p, p + |topic|);
    MatchAtLeftmostLongest(text, topic, pos);
  }

  /** The text of a match. */
  function Segment(text: string, m: Match): string
    requires m.start <= m.end <= |text|
  {
    text[m.start..m.end]
  }

  /** `set(matches)`: the distinct matched strings. */
  function SegmentSet(text: string, ms: seq<Match>): set<string>
    requires forall i :: 0 <= i < |ms| ==> ms[i].start <= ms[i].end <= |text|
  {
    set i | 0 <= i < |ms| :: Segment(text, ms[i])
  }

  /** What every segment is: a piece of the text that contains the topic and is no longer than
      the topic plus the two windows. */
  ghost predicate IsSegmentOf(text: string, topic: string, seg: string)
  {
    && Contains(text, seg)
    && Contains(seg, topic)
    && |seg| <= |topic| + 2 * Window
  }

  lemma MatchIsSegment(text: string, topic: string, s: nat, p: nat, e: nat)
    requires Matches(text, topic, s, p, e)
    ensures IsSegmentOf(text, topic, text[s..e])
  {
    var seg := text[s..e];
    assert OccursAt(text, seg, s);
    forall k | 0 <= k < |topic|
      ensures seg[p - s..p - s + |topic|][k] == topic[k]
    {
      assert seg[p - s + k] == text[p + k] == text[p..p + |topic|][k];
    }
    assert OccursAt(seg, topic, p - s);
  }

  /** Every string `set(re.findall(...))` holds is a segment of the text. */
  lemma SegmentsAreExcerpts(text: string, topic: string, seg: string)
    requires seg in SegmentSet(text, FindAll(text, topic))
    ensures IsSegmentOf(text, topic, seg)
  {
    var ms := FindAll(text, topic);
    FindAllMatches(text, topic, 0);
    var i :| 0 <= i < |ms| && seg == Segment(text, ms[i]);
    MatchIsSegment(text, topic, ms[i].start, ms[i].at, ms[i].end);
  }
}
