/** `PDFProcessor.extract_topics`: for every topic, the passages of the lowered document text
    around the topic, or a fixed "not found" sentence. The text is the already extracted document
    text; reading the PDF is not part of this module. */
module PdfProcessor {
  import opened Text
  import opened Dicts
  import opened TopicPattern

  /** What joins the distinct matches of one topic. */
  const Separator := "\n\n"

  /** The excerpt of a topic that never occurs; it names the topic as given, not lowered. */
  function Placeholder(topic: string): string
  {
    "Tópico '" + topic + "' não encontrado no documento."
  }

  /** `order` lists every element of `items` exactly once, in some order. */
  ghost predicate Enumerates(order: seq<string>, items: set<string>)
  {
    && (forall i, j :: 0 <= i < j < |order| ==> order[i] != order[j])
    && (forall x :: x in order <==> x in items)
  }

  /** An enumeration has exactly as many elements as the set it lists. */
  lemma {:induction false} EnumerationSize(order: seq<string>, items: set<string>)
    requires Enumerates(order, items)
    ensures |order| == |items|
  {
    if order != [] {
      var rest := items - {order[0]};
      forall x
        ensures x in order[1..] <==> x in rest
      {
        if x in order[1..] {
          var k :| 1 <= k < |order| && order[k] == x;
        }
      }
      EnumerationSize(order[1..], rest);
    }
  }

  /** `sep.join(items)` for a Python set: the iteration order of a set is not fixed, so the
      result is the join of SOME enumeration of the set. */
  method JoinSet(items: set<string>, sep: string) returns (joined: string)
    ensures exists order :: Enumerates(order, items) && joined == JoinWith(order, sep)
  {
    var order: seq<string> := [];
    var rest := items;
    while rest != {}
      invariant forall i, j :: 0 <= i < j < |order| ==> order[i] != order[j]
      invariant forall x :: x in order ==> x !in rest
      invariant forall x :: x in items <==> x in order || x in rest
      decreases |rest|
    {
      var x :| x in rest;
      order := order + [x];
      rest := rest - {x};
    }
    joined := JoinWith(order, sep);
  }

  /** The value `extract_topics` stores for `topic`: the placeholder when the lowered topic has no
      match in the lowered text, otherwise the Separator-join of the distinct matches in some
      order. */
  ghost predicate IsExcerpt(text: string, topic: string, excerpt: string)
  {
    var lowered := Lower(text);
    var matches := FindAll(lowered, Lower(topic));
    if matches == [] then
      excerpt == Placeholder(topic)
    else
      exists order :: Enumerates(order, SegmentSet(lowered, matches)) && excerpt == JoinWith(order, Separator)
  }

  /** The body of the loop of `extract_topics` for one topic: find the matches of the lowered
      topic in the lowered text, then join their distinct texts or fall back to the placeholder. */
  method TopicExcerpt(text: string, lowered: string, topic: string) returns (excerpt: string)
    requires lowered == Lower(text)
    ensures IsExcerpt(text, topic, excerpt)
  {
    var matches := FindAll(lowered, Lower(topic));
    if |matches| > 0 {
      excerpt := JoinSet(SegmentSet(lowered, matches), Separator);
    } else {
      excerpt := Placeholder(topic);
    }
  }

  /** `extract_topics(text, topics)`: one entry per distinct topic, first-seen order; a repeated
      topic is assigned again and keeps its place. */
  method ExtractTopics(text: string, topics: seq<string>) returns (results: Dict<string>)
    ensures results.Valid()
    ensures forall t :: t in results.entries <==> t in topics
    ensures (forall i, j :: 0 <= i < j < |topics| ==> topics[i] != topics[j]) ==> results.keys == topics
    ensures forall t :: t in topics ==> IsExcerpt(text, t, results.entries[t])
  {
    results := EmptyDict();
    var lowered := Lower(text);
    for n := 0 to |topics|
      invariant Extracted(text, topics, n, results)
    {
      var excerpt := TopicExcerpt(text, lowered, topics[n]);
      ExtractStep(text, topics, n, results, excerpt);
      results := results.Put(topics[n], excerpt);
    }
    assert topics[..|topics|] == topics;
  }

  /** What the loop of `extract_topics` has built after the first `n` topics. */
  ghost predicate Extracted(text: string, topics: seq<string>, n: nat, results: Dict<string>)
    requires n <= |topics|
  {
    KeysExtracted(topics, n, results) && AllExcerpts(text, results)
  }

  /** The keys are the first `n` topics, in order when the topics are distinct. */
  ghost predicate KeysExtracted(topics: seq<string>, n: nat, results: Dict<string>)
    requires n <= |topics|
  {
    && results.Valid()
    && (forall t :: t in results.entries <==> t in topics[..n])
    && ((forall i, j :: 0 <= i < j < |topics| ==> topics[i] != topics[j]) ==> results.keys == topics[..n])
  }

  /** Every value is an excerpt of its key. */
  ghost predicate AllExcerpts(text: string, results: Dict<string>)
  {
    forall t :: t in results.entries ==> IsExcerpt(text, t, results.entries[t])
  }

  /** One round of the loop of `extract_topics` keeps `Extracted`. */
  lemma ExtractStep(text: string, topics: seq<string>, n: nat, results: Dict<string>, excerpt: string)
    requires n < |topics| && Extracted(text, topics, n, results)
    requires IsExcerpt(text, topics[n], excerpt)
    ensures Extracted(text, topics, n + 1, results.Put(topics[n], excerpt))
  {
    KeysStep(topics, n, results, excerpt);
    ExcerptsKept(text, results, topics[n], excerpt);
  }

  lemma KeysStep(topics: seq<string>, n: nat, results: Dict<string>, excerpt: string)
    requires n < |topics| && KeysExtracted(topics, n, results)
    ensures KeysExtracted(topics, n + 1, results.Put(topics[n], excerpt))
  {
    var topic := topics[n];
    assert topics[..n + 1] == topics[..n] + [topic];
    if forall i, j :: 0 <= i < j < |topics| ==> topics[i] != topics[j] {
      assert topic !in topics[..n] by {
        forall m | 0 <= m < n
          ensures topics[..n][m] != topic
        {
          assert topics[m] != topics[n];
        }
      }
    }
  }

  /** Assigning a topic its excerpt keeps every entry an excerpt of its key. */
  lemma ExcerptsKept(text: string, results: Dict<string>, topic: string, excerpt: string)
    requires results.Valid() && IsExcerpt(text, topic, excerpt) && AllExcerpts(text, results)
    ensures AllExcerpts(text, results.Put(topic, excerpt))
  {
    var next := results.Put(topic, excerpt);
    forall t | t in next.entries
      ensures IsExcerpt(text, t, next.entries[t])
    {
      if t != topic {
        assert next.entries[t] == results.entries[t];
      }
    }
  }

  /** Extraction depends only on the lowered text: the document and its lowered form have the same
      excerpt for every topic. */
  lemma ExcerptDependsOnLoweredText(text: string, topic: string, excerpt: string)
    ensures IsExcerpt(text, topic, excerpt) <==> IsExcerpt(Lower(text), topic, excerpt)
  {
    LowerIdempotent(text);
  }

  /** The search is case-insensitive in the sense the source relies on: a topic that occurs in the
      text as given, in any case, has at least one match in the lowered text. */
  lemma OccurringTopicHasMatches(text: string, topic: string, p: nat)
    requires OccursAt(text, topic, p)
    ensures FindAll(Lower(text), Lower(topic)) != []
  {
    LowerKeepsOccurrence(text, topic, p);
    FindAllEmpty(Lower(text), Lower(topic), 0);
  }

  /** A topic whose lowered form does not occur in the lowered text gets the placeholder. */
  lemma ExcerptNotFound(text: string, topic: string, excerpt: string)
    requires IsExcerpt(text, topic, excerpt)
    requires !Contains(Lower(text), Lower(topic))
    ensures excerpt == Placeholder(topic)
  {
    FindAllEmpty(Lower(text), Lower(topic), 0);
  }

  /** A topic that occurs gets the join of one or more distinct segments of the lowered text,
      each containing the lowered topic and bounded in length. */
  lemma ExcerptFound(text: string, topic: string, excerpt: string)
    requires IsExcerpt(text, topic, excerpt)
    requires Contains(Lower(text), Lower(topic))
    ensures exists order ::
      && |order| > 0
      && (forall i, j :: 0 <= i < j < |order| ==> order[i] != order[j])
      && (forall seg :: seg in order ==> IsSegmentOf(Lower(text), Lower(topic), seg))
      && excerpt == JoinWith(order, Separator)
  {
    var lowered, lowTopic := Lower(text), Lower(topic);
    var matches := FindAll(lowered, lowTopic);
    FindAllEmpty(lowered, lowTopic, 0);
    var p: nat :| OccursAt(lowered, lowTopic, p);
    var order :| Enumerates(order, SegmentSet(lowered, matches)) && excerpt == JoinWith(order, Separator);
    assert Segment(lowered, matches[0]) in SegmentSet(lowered, matches);
    forall seg | seg in order
      ensures IsSegmentOf(lowered, lowTopic, seg)
    {
      SegmentsAreExcerpts(lowered, lowTopic, seg);
    }
  }

  /** An empty topic occurs everywhere: in an empty text its one match is empty, so the excerpt is
      the empty string and not the placeholder. */
  lemma EmptyTopicInEmptyText(excerpt: string)
    requires IsExcerpt("", "", excerpt)
    ensures excerpt == ""
  {
    var matches := FindAll("", "");
    assert OccursAt("", "", 0);
    assert |matches| == 1 && matches[0].start == 0 == matches[0].end;
    assert Segment("", matches[0]) == "";
    assert SegmentSet("", matches) == {""};
    var order :| Enumerates(order, {""}) && excerpt == JoinWith(order, Separator);
    EnumerationSize(order, {""});
    assert order[0] in order;
  }
}
