/** `DocumentComparator`: similarity, status and report per topic, and the summary metrics. */
module Comparator {
  import opened Dicts
  import opened Matching

  /** From this similarity on, a topic counts as unchanged. */
  const UnchangedThreshold: real := 0.95
  /** From this similarity on (and below UnchangedThreshold), changes are moderate. */
  const ModerateThreshold: real := 0.7

  const NoSignificantChanges := "Sem alterações significativas"
  const ModerateChanges := "Alterações moderadas"
  const SignificantChanges := "Alterações significativas"

  /** `_get_status`: a three-way step function of the similarity; exactly one label applies. */
  function GetStatus(similarity: real): (status: string)
    ensures status == NoSignificantChanges <==> similarity >= UnchangedThreshold
    ensures status == ModerateChanges <==> ModerateThreshold <= similarity < UnchangedThreshold
    ensures status == SignificantChanges <==> similarity < ModerateThreshold
  {
    if similarity >= UnchangedThreshold then NoSignificantChanges
    else if similarity >= ModerateThreshold then ModerateChanges
    else SignificantChanges
  }

  /** One value of the dict `compare_topics` returns: the keys 'texto_2025', 'texto_2026',
      'similaridade', 'status' and 'tem_alteracao'. */
  datatype TopicComparison = TopicComparison(
    text2025: string, text2026: string, similarity: real, status: string, hasChange: bool)

  /** What holds of every entry: the similarity is a ratio, the change flag is the strict
      threshold test, and the status is the step function of the similarity. */
  ghost predicate IsConsistent(c: TopicComparison)
  {
    && 0.0 <= c.similarity <= 1.0
    && c.hasChange == (c.similarity < UnchangedThreshold)
    && c.status == GetStatus(c.similarity)
  }

  /** An entry reports no change exactly when its status is "Sem alterações significativas". */
  lemma NoChangeMeansUnchangedStatus(c: TopicComparison)
    requires IsConsistent(c)
    ensures !c.hasChange <==> c.status == NoSignificantChanges
  {
  }

  /** The matcher gives a matching for every pair of texts. */
  ghost predicate IsMatcher(matcher: (string, string) -> seq<Block>)
  {
    forall x, y :: IsMatching(x, y, matcher(x, y))
  }

  /** The entry `compare_topics` builds for one topic from its two texts. */
  function CompareTexts(text1: string, text2: string, matcher: (string, string) -> seq<Block>): (c: TopicComparison)
    requires IsMatcher(matcher)
    ensures c.text2025 == text1 && c.text2026 == text2
    ensures c.similarity == Similarity(text1, text2, matcher(text1, text2))
    ensures IsConsistent(c)
  {
    var similarity := Similarity(text1, text2, matcher(text1, text2));
    TopicComparison(text1, text2, similarity, GetStatus(similarity), similarity < UnchangedThreshold)
  }

  /** `compare_topics(topics1, topics2)`: one entry per key of `topics1`, in its order; keys only
      in `topics2` are ignored, and a key missing from `topics2` is compared against "". */
  method CompareTopics(topics1: Dict<string>, topics2: Dict<string>, matcher: (string, string) -> seq<Block>)
    returns (comparison: Dict<TopicComparison>)
    requires topics1.Valid() && IsMatcher(matcher)
    ensures comparison.Valid()
    ensures comparison.keys == topics1.keys
    ensures forall t :: t in comparison.entries ==>
      comparison.entries[t] == CompareTexts(topics1.entries[t], topics2.Get(t, ""), matcher)
  {
    comparison := EmptyDict();
    for n := 0 to |topics1.keys|
      invariant comparison.Valid()
      invariant comparison.keys == topics1.keys[..n]
      invariant forall t :: t in comparison.entries ==>
        comparison.entries[t] == CompareTexts(topics1.entries[t], topics2.Get(t, ""), matcher)
    {
      var topic := topics1.keys[n];
      assert topic !in comparison.entries by {
        forall m | 0 <= m < n
          ensures topics1.keys[..n][m] != topic
        {
          assert topics1.keys[m] != topics1.keys[n];
        }
      }
      var entry := CompareTexts(topics1.Get(topic, ""), topics2.Get(topic, ""), matcher);
      var next := comparison.Put(topic, entry);
      forall t | t in next.entries
        ensures next.entries[t] == CompareTexts(topics1.entries[t], topics2.Get(t, ""), matcher)
      {
        if t != topic {
          assert next.entries[t] == comparison.entries[t];
        }
      }
      comparison := next;
      assert topics1.keys[..n + 1] == topics1.keys[..n] + [topic];
    }
    assert topics1.keys[..|topics1.keys|] == topics1.keys;
  }

  /** The dict `extract_key_metrics` returns: 'total_topicos', 'topicos_alterados',
      'topicos_sem_alteracao', 'similaridade_media' and 'percentual_alteracao'. */
  datatype Metrics = Metrics(
    total: nat, changed: nat, unaltered: int, meanSimilarity: real, percentChanged: real)

  /** `sum(1 for v in values if v['tem_alteracao'])`. */
  function CountChanged(cs: seq<TopicComparison>): (n: nat)
    ensures n <= |cs|
    ensures n == 0 <==> forall i :: 0 <= i < |cs| ==> !cs[i].hasChange
    ensures n == |cs| <==> forall i :: 0 <= i < |cs| ==> cs[i].hasChange
  {
    if cs == [] then 0
    else (if cs[0].hasChange then 1 else 0) + CountChanged(cs[1..])
  }

  /** `sum(v['similaridade'] for v in values)`. */
  function SumSimilarity(cs: seq<TopicComparison>): (s: real)
    ensures (forall i :: 0 <= i < |cs| ==> 0.0 <= cs[i].similarity <= 1.0) ==> 0.0 <= s <= |cs| as real
  {
    if cs == [] then 0.0 else cs[0].similarity + SumSimilarity(cs[1..])
  }

  /** `extract_key_metrics(comparison)`: the counts add up; an empty comparison gives zeros
      without dividing; the percentage is within [0, 100], and the mean similarity within [0, 1]
      when every similarity is. */
  function KeyMetrics(comparison: Dict<TopicComparison>): (m: Metrics)
    requires comparison.Valid()
    ensures m.total == |comparison.keys|
    ensures m.changed <= m.total && m.changed + m.unaltered == m.total
    ensures m.changed == 0 <==> forall t :: t in comparison.entries ==> !comparison.entries[t].hasChange
    ensures m.total == 0 ==> m == Metrics(0, 0, 0, 0.0, 0.0)
    ensures 0.0 <= m.percentChanged <= 100.0
    ensures (forall t :: t in comparison.entries ==> 0.0 <= comparison.entries[t].similarity <= 1.0) ==>
      0.0 <= m.meanSimilarity <= 1.0
  {
    var values := comparison.Values();
    var total := |values|;
    var changed := CountChanged(values);
    ValuesAreEntries(comparison, values);
    MeanInUnitRange(values);
    if total > 0 then
      FractionInUnitRange(changed as real, total as real);
      Metrics(total, changed, total - changed,
        SumSimilarity(values) / total as real, changed as real / total as real * 100.0)
    else
      Metrics(0, 0, 0, 0.0, 0.0)
  }

  /** A property holds of every value exactly when it holds of every entry. */
  lemma ValuesAreEntries(comparison: Dict<TopicComparison>, values: seq<TopicComparison>)
    requires comparison.Valid() && values == comparison.Values()
    ensures forall c :: c in values <==> exists t :: t in comparison.entries && comparison.entries[t] == c
  {
    forall c | c in values
      ensures exists t :: t in comparison.entries && comparison.entries[t] == c
    {
      var i :| 0 <= i < |values| && values[i] == c;
      assert comparison.keys[i] in comparison.keys;
    }
    forall t | t in comparison.entries
      ensures comparison.entries[t] in values
    {
      var i :| 0 <= i < |comparison.keys| && comparison.keys[i] == t;
      assert values[i] == comparison.entries[t];
    }
  }

  /** The mean of similarities that each lie in [0, 1] lies in [0, 1]. */
  lemma MeanInUnitRange(cs: seq<TopicComparison>)
    ensures |cs| > 0 && (forall i :: 0 <= i < |cs| ==> 0.0 <= cs[i].similarity <= 1.0) ==>
      0.0 <= SumSimilarity(cs) / |cs| as real <= 1.0
  {
    if |cs| > 0 && forall i :: 0 <= i < |cs| ==> 0.0 <= cs[i].similarity <= 1.0 {
      FractionInUnitRange(SumSimilarity(cs), |cs| as real);
    }
  }
}
