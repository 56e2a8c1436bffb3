# Topic comparison of two investment-policy documents

This project models the comparison engine of a tool that compares two versions of an investment policy, the 2025 one and the proposed 2026 one. It has two parts.

- **Topic extraction** (`PDFProcessor.extract_topics`). The document text is lowered. For every topic, the regular expression `(.{0,500}<topic>.{0,500})` (DOTALL) collects passages around the lowered topic. The distinct passages are joined with a blank line. A topic that never occurs gets a fixed "not found" sentence.
- **Comparison** (`DocumentComparator`). For every topic of the first document, the two excerpts are compared with the ratio of `difflib.SequenceMatcher`. The ratio is classified against the thresholds 0.95 and 0.7. The entries are summed up into key metrics. Two texts can also be rewritten with their differences marked (REMOVIDO, ADICIONADO, ALTERADO, NOVO).

Modules:
- `Text`: lowering, substring occurrence, `sep.join`.
- `Dicts`: an insertion-ordered Python dict.
- `TopicPattern`: what `re.findall` returns for the topic pattern.
- `PdfProcessor`: `extract_topics`.
- `Matching`: difflib's matching blocks, the ratio and `get_opcodes`.
- `Highlight`: `highlight_changes`.
- `Comparator`: `_get_status`, `compare_topics` and `extract_key_metrics`.

A few modelling choices:
- A Python dict is a pair of its insertion-ordered keys and a map. `Put` models `d[k] = v`: a new key goes last, and an existing key keeps its place.
- `set(matches)` has no fixed iteration order. The join is therefore specified as the join of *some* enumeration of the set.
- The regex is specified relationally by `TopicPattern.Matches`. `MatchAt` computes the match the engine reports from a search position. `MatchAtLeftmostLongest` states why that match is the one reported:
  - the leftmost start;
  - then the longest leading part, which puts the topic at its last occurrence within 500 characters;
  - then the longest trailing part.
- difflib's matching blocks are an input: a chain of positive-size blocks that match in both strings and increase strictly in both. The ratio, `2*M/T` (or 1.0 when `T == 0`), and the opcodes are computed from that chain.

## Model

| member | source | states |
|---|---|---|
| Text.LowerIdempotent | pdf_processor.py:48-51 | lowering an already lowered string changes nothing |
| Text.LowerKeepsOccurrence | pdf_processor.py:48-54 | where the topic occurs in the text as given, the lowered topic occurs in the lowered text at the same position |
| Dicts.Dict.Put | pdf_processor.py:58-60 | assigning a key keeps the dict well formed, sets that one entry, and appends the key only if it is new |
| TopicPattern.NextOccurrence | pdf_processor.py:54 | the first occurrence of the topic at or after a position, or none when there is none |
| TopicPattern.MatchAt | pdf_processor.py:53-54 | the match reported from a search position: none exactly when no match of the pattern starts there or later, otherwise a match of the pattern from that position on |
| TopicPattern.MatchAtLeftmostLongest | pdf_processor.py:53 | the reported match has the leftmost start, then the topic as far right as the leading `.{0,500}` allows, then the longest trailing part |
| TopicPattern.EmptyMatchAtEnd | pdf_processor.py:53 | an empty match only happens for an empty topic at the end of the text |
| TopicPattern.FindAllFrom | pdf_processor.py:54 | the matches lie in the text from the search position on, run left to right and do not overlap |
| TopicPattern.FindAllMatches | pdf_processor.py:53-54 | every match `re.findall` returns is a match of the pattern |
| TopicPattern.FindAllEmpty | pdf_processor.py:54-56 | `re.findall` returns nothing exactly when the topic does not occur |
| TopicPattern.FindAllCoversOccurrences | pdf_processor.py:54 | every occurrence of the topic starts inside some match |
| TopicPattern.MatchIsSegment | pdf_processor.py:53 | the text of a match is a substring of the text, contains the topic, and is at most the topic's length plus 1000 long |
| TopicPattern.SegmentsAreExcerpts | pdf_processor.py:53-54 | every member of `set(matches)` is such a segment of the lowered text |
| PdfProcessor.JoinSet | pdf_processor.py:58 | `sep.join(set)` is the join of an enumeration that lists every element exactly once |
| PdfProcessor.TopicExcerpt | pdf_processor.py:51-60 | the value stored for one topic is the placeholder when there is no match, and otherwise the join of the distinct matches |
| PdfProcessor.ExtractTopics | pdf_processor.py:47-62 | the keys are exactly the topics, in the given order when the topics are distinct, and every value is that topic's excerpt; no topics give an empty dict |
| PdfProcessor.ExcerptNotFound | pdf_processor.py:54-60 | a topic whose lowered form does not occur in the lowered text gets the placeholder, which names the topic as given |
| PdfProcessor.ExcerptFound | pdf_processor.py:53-58 | a topic that occurs gets the blank-line join of one or more pairwise distinct segments, each a substring of the lowered text that contains the lowered topic and is at most the topic's length plus 1000 long |
| PdfProcessor.ExcerptDependsOnLoweredText | pdf_processor.py:48-60 | a document and its lowered form have the same excerpt for every topic |
| PdfProcessor.OccurringTopicHasMatches | pdf_processor.py:48-56 | a topic that occurs in the text in the case given has at least one match, so its excerpt is a join of matches and not the placeholder |
| PdfProcessor.EmptyTopicInEmptyText | pdf_processor.py:53-58 | an empty topic in an empty text has one empty match, so its excerpt is "" and not the placeholder |
| Matching.Similarity | comparator.py:24 | the ratio lies in [0, 1] and is 1.0 for two empty texts |
| Matching.SimilarityOneMeansEqual | comparator.py:24 | a ratio of 1.0 means the two texts are identical |
| Matching.SimilarityWithEmpty | comparator.py:24 | an empty text against a non-empty one has ratio 0.0 |
| Matching.OpcodesTile | comparator.py:109 | the opcodes of blocks in order cover both texts one after the other, each shaped as its tag says |
| Matching.OpcodesPairEqualText | comparator.py:109-112 | every 'equal' opcode pairs equal text of the two strings |
| Matching.OpcodesAreEditScript | comparator.py:104-109 | the opcodes of a matching form an edit script of the first text into the second |
| Highlight.HighlightChanges | comparator.py:93-121 | the two outputs are the renderings of the pieces the opcodes of the matching give each side, and those opcodes lie within both texts |
| Highlight.HighlightOpcode | comparator.py:110-119 | what one opcode appends to each list is the rendering of its pieces for that side: the equal text unmarked, deleted and replaced text marked on the first side, inserted and new text marked on the second |
| Highlight.HighlightOpcodes | comparator.py:106-121 | the loop over the opcodes builds exactly the joined renderings of each side's pieces |
| Highlight.SidesRestoreTexts | comparator.py:109-121 | for opcodes that tile both texts, stripping the markers from the first output gives the first text and from the second gives the second |
| Highlight.MarkersStayOnTheirSide | comparator.py:113-119 | every marked piece of the first output carries REMOVIDO or ALTERADO, and every marked piece of the second carries ADICIONADO or NOVO |
| Highlight.HighlightRestoresTexts | comparator.py:104-121 | for the opcodes of a matching, stripping the markers gives back both texts |
| Comparator.GetStatus | comparator.py:74-90 | each of the three labels is returned exactly in its similarity range: at least 0.95, from 0.7 up to 0.95, below 0.7 |
| Comparator.NoChangeMeansUnchangedStatus | comparator.py:68-86 | an entry reports no change exactly when its status is "Sem alterações significativas" |
| Comparator.CompareTexts | comparator.py:59-70 | an entry stores both excerpts unchanged, a similarity in [0, 1], the change flag `similarity < 0.95`, and the status of its similarity |
| Comparator.CompareTopics | comparator.py:56-72 | the keys are exactly those of the first dict, in its order; a topic missing from the second dict is compared against "" |
| Comparator.ValuesAreEntries | comparator.py:135-136 | `values()` holds exactly the values of the comparison's entries, so a property of every value is a property of every entry |
| Comparator.CountChanged | comparator.py:135 | the count of changed entries is at most their number; it is zero exactly when none changed and full exactly when all changed |
| Comparator.SumSimilarity | comparator.py:136 | the sum of similarities in [0, 1] lies between 0 and their number |
| Comparator.MeanInUnitRange | comparator.py:136 | the mean of similarities in [0, 1] lies in [0, 1] |
| Comparator.KeyMetrics | comparator.py:134-144 | changed plus unchanged is the total and changed is at most the total; changed is zero exactly when no entry changed; an empty comparison gives all zeros; the percentage lies in [0, 100]; the mean lies in [0, 1] when every similarity does |

## Left out
- Reading the PDFs (`extract_text`, `count_pages`) is file I/O. The document text is an input string.
- `find_differences` is a thin wrapper over `difflib.unified_diff`, and nothing in the comparison calls it.
- The Streamlit application and the React page are user interface and are not modelled.
- How difflib chooses its matching blocks (longest match first, the autojunk heuristic) is not modelled. The blocks are an input with only the guarantees of `get_matching_blocks`. So `ratio(a, a) == 1` and symmetry are not claimed, because the source does not guarantee them for long texts.
- Comparator.CompareTopics: takes the matcher as a function parameter `matcher(text1, text2)`, standing in for `SequenceMatcher(None, text1, text2)`.
- Highlight.HighlightChanges: takes the matching blocks as a parameter and derives the opcodes from them, the way `get_opcodes` does.
- Floating point is modelled by exact reals. Rounding of the ratio, of the mean and of the percentage is not captured.
- Text.Lower: `str.lower()` is modelled as a per-character map that lowers ASCII and Latin-1 capitals only. Characters whose lowercase form has a different length are not modelled.
- The `re.IGNORECASE` flag is not modelled: the match is exact equality of the lowered text and the lowered topic. The regex engine's case folding also equates characters that `str.lower()` keeps apart, such as the dotless ı (U+0131) and i, the long ſ (U+017F) and s, final ς and σ, and the micro sign µ (U+00B5) and μ. A text such as "Lıquidez" matches the topic "Liquidez" in the source but not in the model.
- Regex backtracking is not modelled step by step. `TopicPattern.MatchAt` gives the reported match in closed form, and the lemma `TopicPattern.MatchAtLeftmostLongest` states why it is the match the engine reports.
- TopicPattern.FindAllCoversOccurrences: an occurrence is only shown to *start* inside a match. With the greedy leading part, an occurrence can run past a match's end and be cut there.
- PdfProcessor.ExtractTopics: the key order is stated for distinct topics only. A repeated topic keeps its first place and gets a new value.
- PdfProcessor.JoinSet: the iteration order of a Python set is not modelled. Any order is allowed.
