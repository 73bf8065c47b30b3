# Shared-phrase matching and highlighting

This project models the phrase-matching core of a plagiarism checker, together
with what is proved about it. The core marks the words or phrases that two
texts share and wraps them in highlight markup. It exists in three copies:

- **User dashboard** (`findSimilarSequences`, `highlightText`,
  `getSimilarityColor`):
  - both texts are lower-cased and split on whitespace runs into tokens;
  - a double loop over start pairs `(i, j)` grows a greedy run of equal tokens;
  - every run of at least three tokens has its indices added to two index sets;
  - the renderer cuts the text with `split(/(\s+)/)`, counts the chunks that
    are not whitespace, and wraps a word in `<mark key=… class="highlight-match">`
    when its ordinal is in the set;
  - a similarity score is coloured red, yellow or green.
- **Google source viewer** (`findMatchingSequences`, `highlightText`,
  `handleViewSource`):
  - the same scan, with a `minWords` threshold that defaults to 3;
  - the renderer produces one `<span>` or `<mark className="google-match-highlight">`
    element per chunk, keyed by chunk index;
  - selecting a source stores both highlightings and the number of marked
    indices of the current text.
- **Python server** (`clean_text`, `find_matching_segments`,
  `highlight_matching_text`):
  - `clean_text` collapses whitespace, strips and lower-cases;
  - `find_matching_segments` runs the greedy scan over `lower().split()` words,
    cuts each qualifying run out of the original text by character offsets
    computed as if the words were single-spaced, strips it, and keeps it unless
    an equal phrase, ignoring case, is already kept;
  - `highlight_matching_text` takes the distinct matches longest first;
  - for each match it takes the first match that `finditer` yields
    (case-insensitive, non-overlapping, left to right) in the original text
    that overlaps no span recorded so far;
  - it wraps the first exact occurrence of that text in the output with
    `<mark class="google-match">`, then records the span.

The modules:

- `Text`: ASCII whitespace and case, `strip`/`trim`, and the three splitters.
  These are JavaScript `split(/\s+/)` (`JsSplit`), JavaScript
  `split(/(\s+)/)` (`Chunks`), which keeps the separators, and Python
  `split()` (`PySplit`).
- `Runs`: the greedy run length and the scan loop shared by both JavaScript
  copies. It is specified by the predicate `InRun`: an index is marked exactly
  when some start pair's qualifying run covers it.
- `Highlight`: the word ordinal the renderers keep.
- `UserDashboard`, `SimilarityViewer`, `GoogleSimilarity`: the three copies
  above.

Loops in the source are methods with loop invariants. Each is proved equal to
a function, and the properties are lemmas about those functions.

## Model

| member | source | states |
|---|---|---|
| Text.LowerChar | frontend/src/pages/UserDashboard.js:45-46 | a lower-cased character is never an upper-case letter, and it is whitespace exactly when the original is |
| Text.Lower | app/utils/google_similarity.py:25-26 | lower-casing keeps the length, leaves no upper-case letter, moves every upper-case letter to its lower-case form and leaves every other character as it is |
| Text.LowerIdempotent | app/utils/google_similarity.py:9 | lower-casing twice is lower-casing once |
| Text.TrimStartMeaning | app/utils/google_similarity.py:9 | trimming the start drops exactly the leading whitespace: the result is a suffix that does not start with whitespace, and what was dropped is all whitespace |
| Text.TrimEndMeaning | app/utils/google_similarity.py:9 | trimming the end drops exactly the trailing whitespace: the result is a prefix that does not end with whitespace, and what was dropped is all whitespace |
| Text.StripMeaning | app/utils/google_similarity.py:9 | `strip()` returns a string that is empty or has non-whitespace at both ends, and it is empty exactly when the input is all whitespace |
| Text.StripSlice | app/utils/google_similarity.py:46 | `strip()` returns a contiguous piece of its input, starting after the leading whitespace |
| Text.BlankIff | frontend/src/pages/UserDashboard.js:81 | `word.trim() === ''` holds exactly when the chunk is all whitespace |
| Text.ChunksRoundTrip | frontend/src/pages/UserDashboard.js:77-92 | joining the pieces of `split(/(\s+)/)` with `''` gives back the text |
| Text.ChunkWords | frontend/src/pages/UserDashboard.js:77-86 | the chunks that are not whitespace are exactly Python's `split()` words, in order |
| Text.JsSplitShape | frontend/src/pages/UserDashboard.js:45-46 | `split(/\s+/)` is Python's `split()` words, plus one empty token when the text starts with whitespace (or is empty) and one when it ends with whitespace |
| Text.JsSplitTokens | frontend/src/pages/UserDashboard.js:45-46 | no token of `split(/\s+/)` holds whitespace, and only the first and the last can be empty |
| Text.PySplitWords | app/utils/google_similarity.py:25-26 | every word of `split()` is non-empty and holds no whitespace |
| Text.ChunksAlternate | frontend/src/pages/UserDashboard.js:77-86 | the pieces of `split(/(\s+)/)` alternate: an odd number of them, those at even positions hold no whitespace, and those at odd positions are non-empty whitespace runs |
| Text.PySplitTrailing | app/utils/google_similarity.py:9 | trailing whitespace does not change the words of `split()` |
| Text.StripWords | app/utils/google_similarity.py:9 | `strip()` does not change the words of `split()` |
| Text.JsSplitLower | frontend/src/pages/UserDashboard.js:45-46 | splitting the lower-cased text gives the lower-cased tokens of the text |
| Text.PySplitLower | app/utils/google_similarity.py:25-26 | `lower().split()` is `split()` followed by lower-casing each word |
| Text.PySplitJoin | app/utils/google_similarity.py:25-26 | `split()` undoes `' '.join` on whitespace-free words, whatever whitespace follows |
| Text.JsSplitJoin | frontend/src/components/GoogleSimilarityViewer.js:22-23 | `split(/\s+/)` undoes `' '.join` on at least one word; trailing whitespace adds exactly one empty token |
| Text.StripClean | app/utils/google_similarity.py:46 | a string with non-whitespace at both ends is its own `strip()` |
| Runs.RunLenMeaning | frontend/src/pages/UserDashboard.js:55-62 | the `while` loop's run is a block of pairwise-equal tokens that cannot be extended by one more pair while both positions exist |
| Runs.RunSlices | frontend/src/pages/UserDashboard.js:55-62 | the run's tokens, read in either sequence, are the same slice |
| Runs.RunLenSymmetric | frontend/src/components/GoogleSimilarityViewer.js:30-38 | the run from `(i, j)` has the same length with the two token sequences swapped |
| Runs.GreedyRunLength | frontend/src/pages/UserDashboard.js:55-62 | the `while` loop computes the greedy run length |
| Runs.MarkRun | frontend/src/pages/UserDashboard.js:64-69 | the `for k` loop adds `i .. i+len-1` to the first set and `j .. j+len-1` to the second, and nothing else |
| Runs.RowStep | frontend/src/pages/UserDashboard.js:54-70 | pair `(i, j)` adds its run's index range to a side exactly when the run reaches the threshold |
| Runs.ScanStep | frontend/src/pages/UserDashboard.js:55-69 | one pass of the inner-loop body takes each set from its value after `j` pairs of row `i` to its value after `j + 1` pairs |
| Runs.ScanRow | frontend/src/pages/UserDashboard.js:54-70 | the inner `for j` loop adds to each set the indices of every qualifying run starting at word `i` |
| Runs.RowSetCovers | frontend/src/pages/UserDashboard.js:54-70 | after `j` pairs of row `i`, a side holds `x` exactly when one of those pairs has a qualifying run covering `x` |
| Runs.GridSetCovers | frontend/src/pages/UserDashboard.js:53-71 | after `i` rows, a side holds `x` exactly when some pair in those rows has a qualifying run covering `x` |
| Runs.ScanComplete | frontend/src/pages/UserDashboard.js:53-73 | after the whole scan, a side holds exactly the indices that some qualifying run covers |
| Runs.MatchIndices | frontend/src/pages/UserDashboard.js:48-73 | the double loop returns exactly the indices covered by a run of at least the threshold on each side, all of them positions of their own sequence |
| Runs.InRunBounds | frontend/src/pages/UserDashboard.js:65-68 | every marked index is a position of its own token sequence |
| Runs.MarkedSetIff | frontend/src/pages/UserDashboard.js:48-73 | the marked set of a side holds exactly the covered indices |
| Runs.MatchSymmetric | frontend/src/pages/UserDashboard.js:53-73 | swapping the two texts swaps the two index sets |
| Runs.SelfMatchMarksAll | frontend/src/pages/UserDashboard.js:53-73 | a text with at least threshold-many tokens, compared with itself, has every index marked on both sides |
| Runs.SelfMarkedCount | frontend/src/pages/UserDashboard.js:53-73 | such a text's marked set is all of `0 .. n-1`, so it has as many members as there are tokens |
| Runs.ThresholdMonotone | frontend/src/components/GoogleSimilarityViewer.js:40-45 | lowering `minWords` never unmarks an index |
| Runs.ShortSideMarksNothing | frontend/src/pages/UserDashboard.js:56-64 | when either side has fewer tokens than the threshold, nothing is marked |
| Runs.MarkedTokenOccurs | frontend/src/pages/UserDashboard.js:59-67 | a marked token of one text also occurs in the other |
| Runs.MarkedSetSize | frontend/src/components/GoogleSimilarityViewer.js:79 | a side never has more marked indices than its text has tokens |
| Runs.RangeSize | frontend/src/pages/UserDashboard.js:65-68 | a run of length `n` adds exactly `n` distinct indices |
| Runs.TokensJoin | frontend/src/pages/UserDashboard.js:45-46 | single-spaced words are tokenized into their lower-case forms |
| Runs.CaseInsensitive | frontend/src/pages/UserDashboard.js:45-46 | texts that differ only in case have the same tokens, so the same index sets |
| Highlight.OrdinalStep | frontend/src/pages/UserDashboard.js:81-86 | a whitespace chunk leaves `wordIndex` alone, and any other chunk advances it by one |
| Highlight.OrdinalWord | frontend/src/pages/UserDashboard.js:77-86 | a word chunk's `wordIndex` is its position among the text's words |
| Highlight.OrdinalIncreasing | frontend/src/pages/UserDashboard.js:85-86 | later word chunks get larger ordinals, so no two share one |
| Highlight.WordChunk | frontend/src/pages/UserDashboard.js:77-86 | every word ordinal belongs to some chunk |
| Highlight.OutOfRangeIgnored | frontend/src/pages/UserDashboard.js:85 | indices outside `0 .. wordcount-1` have no effect on what is marked |
| Highlight.MarkedWord | frontend/src/pages/UserDashboard.js:77-90 | the `n`-th `split()` word of the text is wrapped exactly when `n` is in the set |
| Highlight.TokenAlignment | frontend/src/pages/UserDashboard.js:44-86 | when the text starts with a word, the matcher's token at a chunk's ordinal is that chunk lower-cased, so the matcher and the renderer agree |
| Highlight.LeadingSpaceShift | frontend/src/pages/UserDashboard.js:44-86 | when the text starts with whitespace, `split(/\s+/)` yields a leading empty token, so the matcher's indices run one ahead of the renderer's ordinals |
| UserDashboard.FindSimilarSequences | frontend/src/pages/UserDashboard.js:44-74 | the two sets are exactly the indices that a shared run of at least three lower-cased tokens covers in each text |
| UserDashboard.HelloGoodbyeMarksNothing | frontend/src/pages/UserDashboard.js:44-74 | "hello world" against "goodbye world" marks nothing on either side |
| UserDashboard.Decimal | frontend/src/pages/UserDashboard.js:89 | the key printed in the tag is a non-empty string of decimal digits |
| UserDashboard.DecimalValue | frontend/src/pages/UserDashboard.js:89 | the digits of the key spell the chunk index, without leading zeros |
| UserDashboard.MarkupSnoc | frontend/src/pages/UserDashboard.js:80-92 | the markup of chunks `lo .. hi` is the markup of `lo .. hi-1` followed by chunk `hi` rendered |
| UserDashboard.HighlightText | frontend/src/pages/UserDashboard.js:76-93 | the loop over the chunks yields the rendering of every chunk, joined in order |
| UserDashboard.StripRender | frontend/src/pages/UserDashboard.js:82-91 | removing the tags from one rendered chunk gives the chunk back |
| UserDashboard.StripMarkup | frontend/src/pages/UserDashboard.js:80-92 | removing the tags from the markup of a chunk range gives the concatenated chunks |
| UserDashboard.HighlightRoundTrip | frontend/src/pages/UserDashboard.js:76-93 | removing the `<mark>` tags from the output gives back the input text, for a text without `<` |
| UserDashboard.SimilarityColor | frontend/src/pages/UserDashboard.js:264-268 | the colour is red exactly from 80 up, yellow exactly from 50 below 80, and green exactly below 50 |
| UserDashboard.ColorMonotone | frontend/src/pages/UserDashboard.js:264-268 | a higher score never gets a milder colour |
| SimilarityViewer.FindMatchingSequences | frontend/src/components/GoogleSimilarityViewer.js:21-50 | the two sets are exactly the indices that a shared run of at least `minWords` lower-cased tokens covers in each text |
| SimilarityViewer.LowerThresholdKeepsMarks | frontend/src/components/GoogleSimilarityViewer.js:21-50 | a lower `minWords` gives supersets on both sides |
| SimilarityViewer.LowerSpacedTokens | frontend/src/components/GoogleSimilarityViewer.js:22-23 | lower-case words joined by single spaces are their own tokens |
| SimilarityViewer.QuickBrownFoxSets | frontend/src/components/GoogleSimilarityViewer.js:28-47 | the tokens "the quick brown fox jumps" and "the quick brown fox runs" have exactly `{0,1,2,3}` marked on both sides at threshold 3 |
| SimilarityViewer.FoxTokens | frontend/src/components/GoogleSimilarityViewer.js:22-23 | "the quick brown fox " plus one lower-case word tokenizes into those five words |
| SimilarityViewer.QuickBrownFox | frontend/src/components/GoogleSimilarityViewer.js:21-50 | the texts "the quick brown fox jumps" and "the quick brown fox runs" have exactly `{0,1,2,3}` marked on both sides with the default threshold |
| SimilarityViewer.UnionOfRuns | frontend/src/components/GoogleSimilarityViewer.js:28-47 | the result is the union of every qualifying run, not only the longest: with `minWords` 2, "a b c d e" against "x a b c y d e z" marks `{0..4}` and `{1,2,3,5,6}` |
| SimilarityViewer.HighlightText | frontend/src/components/GoogleSimilarityViewer.js:53-70 | the loop yields one element per chunk, as specified by `Elements` |
| SimilarityViewer.ElementsRoundTrip | frontend/src/components/GoogleSimilarityViewer.js:53-70 | there is one element per chunk, element `k` has key `k`, and the children's texts concatenate to the input |
| SimilarityViewer.MarkedElement | frontend/src/components/GoogleSimilarityViewer.js:57-68 | the element for the `n`-th word is a `<mark>` exactly when `n` is in the set, and its text is that word |
| SimilarityViewer.ViewSource | frontend/src/components/GoogleSimilarityViewer.js:72-81 | the selection holds both highlightings of the default-threshold sets and `matchCount = matches1.size`, which is at most the current text's token count |
| SimilarityViewer.TrailingTokens | frontend/src/components/GoogleSimilarityViewer.js:22-23 | single-spaced lower-case words followed by whitespace tokenize into those words plus one empty token |
| SimilarityViewer.TrailingWhitespaceCounted | frontend/src/components/GoogleSimilarityViewer.js:72-81 | a text of at least two words ending in whitespace, matched against itself, gets a match count one higher than its number of words |
| GoogleSimilarity.CollapseShape | app/utils/google_similarity.py:8 | after `re.sub(r'\s+', ' ', …)` whitespace occurs only as single plain spaces, and the result is empty only for an empty input and starts with whitespace exactly when the input does |
| GoogleSimilarity.CollapseSingleSpaced | app/utils/google_similarity.py:8 | a single-spaced string is unchanged by the substitution |
| GoogleSimilarity.CleanTextLowerCase | app/utils/google_similarity.py:6-9 | the output of `clean_text` has no upper-case letter |
| GoogleSimilarity.CleanTextStripped | app/utils/google_similarity.py:6-9 | the output of `clean_text` neither starts nor ends with whitespace |
| GoogleSimilarity.CleanTextSingleSpaced | app/utils/google_similarity.py:6-9 | the output of `clean_text` has no two whitespace characters in a row, and its only whitespace character is the plain space |
| GoogleSimilarity.CleanTextIdempotent | app/utils/google_similarity.py:6-9 | `clean_text` is idempotent |
| GoogleSimilarity.CollapseWordPrefix | app/utils/google_similarity.py:8 | a whitespace-free prefix passes through the substitution unchanged |
| GoogleSimilarity.CollapseWords | app/utils/google_similarity.py:8 | the substitution keeps the words of `split()` |
| GoogleSimilarity.JoinSplitStripped | app/utils/google_similarity.py:6-9 | a stripped, single-spaced string is its `split()` words joined by single spaces |
| GoogleSimilarity.CleanTextWords | app/utils/google_similarity.py:6-9 | `clean_text` is the input's `split()` words, lower-cased, joined by single spaces, so its words are the input's words lower-cased |
| GoogleSimilarity.RowPhrasesStep | app/utils/google_similarity.py:32-46 | pair `(i, j)` proposes the phrase cut for its run exactly when the run reaches `min_words` |
| GoogleSimilarity.DedupSnoc | app/utils/google_similarity.py:48-50 | a proposed phrase is appended exactly when no kept phrase equals it ignoring case |
| GoogleSimilarity.KeepStep | app/utils/google_similarity.py:33-50 | one pass of the inner loop appends the new phrase of a qualifying run when it is new ignoring case, and otherwise leaves the list alone |
| GoogleSimilarity.ScanPair | app/utils/google_similarity.py:33-50 | the inner-loop body takes the kept list from its value after `j` pairs of row `i` to its value after `j + 1` |
| GoogleSimilarity.ScanPhraseRow | app/utils/google_similarity.py:32-50 | the `for j` loop keeps the new phrases of every qualifying run starting at word `i` |
| GoogleSimilarity.FindMatchingSegments | app/utils/google_similarity.py:19-52 | the double loop returns the deduplicated phrases of all qualifying runs, in the order the scan proposes them |
| GoogleSimilarity.DedupCovers | app/utils/google_similarity.py:48-50 | every kept phrase was proposed, and every proposed phrase is kept up to case |
| GoogleSimilarity.DedupSubset | app/utils/google_similarity.py:48-50 | a kept phrase is one of the proposed ones |
| GoogleSimilarity.DedupDistinct | app/utils/google_similarity.py:48-50 | no two kept phrases are equal ignoring case |
| GoogleSimilarity.DedupFirstDiscovery | app/utils/google_similarity.py:48-50 | the kept phrases are exactly the first of each case-insensitive class, in the order they were proposed |
| GoogleSimilarity.RowPhraseSource | app/utils/google_similarity.py:32-46 | every phrase proposed in row `i` is cut for a qualifying run starting at `(i, j)` for some `j` |
| GoogleSimilarity.GridPhraseSource | app/utils/google_similarity.py:31-46 | every proposed phrase is cut for a qualifying run at some start pair |
| GoogleSimilarity.KeptSource | app/utils/google_similarity.py:31-50 | every kept phrase is cut for a block of at least `min_words` equal words |
| GoogleSimilarity.SegmentSource | app/utils/google_similarity.py:19-52 | every returned phrase is cut from the original for a block of at least `min_words` lower-cased words that occurs in both texts |
| GoogleSimilarity.ShortTextNoSegments | app/utils/google_similarity.py:19-52 | when either text has fewer than `min_words` words, the result is empty |
| GoogleSimilarity.RowPhrasesHas | app/utils/google_similarity.py:32-46 | a qualifying run at `(i, j)` has its phrase proposed in row `i` |
| GoogleSimilarity.GridPhrasesHas | app/utils/google_similarity.py:31-46 | a qualifying run at any start pair has its phrase proposed by the scan |
| GoogleSimilarity.SegmentComplete | app/utils/google_similarity.py:19-52 | the phrase of every qualifying run is among the returned phrases, up to case |
| GoogleSimilarity.SpacedOffset | app/utils/google_similarity.py:44-45 | the offset of word `i` is the length of the words before it, each followed by one space |
| GoogleSimilarity.OffsetLower | app/utils/google_similarity.py:44-45 | the offsets of the lower-cased words are those of the words |
| GoogleSimilarity.SpacedSlice | app/utils/google_similarity.py:44-45 | in the single-spaced text, the characters between the offsets of words `i` and `i + n` are exactly those words, each with its space |
| GoogleSimilarity.SpacedCut | app/utils/google_similarity.py:44-46 | for single-spaced words, the slice `[start_pos:end_pos]` is the run's words joined by spaces, plus one space unless the run ends the text |
| GoogleSimilarity.StrippedCut | app/utils/google_similarity.py:44-46 | for single-spaced words, the stripped slice is exactly the run's words joined by single spaces |
| GoogleSimilarity.SingleSpacedPhrase | app/utils/google_similarity.py:44-46 | for single-spaced words, the phrase cut for `n` words from word `i` is those words joined by single spaces |
| GoogleSimilarity.SingleSpacedWords | app/utils/google_similarity.py:25 | the words compared for a single-spaced text are its words lower-cased |
| GoogleSimilarity.SingleSpacedSegments | app/utils/google_similarity.py:19-52 | for a single-spaced original, every returned phrase is a block of at least `min_words` original words, whose lower-cased form occurs among the source's words |
| GoogleSimilarity.Wrap | app/utils/google_similarity.py:91 | wrapping adds exactly the opening and closing tag lengths |
| GoogleSimilarity.Find | app/utils/google_similarity.py:75-78 | a reported occurrence lies inside the text and at or after the search start |
| GoogleSimilarity.FindMeaning | app/utils/google_similarity.py:75-78 | the search returns an occurrence (ignoring case for `re.IGNORECASE`), and no occurrence starts between the search start and it |
| GoogleSimilarity.FindFound | app/utils/google_similarity.py:75-79 | a position the search reports holds an occurrence |
| GoogleSimilarity.NoOverlapAt | app/utils/google_similarity.py:82 | a span that `any` found no overlap with lies wholly before or after `[start, end)` |
| GoogleSimilarity.OverlapsMeaning | app/utils/google_similarity.py:82 | `any(...)` holds exactly when some recorded span meets `[start, end)` |
| GoogleSimilarity.FirstFree | app/utils/google_similarity.py:78-96 | the occurrence the `finditer` loop settles on lies inside the text and at or after the search start |
| GoogleSimilarity.FirstFreeFound | app/utils/google_similarity.py:78-84 | the occurrence the `finditer` loop settles on matches the phrase ignoring case and overlaps no recorded span |
| GoogleSimilarity.FirstFreeStep | app/utils/google_similarity.py:78-84 | one match of `finditer`: no match ends the loop with nothing, a free match is taken, and an overlapping one moves the search past it |
| GoogleSimilarity.FirstUnreplaced | app/utils/google_similarity.py:78-96 | the loop returns the first match yielded by `finditer` (non-overlapping, left to right) that overlaps no recorded span, or none |
| GoogleSimilarity.ReplaceFirstMeaning | app/utils/google_similarity.py:89-93 | `replace(t, r, 1)` changes nothing when `t` does not occur exactly, and otherwise swaps its leftmost exact occurrence for `r` and keeps everything else |
| GoogleSimilarity.ReplaceFirstLength | app/utils/google_similarity.py:89-93 | `replace(..., 1)` leaves the string alone or changes its length by exactly one replacement |
| GoogleSimilarity.PlaceFound | app/utils/google_similarity.py:84-96 | for a match whose first free occurrence is at `start`, the output has the actual text at `text[start:end]` wrapped where `replace` first finds it, and `(start, end)` is recorded |
| GoogleSimilarity.StepFound | app/utils/google_similarity.py:70-96 | a match that is not skipped, with its first free occurrence at `start`, wraps `text[start:end]` and records `(start, end)` |
| GoogleSimilarity.HighlightOne | app/utils/google_similarity.py:70-96 | one pass of the outer loop computes the specified step: a skip, no free occurrence, or one wrap and one recorded span |
| GoogleSimilarity.RunSnoc | app/utils/google_similarity.py:70-96 | the state after `q + 1` matches is one step after the state after `q` |
| GoogleSimilarity.InsertByLengthSorted | app/utils/google_similarity.py:65 | inserting into a longest-first list keeps it longest first and adds one element |
| GoogleSimilarity.InsertByLengthMultiset | app/utils/google_similarity.py:65 | inserting adds exactly the one element |
| GoogleSimilarity.SortByLengthSorted | app/utils/google_similarity.py:65 | `sorted(..., key=len, reverse=True)` is longest first and a permutation of its input |
| GoogleSimilarity.SortByLengthNoDup | app/utils/google_similarity.py:65 | sorting a list without duplicates gives one without duplicates |
| GoogleSimilarity.NoDupCons | app/utils/google_similarity.py:65 | a list with a head has no duplicates exactly when its tail has none and does not hold the head |
| GoogleSimilarity.InsertByLengthNoDup | app/utils/google_similarity.py:65 | inserting a new element into a list without duplicates keeps it without duplicates |
| GoogleSimilarity.HighlightMatchingText | app/utils/google_similarity.py:54-98 | the function returns the text unchanged for no matches, and otherwise the result of processing the distinct matches longest first |
| GoogleSimilarity.StepAtMostOne | app/utils/google_similarity.py:70-96 | one match either changes nothing, or appends one span and makes at most one replacement, growing the output by exactly one wrapper |
| GoogleSimilarity.StepSpan | app/utils/google_similarity.py:70-96 | a match that changes the state records one span, which is an occurrence of that match ignoring case, and the match is at least 3 characters once stripped |
| GoogleSimilarity.StepDisjoint | app/utils/google_similarity.py:78-95 | one match keeps the recorded spans pairwise disjoint |
| GoogleSimilarity.RunDisjoint | app/utils/google_similarity.py:68-96 | the recorded spans never overlap |
| GoogleSimilarity.RunSources | app/utils/google_similarity.py:68-96 | every recorded span is an occurrence of one of the processed matches, and later spans come from later matches |
| GoogleSimilarity.RunGrowth | app/utils/google_similarity.py:68-96 | the output is the input grown by whole wrappers, no more of them than recorded spans |
| GoogleSimilarity.RunShort | app/utils/google_similarity.py:70-72 | when every match is empty or shorter than 3 once stripped, nothing is wrapped or recorded |
| GoogleSimilarity.ShortMatchesUnchanged | app/utils/google_similarity.py:54-98 | with no matches, or only short ones, the text comes back unchanged |
| GoogleSimilarity.OneSpanPerMatch | app/utils/google_similarity.py:54-98 | the recorded spans are pairwise disjoint, each is an occurrence of a distinct given match, so there is at most one per match |
| GoogleSimilarity.ReplaceHitsOpeningTag | app/utils/google_similarity.py:89-93 | a later match `class` replaces the word `class` inside an earlier wrapper's opening tag, not in the text |
| GoogleSimilarity.FindAfter | app/utils/google_similarity.py:75-93 | a search, exact or ignoring case, finds a pattern right after a prefix that does not hold its first character in either case |
| GoogleSimilarity.LongerFirst | app/utils/google_similarity.py:65 | two matches listed longest first keep their order |
| GoogleSimilarity.WrapAtFront | app/utils/google_similarity.py:70-96 | a match the text starts with, while no span is recorded, is wrapped in place and its span recorded |
| GoogleSimilarity.FreeAtFront | app/utils/google_similarity.py:75-84 | a match the text starts with is found free at 0 when no span is recorded |
| GoogleSimilarity.ReplaceAtFront | app/utils/google_similarity.py:89-93 | `replace` swaps an occurrence at the very start |
| GoogleSimilarity.SecondFree | app/utils/google_similarity.py:75-84 | in "the big dog class", with `(0, 11)` recorded, the first free match of `class` is at 12 |
| GoogleSimilarity.WrapAgainInTag | app/utils/google_similarity.py:84-93 | a later match `class` found free in the text is wrapped inside the output's first opening tag |
| GoogleSimilarity.ClassMatchBreaksMarkup | app/utils/google_similarity.py:54-98 | highlighting "the big dog class" with matches "the big dog" and "class" wraps "the big dog", then rewrites the word `class` of its opening tag and leaves the text's "class" unwrapped |

## Left out

- Whitespace is the ASCII members of `\s`, and case mapping is ASCII only. Unicode whitespace, Unicode case folding, and `re.IGNORECASE` on non-ASCII text are not modelled.
- Python's `split()`, `strip()` and `re`'s `\s` on `str` also treat the ASCII separators `\x1c`–`\x1f` as whitespace; JavaScript's `\s` and `trim()` do not. The model uses JavaScript's ASCII set (space, `\t`, `\n`, `\v`, `\f`, `\r`) for both languages, so Python's handling of those four characters is not modelled.
- Regular expressions are not modelled in general. Each pattern the core uses is a dedicated function: `\s+` splitting, `(\s+)` splitting, `re.sub(r'\s+', ' ', …)`, and `finditer` on an escaped literal.
- Scores are `real`. The floating-point behaviour of `score >= 80` is not modelled.
- `getSimilarityColor` appears twice, in `UserDashboard.js:264-268` and `GoogleSimilarityViewer.js:14-18`. The two copies are the same and are modelled once, as `UserDashboard.SimilarityColor`.
- React state (`setSelectedSource`), JSX rendering and the DOM are left out. The viewer's elements are the datatype `Element`, a span or a mark with key and text. `ViewSource` returns the selection instead of storing it, and leaves out the source's other fields.
- The iteration order of Python's `set(matches)` is not specified by Python. It is the parameter `listing` of `HighlightMatchingText`, and the caller must pass a list without duplicates holding exactly the matches.
- UserDashboard.HighlightRoundTrip: proved only for texts without `<`, because a `<` in the text is indistinguishable from a tag once the text is in the markup.
- Some behaviours are kept as the source has them and proved as lemmas:
  - `LeadingSpaceShift`: the dashboard's word indices are off by one for texts that start with whitespace.
  - `TrailingWhitespaceCounted`: trailing whitespace adds a marked empty token to the match count.
  - `SingleSpacedSegments`: phrases are cut correctly only from single-spaced originals.
  - `ReplaceHitsOpeningTag`: `replace` may rewrite markup inserted earlier.
- `calculate_text_similarity` (a `SequenceMatcher` ratio) and `check_google_similarity` (network search and scoring) are not part of this model. Nor are the history fetches, the history and AI-detection routes, authentication, the database, the models and the other React components.
