/** The Google source viewer's copy of the engine: `findMatchingSequences`
    with a `minWords` threshold, `highlightText` producing one element per
    chunk, and the match count `handleViewSource` stores with a selected source. */
module SimilarityViewer {
  import opened Text
  import opened Runs
  import opened Highlight

  /** The default value of `minWords`. */
  const DefaultMinWords := 3

  /** Both texts are lower-cased and split on whitespace runs, and the double
      scan marks the indices of every shared run of at least `minWords` tokens. */
  method FindMatchingSequences(text1: string, text2: string, minWords: int)
    returns (matches1: set<int>, matches2: set<int>)
    ensures matches1 == MarkedSet(Tokens(text1), Tokens(text2), minWords, true)
    ensures matches2 == MarkedSet(Tokens(text1), Tokens(text2), minWords, false)
  {
    var words1 := Tokens(text1);
    var words2 := Tokens(text2);
    matches1, matches2 := MatchIndices(words1, words2, minWords);
    forall x
      ensures x in matches1 <==> x in MarkedSet(words1, words2, minWords, true)
      ensures x in matches2 <==> x in MarkedSet(words1, words2, minWords, false)
    {
      MarkedSetIff(words1, words2, minWords, true, x);
      MarkedSetIff(words1, words2, minWords, false, x);
    }
  }

  /** Lowering `minWords` never removes an index from either set. */
  lemma LowerThresholdKeepsMarks(text1: string, text2: string, lower: int, higher: int, inFirst: bool)
    requires lower <= higher
    ensures MarkedSet(Tokens(text1), Tokens(text2), higher, inFirst)
         <= MarkedSet(Tokens(text1), Tokens(text2), lower, inFirst)
  {
    forall x | x in MarkedSet(Tokens(text1), Tokens(text2), higher, inFirst)
      ensures x in MarkedSet(Tokens(text1), Tokens(text2), lower, inFirst)
    {
      MarkedSetIff(Tokens(text1), Tokens(text2), higher, inFirst, x);
      MarkedSetIff(Tokens(text1), Tokens(text2), lower, inFirst, x);
      ThresholdMonotone(Tokens(text1), Tokens(text2), lower, higher, inFirst, x);
    }
  }

  /** A non-empty run of lower-case letters. */
  predicate LowerWord(w: string) {
    w != [] && forall i :: 0 <= i < |w| ==> 'a' <= w[i] <= 'z'
  }

  /** Lower-case words joined by single spaces are their own tokens. */
  lemma LowerSpacedTokens(ws: seq<string>)
    requires ws != [] && forall k :: 0 <= k < |ws| ==> LowerWord(ws[k])
    ensures Tokens(JoinSpaced(ws)) == ws
  {
    forall k | 0 <= k < |ws|
      ensures IsWord(ws[k]) && Lower(ws[k]) == ws[k]
    {
    }
    TokensJoin(ws);
  }

  lemma SpacedText(text: string, ws: seq<string>)
    requires text == JoinSpaced(ws)
    requires ws != [] && forall k :: 0 <= k < |ws| ==> LowerWord(ws[k])
    ensures Tokens(text) == ws
  {
    LowerSpacedTokens(ws);
  }

  lemma QuickBrownFoxRuns(x: int)
    ensures var ws1 := ["the", "quick", "brown", "fox", "jumps"];
            var ws2 := ["the", "quick", "brown", "fox", "runs"];
            (x in MarkedSet(ws1, ws2, DefaultMinWords, true) <==> 0 <= x < 4)
            && (x in MarkedSet(ws1, ws2, DefaultMinWords, false) <==> 0 <= x < 4)
  {
    var ws1 := ["the", "quick", "brown", "fox", "jumps"];
    var ws2 := ["the", "quick", "brown", "fox", "runs"];
    MarkedSetIff(ws1, ws2, DefaultMinWords, true, x);
    MarkedSetIff(ws1, ws2, DefaultMinWords, false, x);
    assert RunLen(ws1, ws2, 0, 0) == 4;
    if 0 <= x < 4 {
      assert Covers(ws1, ws2, DefaultMinWords, 0, 0, true, x);
      assert Covers(ws1, ws2, DefaultMinWords, 0, 0, false, x);
    }
    MarkedTokenOccurs(ws1, ws2, DefaultMinWords, x);
    InRunBounds(ws1, ws2, DefaultMinWords, x);
  }

  lemma QuickBrownFoxSets()
    ensures var ws1 := ["the", "quick", "brown", "fox", "jumps"];
            var ws2 := ["the", "quick", "brown", "fox", "runs"];
            MarkedSet(ws1, ws2, DefaultMinWords, true) == {0, 1, 2, 3}
            && MarkedSet(ws1, ws2, DefaultMinWords, false) == {0, 1, 2, 3}
  {
    var ws1 := ["the", "quick", "brown", "fox", "jumps"];
    var ws2 := ["the", "quick", "brown", "fox", "runs"];
    forall x
      ensures x in MarkedSet(ws1, ws2, DefaultMinWords, true) <==> x in {0, 1, 2, 3}
      ensures x in MarkedSet(ws1, ws2, DefaultMinWords, false) <==> x in {0, 1, 2, 3}
    {
      QuickBrownFoxRuns(x);
    }
  }

  /** "the quick brown fox " followed by one more word is those five words joined by spaces. */
  lemma FoxJoin(last: string)
    ensures JoinSpaced(["the", "quick", "brown", "fox", last]) == "the quick brown fox " + last
  {
    var ws := ["the", "quick", "brown", "fox", last];
    assert JoinSpaced(ws[3..]) == "fox " + last by { assert ws[3..][1..] == [last]; }
    assert JoinSpaced(ws[2..]) == "brown " + ("fox " + last) by { assert ws[2..][1..] == ws[3..]; }
    assert JoinSpaced(ws[1..]) == "quick " + ("brown " + ("fox " + last)) by { assert ws[1..][1..] == ws[2..]; }
  }

  /** ... and splits back into them when the last one is a lower-case word. */
  lemma FoxTokens(text: string, last: string)
    requires text == "the quick brown fox " + last && LowerWord(last)
    ensures Tokens(text) == ["the", "quick", "brown", "fox", last]
  {
    FoxJoin(last);
    SpacedText(text, ["the", "quick", "brown", "fox", last]);
  }

  /** With the default threshold, "the quick brown fox jumps" and "the quick
      brown fox runs" have their first four words marked on both sides. */
  lemma QuickBrownFox(text1: string, text2: string)
    requires text1 == "the quick brown fox jumps" && text2 == "the quick brown fox runs"
    ensures MarkedSet(Tokens(text1), Tokens(text2), DefaultMinWords, true) == {0, 1, 2, 3}
    ensures MarkedSet(Tokens(text1), Tokens(text2), DefaultMinWords, false) == {0, 1, 2, 3}
  {
    FoxJumps(text1);
    FoxRuns(text2);
    QuickBrownFoxSets();
  }

  /** The tokens of the first fox text. */
  lemma FoxJumps(text: string)
    requires text == "the quick brown fox jumps"
    ensures Tokens(text) == ["the", "quick", "brown", "fox", "jumps"]
  {
    FoxTokens(text, "jumps");
  }

  /** The tokens of the second fox text. */
  lemma FoxRuns(text: string)
    requires text == "the quick brown fox runs"
    ensures Tokens(text) == ["the", "quick", "brown", "fox", "runs"]
  {
    FoxTokens(text, "runs");
  }

  lemma UnionOfRunsMarks(x: int)
    ensures var ws1 := ["a", "b", "c", "d", "e"];
            var ws2 := ["x", "a", "b", "c", "y", "d", "e", "z"];
            (x in MarkedSet(ws1, ws2, 2, true) <==> 0 <= x < 5)
            && (x in MarkedSet(ws1, ws2, 2, false) <==> 1 <= x < 4 || 5 <= x < 7)
  {
    var ws1 := ["a", "b", "c", "d", "e"];
    var ws2 := ["x", "a", "b", "c", "y", "d", "e", "z"];
    MarkedSetIff(ws1, ws2, 2, true, x);
    MarkedSetIff(ws1, ws2, 2, false, x);
    assert RunLen(ws1, ws2, 0, 1) == 3;
    assert RunLen(ws1, ws2, 3, 5) == 2;
    if 0 <= x < 3 {
      assert Covers(ws1, ws2, 2, 0, 1, true, x);
    } else if 3 <= x < 5 {
      assert Covers(ws1, ws2, 2, 3, 5, true, x);
    }
    if 1 <= x < 4 {
      assert Covers(ws1, ws2, 2, 0, 1, false, x);
    } else if 5 <= x < 7 {
      assert Covers(ws1, ws2, 2, 3, 5, false, x);
    }
    MarkedTokenOccurs(ws1, ws2, 2, x);
    InRunBounds(ws1, ws2, 2, x);
  }

  /** The result is a union of runs, not the longest one: with `minWords` 2,
      the tokens of "a b c d e" against those of "x a b c y d e z" have the
      runs "a b c" and "d e" marked. */
  lemma UnionOfRuns()
    ensures var ws1 := ["a", "b", "c", "d", "e"];
            var ws2 := ["x", "a", "b", "c", "y", "d", "e", "z"];
            MarkedSet(ws1, ws2, 2, true) == {0, 1, 2, 3, 4}
            && MarkedSet(ws1, ws2, 2, false) == {1, 2, 3, 5, 6}
  {
    var ws1 := ["a", "b", "c", "d", "e"];
    var ws2 := ["x", "a", "b", "c", "y", "d", "e", "z"];
    forall x
      ensures x in MarkedSet(ws1, ws2, 2, true) <==> x in {0, 1, 2, 3, 4}
      ensures x in MarkedSet(ws1, ws2, 2, false) <==> x in {1, 2, 3, 5, 6}
    {
      UnionOfRunsMarks(x);
    }
  }

  /** A rendered chunk: `<span key={index}>` or `<mark key={index}>` around the chunk's text. */
  datatype Element = Span(key: nat, text: string) | Mark(key: nat, text: string)

  function ElementFor(cs: seq<string>, m: set<int>, k: nat): Element
    requires k < |cs|
  {
    if IsMarked(cs, m, k) then Mark(k, cs[k]) else Span(k, cs[k])
  }

  /** The `highlightText` result: one element per chunk of `text.split(/(\s+)/)`. */
  function Elements(text: string, m: set<int>): seq<Element> {
    var cs := Chunks(text);
    seq(|cs|, k requires 0 <= k < |cs| => ElementFor(cs, m, k))
  }

  /** Maps every chunk to an element, counting the non-whitespace ones in `wordIndex`. */
  method HighlightText(text: string, matchedIndices: set<int>) returns (elements: seq<Element>)
    ensures elements == Elements(text, matchedIndices)
  {
    var words := Chunks(text);
    var wordIndex := 0;
    elements := [];
    for index := 0 to |words|
      invariant wordIndex == Ordinal(words, index)
      invariant |elements| == index
      invariant forall k :: 0 <= k < index ==> elements[k] == ElementFor(words, matchedIndices, k)
    {
      var word := words[index];
      OrdinalStep(words, index);
      if IsBlank(word) {
        elements := elements + [Span(index, word)];
      } else {
        var isMatch := wordIndex in matchedIndices;
        wordIndex := wordIndex + 1;
        if isMatch {
          elements := elements + [Mark(index, word)];
        } else {
          elements := elements + [Span(index, word)];
        }
      }
    }
  }

  /** The children's texts, in order. */
  function Texts(elements: seq<Element>): seq<string> {
    seq(|elements|, k requires 0 <= k < |elements| => elements[k].text)
  }

  /** One element per chunk, in order, keyed by its chunk index, and the
      children's texts concatenate to the input. */
  lemma ElementsRoundTrip(text: string, m: set<int>)
    ensures |Elements(text, m)| == |Chunks(text)|
    ensures forall k :: 0 <= k < |Elements(text, m)| ==> Elements(text, m)[k].key == k
    ensures Concat(Texts(Elements(text, m))) == text
  {
    var es, cs := Elements(text, m), Chunks(text);
    forall k | 0 <= k < |es|
      ensures es[k].key == k && es[k].text == cs[k]
    {
      assert es[k] == ElementFor(cs, m, k);
    }
    assert Texts(es) == cs;
    ChunksRoundTrip(text);
  }

  /** The element for the `n`-th word of the text is a mark exactly when `n` is in the set. */
  lemma MarkedElement(text: string, m: set<int>, n: int) returns (k: nat)
    requires 0 <= n < |PySplit(text)|
    ensures k < |Elements(text, m)| && Elements(text, m)[k].text == PySplit(text)[n]
    ensures Elements(text, m)[k].Mark? <==> n in m
  {
    k := MarkedWord(text, m, n);
  }

  /** What `handleViewSource` adds to the selected source. */
  datatype Selection = Selection(currentHighlighted: seq<Element>, sourceHighlighted: seq<Element>, matchCount: nat)

  /** Matches the current text against the snippet with the default threshold,
      highlights both, and counts the marked indices of the current text. */
  method ViewSource(currentText: string, snippet: string) returns (selected: Selection)
    ensures selected.currentHighlighted
         == Elements(currentText, MarkedSet(Tokens(currentText), Tokens(snippet), DefaultMinWords, true))
    ensures selected.sourceHighlighted
         == Elements(snippet, MarkedSet(Tokens(currentText), Tokens(snippet), DefaultMinWords, false))
    ensures selected.matchCount == |MarkedSet(Tokens(currentText), Tokens(snippet), DefaultMinWords, true)|
    ensures selected.matchCount <= |Tokens(currentText)|
  {
    var matches1, matches2 := FindMatchingSequences(currentText, snippet, DefaultMinWords);
    var currentHighlighted := HighlightText(currentText, matches1);
    var sourceHighlighted := HighlightText(snippet, matches2);
    MarkedSetSize(Tokens(currentText), Tokens(snippet), DefaultMinWords, true);
    selected := Selection(currentHighlighted, sourceHighlighted, |matches1|);
  }

  /** Lower-case words are words, and lower-casing them, with an empty token
      after them, changes nothing. */
  lemma LowerWordsFixed(ws: seq<string>)
    requires forall k :: 0 <= k < |ws| ==> LowerWord(ws[k])
    ensures forall k :: 0 <= k < |ws| ==> IsWord(ws[k])
    ensures LowerAll(ws + [""]) == ws + [""]
  {
    var u := ws + [""];
    forall k | 0 <= k < |u|
      ensures Lower(u[k]) == u[k]
    {
      if k < |ws| {
        assert u[k] == ws[k];
      }
    }
    LowerAllFixed(u);
  }

  /** Single-spaced lower-case words followed by whitespace tokenize into
      those words and one empty token. */
  lemma TrailingTokens(ws: seq<string>, tail: string)
    requires ws != [] && forall k :: 0 <= k < |ws| ==> LowerWord(ws[k])
    requires tail != [] && AllSpace(tail)
    ensures Tokens(JoinSpaced(ws) + tail) == ws + [""]
  {
    LowerWordsFixed(ws);
    JsSplitJoin(ws, tail);
    JsSplitLower(JoinSpaced(ws) + tail);
  }

  /** Trailing whitespace leaves an empty last token, and it counts: a text of
      at least two single-spaced words followed by whitespace, compared with
      itself, gets a match count one higher than its number of words. */
  lemma TrailingWhitespaceCounted(ws: seq<string>, tail: string)
    requires |ws| >= 2 && forall k :: 0 <= k < |ws| ==> LowerWord(ws[k])
    requires tail != [] && AllSpace(tail)
    ensures var text := JoinSpaced(ws) + tail;
            |PySplit(text)| == |ws|
            && |MarkedSet(Tokens(text), Tokens(text), DefaultMinWords, true)| == |ws| + 1
  {
    var text := JoinSpaced(ws) + tail;
    forall k | 0 <= k < |ws|
      ensures IsWord(ws[k])
    {
    }
    PySplitJoin(ws, tail);
    TrailingTokens(ws, tail);
    SelfMarkedCount(Tokens(text), DefaultMinWords);
  }
}
