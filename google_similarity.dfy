/** The server-side phrase engine: `clean_text`, `find_matching_segments`,
    which runs the greedy scan over Python `split()` words and cuts each
    qualifying run out of the original text by character offsets, and
    `highlight_matching_text`, which wraps one occurrence of each distinct
    match, longest first. */
module GoogleSimilarity {
  import opened Text
  import opened Runs

  // ---------------------------------------------------------------- clean_text

  /** `re.sub(r'\s+', ' ', s)`: every whitespace run becomes one space. */
  function Collapse(s: string): string
    decreases |s|
  {
    if s == [] then []
    else if IsSpace(s[0]) then " " + Collapse(s[SpanSpace(s)..])
    else [s[0]] + Collapse(s[1..])
  }

  /** Whitespace occurs only as single plain spaces. */
  predicate SingleSpaced(s: string) {
    && (forall k :: 0 <= k < |s| && IsSpace(s[k]) ==> s[k] == ' ')
    && (forall k :: 0 <= k < |s| - 1 ==> !(IsSpace(s[k]) && IsSpace(s[k + 1])))
  }

  /** `clean_text`: whitespace runs collapsed to one space, stripped, lower-cased. */
  function CleanText(text: string): string {
    Lower(Strip(Collapse(text)))
  }

  lemma SingleSpacedCons(x: char, c: string)
    requires SingleSpaced(c)
    requires IsSpace(x) ==> x == ' ' && (c == [] || !IsSpace(c[0]))
    ensures SingleSpaced([x] + c)
  {
    var s := [x] + c;
    forall k | 0 <= k < |s| - 1
      ensures !(IsSpace(s[k]) && IsSpace(s[k + 1]))
    {
      if k > 0 {
        assert s[k] == c[k - 1] && s[k + 1] == c[k];
      }
    }
  }

  lemma {:induction false} CollapseShape(s: string)
    ensures SingleSpaced(Collapse(s))
    ensures s != [] ==> Collapse(s) != [] && (IsSpace(Collapse(s)[0]) <==> IsSpace(s[0]))
    decreases |s|
  {
    if s != [] {
      if IsSpace(s[0]) {
        var rest := s[SpanSpace(s)..];
        CollapseShape(rest);
        SingleSpacedCons(' ', Collapse(rest));
        assert Collapse(s) == [' '] + Collapse(rest);
      } else {
        CollapseShape(s[1..]);
        SingleSpacedCons(s[0], Collapse(s[1..]));
        assert Collapse(s) == [s[0]] + Collapse(s[1..]);
      }
    }
  }

  lemma SingleSpacedSlice(s: string, a: nat, b: nat)
    requires SingleSpaced(s) && a <= b <= |s|
    ensures SingleSpaced(s[a..b])
  {
    var t := s[a..b];
    forall k | 0 <= k < |t| - 1
      ensures !(IsSpace(t[k]) && IsSpace(t[k + 1]))
    {
      assert t[k] == s[a + k] && t[k + 1] == s[a + k + 1];
    }
  }

  lemma SingleSpacedLower(s: string)
    requires SingleSpaced(s)
    ensures SingleSpaced(Lower(s))
  {
    var t := Lower(s);
    forall k | 0 <= k < |t| - 1
      ensures !(IsSpace(t[k]) && IsSpace(t[k + 1]))
    {
      assert t[k] == LowerChar(s[k]) && t[k + 1] == LowerChar(s[k + 1]);
    }
  }

  /** The output of `clean_text` has no upper-case letter. */
  lemma CleanTextLowerCase(text: string)
    ensures var r := CleanText(text); forall k :: 0 <= k < |r| ==> !IsUpper(r[k])
  {
  }

  /** The output of `clean_text` neither starts nor ends with whitespace. */
  lemma CleanTextStripped(text: string)
    ensures var r := CleanText(text); r == [] || (!IsSpace(r[0]) && !IsSpace(r[|r| - 1]))
  {
    var t := Strip(Collapse(text));
    var r := Lower(t);
    StripMeaning(Collapse(text));
    if r != [] {
      assert r[0] == LowerChar(t[0]) && r[|r| - 1] == LowerChar(t[|t| - 1]);
    }
  }

  /** The output of `clean_text` has no two whitespace characters in a row,
      and its only whitespace character is the plain space. */
  lemma CleanTextSingleSpaced(text: string)
    ensures SingleSpaced(CleanText(text))
  {
    var c := Collapse(text);
    var t := Strip(c);
    assert SingleSpaced(t) by {
      CollapseShape(text);
      StripSlice(c);
      SingleSpacedSlice(c, SpanSpace(c), SpanSpace(c) + |t|);
    }
    SingleSpacedLower(t);
  }

  lemma {:induction false} CollapseSingleSpaced(s: string)
    requires SingleSpaced(s)
    ensures Collapse(s) == s
    decreases |s|
  {
    if s != [] {
      SingleSpacedSlice(s, 1, |s|);
      CollapseSingleSpaced(s[1..]);
      if IsSpace(s[0]) {
        assert |s| > 1 ==> !IsSpace(s[1]);
        assert SpanSpace(s) == 1;
      }
      assert s == [s[0]] + s[1..];
    }
  }

  /** `clean_text` is idempotent. */
  lemma CleanTextIdempotent(text: string)
    ensures CleanText(CleanText(text)) == CleanText(text)
  {
    var r := CleanText(text);
    CleanTextStripped(text);
    CleanTextSingleSpaced(text);
    CollapseSingleSpaced(r);
    StripClean(r);
    LowerIdempotent(Strip(Collapse(text)));
  }

  /** A run of non-whitespace passes through the substitution unchanged. */
  lemma {:induction false} CollapseWordPrefix(a: string, b: string)
    requires NoSpace(a)
    ensures Collapse(a + b) == a + Collapse(b)
    decreases |a|
  {
    if a == [] {
      assert a + b == b;
    } else {
      assert (a + b)[1..] == a[1..] + b;
      CollapseWordPrefix(a[1..], b);
      assert a == [a[0]] + a[1..];
    }
  }

  /** `re.sub(r'\s+', ' ', s)` keeps the words of `split()`: only the
      whitespace between them changes. */
  lemma {:induction false} CollapseWords(s: string)
    ensures PySplit(Collapse(s)) == PySplit(s)
    decreases |s|
  {
    if s != [] {
      if IsSpace(s[0]) {
        var rest := s[SpanSpace(s)..];
        var c := Collapse(rest);
        CollapseWords(rest);
        CollapseShape(rest);
        PySplitSkip(s);
        assert Collapse(s) == " " + c;
        assert SpanSpace(" " + c) == 1 by {
          assert (" " + c)[1..] == c;
        }
        PySplitSkip(" " + c);
        assert (" " + c)[1..] == c;
      } else {
        var w := SpanWord(s);
        var word, rest := s[..w], s[w..];
        SpanWordRun(s);
        assert s == word + rest;
        CollapseWordPrefix(word, rest);
        var c := Collapse(rest);
        CollapseShape(rest);
        CollapseWords(rest);
        SpanWordBeforeSpace(word, rest);
        SpanWordBeforeSpace(word, c);
        assert (word + c)[0] == s[0];
        PySplitWordFirst(word + c);
        assert (word + c)[..w] == word && (word + c)[w..] == c;
        PySplitWordFirst(s);
      }
    }
  }

  /** In a single-spaced string a whitespace character is a plain space
      followed by non-whitespace or by nothing. */
  lemma SingleSpacedAt(c: string, k: nat)
    requires SingleSpaced(c) && k < |c| && IsSpace(c[k])
    ensures c[k] == ' ' && (k + 1 < |c| ==> !IsSpace(c[k + 1]))
  {
  }

  /** `' '.join` of a word and at least one more. */
  lemma JoinSpacedCons(a: string, ws: seq<string>)
    requires ws != []
    ensures JoinSpaced([a] + ws) == a + " " + JoinSpaced(ws)
  {
    assert ([a] + ws)[1..] == ws;
  }

  /** A word, one space and a non-empty rest that starts with non-whitespace:
      `split()` gives the word, then the rest's words, of which there is one at least. */
  lemma WordSpaceRest(c: string, w: nat)
    requires 0 < w && w + 1 < |c| && w == SpanWord(c)
    requires c[w] == ' ' && !IsSpace(c[w + 1])
    ensures PySplit(c) == [c[..w]] + PySplit(c[w + 1..])
    ensures PySplit(c[w + 1..]) != []
    ensures c == c[..w] + " " + c[w + 1..]
  {
    var r := c[w + 1..];
    PySplitWordFirst(c);
    assert c[w..][1..] == r;
    assert SpanSpace(c[w..]) == 1;
    PySplitSkip(c[w..]);
    PySplitWordFirst(r);
  }

  /** A single-spaced string without whitespace at either end is its words
      joined by single spaces. */
  lemma {:induction false} JoinSplitStripped(c: string)
    requires SingleSpaced(c)
    requires c == [] || (!IsSpace(c[0]) && !IsSpace(c[|c| - 1]))
    ensures c == JoinSpaced(PySplit(c))
    decreases |c|
  {
    if c != [] {
      var w := SpanWord(c);
      if w == |c| {
        WholeWord(c);
      } else {
        SingleSpacedAt(c, w);
        var r := c[w + 1..];
        SingleSpacedSlice(c, w + 1, |c|);
        assert r[0] == c[w + 1] && r[|r| - 1] == c[|c| - 1];
        JoinSplitStripped(r);
        WordSpaceRest(c, w);
        JoinSpacedCons(c[..w], PySplit(r));
      }
    }
  }

  /** `clean_text` is the input's words, lower-cased and joined by single
      spaces; so its words are the input's words lower-cased. */
  lemma CleanTextWords(text: string)
    ensures CleanText(text) == JoinSpaced(LowerAll(PySplit(text)))
    ensures PySplit(CleanText(text)) == LowerAll(PySplit(text))
  {
    var c := Strip(Collapse(text));
    CleanTextStripped(text);
    CleanTextSingleSpaced(text);
    JoinSplitStripped(CleanText(text));
    PySplitLower(c);
    StripWords(Collapse(text));
    CollapseWords(text);
  }

  // --------------------------------------------------- find_matching_segments

  /** Python `s[a:b]` for non-negative bounds: both are clamped to the length. */
  function Slice(s: string, a: nat, b: nat): string {
    var lo := if a < |s| then a else |s|;
    var hi := if b < |s| then b else |s|;
    if hi <= lo then [] else s[lo..hi]
  }

  /** `sum(len(w) + 1 for w in words[:i])`: where word `i` would start if the
      words were separated by single spaces. */
  function Offset(words: seq<string>, i: nat): nat
    requires i <= |words|
  {
    if i == 0 then 0 else Offset(words, i - 1) + |words[i - 1]| + 1
  }

  /** The phrase cut out of the original text for a run of `n` words from word `i`. */
  function Phrase(text: string, words: seq<string>, i: nat, n: nat): string
    requires i + n <= |words|
  {
    Strip(Slice(text, Offset(words, i), Offset(words, i + n)))
  }

  /** The phrases the scan proposes for start word `i`, pairs `(i, 0)` to `(i, j - 1)`, in order. */
  function RowPhrases(text: string, ow: seq<string>, sw: seq<string>, minWords: int, i: nat, j: nat): seq<string>
    requires i < |ow| && j <= |sw|
  {
    if j == 0 then []
    else
      var n := RunLen(ow, sw, i, j - 1);
      RowPhrases(text, ow, sw, minWords, i, j - 1) + (if n >= minWords then [Phrase(text, ow, i, n)] else [])
  }

  /** The phrases the scan proposes for start words `0` to `i - 1`, in order. */
  function GridPhrases(text: string, ow: seq<string>, sw: seq<string>, minWords: int, i: nat): seq<string>
    requires i <= |ow|
  {
    if i == 0 then [] else GridPhrases(text, ow, sw, minWords, i - 1) + RowPhrases(text, ow, sw, minWords, i - 1, |sw|)
  }

  /** `p.lower() in [m.lower() for m in ms]`. */
  predicate SeenCI(ms: seq<string>, p: string) {
    Lower(p) in LowerAll(ms)
  }

  /** Keeps the first phrase of every case-insensitive class, in order. */
  function Dedup(ps: seq<string>): seq<string> {
    if ps == [] then []
    else
      var kept := Dedup(ps[..|ps| - 1]);
      var p := ps[|ps| - 1];
      if SeenCI(kept, p) then kept else kept + [p]
  }

  /** The words `find_matching_segments` compares: `text.lower().split()`. */
  function LowerWords(text: string): seq<string> {
    PySplit(Lower(text))
  }

  /** The result of `find_matching_segments`. */
  function Segments(originalText: string, sourceText: string, minWords: int): seq<string> {
    var ow := LowerWords(originalText);
    Dedup(GridPhrases(originalText, ow, LowerWords(sourceText), minWords, |ow|))
  }

  lemma DedupSnoc(ps: seq<string>, p: string)
    ensures Dedup(ps + [p]) == if SeenCI(Dedup(ps), p) then Dedup(ps) else Dedup(ps) + [p]
  {
    assert (ps + [p])[..|ps|] == ps;
  }

  lemma DedupLast(ps: seq<string>)
    requires ps != []
    ensures var kept := Dedup(ps[..|ps| - 1]);
      Dedup(ps) == if SeenCI(kept, ps[|ps| - 1]) then kept else kept + [ps[|ps| - 1]]
  {
  }

  lemma PhraseCut(text: string, words: seq<string>, i: nat, n: nat, a: nat, b: nat)
    requires i + n <= |words| && Offset(words, i) == a && Offset(words, i + n) == b
    ensures Phrase(text, words, i, n) == Strip(Slice(text, a, b))
  {
  }

  /** Extending a row by pair `(i, j)` appends its phrase when the run qualifies. */
  lemma RowPhrasesStep(text: string, ow: seq<string>, sw: seq<string>, minWords: int, i: nat, j: nat,
                       before: seq<string>)
    requires i < |ow| && j < |sw|
    ensures var n := RunLen(ow, sw, i, j);
      before + RowPhrases(text, ow, sw, minWords, i, j + 1)
      == (before + RowPhrases(text, ow, sw, minWords, i, j)) + (if n >= minWords then [Phrase(text, ow, i, n)] else [])
  {
    var n := RunLen(ow, sw, i, j);
    var row := RowPhrases(text, ow, sw, minWords, i, j);
    var added := if n >= minWords then [Phrase(text, ow, i, n)] else [];
    calc {
      before + RowPhrases(text, ow, sw, minWords, i, j + 1);
      before + (row + added);
      (before + row) + added;
    }
  }

  /** The kept list after pair `(i, j)`: the phrase of a qualifying run is
      appended unless an equal one, ignoring case, is already kept. */
  lemma KeepStep(text: string, ow: seq<string>, sw: seq<string>, minWords: int, i: nat, j: nat,
                 before: seq<string>, row: seq<string>)
    requires i < |ow| && j < |sw|
    requires row == Dedup(before + RowPhrases(text, ow, sw, minWords, i, j))
    ensures var n := RunLen(ow, sw, i, j);
      Dedup(before + RowPhrases(text, ow, sw, minWords, i, j + 1))
      == if n >= minWords && !SeenCI(row, Phrase(text, ow, i, n)) then row + [Phrase(text, ow, i, n)] else row
  {
    var n := RunLen(ow, sw, i, j);
    var prior := before + RowPhrases(text, ow, sw, minWords, i, j);
    RowPhrasesStep(text, ow, sw, minWords, i, j, before);
    if n >= minWords {
      DedupSnoc(prior, Phrase(text, ow, i, n));
    } else {
      assert prior + [] == prior;
    }
  }

  /** The kept list once `before` and the first `j` phrases of row `i` were proposed. */
  function RowKept(text: string, ow: seq<string>, sw: seq<string>, minWords: int, i: nat, j: nat,
                   before: seq<string>): seq<string>
    requires i < |ow| && j <= |sw|
  {
    Dedup(before + RowPhrases(text, ow, sw, minWords, i, j))
  }

  /** The body of the inner loop for pair `(i, j)`: the greedy run, and for a
      qualifying run the phrase cut from the original, kept when it is new. */
  method ScanPair(originalText: string, ow: seq<string>, sw: seq<string>, minWords: int, i: nat, j: nat,
                  matches: seq<string>, ghost before: seq<string>)
    returns (row: seq<string>)
    requires i < |ow| && j < |sw|
    requires matches == RowKept(originalText, ow, sw, minWords, i, j, before)
    ensures row == RowKept(originalText, ow, sw, minWords, i, j + 1, before)
  {
    row := matches;
    var matchLength := GreedyRunLength(ow, sw, i, j);
    KeepStep(originalText, ow, sw, minWords, i, j, before, row);
    if matchLength >= minWords {
      var startPos := Offset(ow, i);
      var endPos := Offset(ow, i + matchLength);
      var matchedPhrase := Strip(Slice(originalText, startPos, endPos));
      PhraseCut(originalText, ow, i, matchLength, startPos, endPos);
      if !SeenCI(row, matchedPhrase) {
        row := row + [matchedPhrase];
      }
    }
  }

  /** One row of the scan: every `j` of the source in turn. */
  method ScanPhraseRow(originalText: string, ow: seq<string>, sw: seq<string>, minWords: int, i: nat,
                       matches: seq<string>, ghost before: seq<string>)
    returns (row: seq<string>)
    requires i < |ow|
    requires matches == Dedup(before)
    ensures row == Dedup(before + RowPhrases(originalText, ow, sw, minWords, i, |sw|))
  {
    row := matches;
    assert row == RowKept(originalText, ow, sw, minWords, i, 0, before) by {
      assert before + RowPhrases(originalText, ow, sw, minWords, i, 0) == before;
    }
    for j := 0 to |sw|
      invariant row == RowKept(originalText, ow, sw, minWords, i, j, before)
    {
      row := ScanPair(originalText, ow, sw, minWords, i, j, row, before);
    }
  }

  /** `find_matching_segments`: the greedy scan over the lower-cased words,
      keeping each qualifying phrase unless an equal one, ignoring case, is
      already kept. */
  method FindMatchingSegments(originalText: string, sourceText: string, minWords: int)
    returns (matches: seq<string>)
    ensures matches == Segments(originalText, sourceText, minWords)
  {
    var originalWords := LowerWords(originalText);
    var sourceWords := LowerWords(sourceText);
    matches := [];
    for i := 0 to |originalWords|
      invariant matches == Dedup(GridPhrases(originalText, originalWords, sourceWords, minWords, i))
    {
      matches := ScanPhraseRow(originalText, originalWords, sourceWords, minWords, i, matches,
                               GridPhrases(originalText, originalWords, sourceWords, minWords, i));
    }
  }

  // ------------------------------------------------ what the phrase list holds

  /** Every kept phrase was proposed, and every proposed phrase is kept up to case. */
  lemma {:induction false} DedupCovers(ps: seq<string>)
    ensures forall p :: p in Dedup(ps) ==> p in ps
    ensures forall k :: 0 <= k < |ps| ==> SeenCI(Dedup(ps), ps[k])
    decreases |ps|
  {
    if ps != [] {
      var init := ps[..|ps| - 1];
      DedupCovers(init);
      assert ps == init + [ps[|ps| - 1]];
      var kept := Dedup(init);
      forall k | 0 <= k < |ps|
        ensures SeenCI(Dedup(ps), ps[k])
      {
        if k < |init| {
          assert ps[k] == init[k];
          assert SeenCI(kept, ps[k]);
          var q :| 0 <= q < |kept| && LowerAll(kept)[q] == Lower(ps[k]);
          assert Dedup(ps)[q] == kept[q];
          assert LowerAll(Dedup(ps))[q] == Lower(ps[k]);
        } else if !SeenCI(kept, ps[k]) {
          var r := Dedup(ps);
          assert r[|r| - 1] == ps[k];
          assert LowerAll(r)[|r| - 1] == Lower(ps[k]);
        }
      }
    }
  }

  /** One kept phrase at a time: it was proposed. */
  lemma {:induction false} DedupSubset(ps: seq<string>, p: string)
    requires p in Dedup(ps)
    ensures p in ps
    decreases |ps|
  {
    var init := ps[..|ps| - 1];
    if p in Dedup(init) {
      DedupSubset(init, p);
      assert init <= ps;
    }
  }

  /** No two entries are equal ignoring case. */
  predicate DistinctCI(r: seq<string>) {
    forall a, b :: 0 <= a < b < |r| ==> Lower(r[a]) != Lower(r[b])
  }

  /** `find_matching_segments` never keeps two phrases that are equal ignoring case. */
  lemma {:induction false} DedupDistinct(ps: seq<string>)
    ensures DistinctCI(Dedup(ps))
    decreases |ps|
  {
    if ps != [] {
      var init := ps[..|ps| - 1];
      var p := ps[|ps| - 1];
      var kept := Dedup(init);
      DedupDistinct(init);
      var r := Dedup(ps);
      if !SeenCI(kept, p) {
        assert r == kept + [p];
        forall a, b | 0 <= a < b < |r|
          ensures Lower(r[a]) != Lower(r[b])
        {
          assert r[a] == kept[a];
          if b == |r| - 1 {
            assert r[b] == p;
            assert LowerAll(kept)[a] == Lower(r[a]);
          } else {
            assert r[b] == kept[b];
          }
        }
      } else {
        assert r == kept;
      }
    }
  }

  /** Element `k` is the first of its case-insensitive class. */
  ghost predicate FirstOfClass(ps: seq<string>, k: int)
  {
    0 <= k < |ps| && forall e :: 0 <= e < k ==> Lower(ps[e]) != Lower(ps[k])
  }

  lemma FirstOfClassInit(ps: seq<string>)
    requires ps != []
    ensures forall k :: 0 <= k < |ps| - 1 ==> ps[k] == ps[..|ps| - 1][k]
    ensures forall k :: 0 <= k < |ps| - 1 ==> (FirstOfClass(ps, k) <==> FirstOfClass(ps[..|ps| - 1], k))
  {
    var init := ps[..|ps| - 1];
    forall k | 0 <= k < |ps| - 1
      ensures FirstOfClass(ps, k) <==> FirstOfClass(init, k)
    {
      assert forall e :: 0 <= e <= k ==> ps[e] == init[e];
    }
  }

  /** `pos[q]` is where the `q`-th kept phrase of `ps` was proposed, the
      positions increase, and every first of a class is among them. */
  ghost predicate Discovers(ps: seq<string>, pos: seq<int>) {
    && |pos| == |Dedup(ps)|
    && (forall q :: 0 <= q < |pos| ==> FirstOfClass(ps, pos[q]) && Dedup(ps)[q] == ps[pos[q]])
    && (forall q1, q2 :: 0 <= q1 < q2 < |pos| ==> pos[q1] < pos[q2])
    && (forall k :: FirstOfClass(ps, k) ==> k in pos)
  }

  /** A last phrase whose class was already kept adds no position. */
  lemma DiscoversSeen(ps: seq<string>, pos: seq<int>)
    requires ps != [] && Discovers(ps[..|ps| - 1], pos)
    requires SeenCI(Dedup(ps[..|ps| - 1]), ps[|ps| - 1])
    ensures Discovers(ps, pos)
  {
    var init, last := ps[..|ps| - 1], |ps| - 1;
    var kept, p := Dedup(init), ps[last];
    FirstOfClassInit(ps);
    DedupLast(ps);
    var q :| 0 <= q < |kept| && LowerAll(kept)[q] == Lower(p);
    assert Lower(ps[pos[q]]) == Lower(p);
    assert !FirstOfClass(ps, last);
    forall q | 0 <= q < |pos|
      ensures FirstOfClass(ps, pos[q]) && Dedup(ps)[q] == ps[pos[q]]
    {
      assert FirstOfClass(init, pos[q]);
    }
    forall k | FirstOfClass(ps, k)
      ensures k in pos
    {
      assert k < last && FirstOfClass(init, k);
    }
  }

  /** A last phrase of a new class is kept, at its own position. */
  lemma DiscoversNew(ps: seq<string>, pos: seq<int>)
    requires ps != [] && Discovers(ps[..|ps| - 1], pos)
    requires !SeenCI(Dedup(ps[..|ps| - 1]), ps[|ps| - 1])
    ensures Discovers(ps, pos + [|ps| - 1])
  {
    var init, last := ps[..|ps| - 1], |ps| - 1;
    var kept, p := Dedup(init), ps[last];
    var pos' := pos + [last];
    FirstOfClassInit(ps);
    DedupLast(ps);
    forall e | 0 <= e < last
      ensures Lower(ps[e]) != Lower(p)
    {
      DedupCovers(init);
      assert SeenCI(kept, init[e]);
    }
    assert FirstOfClass(ps, last);
    forall q | 0 <= q < |pos'|
      ensures FirstOfClass(ps, pos'[q]) && Dedup(ps)[q] == ps[pos'[q]]
    {
      if q < |pos| {
        assert pos'[q] == pos[q] && FirstOfClass(init, pos[q]);
      }
    }
    forall q1, q2 | 0 <= q1 < q2 < |pos'|
      ensures pos'[q1] < pos'[q2]
    {
      assert FirstOfClass(init, pos[q1]);
    }
    forall k | FirstOfClass(ps, k)
      ensures k in pos'
    {
      if k < last {
        assert FirstOfClass(init, k) && k in pos;
      }
    }
  }

  /** The kept phrases are exactly the first of each class, in the order they
      were proposed: `pos[q]` is where the `q`-th kept phrase was proposed. */
  lemma {:induction false} DedupFirstDiscovery(ps: seq<string>) returns (pos: seq<int>)
    ensures |pos| == |Dedup(ps)|
    ensures forall q :: 0 <= q < |pos| ==> FirstOfClass(ps, pos[q]) && Dedup(ps)[q] == ps[pos[q]]
    ensures forall q1, q2 :: 0 <= q1 < q2 < |pos| ==> pos[q1] < pos[q2]
    ensures forall k :: FirstOfClass(ps, k) ==> k in pos
    decreases |ps|
  {
    if ps == [] {
      pos := [];
    } else {
      var init := ps[..|ps| - 1];
      var before := DedupFirstDiscovery(init);
      assert Discovers(init, before);
      if SeenCI(Dedup(init), ps[|ps| - 1]) {
        DiscoversSeen(ps, before);
        pos := before;
      } else {
        DiscoversNew(ps, before);
        pos := before + [|ps| - 1];
      }
      assert Discovers(ps, pos);
    }
  }

  /** Where a proposed phrase of row `i` came from: a start word `j` of the
      source whose run qualifies, and the phrase that run cuts. */
  lemma {:induction false} RowPhraseSource(text: string, ow: seq<string>, sw: seq<string>, minWords: int,
                                           i: nat, len: nat, p: string) returns (j: nat)
    requires i < |ow| && len <= |sw| && p in RowPhrases(text, ow, sw, minWords, i, len)
    ensures j < len && RunLen(ow, sw, i, j) >= minWords
    ensures p == Phrase(text, ow, i, RunLen(ow, sw, i, j))
    decreases len
  {
    var n := RunLen(ow, sw, i, len - 1);
    var prior := RowPhrases(text, ow, sw, minWords, i, len - 1);
    if p in prior {
      j := RowPhraseSource(text, ow, sw, minWords, i, len - 1, p);
    } else {
      j := len - 1;
    }
  }

  /** A proposed phrase comes from an earlier row (`true`) or from the last one. */
  lemma GridSplit(text: string, ow: seq<string>, sw: seq<string>, minWords: int, rows: nat, p: string)
    returns (earlier: bool)
    requires rows <= |ow| && p in GridPhrases(text, ow, sw, minWords, rows)
    ensures rows > 0
    ensures earlier ==> p in GridPhrases(text, ow, sw, minWords, rows - 1)
    ensures !earlier ==> p in RowPhrases(text, ow, sw, minWords, rows - 1, |sw|)
  {
    earlier := p in GridPhrases(text, ow, sw, minWords, rows - 1);
  }

  /** Where a proposed phrase came from: start words `i` and `j` whose run qualifies. */
  lemma {:induction false} GridPhraseSource(text: string, ow: seq<string>, sw: seq<string>, minWords: int,
                                            rows: nat, p: string) returns (i: nat, j: nat)
    requires rows <= |ow| && p in GridPhrases(text, ow, sw, minWords, rows)
    ensures i < rows && j < |sw| && RunLen(ow, sw, i, j) >= minWords
    ensures p == Phrase(text, ow, i, RunLen(ow, sw, i, j))
    decreases rows
  {
    var earlier := GridSplit(text, ow, sw, minWords, rows, p);
    if earlier {
      i, j := GridPhraseSource(text, ow, sw, minWords, rows - 1, p);
    } else {
      i := rows - 1;
      j := RowPhraseSource(text, ow, sw, minWords, i, |sw|, p);
    }
  }

  /** Every phrase the scan keeps over word lists `ow` and `sw` is cut for a
      run of at least `minWords` equal words. */
  lemma KeptSource(text: string, ow: seq<string>, sw: seq<string>, minWords: int, p: string)
    returns (i: nat, j: nat, n: nat)
    requires p in Dedup(GridPhrases(text, ow, sw, minWords, |ow|))
    ensures n >= minWords && i + n <= |ow| && j + n <= |sw|
    ensures ow[i..i + n] == sw[j..j + n]
    ensures p == Phrase(text, ow, i, n)
  {
    var ps := GridPhrases(text, ow, sw, minWords, |ow|);
    DedupSubset(ps, p);
    i, j := GridPhraseSource(text, ow, sw, minWords, |ow|, p);
    n := RunSlices(ow, sw, i, j);
  }

  /** Every phrase `find_matching_segments` returns is cut for a run of at
      least `minWords` equal lower-cased words starting at word `i` of the
      original and word `j` of the source. */
  lemma SegmentSource(originalText: string, sourceText: string, minWords: int, p: string)
    returns (i: nat, j: nat, n: nat)
    requires p in Segments(originalText, sourceText, minWords)
    ensures var ow, sw := LowerWords(originalText), LowerWords(sourceText);
      && n >= minWords && i + n <= |ow| && j + n <= |sw|
      && ow[i..i + n] == sw[j..j + n]
      && p == Phrase(originalText, ow, i, n)
  {
    i, j, n := KeptSource(originalText, LowerWords(originalText), LowerWords(sourceText), minWords, p);
  }

  lemma {:induction false} RowPhrasesNone(text: string, ow: seq<string>, sw: seq<string>, minWords: int,
                                          i: nat, len: nat)
    requires i < |ow| && len <= |sw|
    requires |ow| < minWords || |sw| < minWords
    ensures RowPhrases(text, ow, sw, minWords, i, len) == []
    decreases len
  {
    if len > 0 {
      RowPhrasesNone(text, ow, sw, minWords, i, len - 1);
    }
  }

  lemma {:induction false} GridPhrasesNone(text: string, ow: seq<string>, sw: seq<string>, minWords: int,
                                           rows: nat)
    requires rows <= |ow|
    requires |ow| < minWords || |sw| < minWords
    ensures GridPhrases(text, ow, sw, minWords, rows) == []
    decreases rows
  {
    if rows > 0 {
      var prior := GridPhrases(text, ow, sw, minWords, rows - 1);
      var row := RowPhrases(text, ow, sw, minWords, rows - 1, |sw|);
      GridPhrasesNone(text, ow, sw, minWords, rows - 1);
      RowPhrasesNone(text, ow, sw, minWords, rows - 1, |sw|);
      assert prior + row == [];
    }
  }

  /** When either text has fewer than `minWords` words no run qualifies and
      the result is empty. */
  lemma ShortTextNoSegments(originalText: string, sourceText: string, minWords: int)
    requires |PySplit(originalText)| < minWords || |PySplit(sourceText)| < minWords
    ensures Segments(originalText, sourceText, minWords) == []
  {
    PySplitLower(originalText);
    PySplitLower(sourceText);
    var ow := LowerWords(originalText);
    GridPhrasesNone(originalText, ow, LowerWords(sourceText), minWords, |ow|);
  }

  /** A qualifying run at `(i, j)` puts its phrase into row `i` once `j` is passed. */
  lemma {:induction false} RowPhrasesHas(text: string, ow: seq<string>, sw: seq<string>, minWords: int,
                                         i: nat, j: nat, len: nat)
    requires i < |ow| && j < len <= |sw| && RunLen(ow, sw, i, j) >= minWords
    ensures Phrase(text, ow, i, RunLen(ow, sw, i, j)) in RowPhrases(text, ow, sw, minWords, i, len)
    decreases len
  {
    if j < len - 1 {
      RowPhrasesHas(text, ow, sw, minWords, i, j, len - 1);
    }
  }

  /** Whatever row `i` proposes is among the proposals once row `i` is passed. */
  lemma {:induction false} GridPhrasesHas(text: string, ow: seq<string>, sw: seq<string>, minWords: int,
                                          i: nat, rows: nat, p: string)
    requires i < rows <= |ow| && p in RowPhrases(text, ow, sw, minWords, i, |sw|)
    ensures p in GridPhrases(text, ow, sw, minWords, rows)
    decreases rows
  {
    if i < rows - 1 {
      GridPhrasesHas(text, ow, sw, minWords, i, rows - 1, p);
    }
  }

  /** Every qualifying run is reported: the phrase cut for a run of at least
      `min_words` equal words at `(i, j)` is in the result, up to case. */
  lemma SegmentComplete(originalText: string, sourceText: string, minWords: int, i: nat, j: nat)
    requires i < |LowerWords(originalText)| && j < |LowerWords(sourceText)|
    requires RunLen(LowerWords(originalText), LowerWords(sourceText), i, j) >= minWords
    ensures var ow, sw := LowerWords(originalText), LowerWords(sourceText);
      SeenCI(Segments(originalText, sourceText, minWords), Phrase(originalText, ow, i, RunLen(ow, sw, i, j)))
  {
    var ow, sw := LowerWords(originalText), LowerWords(sourceText);
    var p := Phrase(originalText, ow, i, RunLen(ow, sw, i, j));
    RowPhrasesHas(originalText, ow, sw, minWords, i, j, |sw|);
    GridPhrasesHas(originalText, ow, sw, minWords, i, |ow|, p);
    var ps := GridPhrases(originalText, ow, sw, minWords, |ow|);
    DedupCovers(ps);
    var k :| 0 <= k < |ps| && ps[k] == p;
  }

  // ------------------------------------------- phrases of single-spaced text

  /** Every word followed by one space: `' '.join(ws) + ' '` for a non-empty `ws`. */
  function Spaced(ws: seq<string>): string
    decreases |ws|
  {
    if ws == [] then "" else ws[0] + " " + Spaced(ws[1..])
  }

  lemma {:induction false} SpacedAppend(a: seq<string>, b: seq<string>)
    ensures Spaced(a + b) == Spaced(a) + Spaced(b)
    decreases |a|
  {
    if a == [] {
      assert a + b == b;
    } else {
      assert (a + b)[1..] == a[1..] + b;
      SpacedAppend(a[1..], b);
    }
  }

  lemma {:induction false} SpacedJoin(ws: seq<string>)
    requires ws != []
    ensures Spaced(ws) == JoinSpaced(ws) + " "
    decreases |ws|
  {
    if |ws| > 1 {
      SpacedJoin(ws[1..]);
    }
  }

  /** `Offset` is the length of the words before `i`, each with its space. */
  lemma {:induction false} SpacedOffset(ws: seq<string>, i: nat)
    requires i <= |ws|
    ensures |Spaced(ws[..i])| == Offset(ws, i)
    decreases i
  {
    if i > 0 {
      SpacedOffset(ws, i - 1);
      assert ws[..i] == ws[..i - 1] + [ws[i - 1]];
      SpacedAppend(ws[..i - 1], [ws[i - 1]]);
    }
  }

  /** The offsets of the lower-cased words are those of the words. */
  lemma {:induction false} OffsetLower(ws: seq<string>, i: nat)
    requires i <= |ws|
    ensures Offset(LowerAll(ws), i) == Offset(ws, i)
    decreases i
  {
    if i > 0 {
      OffsetLower(ws, i - 1);
    }
  }

  /** The words from `i` to `i + n - 1`, each with its space, sit in the
      spaced text between the offsets of word `i` and word `i + n`. */
  lemma SpacedSlice(ws: seq<string>, i: nat, n: nat)
    requires i + n <= |ws|
    ensures Offset(ws, i) <= Offset(ws, i + n) <= |Spaced(ws)|
    ensures Spaced(ws)[Offset(ws, i)..Offset(ws, i + n)] == Spaced(ws[i..i + n])
    ensures i + n < |ws| ==> Offset(ws, i + n) < |Spaced(ws)|
    ensures i + n == |ws| ==> Offset(ws, i + n) == |Spaced(ws)|
  {
    var pre, mid, post := ws[..i], ws[i..i + n], ws[i + n..];
    assert ws == (pre + mid) + post;
    assert ws[..i + n] == pre + mid;
    SpacedAppend(pre + mid, post);
    SpacedAppend(pre, mid);
    SpacedOffset(ws, i);
    SpacedOffset(ws, i + n);
    if i + n < |ws| {
      assert post == [ws[i + n]] + post[1..];
    }
  }

  /** The cut for `n` single-spaced words from word `i`, before stripping:
      the words with their separating spaces, plus the space after the last
      one unless it ends the text. */
  lemma SpacedCut(ws: seq<string>, i: nat, n: nat)
    requires i + n <= |ws| && n > 0
    ensures Slice(JoinSpaced(ws), Offset(ws, i), Offset(ws, i + n))
         == JoinSpaced(ws[i..i + n]) + (if i + n < |ws| then " " else "")
  {
    var text := JoinSpaced(ws);
    var a, b := Offset(ws, i), Offset(ws, i + n);
    var j := JoinSpaced(ws[i..i + n]);
    SpacedJoin(ws);
    SpacedSlice(ws, i, n);
    SpacedJoin(ws[i..i + n]);
    PaddedSlice(text, a, b, j);
  }

  /** A piece of `text + " "` that ends in the padding space, cut from `text` itself. */
  lemma PaddedSlice(text: string, a: nat, b: nat, piece: string)
    requires a <= b <= |text| + 1 && (text + " ")[a..b] == piece + " "
    ensures Slice(text, a, b) == piece + (if b <= |text| then " " else "")
  {
    if b <= |text| {
      assert (text + " ")[a..b] == text[a..b];
    } else {
      assert (text + " ")[a..] == (text + " ")[a..b];
      DropSpace(text, a, piece);
    }
  }

  lemma DropSpace(text: string, a: nat, j: string)
    requires a <= |text| && (text + " ")[a..] == j + " "
    ensures text[a..] == j
  {
    assert text[a..] == (text + " ")[a..][..|text| - a];
    assert (j + " ")[..|j|] == j;
  }

  /** Cutting by the lower-cased words' offsets is cutting by the words' offsets. */
  lemma PhraseLowered(text: string, ws: seq<string>, i: nat, n: nat)
    requires i + n <= |ws|
    ensures Phrase(text, LowerAll(ws), i, n) == Strip(Slice(text, Offset(ws, i), Offset(ws, i + n)))
  {
    OffsetLower(ws, i);
    OffsetLower(ws, i + n);
    PhraseCut(text, LowerAll(ws), i, n, Offset(ws, i), Offset(ws, i + n));
  }

  lemma StrippedCut(ws: seq<string>, i: nat, n: nat)
    requires forall k :: 0 <= k < |ws| ==> IsWord(ws[k])
    requires i + n <= |ws|
    ensures Strip(Slice(JoinSpaced(ws), Offset(ws, i), Offset(ws, i + n))) == JoinSpaced(ws[i..i + n])
  {
    var mid := ws[i..i + n];
    if n == 0 {
      assert Slice(JoinSpaced(ws), Offset(ws, i), Offset(ws, i + n)) == [];
    } else {
      SpacedCut(ws, i, n);
      JoinSpacedEnds(mid);
      if i + n < |ws| {
        StripSpaceAfter(JoinSpaced(mid));
      } else {
        assert JoinSpaced(mid) + "" == JoinSpaced(mid);
        StripClean(JoinSpaced(mid));
      }
    }
  }

  /** For words joined by single spaces, the phrase cut for `n` words from
      word `i` is those words joined by single spaces. */
  lemma SingleSpacedPhrase(ws: seq<string>, i: nat, n: nat)
    requires forall k :: 0 <= k < |ws| ==> IsWord(ws[k])
    requires i + n <= |ws|
    ensures Phrase(JoinSpaced(ws), LowerAll(ws), i, n) == JoinSpaced(ws[i..i + n])
  {
    StrippedCut(ws, i, n);
    PhraseLowered(JoinSpaced(ws), ws, i, n);
  }

  /** When the original is words joined by single spaces, every returned phrase
      is a run of at least `minWords` of those words, joined by single spaces,
      whose lower-cased form occurs in the source's words. */
  lemma SingleSpacedSegments(ws: seq<string>, sourceText: string, minWords: int, p: string)
    returns (i: nat, j: nat, n: nat)
    requires forall k :: 0 <= k < |ws| ==> IsWord(ws[k])
    requires p in Segments(JoinSpaced(ws), sourceText, minWords)
    ensures n >= minWords && i + n <= |ws|
    ensures p == JoinSpaced(ws[i..i + n])
    ensures var sw := LowerWords(sourceText); j + n <= |sw| && LowerAll(ws[i..i + n]) == sw[j..j + n]
  {
    var text := JoinSpaced(ws);
    var ow, sw := LowerWords(text), LowerWords(sourceText);
    SingleSpacedWords(ws);
    i, j, n := KeptSource(text, ow, sw, minWords, p);
    assert ow == LowerAll(ws);
    assert p == JoinSpaced(ws[i..i + n]) by {
      assert p == Phrase(text, LowerAll(ws), i, n);
      SingleSpacedPhrase(ws, i, n);
    }
    assert LowerAll(ws[i..i + n]) == sw[j..j + n] by {
      assert ow[i..i + n] == sw[j..j + n];
      LowerAllSlice(ws, i, i + n);
    }
  }

  /** The words `find_matching_segments` compares for single-spaced words
      are those words lower-cased. */
  lemma SingleSpacedWords(ws: seq<string>)
    requires forall k :: 0 <= k < |ws| ==> IsWord(ws[k])
    ensures LowerWords(JoinSpaced(ws)) == LowerAll(ws)
  {
    var text := JoinSpaced(ws);
    PySplitLower(text);
    assert JoinSpaced(ws) + [] == text;
    PySplitJoin(ws, []);
  }

  // --------------------------------------------------- highlight_matching_text

  /** An entry of `replaced_positions`: the `(start, end)` of a wrapped
      occurrence in the original text. */
  datatype Span = Span(start: nat, end: nat)

  const MarkOpen: string := "<mark class=\"google-match\">"
  const MarkClose: string := "</mark>"

  /** `f'<mark class="google-match">{actual_text}</mark>'`. */
  function Wrap(s: string): (r: string)
    ensures |r| == |s| + |MarkOpen| + |MarkClose|
  {
    MarkOpen + s + MarkClose
  }

  /** `pat` occurs at position `p` of `s`, exactly or ignoring case. */
  predicate OccursAt(s: string, pat: string, p: nat, ignoreCase: bool) {
    p + |pat| <= |s|
    && if ignoreCase then Lower(s[p..p + |pat|]) == Lower(pat) else s[p..p + |pat|] == pat
  }

  /** The leftmost occurrence of `pat` at or after `from`: `str.find` when
      `ignoreCase` is false, the next match of `re.escape(pat)` under
      `re.IGNORECASE` when it is true (see `FindMeaning`). */
  function Find(s: string, pat: string, from: nat, ignoreCase: bool): (r: Option<nat>)
    ensures r.Some? ==> from <= r.value && r.value + |pat| <= |s|
    decreases |s| + 1 - from
  {
    if from + |pat| > |s| then None
    else if OccursAt(s, pat, from, ignoreCase) then Some(from)
    else Find(s, pat, from + 1, ignoreCase)
  }

  /** `Find` returns an occurrence, and no occurrence starts between `from` and it. */
  lemma {:induction false} FindMeaning(s: string, pat: string, from: nat, ignoreCase: bool)
    ensures var r := Find(s, pat, from, ignoreCase);
      r.Some? ==> OccursAt(s, pat, r.value, ignoreCase)
    ensures var r := Find(s, pat, from, ignoreCase);
      forall q: nat :: from <= q && (r.None? || q < r.value) ==> !OccursAt(s, pat, q, ignoreCase)
    decreases |s| + 1 - from
  {
    if from + |pat| <= |s| && !OccursAt(s, pat, from, ignoreCase) {
      FindMeaning(s, pat, from + 1, ignoreCase);
    }
  }

  /** A position `Find` reports holds an occurrence. */
  lemma {:induction false} FindFound(s: string, pat: string, from: nat, ignoreCase: bool, r: nat)
    requires Find(s, pat, from, ignoreCase) == Some(r)
    ensures OccursAt(s, pat, r, ignoreCase)
    decreases |s| + 1 - from
  {
    if r != from {
      FindFound(s, pat, from + 1, ignoreCase, r);
    }
  }

  /** `any(start < r_end and end > r_start for r_start, r_end in replaced_positions)`. */
  predicate Overlaps(start: nat, end: nat, spans: seq<Span>)
    decreases |spans|
  {
    spans != [] && ((start < spans[0].end && end > spans[0].start) || Overlaps(start, end, spans[1..]))
  }

  /** A span that `any` found no overlap with lies wholly before or after `[start, end)`. */
  lemma {:induction false} NoOverlapAt(start: nat, end: nat, spans: seq<Span>, k: nat)
    requires !Overlaps(start, end, spans) && k < |spans|
    ensures spans[k].end <= start || end <= spans[k].start
    decreases k
  {
    if k > 0 {
      NoOverlapAt(start, end, spans[1..], k - 1);
    }
  }

  /** `any` holds exactly when some recorded span meets `[start, end)`. */
  lemma {:induction false} OverlapsMeaning(start: nat, end: nat, spans: seq<Span>)
    ensures Overlaps(start, end, spans) <==> exists k :: 0 <= k < |spans| && start < spans[k].end && end > spans[k].start
    decreases |spans|
  {
    if spans != [] {
      var tail := spans[1..];
      OverlapsMeaning(start, end, tail);
      if Overlaps(start, end, tail) {
        var k :| 0 <= k < |tail| && start < tail[k].end && end > tail[k].start;
        assert spans[k + 1] == tail[k];
      }
      if exists k :: 0 <= k < |spans| && start < spans[k].end && end > spans[k].start {
        var k :| 0 <= k < |spans| && start < spans[k].end && end > spans[k].start;
        if k > 0 {
          assert tail[k - 1] == spans[k];
        }
      }
    }
  }

  /** The first match `finditer` yields from `from` on that overlaps no
      recorded span; matches are searched left to right, each search
      resuming where the previous match ended (see `FirstFreeFound`). */
  function FirstFree(text: string, pat: string, from: nat, spans: seq<Span>): (r: Option<nat>)
    requires pat != []
    ensures r.Some? ==> from <= r.value && r.value + |pat| <= |text|
    decreases |text| + 1 - from
  {
    match Find(text, pat, from, true)
    case None => None
    case Some(p) =>
      if Overlaps(p, p + |pat|, spans) then FirstFree(text, pat, p + |pat|, spans) else Some(p)
  }

  /** What `FirstFree` returns is an occurrence, ignoring case, that overlaps no recorded span. */
  lemma {:induction false} FirstFreeFound(text: string, pat: string, from: nat, spans: seq<Span>, r: nat)
    requires pat != [] && FirstFree(text, pat, from, spans) == Some(r)
    ensures OccursAt(text, pat, r, true) && !Overlaps(r, r + |pat|, spans)
    decreases |text| + 1 - from
  {
    var p := Find(text, pat, from, true).value;
    if Overlaps(p, p + |pat|, spans) {
      FirstFreeFound(text, pat, p + |pat|, spans, r);
    } else {
      FindFound(text, pat, from, true, p);
    }
  }

  /** `s.replace(target, replacement, 1)`: the leftmost exact occurrence of `target` is
      replaced; without one, `s` is returned as it is. */
  function ReplaceFirst(s: string, target: string, replacement: string): string {
    match Find(s, target, 0, false)
    case None => s
    case Some(k) => s[..k] + replacement + s[k + |target|..]
  }

  /** `replace(..., 1)` either finds no exact occurrence and changes nothing,
      or swaps the leftmost one for the replacement and nothing else. */
  lemma ReplaceFirstMeaning(s: string, target: string, replacement: string)
    ensures var r := ReplaceFirst(s, target, replacement);
      || ((forall q: nat :: !OccursAt(s, target, q, false)) && r == s)
      || exists k: nat :: OccursAt(s, target, k, false)
                       && (forall q: nat :: q < k ==> !OccursAt(s, target, q, false))
                       && r == s[..k] + replacement + s[k + |target|..]
  {
    FindMeaning(s, target, 0, false);
  }

  /** `replace(..., 1)` grows the string by at most one replacement's worth. */
  lemma ReplaceFirstLength(s: string, target: string, replacement: string)
    ensures var r := ReplaceFirst(s, target, replacement);
      r == s || |r| == |s| - |target| + |replacement|
  {
  }

  /** `highlighted` and `replaced_positions` between two matches. */
  datatype State = State(highlighted: string, replacedPositions: seq<Span>)

  /** One turn of the loop over the sorted matches: skip a match that is
      empty or shorter than 3 once stripped; otherwise wrap the text of its
      first free occurrence where `replace` finds it and record the span. */
  function Step(text: string, st: State, phrase: string): State {
    if phrase == [] || |Strip(phrase)| < 3 then st else Place(text, st, phrase)
  }

  /** The `finditer` loop for a match that is not skipped: wrap the text of its
      first free occurrence where `replace` finds it and record the span. */
  function Place(text: string, st: State, phrase: string): State
    requires phrase != []
  {
    match FirstFree(text, phrase, 0, st.replacedPositions)
    case None => st
    case Some(start) =>
      var actual := text[start..start + |phrase|];
      State(ReplaceFirst(st.highlighted, actual, Wrap(actual)),
            st.replacedPositions + [Span(start, start + |phrase|)])
  }

  /** The state after the matches `ms`, in order. */
  function Run(text: string, ms: seq<string>): State
    decreases |ms|
  {
    if ms == [] then State(text, []) else Step(text, Run(text, ms[..|ms| - 1]), ms[|ms| - 1])
  }

  predicate NonIncreasingLength(ms: seq<string>) {
    forall a, b :: 0 <= a < b < |ms| ==> |ms[a]| >= |ms[b]|
  }

  /** Places `x` after every element at least as long, before the first shorter one. */
  function InsertByLength(sorted: seq<string>, x: string): seq<string>
    decreases |sorted|
  {
    if sorted == [] then [x]
    else if |sorted[0]| < |x| then [x] + sorted
    else [sorted[0]] + InsertByLength(sorted[1..], x)
  }

  lemma {:induction false} InsertByLengthSorted(sorted: seq<string>, x: string)
    requires NonIncreasingLength(sorted)
    ensures var r := InsertByLength(sorted, x);
      NonIncreasingLength(r) && |r| == |sorted| + 1 && (r[0] == x || r[0] == sorted[0])
    decreases |sorted|
  {
    if sorted != [] && |sorted[0]| >= |x| {
      var rest := InsertByLength(sorted[1..], x);
      InsertByLengthSorted(sorted[1..], x);
      var r := [sorted[0]] + rest;
      forall a, b | 0 <= a < b < |r|
        ensures |r[a]| >= |r[b]|
      {
        if a == 0 {
          assert r[b] == rest[b - 1];
          assert |rest[0]| <= |sorted[0]|;
          if b > 1 {
            assert |rest[0]| >= |rest[b - 1]|;
          }
        } else {
          assert r[a] == rest[a - 1] && r[b] == rest[b - 1];
        }
      }
    }
  }

  lemma {:induction false} InsertByLengthMultiset(sorted: seq<string>, x: string)
    ensures multiset(InsertByLength(sorted, x)) == multiset(sorted) + multiset{x}
    decreases |sorted|
  {
    if sorted != [] && |sorted[0]| >= |x| {
      InsertByLengthMultiset(sorted[1..], x);
      assert sorted == [sorted[0]] + sorted[1..];
    }
  }

  /** `sorted(listing, key=len, reverse=True)`: a stable insertion sort. */
  function SortByLength(listing: seq<string>): seq<string>
    decreases |listing|
  {
    if listing == [] then []
    else InsertByLength(SortByLength(listing[..|listing| - 1]), listing[|listing| - 1])
  }

  /** The matches are processed longest first, and they are the listed ones. */
  lemma {:induction false} SortByLengthSorted(listing: seq<string>)
    ensures NonIncreasingLength(SortByLength(listing))
    ensures multiset(SortByLength(listing)) == multiset(listing)
    decreases |listing|
  {
    if listing != [] {
      var init := listing[..|listing| - 1];
      SortByLengthSorted(init);
      InsertByLengthSorted(SortByLength(init), listing[|listing| - 1]);
      InsertByLengthMultiset(SortByLength(init), listing[|listing| - 1]);
      assert listing == init + [listing[|listing| - 1]];
    }
  }

  /** The result of `highlight_matching_text`, where `listing` is the order in
      which `set(matches)` is iterated. */
  function HighlightResult(text: string, matches: seq<string>, listing: seq<string>): string {
    if matches == [] then text else Run(text, SortByLength(listing)).highlighted
  }

  lemma RunSnoc(text: string, ms: seq<string>, q: nat)
    requires q < |ms|
    ensures Run(text, ms[..q + 1]) == Step(text, Run(text, ms[..q]), ms[q])
  {
    assert ms[..q + 1][..q] == ms[..q];
  }

  /** One step of the `finditer` loop, as `FirstFree` takes it. */
  lemma FirstFreeStep(text: string, pat: string, from: nat, spans: seq<Span>, next: Option<nat>)
    requires pat != [] && next == Find(text, pat, from, true)
    ensures next.None? ==> FirstFree(text, pat, from, spans).None?
    ensures next.Some? && !Overlaps(next.value, next.value + |pat|, spans) ==>
      FirstFree(text, pat, from, spans) == next
    ensures next.Some? && Overlaps(next.value, next.value + |pat|, spans) ==>
      FirstFree(text, pat, from, spans) == FirstFree(text, pat, next.value + |pat|, spans)
  {
  }

  /** The `finditer` loop: the first match that overlaps no recorded span. */
  method FirstUnreplaced(text: string, pat: string, spans: seq<Span>) returns (found: Option<nat>)
    requires pat != []
    ensures found == FirstFree(text, pat, 0, spans)
  {
    var from := 0;
    while true
      invariant FirstFree(text, pat, 0, spans) == FirstFree(text, pat, from, spans)
      decreases |text| + 1 - from
    {
      var next := Find(text, pat, from, true);
      if next.None? {
        FirstFreeStep(text, pat, from, spans, next);
        return None;
      }
      var start := next.value;
      var end := start + |pat|;
      var overlap := Overlaps(start, end, spans);
      FirstFreeStep(text, pat, from, spans, next);
      if !overlap {
        return Some(start);
      }
      from := end;
    }
  }

  /** A match `Step` does not skip and whose first free occurrence is at `start`. */
  lemma StepFound(text: string, h: string, spans: seq<Span>, phrase: string, start: nat)
    requires phrase != [] && |Strip(phrase)| >= 3
    requires FirstFree(text, phrase, 0, spans) == Some(start)
    ensures Step(text, State(h, spans), phrase)
         == State(ReplaceFirst(h, text[start..start + |phrase|], Wrap(text[start..start + |phrase|])),
                  spans + [Span(start, start + |phrase|)])
  {
    PlaceFound(text, h, spans, phrase, start);
  }

  /** The same for the search and replace itself. */
  lemma PlaceFound(text: string, h: string, spans: seq<Span>, phrase: string, start: nat)
    requires phrase != [] && FirstFree(text, phrase, 0, spans) == Some(start)
    ensures Place(text, State(h, spans), phrase)
         == State(ReplaceFirst(h, text[start..start + |phrase|], Wrap(text[start..start + |phrase|])),
                  spans + [Span(start, start + |phrase|)])
  {
  }

  method HighlightOne(text: string, highlighted: string, replacedPositions: seq<Span>, phrase: string)
    returns (highlighted': string, replacedPositions': seq<Span>)
    ensures State(highlighted', replacedPositions') == Step(text, State(highlighted, replacedPositions), phrase)
  {
    highlighted', replacedPositions' := highlighted, replacedPositions;
    if phrase == [] || |Strip(phrase)| < 3 {
      return;
    }
    var found := FirstUnreplaced(text, phrase, replacedPositions);
    if found.Some? {
      var start := found.value;
      var actualText := text[start..start + |phrase|];
      highlighted' := ReplaceFirst(highlighted, actualText, Wrap(actualText));
      replacedPositions' := replacedPositions + [Span(start, start + |phrase|)];
      StepFound(text, highlighted, replacedPositions, phrase, start);
    }
  }



  /** `highlight_matching_text`: distinct matches longest first, each
      wrapping its first occurrence that overlaps no earlier one. */
  method HighlightMatchingText(text: string, matches: seq<string>, listing: seq<string>)
    returns (highlighted: string)
    requires forall x :: x in listing <==> x in matches
    requires forall a, b :: 0 <= a < b < |listing| ==> listing[a] != listing[b]
    ensures highlighted == HighlightResult(text, matches, listing)
  {
    if |matches| == 0 {
      return text;
    }
    highlighted := text;
    var sortedMatches := SortByLength(listing);
    var replacedPositions: seq<Span> := [];
    for q := 0 to |sortedMatches|
      invariant State(highlighted, replacedPositions) == Run(text, sortedMatches[..q])
    {
      RunSnoc(text, sortedMatches, q);
      highlighted, replacedPositions := HighlightOne(text, highlighted, replacedPositions, sortedMatches[q]);
    }
    assert sortedMatches[..|sortedMatches|] == sortedMatches;
  }

  // ------------------------------------- what highlight_matching_text promises

  /** The recorded spans are pairwise disjoint. */
  predicate Disjoint(spans: seq<Span>) {
    forall a, b :: 0 <= a < b < |spans| ==> spans[a].end <= spans[b].start || spans[b].end <= spans[a].start
  }

  /** `span` is an occurrence of `phrase` in `text`, ignoring case, and
      `phrase` is long enough to be highlighted. */
  predicate SpanFor(text: string, span: Span, phrase: string) {
    span.start + |phrase| == span.end <= |text|
    && Lower(text[span.start..span.end]) == Lower(phrase)
    && |Strip(phrase)| >= 3
  }

  /** One match changes nothing, or records one span and wraps at most one
      piece of the output. */
  lemma StepAtMostOne(text: string, st: State, phrase: string)
    ensures var r := Step(text, st, phrase);
      || r == st
      || (&& |r.replacedPositions| == |st.replacedPositions| + 1
          && r.replacedPositions[..|st.replacedPositions|] == st.replacedPositions
          && (r.highlighted == st.highlighted
              || |r.highlighted| == |st.highlighted| + |MarkOpen| + |MarkClose|))
  {
    var r := Step(text, st, phrase);
    if r != st {
      var start := FirstFree(text, phrase, 0, st.replacedPositions).value;
      var actual := text[start..start + |phrase|];
      ReplaceFirstLength(st.highlighted, actual, Wrap(actual));
      assert r.replacedPositions[..|st.replacedPositions|] == st.replacedPositions;
    }
  }

  /** A match that changes the state records one span, an occurrence of it. */
  lemma StepSpan(text: string, st: State, phrase: string)
    requires Step(text, st, phrase) != st
    ensures var spans := Step(text, st, phrase).replacedPositions;
      spans != [] && spans == st.replacedPositions + [spans[|spans| - 1]]
      && SpanFor(text, spans[|spans| - 1], phrase)
  {
    var r := FirstFree(text, phrase, 0, st.replacedPositions).value;
    FirstFreeFound(text, phrase, 0, st.replacedPositions, r);
  }

  predicate Increasing(xs: seq<int>) {
    forall q1, q2 :: 0 <= q1 < q2 < |xs| ==> xs[q1] < xs[q2]
  }

  lemma IncreasingSnoc(xs: seq<int>, x: int)
    requires Increasing(xs) && forall q :: 0 <= q < |xs| ==> xs[q] < x
    ensures Increasing(xs + [x])
  {
    var ys := xs + [x];
    forall q1, q2 | 0 <= q1 < q2 < |ys|
      ensures ys[q1] < ys[q2]
    {
      assert ys[q1] == xs[q1];
    }
  }

  /** Every recorded span is an occurrence of one of the matches, later spans
      coming from later matches: at most one span per match. */
  /** `src[q]` is the position in `ms` of the phrase that produced span `q`. */
  ghost predicate Sourced(text: string, ms: seq<string>, spans: seq<Span>, src: seq<int>) {
    && |src| == |spans|
    && forall q :: 0 <= q < |src| ==> 0 <= src[q] < |ms| && SpanFor(text, spans[q], ms[src[q]])
  }

  lemma SourcedSnoc(text: string, ms: seq<string>, last: string, spans: seq<Span>, src: seq<int>)
    requires Sourced(text, ms, spans, src)
    ensures Sourced(text, ms + [last], spans, src)
  {
    var ms' := ms + [last];
    forall q | 0 <= q < |src|
      ensures 0 <= src[q] < |ms'| && SpanFor(text, spans[q], ms'[src[q]])
    {
      assert ms'[src[q]] == ms[src[q]];
    }
  }

  lemma SourcedAdd(text: string, ms: seq<string>, last: string, spans: seq<Span>, src: seq<int>, span: Span)
    requires Sourced(text, ms, spans, src) && SpanFor(text, span, last)
    ensures Sourced(text, ms + [last], spans + [span], src + [|ms|])
  {
    var ms', spans', src' := ms + [last], spans + [span], src + [|ms|];
    forall q | 0 <= q < |src'|
      ensures 0 <= src'[q] < |ms'| && SpanFor(text, spans'[q], ms'[src'[q]])
    {
      if q < |src| {
        assert spans'[q] == spans[q] && src'[q] == src[q] && ms'[src[q]] == ms[src[q]];
      }
    }
  }

  lemma {:induction false} RunSources(text: string, ms: seq<string>) returns (src: seq<int>)
    ensures var spans := Run(text, ms).replacedPositions;
      && |src| == |spans|
      && (forall q :: 0 <= q < |src| ==> 0 <= src[q] < |ms| && SpanFor(text, spans[q], ms[src[q]]))
      && Increasing(src)
    decreases |ms|
  {
    if ms == [] {
      src := [];
    } else {
      var init, last := ms[..|ms| - 1], ms[|ms| - 1];
      assert ms == init + [last];
      var st := Run(text, init);
      var before := RunSources(text, init);
      assert Sourced(text, init, st.replacedPositions, before);
      var next := Step(text, st, last);
      assert Run(text, ms) == next;
      if next == st {
        src := before;
        SourcedSnoc(text, init, last, st.replacedPositions, before);
      } else {
        src := before + [|init|];
        var spans := next.replacedPositions;
        StepSpan(text, st, last);
        SourcedAdd(text, init, last, st.replacedPositions, before, spans[|spans| - 1]);
        IncreasingSnoc(before, |init|);
      }
      assert Sourced(text, ms, Run(text, ms).replacedPositions, src);
    }
  }


  /** One match keeps the recorded spans pairwise disjoint: the span it adds
      was chosen to overlap none of them. */
  lemma StepDisjoint(text: string, st: State, phrase: string)
    requires Disjoint(st.replacedPositions)
    ensures Disjoint(Step(text, st, phrase).replacedPositions)
  {
    if Step(text, st, phrase) != st {
      var prior := st.replacedPositions;
      var start := FirstFree(text, phrase, 0, prior).value;
      FirstFreeFound(text, phrase, 0, prior, start);
      var added := Span(start, start + |phrase|);
      var spans := prior + [added];
      assert Step(text, st, phrase).replacedPositions == spans;
      forall a, b | 0 <= a < b < |spans|
        ensures spans[a].end <= spans[b].start || spans[b].end <= spans[a].start
      {
        assert spans[a] == prior[a];
        if b == |prior| {
          NoOverlapAt(start, start + |phrase|, prior, a);
        } else {
          assert spans[b] == prior[b];
        }
      }
    }
  }

  /** The recorded spans never overlap. */
  lemma {:induction false} RunDisjoint(text: string, ms: seq<string>)
    ensures Disjoint(Run(text, ms).replacedPositions)
    decreases |ms|
  {
    if ms != [] {
      RunDisjoint(text, ms[..|ms| - 1]);
      StepDisjoint(text, Run(text, ms[..|ms| - 1]), ms[|ms| - 1]);
    }
  }

  /** The output is the input plus `c` whole wrappers, `c` being at most the
      number of recorded spans. */
  lemma {:induction false} RunGrowth(text: string, ms: seq<string>) returns (c: nat)
    ensures c <= |Run(text, ms).replacedPositions|
    ensures |Run(text, ms).highlighted| == |text| + c * (|MarkOpen| + |MarkClose|)
    decreases |ms|
  {
    if ms == [] {
      c := 0;
    } else {
      var init := ms[..|ms| - 1];
      var st := Run(text, init);
      c := RunGrowth(text, init);
      StepAtMostOne(text, st, ms[|ms| - 1]);
      var r := Run(text, ms);
      if r != st && r.highlighted != st.highlighted {
        c := c + 1;
      }
    }
  }

  lemma {:induction false} RunShort(text: string, ms: seq<string>)
    requires forall k :: 0 <= k < |ms| ==> ms[k] == [] || |Strip(ms[k])| < 3
    ensures Run(text, ms) == State(text, [])
    decreases |ms|
  {
    if ms != [] {
      RunShort(text, ms[..|ms| - 1]);
    }
  }

  /** With no matches, or only matches shorter than 3 once stripped, the text
      comes back unchanged. */
  lemma ShortMatchesUnchanged(text: string, matches: seq<string>, listing: seq<string>)
    requires forall x :: x in listing <==> x in matches
    requires forall m :: m in matches ==> m == [] || |Strip(m)| < 3
    ensures HighlightResult(text, matches, listing) == text
  {
    if matches != [] {
      var sorted := SortByLength(listing);
      SortByLengthSorted(listing);
      forall k | 0 <= k < |sorted|
        ensures sorted[k] == [] || |Strip(sorted[k])| < 3
      {
        assert sorted[k] in multiset(listing);
      }
      RunShort(text, sorted);
    }
  }

  predicate NoDup(ms: seq<string>) {
    forall a, b :: 0 <= a < b < |ms| ==> ms[a] != ms[b]
  }

  /** A list with a head is free of duplicates exactly when its tail is and
      the head does not occur in the tail. */
  lemma NoDupCons(y: string, rest: seq<string>)
    ensures NoDup([y] + rest) <==> NoDup(rest) && y !in rest
  {
    var r := [y] + rest;
    if NoDup(r) {
      forall a, b | 0 <= a < b < |rest|
        ensures rest[a] != rest[b]
      {
        assert rest[a] == r[a + 1] && rest[b] == r[b + 1];
      }
      forall k | 0 <= k < |rest|
        ensures rest[k] != y
      {
        assert r[0] != r[k + 1];
        assert r[k + 1] == rest[k];
      }
    }
    if NoDup(rest) && y !in rest {
      forall a, b | 0 <= a < b < |r|
        ensures r[a] != r[b]
      {
        assert r[b] == rest[b - 1];
        if a > 0 {
          assert r[a] == rest[a - 1];
        }
      }
    }
  }

  lemma {:induction false} InsertByLengthNoDup(sorted: seq<string>, x: string)
    requires NoDup(sorted) && x !in sorted
    ensures NoDup(InsertByLength(sorted, x))
    decreases |sorted|
  {
    if sorted == [] {
    } else if |sorted[0]| < |x| {
      NoDupCons(x, sorted);
    } else {
      var rest := InsertByLength(sorted[1..], x);
      assert sorted == [sorted[0]] + sorted[1..];
      NoDupCons(sorted[0], sorted[1..]);
      InsertByLengthNoDup(sorted[1..], x);
      InsertByLengthMultiset(sorted[1..], x);
      assert sorted[0] != x;
      assert sorted[0] !in multiset(rest);
      NoDupCons(sorted[0], rest);
    }
  }


  lemma {:induction false} SortByLengthNoDup(listing: seq<string>)
    requires NoDup(listing)
    ensures NoDup(SortByLength(listing))
    decreases |listing|
  {
    if listing != [] {
      var init, last := listing[..|listing| - 1], listing[|listing| - 1];
      SortByLengthNoDup(init);
      SortByLengthSorted(init);
      assert last !in multiset(init);
      InsertByLengthNoDup(SortByLength(init), last);
    }
  }

  /** Over the distinct matches, sorted longest first: the recorded spans are
      disjoint occurrences of pairwise different matches, one span per match
      at most. */
  lemma OneSpanPerMatch(text: string, matches: seq<string>, listing: seq<string>) returns (src: seq<int>)
    requires forall x :: x in listing <==> x in matches
    requires NoDup(listing)
    ensures var sorted := SortByLength(listing);
      var spans := Run(text, sorted).replacedPositions;
      && Disjoint(spans)
      && |src| == |spans|
      && (forall q :: 0 <= q < |src| ==>
            0 <= src[q] < |sorted| && sorted[src[q]] in matches && SpanFor(text, spans[q], sorted[src[q]]))
      && (forall q1, q2 :: 0 <= q1 < q2 < |src| ==> sorted[src[q1]] != sorted[src[q2]])
  {
    var sorted := SortByLength(listing);
    RunDisjoint(text, sorted);
    src := RunSources(text, sorted);
    SortByLengthSorted(listing);
    SortByLengthNoDup(listing);
    forall q | 0 <= q < |src|
      ensures sorted[src[q]] in matches
    {
      assert sorted[src[q]] in multiset(listing);
    }
  }

  /** `replace` looks for the first exact occurrence in the output built so
      far, not at the recorded span: once a wrapper is in place, a later
      match `class` rewrites the word `class` inside that wrapper's opening tag. */
  lemma ReplaceHitsOpeningTag(rest: string)
    ensures ReplaceFirst(MarkOpen + rest, "class", Wrap("class"))
         == "<mark " + Wrap("class") + "=\"google-match\">" + rest
  {
    var tail := "=\"google-match\">" + rest;
    var s := MarkOpen + rest;
    assert s == "<mark " + "class" + tail;
    FindAfter("<mark ", "class", tail, false);
    assert s[..6] == "<mark " && s[11..] == tail;
  }

  /** The search for `pat`, exact or ignoring case, finds it right after a
      prefix in which its first character does not occur, in either case. */
  lemma FindAfter(head: string, pat: string, tail: string, ignoreCase: bool)
    requires pat != [] && forall k :: 0 <= k < |head| ==> LowerChar(head[k]) != LowerChar(pat[0])
    ensures Find(head + pat + tail, pat, 0, ignoreCase) == Some(|head|)
  {
    var s := head + pat + tail;
    forall q: nat | q < |head|
      ensures !OccursAt(s, pat, q, ignoreCase)
    {
      if q + |pat| <= |s| {
        var piece := s[q..q + |pat|];
        assert piece[0] == s[q] == head[q];
        assert Lower(piece)[0] == LowerChar(piece[0]) && Lower(pat)[0] == LowerChar(pat[0]);
      }
    }
    assert OccursAt(s, pat, |head|, ignoreCase) by { assert s[|head|..|head| + |pat|] == pat; }
    FindMeaning(s, pat, 0, ignoreCase);
  }

  /** Highlighting "the big dog class" with the matches "the big dog" and
      "class", longest first: the first wraps "the big dog", and the second,
      found in the text at 12, rewrites the word `class` in the first
      wrapper's opening tag, so the output's markup is broken and the word
      "class" of the text stays unwrapped. */
  lemma ClassMatchBreaksMarkup()
    ensures HighlightResult("the big dog class", ["the big dog", "class"], ["the big dog", "class"])
         == "<mark " + Wrap("class") + "=\"google-match\">" + ("the big dog" + MarkClose + " class")
  {
    var text, m1, m2 := "the big dog class", "the big dog", "class";
    LongerFirst(m1, m2);
    var st1 := FirstWrap(text, m1);
    var ms := [m1, m2];
    assert ms[..1] == [m1];
    assert Run(text, ms) == Step(text, st1, m2);
    SecondWrap(text, st1, m2);
  }

  /** Two matches listed longest first keep their order. */
  lemma LongerFirst(m1: string, m2: string)
    requires |m1| >= |m2|
    ensures SortByLength([m1, m2]) == [m1, m2]
  {
    assert [m1][..0] == [] && [m1, m2][..1] == [m1] && [m1][1..] == [];
    assert SortByLength([m1]) == InsertByLength([], m1) == [m1];
    assert InsertByLength([m1], m2) == [m1] + InsertByLength([], m2);
  }

  /** The first step of `ClassMatchBreaksMarkup`. */
  lemma FirstWrap(text: string, m1: string) returns (st1: State)
    requires text == "the big dog class" && m1 == "the big dog"
    ensures Run(text, [m1]) == st1
    ensures st1 == State(Wrap(m1) + " class", [Span(0, 11)])
  {
    var tail := " class";
    assert text == m1 + tail;
    StripClean(m1);
    WrapAtFront(m1, tail);
    st1 := State(Wrap(m1) + tail, [Span(0, 11)]);
    assert [m1][..0] == [];
  }

  /** A match the text starts with, while nothing is recorded yet, is
      wrapped where it stands. */
  lemma WrapAtFront(pat: string, tail: string)
    requires pat != [] && |Strip(pat)| >= 3
    ensures Step(pat + tail, State(pat + tail, []), pat)
         == State(Wrap(pat) + tail, [Span(0, |pat|)])
  {
    var text := pat + tail;
    FreeAtFront(pat, tail);
    assert text[0..|pat|] == pat;
    ReplaceAtFront(pat, tail, Wrap(pat));
    StepFound(text, text, [], pat, 0);
  }

  /** ... because the search from 0 finds it at 0 and nothing is recorded ... */
  lemma FreeAtFront(pat: string, tail: string)
    requires pat != []
    ensures FirstFree(pat + tail, pat, 0, []) == Some(0)
  {
    FindAfter([], pat, tail, true);
    assert [] + pat + tail == pat + tail;
  }

  /** ... and `replace` finds it at 0 too. */
  lemma ReplaceAtFront(pat: string, tail: string, replacement: string)
    requires pat != []
    ensures ReplaceFirst(pat + tail, pat, replacement) == replacement + tail
  {
    FindAfter([], pat, tail, false);
    assert [] + pat + tail == pat + tail;
    assert (pat + tail)[..0] == [] && (pat + tail)[|pat|..] == tail;
  }

  /** The second match's first free occurrence is the word at 12. */
  lemma SecondFree(text: string, m2: string)
    requires text == "the big dog class" && m2 == "class"
    ensures FirstFree(text, m2, 0, [Span(0, 11)]) == Some(12)
    ensures text[12..17] == m2
  {
    FindAfter("the big dog ", m2, [], true);
    assert "the big dog " + m2 + [] == text;
    assert !Overlaps(12, 17, [Span(0, 11)]);
  }

  /** The second step of `ClassMatchBreaksMarkup`. */
  lemma SecondWrap(text: string, st1: State, m2: string)
    requires text == "the big dog class" && m2 == "class"
    requires st1 == State(Wrap("the big dog") + " class", [Span(0, 11)])
    ensures Step(text, st1, m2).highlighted
         == "<mark " + Wrap("class") + "=\"google-match\">" + ("the big dog" + MarkClose + " class")
  {
    SecondFree(text, m2);
    StripClean(m2);
    WrapAppend("the big dog", " class");
    WrapAgainInTag(text, st1.replacedPositions, m2, "the big dog" + MarkClose + " class", 12);
  }

  /** The wrapped text followed by more text, regrouped after the opening tag. */
  lemma WrapAppend(x: string, tail: string)
    ensures Wrap(x) + tail == MarkOpen + (x + MarkClose + tail)
  {
  }

  /** A later match `class` whose free occurrence is found in the text goes
      into the first wrapper's opening tag. */
  lemma WrapAgainInTag(text: string, spans: seq<Span>, m: string, rest: string, start: nat)
    requires m == "class" && |Strip(m)| >= 3
    requires FirstFree(text, m, 0, spans) == Some(start) && text[start..start + 5] == m
    ensures Step(text, State(MarkOpen + rest, spans), m).highlighted
         == "<mark " + Wrap("class") + "=\"google-match\">" + rest
  {
    StepFound(text, MarkOpen + rest, spans, m, start);
    ReplaceHitsOpeningTag(rest);
  }
}
