/** The user dashboard's copy of the engine: `findSimilarSequences` with its
    fixed threshold of 3, `highlightText` producing an HTML string, and the
    colour chosen for a similarity score. */
module UserDashboard {
  import opened Text
  import opened Runs
  import opened Highlight

  /** `minMatchLength`: the shortest run that is marked. */
  const MinMatchLength := 3

  /** Both texts are lower-cased and split on whitespace runs, and the double
      scan marks the indices of every shared run of at least three tokens. */
  method FindSimilarSequences(text1: string, text2: string) returns (matches1: set<int>, matches2: set<int>)
    ensures matches1 == MarkedSet(Tokens(text1), Tokens(text2), MinMatchLength, true)
    ensures matches2 == MarkedSet(Tokens(text1), Tokens(text2), MinMatchLength, false)
  {
    var words1 := Tokens(text1);
    var words2 := Tokens(text2);
    matches1, matches2 := MatchIndices(words1, words2, MinMatchLength);
    forall x
      ensures x in matches1 <==> x in MarkedSet(words1, words2, MinMatchLength, true)
      ensures x in matches2 <==> x in MarkedSet(words1, words2, MinMatchLength, false)
    {
      MarkedSetIff(words1, words2, MinMatchLength, true, x);
      MarkedSetIff(words1, words2, MinMatchLength, false, x);
    }
  }

  /** "hello world" and "goodbye world" share only one word: nothing is marked. */
  lemma HelloGoodbyeMarksNothing(x: int)
    ensures x !in MarkedSet(Tokens("hello world"), Tokens("goodbye world"), MinMatchLength, true)
    ensures x !in MarkedSet(Tokens("hello world"), Tokens("goodbye world"), MinMatchLength, false)
  {
    assert "hello world" == JoinSpaced(["hello", "world"]);
    TokensJoin(["hello", "world"]);
    MarkedSetIff(Tokens("hello world"), Tokens("goodbye world"), MinMatchLength, true, x);
    MarkedSetIff(Tokens("hello world"), Tokens("goodbye world"), MinMatchLength, false, x);
  }

  /** The decimal digits of `n`, as a template literal prints a number. */
  function Decimal(n: nat): (r: string)
    ensures r != [] && forall k :: 0 <= k < |r| ==> '0' <= r[k] <= '9'
    decreases n
  {
    var digit := [(48 + n % 10) as char];
    if n < 10 then digit else Decimal(n / 10) + digit
  }

  /** The number a string of decimal digits spells, most significant digit first. */
  function DigitsValue(s: string): nat
    requires forall k :: 0 <= k < |s| ==> '0' <= s[k] <= '9'
  {
    if s == [] then 0 else 10 * DigitsValue(s[..|s| - 1]) + (s[|s| - 1] as int - 48)
  }

  /** The key printed in the tag spells the chunk index, without leading zeros. */
  lemma {:induction false} DecimalValue(n: nat)
    ensures DigitsValue(Decimal(n)) == n
    ensures Decimal(n)[0] != '0' || n == 0
    decreases n
  {
    if n >= 10 {
      DecimalValue(n / 10);
      var r := Decimal(n);
      assert r[..|r| - 1] == Decimal(n / 10);
    }
  }

  /** The opening tag `<mark key="…" class="highlight-match">` without its angle brackets. */
  function OpenTagBody(index: nat): string {
    "mark key=\"" + Decimal(index) + "\" class=\"highlight-match\""
  }

  function OpenTag(index: nat): string {
    "<" + OpenTagBody(index) + ">"
  }

  const CloseTag: string := "</mark>"

  /** What chunk `k` becomes: wrapped in a mark keyed by its chunk index, or unchanged. */
  function Render(cs: seq<string>, m: set<int>, k: nat): string
    requires k < |cs|
  {
    if IsMarked(cs, m, k) then OpenTag(k) + cs[k] + CloseTag else cs[k]
  }

  /** The joined renderings of chunks `lo` to `hi - 1`. */
  function Markup(cs: seq<string>, m: set<int>, lo: nat, hi: nat): string
    requires lo <= hi <= |cs|
    decreases hi - lo
  {
    if lo == hi then "" else Render(cs, m, lo) + Markup(cs, m, lo + 1, hi)
  }

  lemma {:induction false} MarkupSnoc(cs: seq<string>, m: set<int>, lo: nat, hi: nat)
    requires lo <= hi < |cs|
    ensures Markup(cs, m, lo, hi + 1) == Markup(cs, m, lo, hi) + Render(cs, m, hi)
    decreases hi - lo
  {
    if lo < hi {
      MarkupSnoc(cs, m, lo + 1, hi);
      AppendAssoc(Render(cs, m, lo), Markup(cs, m, lo + 1, hi), Render(cs, m, hi));
    } else {
      assert Markup(cs, m, hi, hi + 1) == Render(cs, m, hi) + "";
    }
  }

  /** The `highlightText` result: the rendering of every chunk of `text.split(/(\s+)/)`. */
  function HighlightHtml(text: string, m: set<int>): string {
    Markup(Chunks(text), m, 0, |Chunks(text)|)
  }

  /** Maps every chunk, counting the non-whitespace ones in `wordIndex`, and
      joins the results. */
  method HighlightText(text: string, matches: set<int>) returns (html: string)
    ensures html == HighlightHtml(text, matches)
  {
    var words := Chunks(text);
    var wordIndex := 0;
    html := "";
    for index := 0 to |words|
      invariant wordIndex == Ordinal(words, index)
      invariant html == Markup(words, matches, 0, index)
    {
      var word := words[index];
      OrdinalStep(words, index);
      MarkupSnoc(words, matches, 0, index);
      if IsBlank(word) {
        html := html + word;
      } else {
        var isMatch := wordIndex in matches;
        wordIndex := wordIndex + 1;
        if isMatch {
          html := html + (OpenTag(index) + word + CloseTag);
        } else {
          html := html + word;
        }
      }
    }
  }

  /** Removes every tag `<…>` from a string and keeps the rest. */
  function StripTags(s: string): string
    decreases |s|
  {
    if s == [] then "" else if s[0] == '<' then SkipTag(s[1..]) else [s[0]] + StripTags(s[1..])
  }

  /** Inside a tag: drop characters up to and including the closing `>`. */
  function SkipTag(s: string): string
    decreases |s|
  {
    if s == [] then "" else if s[0] == '>' then StripTags(s[1..]) else SkipTag(s[1..])
  }

  lemma {:induction false} StripPlain(t: string, rest: string)
    requires '<' !in t
    ensures StripTags(t + rest) == t + StripTags(rest)
    decreases |t|
  {
    if t == [] {
      assert t + rest == rest;
    } else {
      assert (t + rest)[1..] == t[1..] + rest;
      StripPlain(t[1..], rest);
    }
  }

  lemma {:induction false} SkipBody(body: string, rest: string)
    requires '>' !in body
    ensures SkipTag(body + ">" + rest) == StripTags(rest)
    decreases |body|
  {
    if body == [] {
      assert (body + ">" + rest)[1..] == rest;
    } else {
      assert (body + ">" + rest)[1..] == body[1..] + ">" + rest;
      SkipBody(body[1..], rest);
    }
  }

  lemma SkipTagWhole(body: string, rest: string)
    requires '>' !in body
    ensures StripTags("<" + body + ">" + rest) == StripTags(rest)
  {
    assert ("<" + body + ">" + rest)[1..] == body + ">" + rest;
    SkipBody(body, rest);
  }

  lemma OpenTagBodyClean(index: nat)
    ensures '>' !in OpenTagBody(index)
  {
    var d := Decimal(index);
    assert '>' !in d;
    assert '>' !in "mark key=\"";
    assert '>' !in "\" class=\"highlight-match\"";
  }

  lemma StripOpenTag(k: nat, rest: string)
    ensures StripTags(OpenTag(k) + rest) == StripTags(rest)
  {
    OpenTagBodyClean(k);
    assert OpenTag(k) + rest == "<" + OpenTagBody(k) + ">" + rest;
    SkipTagWhole(OpenTagBody(k), rest);
  }

  lemma StripCloseTag(rest: string)
    ensures StripTags(CloseTag + rest) == StripTags(rest)
  {
    assert CloseTag + rest == "<" + "/mark" + ">" + rest;
    SkipTagWhole("/mark", rest);
  }

  /** Stripping the tags from one rendered chunk gives back the chunk. */
  lemma StripRender(cs: seq<string>, m: set<int>, k: nat, rest: string)
    requires k < |cs| && '<' !in cs[k]
    ensures StripTags(Render(cs, m, k) + rest) == cs[k] + StripTags(rest)
  {
    if IsMarked(cs, m, k) {
      var w := cs[k];
      assert Render(cs, m, k) + rest == OpenTag(k) + (w + (CloseTag + rest));
      StripOpenTag(k, w + (CloseTag + rest));
      StripPlain(w, CloseTag + rest);
      StripCloseTag(rest);
    } else {
      StripPlain(cs[k], rest);
    }
  }

  lemma {:induction false} StripMarkup(cs: seq<string>, m: set<int>, lo: nat, hi: nat)
    requires lo <= hi <= |cs|
    requires forall k :: lo <= k < hi ==> '<' !in cs[k]
    ensures StripTags(Markup(cs, m, lo, hi)) == Concat(cs[lo..hi])
    decreases hi - lo
  {
    if lo < hi {
      var rest := Markup(cs, m, lo + 1, hi);
      assert Markup(cs, m, lo, hi) == Render(cs, m, lo) + rest;
      StripRender(cs, m, lo, rest);
      StripMarkup(cs, m, lo + 1, hi);
      ConcatFrom(cs, lo, hi);
    }
  }

  /** The concatenation of chunks `lo .. hi-1` starts with chunk `lo`. */
  lemma ConcatFrom(cs: seq<string>, lo: nat, hi: nat)
    requires lo < hi <= |cs|
    ensures Concat(cs[lo..hi]) == cs[lo] + Concat(cs[lo + 1..hi])
  {
    var tail := cs[lo + 1..hi];
    assert cs[lo..hi] == [cs[lo]] + tail;
    ConcatCons(cs[lo], tail);
  }

  lemma {:induction false} ConcatHas(ss: seq<string>, k: nat, c: char)
    requires k < |ss| && c in ss[k]
    ensures c in Concat(ss)
    decreases |ss|
  {
    assert ss == [ss[0]] + ss[1..];
    ConcatCons(ss[0], ss[1..]);
    if k > 0 {
      ConcatHas(ss[1..], k - 1, c);
    }
  }

  /** Removing the `<mark …>` and `</mark>` wrappers from the output gives back
      the input text, provided the text has no `<` of its own to be read as a tag. */
  lemma HighlightRoundTrip(text: string, m: set<int>)
    requires '<' !in text
    ensures StripTags(HighlightHtml(text, m)) == text
  {
    var cs := Chunks(text);
    ChunksRoundTrip(text);
    forall k | 0 <= k < |cs|
      ensures '<' !in cs[k]
    {
      if '<' in cs[k] {
        ConcatHas(cs, k, '<');
      }
    }
    StripMarkup(cs, m, 0, |cs|);
    assert cs[0..|cs|] == cs;
  }

  const Red: string := "#dc3545"
  const Yellow: string := "#ffc107"
  const Green: string := "#28a745"

  /** `getSimilarityColor`: red from 80 up, yellow from 50 up, green below. */
  function SimilarityColor(score: real): (color: string)
    ensures color == Red <==> score >= 80.0
    ensures color == Yellow <==> 50.0 <= score < 80.0
    ensures color == Green <==> score < 50.0
  {
    if score >= 80.0 then Red else if score >= 50.0 then Yellow else Green
  }

  /** Severity of a colour: green 0, yellow 1, red 2. */
  function Severity(color: string): nat {
    if color == Red then 2 else if color == Yellow then 1 else 0
  }

  /** A higher score never gets a milder colour. */
  lemma ColorMonotone(low: real, high: real)
    requires low <= high
    ensures Severity(SimilarityColor(low)) <= Severity(SimilarityColor(high))
  {
  }
}
