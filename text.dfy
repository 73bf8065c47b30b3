/** Characters, case mapping and the three whitespace splitters the program uses:
    JavaScript's `split(/\s+/)`, JavaScript's `split(/(\s+)/)` (which keeps the
    separators) and Python's `str.split()`. Whitespace and case are the ASCII
    ones. */
module Text {

  datatype Option<T> = None | Some(value: T)

  /** The ASCII members of the regular-expression class `\s`. */
  predicate IsSpace(c: char) {
    c == ' ' || c == '\t' || c == '\n' || c == '\r' || c == '\U{000B}' || c == '\U{000C}'
  }

  predicate IsUpper(c: char) { 'A' <= c <= 'Z' }

  predicate AllSpace(s: string) { forall k :: 0 <= k < |s| ==> IsSpace(s[k]) }

  predicate NoSpace(s: string) { forall k :: 0 <= k < |s| ==> !IsSpace(s[k]) }

  function LowerChar(c: char): (r: char)
    ensures !IsUpper(r)
    ensures IsSpace(r) <==> IsSpace(c)
  {
    if IsUpper(c) then (c as int + 32) as char else c
  }

  /** `toLowerCase()` / `lower()` on ASCII text: the result has no upper-case
      letter, every upper-case letter moves down to its lower-case form, and
      every other character stays as it is. */
  function Lower(s: string): (r: string)
    ensures |r| == |s|
    ensures forall k :: 0 <= k < |r| ==> !IsUpper(r[k])
    ensures forall k :: 0 <= k < |s| && IsUpper(s[k]) ==> r[k] as int == s[k] as int + 32
    ensures forall k :: 0 <= k < |s| && !IsUpper(s[k]) ==> r[k] == s[k]
  {
    seq(|s|, k requires 0 <= k < |s| => LowerChar(s[k]))
  }

  function LowerAll(ws: seq<string>): (r: seq<string>)
    ensures |r| == |ws|
    ensures forall k :: 0 <= k < |ws| ==> r[k] == Lower(ws[k])
  {
    seq(|ws|, k requires 0 <= k < |ws| => Lower(ws[k]))
  }

  /** Length of the leading run of whitespace. */
  function SpanSpace(s: string): (n: nat)
    ensures n <= |s|
    ensures n < |s| ==> !IsSpace(s[n])
  {
    if s == [] || !IsSpace(s[0]) then 0 else 1 + SpanSpace(s[1..])
  }

  /** Length of the leading run of non-whitespace. */
  function SpanWord(s: string): (n: nat)
    ensures n <= |s|
    ensures n < |s| ==> IsSpace(s[n])
  {
    if s == [] || IsSpace(s[0]) then 0 else 1 + SpanWord(s[1..])
  }

  /** The leading run `SpanSpace` measures is all whitespace. */
  lemma {:induction false} SpanSpaceRun(s: string)
    ensures AllSpace(s[..SpanSpace(s)])
    decreases |s|
  {
    if s != [] && IsSpace(s[0]) {
      SpanSpaceRun(s[1..]);
      assert s[..SpanSpace(s)] == [s[0]] + s[1..][..SpanSpace(s[1..])];
    }
  }

  /** The leading run `SpanWord` measures holds no whitespace. */
  lemma {:induction false} SpanWordRun(s: string)
    ensures NoSpace(s[..SpanWord(s)])
    decreases |s|
  {
    if s != [] && !IsSpace(s[0]) {
      SpanWordRun(s[1..]);
      assert s[..SpanWord(s)] == [s[0]] + s[1..][..SpanWord(s[1..])];
    }
  }

  /** Lower-casing twice is lower-casing once. */
  lemma LowerIdempotent(s: string)
    ensures Lower(Lower(s)) == Lower(s)
  {
  }

  /** `s.replace(/^\s+/, '')`. */
  function TrimStart(s: string): string {
    s[SpanSpace(s)..]
  }

  /** `s.replace(/\s+$/, '')`. */
  function TrimEnd(s: string): string {
    if s != [] && IsSpace(s[|s| - 1]) then TrimEnd(s[..|s| - 1]) else s
  }

  /** `TrimStart` drops exactly the leading whitespace. */
  lemma TrimStartMeaning(s: string)
    ensures var r := TrimStart(s);
      && (r == [] || !IsSpace(r[0]))
      && |r| <= |s| && r == s[|s| - |r|..]
      && AllSpace(s[..|s| - |r|])
  {
    SpanSpaceRun(s);
  }

  /** `TrimEnd` drops exactly the trailing whitespace. */
  lemma {:induction false} TrimEndMeaning(s: string)
    ensures var r := TrimEnd(s);
      && (r == [] || !IsSpace(r[|r| - 1]))
      && |r| <= |s| && r == s[..|r|]
      && AllSpace(s[|r|..])
    decreases |s|
  {
    if s != [] && IsSpace(s[|s| - 1]) {
      var r := TrimEnd(s[..|s| - 1]);
      TrimEndMeaning(s[..|s| - 1]);
      assert s[..|s| - 1][..|r|] == s[..|r|];
      assert forall k :: |r| <= k < |s| - 1 ==> s[k] == s[..|s| - 1][|r|..][k - |r|];
    }
  }

  /** JavaScript `trim()` and Python `strip()`. */
  function Strip(s: string): string {
    TrimEnd(TrimStart(s))
  }

  /** The stripped string starts and ends with non-whitespace, and is empty
      exactly when the input is all whitespace. */
  lemma StripMeaning(s: string)
    ensures var r := Strip(s);
      && (r == [] || (!IsSpace(r[0]) && !IsSpace(r[|r| - 1])))
      && (r == [] <==> AllSpace(s))
  {
    var t := TrimStart(s);
    var r := TrimEnd(t);
    TrimStartMeaning(s);
    TrimEndMeaning(t);
    if r == [] {
      assert s == s[..|s| - |t|] + t;
      assert AllSpace(t) by { assert t[|r|..] == t; }
    }
  }

  /** String concatenation regroups freely. */
  lemma AppendAssoc(a: string, b: string, c: string)
    ensures a + (b + c) == (a + b) + c
  {
  }

  /** Concatenation of a sequence of strings (`join('')`). */
  function Concat(ss: seq<string>): string {
    if ss == [] then [] else ss[0] + Concat(ss[1..])
  }

  /** JavaScript `s.split(/(\s+)/)`: the maximal non-whitespace pieces (possibly
      empty at either end) interleaved with the whitespace runs that separate them. */
  function Chunks(s: string): (r: seq<string>)
    decreases |s|
  {
    var w := SpanWord(s);
    if w == |s| then [s]
    else
      var rest := s[w..];
      var g := SpanSpace(rest);
      [s[..w], rest[..g]] + Chunks(rest[g..])
  }

  /** JavaScript `s.split(/\s+/)`: like `Chunks` without the separators, so a
      string that starts (ends) with whitespace gives a leading (trailing) `""`,
      and `""` itself gives `[""]`. */
  function JsSplit(s: string): (r: seq<string>)
    ensures |r| >= 1
    decreases |s|
  {
    var w := SpanWord(s);
    if w == |s| then [s]
    else
      var rest := s[w..];
      var g := SpanSpace(rest);
      [s[..w]] + JsSplit(rest[g..])
  }

  /** Python `s.split()`: the maximal non-whitespace runs, never an empty word. */
  function PySplit(s: string): seq<string>
    decreases |s|
  {
    var g := SpanSpace(s);
    if g == |s| then []
    else
      var t := s[g..];
      var w := SpanWord(t);
      [t[..w]] + PySplit(t[w..])
  }

  /** A chunk the renderer skips: JavaScript `word.trim() === ''` (see `BlankIff`). */
  predicate IsBlank(w: string) { AllSpace(w) }

  /** The non-blank members of a chunk sequence, in order; its length after a
      prefix of the chunks is the renderer's running word ordinal. */
  function Words(cs: seq<string>): seq<string> {
    if cs == [] then []
    else Words(cs[..|cs| - 1]) + (if IsBlank(cs[|cs| - 1]) then [] else [cs[|cs| - 1]])
  }

  /** The empty leading token that `split(/\s+/)` yields for a string that
      starts with whitespace (or is empty). */
  function LeadingEmpty(s: string): seq<string> {
    if s == [] || IsSpace(s[0]) then [""] else []
  }

  /** The empty trailing token that `split(/\s+/)` yields for a string that
      ends with whitespace. */
  function TrailingEmpty(s: string): seq<string> {
    if s != [] && IsSpace(s[|s| - 1]) then [""] else []
  }

  lemma ConcatCons(a: string, rest: seq<string>)
    ensures Concat([a] + rest) == a + Concat(rest)
  {
    assert ([a] + rest)[1..] == rest;
  }

  lemma ConcatPair(a: string, b: string, rest: seq<string>)
    ensures Concat([a, b] + rest) == a + (b + Concat(rest))
  {
    var both := [a, b] + rest;
    assert both[1..] == [b] + rest;
    ConcatCons(b, rest);
  }

  /** One step of `split(/(\s+)/)`: the first word and separator, then the chunks of the rest. */
  lemma ChunksStep(s: string) returns (a: string, sep: string, tail: string)
    requires SpanWord(s) < |s|
    ensures |tail| < |s| && s == a + (sep + tail)
    ensures Concat(Chunks(s)) == a + (sep + Concat(Chunks(tail)))
  {
    var w := SpanWord(s);
    var rest := s[w..];
    var g := SpanSpace(rest);
    a, sep, tail := s[..w], rest[..g], rest[g..];
    assert |tail| < |s| by {
      assert rest[0] == s[w];
    }
    assert s == a + (sep + tail) by {
      assert sep + tail == rest;
      assert a + rest == s;
    }
    ConcatPair(a, sep, Chunks(tail));
  }

  /** Re-joining the chunks of `split(/(\s+)/)` gives back the string. */
  lemma {:induction false} ChunksRoundTrip(s: string)
    ensures Concat(Chunks(s)) == s
    decreases |s|
  {
    if SpanWord(s) == |s| {
      ConcatCons(s, []);
    } else {
      var a, sep, tail := ChunksStep(s);
      ChunksRoundTrip(tail);
    }
  }

  lemma BlankIff(w: string)
    ensures IsBlank(w) <==> Strip(w) == []
  {
    StripMeaning(w);
  }

  lemma {:induction false} WordsAppend(a: seq<string>, b: seq<string>)
    ensures Words(a + b) == Words(a) + Words(b)
    decreases |b|
  {
    if b == [] {
      assert a + b == a;
    } else {
      var b' := b[..|b| - 1];
      WordsAppend(a, b');
      assert (a + b)[..|a + b| - 1] == a + b';
    }
  }

  lemma WordsOne(c: string)
    ensures Words([c]) == if IsBlank(c) then [] else [c]
  {
    assert [c][..0] == [];
  }

  /** A string's Python words are those of the string without its leading whitespace. */
  lemma PySplitSkip(s: string)
    ensures PySplit(s) == PySplit(s[SpanSpace(s)..])
  {
    var g := SpanSpace(s);
    var t := s[g..];
    if t != [] {
      assert SpanSpace(t) == 0;
      assert t[0..] == t;
    }
  }

  /** A string that is one piece of non-whitespace, possibly empty. */
  lemma WholeWord(s: string)
    requires SpanWord(s) == |s|
    ensures Words(Chunks(s)) == PySplit(s)
    ensures PySplit(s) == if s == [] then [] else [s]
  {
    assert PySplit(s) == if s == [] then [] else [s] by {
      if s != [] {
        assert SpanSpace(s) == 0;
        assert s[0..] == s && s[..|s|] == s && s[|s|..] == [];
      }
    }
    assert Words(Chunks(s)) == if s == [] then [] else [s] by {
      assert Chunks(s) == [s];
      WordsOne(s);
      assert s != [] ==> !IsSpace(s[0]);
    }
  }

  /** One step of Python's `split()` taken at a word boundary: the first
      piece of non-whitespace (when not empty), then the words after the
      separator that follows it. */
  lemma PySplitStep(s: string) returns (a: string, r: string)
    requires SpanWord(s) < |s|
    ensures |r| < |s| && a == s[..SpanWord(s)]
    ensures r == s[SpanWord(s)..][SpanSpace(s[SpanWord(s)..])..]
    ensures PySplit(s) == (if a == [] then [] else [a]) + PySplit(r)
  {
    var w := SpanWord(s);
    var rest := s[w..];
    a, r := s[..w], rest[SpanSpace(rest)..];
    PySplitSkip(rest);
    if w == 0 {
      assert rest == s;
    } else {
      PySplitWordFirst(s);
    }
  }

  /** A string that starts with non-whitespace: its first Python word, then the rest. */
  lemma PySplitWordFirst(s: string)
    requires s != [] && !IsSpace(s[0])
    ensures PySplit(s) == [s[..SpanWord(s)]] + PySplit(s[SpanWord(s)..])
  {
    assert SpanSpace(s) == 0;
    assert s[0..] == s;
  }

  /** The same step for the renderer's words. */
  lemma ChunkWordsStep(s: string) returns (a: string, r: string)
    requires SpanWord(s) < |s|
    ensures a == s[..SpanWord(s)]
    ensures r == s[SpanWord(s)..][SpanSpace(s[SpanWord(s)..])..]
    ensures Words(Chunks(s)) == (if a == [] then [] else [a]) + Words(Chunks(r))
  {
    var w := SpanWord(s);
    var rest := s[w..];
    var g := SpanSpace(rest);
    var sep := rest[..g];
    a, r := s[..w], rest[g..];
    assert Chunks(s) == [a, sep] + Chunks(r);
    WordsAppend([a, sep], Chunks(r));
    SpanSpaceRun(rest);
    assert [a, sep][..1] == [a];
    WordsOne(a);
    BlankIff(a);
    BlankIff(sep);
    assert Words([a, sep]) == if a == [] then [] else [a];
  }

  /** The renderer's word chunks are exactly Python's `split()` words. */
  lemma {:induction false} ChunkWords(s: string)
    ensures Words(Chunks(s)) == PySplit(s)
    decreases |s|
  {
    if SpanWord(s) == |s| {
      WholeWord(s);
      SpanWordRun(s);
      assert s != [] ==> s[..SpanWord(s)][|s| - 1] == s[|s| - 1];
    } else {
      var a, r := PySplitStep(s);
      var _, _ := ChunkWordsStep(s);
      ChunkWords(r);
    }
  }

  lemma ShapeStep(js: seq<string>, jr: seq<string>, ps: seq<string>, pr: seq<string>, a: string,
                  leadS: seq<string>, leadR: seq<string>, trailS: seq<string>, trailR: seq<string>)
    requires js == [a] + jr && jr == leadR + pr + trailR
    requires a == [] ==> ps == pr && leadS == [""]
    requires a != [] ==> ps == [a] + pr && leadS == []
    requires (pr == [] && leadR == [""] && trailR == [] && trailS == [""])
          || (leadR == [] && trailR == trailS)
    ensures js == leadS + ps + trailS
  {
  }

  /** Leading and trailing empty tokens across one step of `split(/\s+/)`. */
  lemma JsSplitStepEnds(s: string) returns (a: string, r: string)
    requires SpanWord(s) < |s|
    ensures a == s[..SpanWord(s)]
    ensures r == s[SpanWord(s)..][SpanSpace(s[SpanWord(s)..])..]
    ensures JsSplit(s) == [a] + JsSplit(r)
    ensures LeadingEmpty(s) == if a == [] then [""] else []
    ensures TrailingEmpty(s) == if r == [] then [""] else TrailingEmpty(r)
  {
    var w := SpanWord(s);
    var rest := s[w..];
    var g := SpanSpace(rest);
    a, r := s[..w], rest[g..];
    if r == [] {
      SpanSpaceRun(rest);
      assert s[|s| - 1] == rest[..g][g - 1];
    } else {
      assert r[|r| - 1] == s[|s| - 1];
    }
  }

  /** `split(/\s+/)` is Python's `split()` plus an empty token for leading and
      for trailing whitespace. */
  lemma {:induction false} JsSplitShape(s: string)
    ensures JsSplit(s) == LeadingEmpty(s) + PySplit(s) + TrailingEmpty(s)
    decreases |s|
  {
    if SpanWord(s) == |s| {
      WholeWord(s);
      SpanWordRun(s);
      assert s != [] ==> s[..SpanWord(s)][|s| - 1] == s[|s| - 1];
    } else {
      var a, r := PySplitStep(s);
      var _, _ := JsSplitStepEnds(s);
      JsSplitShape(r);
      ShapeStep(JsSplit(s), JsSplit(r), PySplit(s), PySplit(r), a,
                LeadingEmpty(s), LeadingEmpty(r), TrailingEmpty(s), TrailingEmpty(r));
    }
  }

  lemma LowerSlice(s: string, a: nat, b: nat)
    requires a <= b <= |s|
    ensures Lower(s)[a..b] == Lower(s[a..b])
  {
  }

  lemma {:induction false} SpanSpaceLower(s: string)
    ensures SpanSpace(Lower(s)) == SpanSpace(s)
    decreases |s|
  {
    if s != [] {
      LowerSlice(s, 1, |s|);
      assert Lower(s)[1..] == Lower(s[1..]);
      SpanSpaceLower(s[1..]);
    }
  }

  lemma {:induction false} SpanWordLower(s: string)
    ensures SpanWord(Lower(s)) == SpanWord(s)
    decreases |s|
  {
    if s != [] {
      LowerSlice(s, 1, |s|);
      assert Lower(s)[1..] == Lower(s[1..]);
      SpanWordLower(s[1..]);
    }
  }

  lemma SpanLower(s: string)
    ensures SpanSpace(Lower(s)) == SpanSpace(s)
    ensures SpanWord(Lower(s)) == SpanWord(s)
  {
    SpanSpaceLower(s);
    SpanWordLower(s);
  }

  lemma LowerAllSlice(ws: seq<string>, a: nat, b: nat)
    requires a <= b <= |ws|
    ensures LowerAll(ws)[a..b] == LowerAll(ws[a..b])
  {
  }

  /** Words that are already lower-case are left as they are. */
  lemma LowerAllFixed(ws: seq<string>)
    requires forall k :: 0 <= k < |ws| ==> Lower(ws[k]) == ws[k]
    ensures LowerAll(ws) == ws
  {
  }

  lemma LowerAllCons(a: string, xs: seq<string>)
    ensures LowerAll([a] + xs) == [Lower(a)] + LowerAll(xs)
  {
  }

  /** Lower-casing commutes with `split(/\s+/)`: the matcher's tokens are the
      lower-cased tokens of the original text. */
  lemma {:induction false} JsSplitLower(s: string)
    ensures JsSplit(Lower(s)) == LowerAll(JsSplit(s))
    decreases |s|
  {
    SpanLower(s);
    var w := SpanWord(s);
    if w < |s| {
      var rest := s[w..];
      var g := SpanSpace(rest);
      var a, r := s[..w], rest[g..];
      var low := Lower(s);
      assert low[w..] == Lower(rest) by { LowerSlice(s, w, |s|); }
      assert low[..w] == Lower(a) by { LowerSlice(s, 0, w); }
      SpanLower(rest);
      assert Lower(rest)[g..] == Lower(r) by { LowerSlice(rest, g, |rest|); }
      assert JsSplit(low) == [Lower(a)] + JsSplit(Lower(r));
      JsSplitLower(r);
      LowerAllCons(a, JsSplit(r));
    }
  }

  /** Lower-casing commutes with Python's `split()`. */
  lemma {:induction false} PySplitLower(s: string)
    ensures PySplit(Lower(s)) == LowerAll(PySplit(s))
    decreases |s|
  {
    SpanLower(s);
    var g := SpanSpace(s);
    if g < |s| {
      var t := s[g..];
      var low := Lower(s);
      assert low[g..] == Lower(t) by { LowerSlice(s, g, |s|); }
      SpanLower(t);
      var w := SpanWord(t);
      assert Lower(t)[..w] == Lower(t[..w]) by { LowerSlice(t, 0, w); }
      assert Lower(t)[w..] == Lower(t[w..]) by { LowerSlice(t, w, |t|); }
      assert PySplit(low) == [Lower(t[..w])] + PySplit(Lower(t[w..]));
      PySplitLower(t[w..]);
      LowerAllCons(t[..w], PySplit(t[w..]));
    }
  }

  /** Python `' '.join(ws)`. */
  function JoinSpaced(ws: seq<string>): string
    decreases |ws|
  {
    if |ws| == 0 then "" else if |ws| == 1 then ws[0] else ws[0] + " " + JoinSpaced(ws[1..])
  }

  /** A non-empty string without whitespace: what `split()` yields. */
  predicate IsWord(w: string) { w != [] && NoSpace(w) }

  lemma {:induction false} SpanWordAppend(a: string, b: string)
    requires NoSpace(a)
    ensures SpanWord(a + b) == |a| + SpanWord(b)
    decreases |a|
  {
    if a == [] {
      assert a + b == b;
    } else {
      assert (a + b)[1..] == a[1..] + b;
      SpanWordAppend(a[1..], b);
    }
  }

  /** Words joined by single spaces neither start nor end with whitespace. */
  lemma {:induction false} JoinSpacedEnds(ws: seq<string>)
    requires ws != [] && forall k :: 0 <= k < |ws| ==> IsWord(ws[k])
    ensures var s := JoinSpaced(ws); s != [] && !IsSpace(s[0]) && !IsSpace(s[|s| - 1])
    decreases |ws|
  {
    if |ws| > 1 {
      JoinSpacedEnds(ws[1..]);
      var r := JoinSpaced(ws[1..]);
      assert (ws[0] + " " + r)[|ws[0] + " " + r| - 1] == r[|r| - 1];
    }
  }

  lemma {:induction false} SpanSpaceAll(t: string)
    requires AllSpace(t)
    ensures SpanSpace(t) == |t|
    decreases |t|
  {
    if t != [] {
      SpanSpaceAll(t[1..]);
    }
  }

  lemma PySplitWord(w: string, tail: string)
    requires IsWord(w) && AllSpace(tail)
    ensures PySplit(w + tail) == [w]
  {
    var s := w + tail;
    SpanWordAppend(w, tail);
    assert SpanSpace(s) == 0 && s[0..] == s;
    assert s[..|w|] == w && s[|w|..] == tail;
    SpanSpaceAll(tail);
  }

  lemma PySplitWordSpace(w: string, r: string)
    requires IsWord(w) && r != [] && !IsSpace(r[0])
    ensures PySplit(w + " " + r) == [w] + PySplit(r)
  {
    var s := w + " " + r;
    assert s == w + (" " + r);
    assert SpanSpace(s) == 0 && s[0..] == s;
    SpanWordAppend(w, " " + r);
    assert s[..|w|] == w && s[|w|..] == " " + r;
    assert (" " + r)[1..] == r;
    assert SpanSpace(" " + r) == 1;
    PySplitSkip(" " + r);
  }

  /** Python's `split()` undoes `' '.join` on words, whatever whitespace follows. */
  lemma {:induction false} PySplitJoin(ws: seq<string>, tail: string)
    requires forall k :: 0 <= k < |ws| ==> IsWord(ws[k])
    requires AllSpace(tail)
    ensures PySplit(JoinSpaced(ws) + tail) == ws
    decreases |ws|
  {
    if |ws| == 0 {
      assert JoinSpaced(ws) + tail == tail;
      SpanSpaceAll(tail);
    } else if |ws| == 1 {
      PySplitWord(ws[0], tail);
    } else {
      var r := JoinSpaced(ws[1..]);
      JoinSpacedEnds(ws[1..]);
      assert JoinSpaced(ws) + tail == ws[0] + " " + (r + tail);
      PySplitWordSpace(ws[0], r + tail);
      PySplitJoin(ws[1..], tail);
      assert ws == [ws[0]] + ws[1..];
    }
  }

  /** JavaScript's `split(/\s+/)` undoes `' '.join` on at least one word;
      trailing whitespace adds one empty token. */
  lemma JsSplitJoin(ws: seq<string>, tail: string)
    requires ws != [] && forall k :: 0 <= k < |ws| ==> IsWord(ws[k])
    requires AllSpace(tail)
    ensures JsSplit(JoinSpaced(ws) + tail) == ws + (if tail == [] then [] else [""])
  {
    var j := JoinSpaced(ws);
    var s := j + tail;
    JoinSpacedEnds(ws);
    assert LeadingEmpty(s) == [] by { assert s[0] == j[0]; }
    assert TrailingEmpty(s) == (if tail == [] then [] else [""]) by {
      if tail == [] {
        assert s == j;
      } else {
        assert s[|s| - 1] == tail[|tail| - 1];
      }
    }
    JsSplitShape(s);
    PySplitJoin(ws, tail);
    assert [] + ws == ws;
  }

  /** Every word `split()` yields is non-empty and holds no whitespace. */
  lemma {:induction false} PySplitWords(s: string)
    ensures forall k :: 0 <= k < |PySplit(s)| ==> IsWord(PySplit(s)[k])
    decreases |s|
  {
    var g := SpanSpace(s);
    if g < |s| {
      var t := s[g..];
      var w := SpanWord(t);
      SpanWordRun(t);
      assert t[0] == s[g];
      PySplitWords(t[w..]);
      assert PySplit(s) == [t[..w]] + PySplit(t[w..]);
    }
  }

  /** Pieces that alternate as `split(/(\s+)/)` leaves them: an odd number,
      those at even positions free of whitespace (possibly empty), those at
      odd positions non-empty whitespace runs. */
  predicate Alternating(cs: seq<string>) {
    && |cs| % 2 == 1
    && (forall k :: 0 <= k < |cs| && k % 2 == 0 ==> NoSpace(cs[k]))
    && (forall k :: 0 <= k < |cs| && k % 2 == 1 ==> cs[k] != [] && AllSpace(cs[k]))
  }

  lemma AlternatingCons(a: string, b: string, tail: seq<string>)
    requires NoSpace(a) && b != [] && AllSpace(b) && Alternating(tail)
    ensures Alternating([a, b] + tail)
  {
    var cs := [a, b] + tail;
    forall k | 2 <= k < |cs|
      ensures cs[k] == tail[k - 2] && k % 2 == (k - 2) % 2
    {
    }
  }

  /** The pieces of `split(/(\s+)/)` alternate between words and separators. */
  lemma {:induction false} ChunksAlternate(s: string)
    ensures Alternating(Chunks(s))
    decreases |s|
  {
    var w := SpanWord(s);
    SpanWordRun(s);
    if w == |s| {
      assert s[..w] == s;
    } else {
      var rest := s[w..];
      var g := SpanSpace(rest);
      SpanSpaceRun(rest);
      assert rest[0] == s[w];
      ChunksAlternate(rest[g..]);
      AlternatingCons(s[..w], rest[..g], Chunks(rest[g..]));
    }
  }

  /** One optional empty token on either side of non-empty whitespace-free words. */
  lemma PaddedWords(lead: seq<string>, ws: seq<string>, trail: seq<string>)
    requires lead == [] || lead == [""]
    requires trail == [] || trail == [""]
    requires forall k :: 0 <= k < |ws| ==> IsWord(ws[k])
    ensures var js := lead + ws + trail;
      && (forall k :: 0 <= k < |js| ==> NoSpace(js[k]))
      && (forall k :: 0 < k < |js| - 1 ==> js[k] != [])
  {
    var js := lead + ws + trail;
    forall k | 0 <= k < |js|
      ensures NoSpace(js[k]) && (0 < k < |js| - 1 ==> js[k] != [])
    {
      if k < |lead| {
        assert js[k] == "";
      } else if k < |lead| + |ws| {
        assert js[k] == ws[k - |lead|];
      } else {
        assert js[k] == "";
      }
    }
  }

  /** The tokens of `split(/\s+/)` hold no whitespace, and only the first and
      the last can be empty. */
  lemma JsSplitTokens(s: string)
    ensures forall k :: 0 <= k < |JsSplit(s)| ==> NoSpace(JsSplit(s)[k])
    ensures forall k :: 0 < k < |JsSplit(s)| - 1 ==> JsSplit(s)[k] != []
  {
    JsSplitShape(s);
    PySplitWords(s);
    PaddedWords(LeadingEmpty(s), PySplit(s), TrailingEmpty(s));
  }

  /** A leading whitespace run ends at the same place when more text follows. */
  lemma {:induction false} SpanSpaceBeforeWord(t: string, tail: string)
    requires SpanSpace(t) < |t|
    ensures SpanSpace(t + tail) == SpanSpace(t)
    decreases |t|
  {
    if IsSpace(t[0]) {
      assert (t + tail)[1..] == t[1..] + tail;
      SpanSpaceBeforeWord(t[1..], tail);
    }
  }

  /** A leading word ends at the same place when whitespace follows. */
  lemma {:induction false} SpanWordBeforeSpace(t: string, tail: string)
    requires tail == [] || IsSpace(tail[0])
    ensures SpanWord(t + tail) == SpanWord(t)
    decreases |t|
  {
    if t == [] {
      assert t + tail == tail;
    } else if !IsSpace(t[0]) {
      assert (t + tail)[1..] == t[1..] + tail;
      SpanWordBeforeSpace(t[1..], tail);
    }
  }

  /** Trailing whitespace adds no word to `split()`. */
  lemma {:induction false} PySplitTrailing(r: string, tail: string)
    requires AllSpace(tail)
    ensures PySplit(r + tail) == PySplit(r)
    decreases |r|
  {
    var g := SpanSpace(r);
    if g == |r| {
      SpanSpaceRun(r);
      assert r[..g] == r;
      assert AllSpace(r + tail) by {
        forall k | 0 <= k < |r + tail|
          ensures IsSpace((r + tail)[k])
        {
          if k >= |r| {
            assert (r + tail)[k] == tail[k - |r|];
          }
        }
      }
      SpanSpaceAll(r + tail);
    } else {
      SpanSpaceBeforeWord(r, tail);
      var t := r[g..];
      assert (r + tail)[g..] == t + tail;
      var w := SpanWord(t);
      SpanWordBeforeSpace(t, tail);
      assert t[0] == r[g];
      assert (t + tail)[..w] == t[..w];
      assert (t + tail)[w..] == t[w..] + tail;
      PySplitTrailing(t[w..], tail);
    }
  }

  /** `strip()` does not change the words of `split()`. */
  lemma StripWords(s: string)
    ensures PySplit(Strip(s)) == PySplit(s)
  {
    var t := TrimStart(s);
    var r := TrimEnd(t);
    TrimEndMeaning(t);
    assert t == t[..|r|] + t[|r|..];
    PySplitTrailing(r, t[|r|..]);
    PySplitSkip(s);
  }

  /** `strip()` keeps a contiguous piece of its input: the part after the leading whitespace. */
  lemma StripSlice(s: string)
    ensures SpanSpace(s) + |Strip(s)| <= |s|
    ensures Strip(s) == s[SpanSpace(s)..SpanSpace(s) + |Strip(s)|]
  {
    var w := SpanSpace(s);
    var t := TrimStart(s);
    var r := TrimEnd(t);
    TrimEndMeaning(t);
    assert Strip(s) == r;
    assert t == s[w..];
    assert r == s[w..w + |r|] by {
      assert r == t[..|r|];
    }
  }

  /** A string that neither starts nor ends with whitespace is its own `strip()`. */
  lemma StripClean(x: string)
    requires x == [] || (!IsSpace(x[0]) && !IsSpace(x[|x| - 1]))
    ensures Strip(x) == x
  {
    if x != [] {
      assert SpanSpace(x) == 0 && x[0..] == x;
    }
  }

  /** ... and stays so with one trailing space. */
  lemma StripSpaceAfter(x: string)
    requires x != [] && !IsSpace(x[0]) && !IsSpace(x[|x| - 1])
    ensures Strip(x + " ") == x
  {
    var s := x + " ";
    assert SpanSpace(s) == 0 && s[0..] == s;
    var r := TrimEnd(s);
    assert s[..|s| - 1] == x;
    assert TrimEnd(x) == x;
  }
}
