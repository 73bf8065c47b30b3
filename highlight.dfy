/** What the two index-set highlighters share: the text is cut with
    `split(/(\s+)/)` into chunks, a running ordinal counts the chunks that are
    not whitespace, and a chunk is wrapped when it is not whitespace and its
    ordinal is in the index set. */
module Highlight {
  import opened Text
  import opened Runs

  /** The renderer's `wordIndex` when it reaches chunk `k`: how many of the
      chunks before `k` are not whitespace. */
  function Ordinal(cs: seq<string>, k: nat): nat
    requires k <= |cs|
  {
    |Words(cs[..k])|
  }

  /** Chunk `k` is wrapped in a mark. */
  predicate IsMarked(cs: seq<string>, m: set<int>, k: nat)
    requires k < |cs|
  {
    !IsBlank(cs[k]) && Ordinal(cs, k) in m
  }

  /** A whitespace chunk leaves the ordinal alone; any other chunk advances it by one. */
  lemma OrdinalStep(cs: seq<string>, k: nat)
    requires k < |cs|
    ensures Ordinal(cs, k + 1) == Ordinal(cs, k) + (if IsBlank(cs[k]) then 0 else 1)
  {
    assert cs[..k + 1][..k] == cs[..k];
  }

  /** A word chunk's ordinal is its position among the text's words. */
  lemma OrdinalWord(cs: seq<string>, k: nat)
    requires k < |cs| && !IsBlank(cs[k])
    ensures Ordinal(cs, k) < |Words(cs)| && Words(cs)[Ordinal(cs, k)] == cs[k]
  {
    assert cs == cs[..k] + ([cs[k]] + cs[k + 1..]);
    WordsAppend(cs[..k], [cs[k]] + cs[k + 1..]);
    WordsAppend([cs[k]], cs[k + 1..]);
    WordsOne(cs[k]);
  }

  /** Word chunks further on have larger ordinals, so no two word chunks share one. */
  lemma OrdinalIncreasing(cs: seq<string>, k1: nat, k2: nat)
    requires k1 < k2 <= |cs| && !IsBlank(cs[k1])
    ensures Ordinal(cs, k1) < Ordinal(cs, k2)
  {
    assert cs[..k2] == cs[..k1] + ([cs[k1]] + cs[k1 + 1..k2]);
    WordsAppend(cs[..k1], [cs[k1]] + cs[k1 + 1..k2]);
    WordsAppend([cs[k1]], cs[k1 + 1..k2]);
    WordsOne(cs[k1]);
  }

  /** Every word of the text has a chunk that carries its ordinal. */
  lemma {:induction false} WordChunk(cs: seq<string>, n: int) returns (k: nat)
    requires 0 <= n < |Words(cs)|
    ensures k < |cs| && !IsBlank(cs[k]) && Ordinal(cs, k) == n
    decreases |cs|
  {
    var init := cs[..|cs| - 1];
    var last := cs[|cs| - 1];
    assert Words(cs) == Words(init) + (if IsBlank(last) then [] else [last]);
    if n < |Words(init)| {
      k := WordChunk(init, n);
      assert init[..k] == cs[..k];
    } else {
      k := |cs| - 1;
      assert cs[..k] == init;
    }
  }

  /** Indices outside `0 .. word count - 1` have no effect on what is marked. */
  lemma OutOfRangeIgnored(cs: seq<string>, m: set<int>, k: nat)
    requires k < |cs|
    ensures IsMarked(cs, m, k) <==> IsMarked(cs, (set n | n in m && 0 <= n < |Words(cs)|), k)
  {
    if !IsBlank(cs[k]) {
      OrdinalWord(cs, k);
    }
  }

  /** The chunks' words are the text's `split()` words, so the `n`-th word of
      the text is marked exactly when `n` is in the set. */
  lemma MarkedWord(text: string, m: set<int>, n: int) returns (k: nat)
    requires 0 <= n < |PySplit(text)|
    ensures k < |Chunks(text)| && Chunks(text)[k] == PySplit(text)[n]
    ensures IsMarked(Chunks(text), m, k) <==> n in m
  {
    ChunkWords(text);
    k := WordChunk(Chunks(text), n);
    OrdinalWord(Chunks(text), k);
  }

  /** When the text starts with a word, the matcher's token `n` is the
      lower-cased `n`-th word the renderer counts, so the two agree on ordinals. */
  lemma TokenAlignment(text: string, k: nat)
    requires text != [] && !IsSpace(text[0])
    requires k < |Chunks(text)| && !IsBlank(Chunks(text)[k])
    ensures Ordinal(Chunks(text), k) < |Tokens(text)|
    ensures Tokens(text)[Ordinal(Chunks(text), k)] == Lower(Chunks(text)[k])
  {
    ChunkWords(text);
    OrdinalWord(Chunks(text), k);
    JsSplitShape(text);
    JsSplitLower(text);
  }

  /** When the text starts with whitespace, `split(/\s+/)` yields a leading
      empty token: the matcher's ordinals run one ahead of the renderer's. */
  lemma LeadingSpaceShift(text: string, k: nat)
    requires text != [] && IsSpace(text[0])
    requires k < |Chunks(text)| && !IsBlank(Chunks(text)[k])
    ensures Tokens(text)[0] == ""
    ensures Ordinal(Chunks(text), k) + 1 < |Tokens(text)|
    ensures Tokens(text)[Ordinal(Chunks(text), k) + 1] == Lower(Chunks(text)[k])
  {
    ChunkWords(text);
    OrdinalWord(Chunks(text), k);
    JsSplitShape(text);
    JsSplitLower(text);
  }
}
