/** Greedy shared-run detection between two token sequences: the double loop
    over start pairs that `findSimilarSequences` (threshold 3) and
    `findMatchingSequences` (threshold `minWords`) both run, and the facts about
    the index sets it produces. */
module Runs {
  import opened Text

  /** The matcher's tokens: `text.toLowerCase().split(/\s+/)`. */
  function Tokens(text: string): seq<string> {
    JsSplit(Lower(text))
  }

  /** Length of the greedy run of equal tokens that starts at `i` in `w1` and
      at `j` in `w2`: it extends while both positions exist and hold equal
      tokens, and stops at the first mismatch or at the end of either sequence. */
  function RunLen(w1: seq<string>, w2: seq<string>, i: nat, j: nat): (n: nat)
    ensures n > 0 ==> i + n <= |w1| && j + n <= |w2|
    decreases |w1| - i
  {
    if i < |w1| && j < |w2| && w1[i] == w2[j] then 1 + RunLen(w1, w2, i + 1, j + 1) else 0
  }

  /** The start pair `(i, j)` has a run of at least `minWords` tokens, and that
      run covers index `x` of the first sequence (`inFirst`) or of the second. */
  predicate Covers(w1: seq<string>, w2: seq<string>, minWords: int, i: nat, j: nat, inFirst: bool, x: int)
  {
    var n := RunLen(w1, w2, i, j);
    var start := if inFirst then i else j;
    i < |w1| && j < |w2| && n >= minWords && start <= x < start + n
  }

  /** Index `x` is marked: some start pair's qualifying run covers it. */
  ghost predicate InRun(w1: seq<string>, w2: seq<string>, minWords: int, inFirst: bool, x: int)
  {
    exists i: nat, j: nat :: Covers(w1, w2, minWords, i, j, inFirst, x)
  }

  /** The integers `lo`, ..., `hi - 1`. */
  function Range(lo: int, hi: int): set<int>
    decreases hi - lo
  {
    if hi <= lo then {} else Range(lo, hi - 1) + {hi - 1}
  }

  lemma {:induction false} InRange(lo: int, hi: int, x: int)
    ensures x in Range(lo, hi) <==> lo <= x < hi
    decreases hi - lo
  {
    if lo < hi {
      InRange(lo, hi - 1, x);
    }
  }

  /** The indices that start pair `(i, j)` contributes to one side. */
  function PairSet(w1: seq<string>, w2: seq<string>, minWords: int, inFirst: bool, i: nat, j: nat): set<int>
  {
    var n := RunLen(w1, w2, i, j);
    var start := if inFirst then i else j;
    if i < |w1| && j < |w2| && n >= minWords then Range(start, start + n) else {}
  }

  /** What the scan has added to one side after the first `j` pairs of row `i`. */
  function RowSet(w1: seq<string>, w2: seq<string>, minWords: int, inFirst: bool, i: nat, j: nat): set<int>
  {
    if j == 0 then {} else RowSet(w1, w2, minWords, inFirst, i, j - 1) + PairSet(w1, w2, minWords, inFirst, i, j - 1)
  }

  /** What the scan has added to one side after the first `i` rows. */
  function GridSet(w1: seq<string>, w2: seq<string>, minWords: int, inFirst: bool, i: nat): set<int>
  {
    if i == 0 then {} else GridSet(w1, w2, minWords, inFirst, i - 1) + RowSet(w1, w2, minWords, inFirst, i - 1, |w2|)
  }

  lemma {:induction false} RowSetCovers(w1: seq<string>, w2: seq<string>, minWords: int, inFirst: bool, i: nat, j: nat, x: int)
    ensures x in RowSet(w1, w2, minWords, inFirst, i, j)
        <==> exists j': nat :: j' < j && Covers(w1, w2, minWords, i, j', inFirst, x)
  {
    if j > 0 {
      var prev := RowSet(w1, w2, minWords, inFirst, i, j - 1);
      var pair := PairSet(w1, w2, minWords, inFirst, i, j - 1);
      RowSetCovers(w1, w2, minWords, inFirst, i, j - 1, x);
      InRange(if inFirst then i else j - 1, (if inFirst then i else j - 1) + RunLen(w1, w2, i, j - 1), x);
      assert x in pair <==> Covers(w1, w2, minWords, i, j - 1, inFirst, x);
      if exists j': nat :: j' < j && Covers(w1, w2, minWords, i, j', inFirst, x) {
        var j': nat :| j' < j && Covers(w1, w2, minWords, i, j', inFirst, x);
        if j' < j - 1 {
          assert x in prev;
        } else {
          assert x in pair;
        }
      }
    }
  }

  lemma {:induction false} GridSetCovers(w1: seq<string>, w2: seq<string>, minWords: int, inFirst: bool, i: nat, x: int)
    ensures x in GridSet(w1, w2, minWords, inFirst, i)
        <==> exists i': nat, j': nat :: i' < i && Covers(w1, w2, minWords, i', j', inFirst, x)
  {
    if i > 0 {
      GridSetCovers(w1, w2, minWords, inFirst, i - 1, x);
      RowSetCovers(w1, w2, minWords, inFirst, i - 1, |w2|, x);
      if exists i': nat, j': nat :: i' < i && Covers(w1, w2, minWords, i', j', inFirst, x) {
        var i': nat, j': nat :| i' < i && Covers(w1, w2, minWords, i', j', inFirst, x);
        if i' == i - 1 {
          assert j' < |w2| && Covers(w1, w2, minWords, i - 1, j', inFirst, x);
        }
      }
    }
  }

  /** After the whole scan, a side holds exactly the indices some qualifying run covers. */
  lemma ScanComplete(w1: seq<string>, w2: seq<string>, minWords: int, inFirst: bool, x: int)
    ensures x in GridSet(w1, w2, minWords, inFirst, |w1|) <==> InRun(w1, w2, minWords, inFirst, x)
  {
    GridSetCovers(w1, w2, minWords, inFirst, |w1|, x);
  }

  lemma RowStep(w1: seq<string>, w2: seq<string>, minWords: int, inFirst: bool, i: nat, j: nat, n: nat)
    requires i < |w1| && j < |w2| && n == RunLen(w1, w2, i, j)
    ensures var start := if inFirst then i else j;
      RowSet(w1, w2, minWords, inFirst, i, j + 1)
      == RowSet(w1, w2, minWords, inFirst, i, j) + (if n >= minWords then Range(start, start + n) else {})
  {
  }

  /** Every marked index is a position of its own sequence. */
  lemma InRunBounds(w1: seq<string>, w2: seq<string>, minWords: int, x: int)
    ensures InRun(w1, w2, minWords, true, x) ==> 0 <= x < |w1|
    ensures InRun(w1, w2, minWords, false, x) ==> 0 <= x < |w2|
  {
  }

  /** The `while` loop that grows `matchLength` from 0 while both positions
      exist and hold equal tokens. */
  method GreedyRunLength(words1: seq<string>, words2: seq<string>, i: nat, j: nat)
    returns (matchLength: nat)
    ensures matchLength == RunLen(words1, words2, i, j)
  {
    matchLength := 0;
    while i + matchLength < |words1| && j + matchLength < |words2|
          && words1[i + matchLength] == words2[j + matchLength]
      invariant RunLen(words1, words2, i, j)
             == matchLength + RunLen(words1, words2, i + matchLength, j + matchLength)
      decreases |words1| - matchLength
    {
      matchLength := matchLength + 1;
    }
  }

  /** The `for k` loop that adds the indices of one qualifying run to both sets. */
  method MarkRun(matches1: set<int>, matches2: set<int>, i: nat, j: nat, matchLength: nat)
    returns (marked1: set<int>, marked2: set<int>)
    ensures marked1 == matches1 + Range(i, i + matchLength)
    ensures marked2 == matches2 + Range(j, j + matchLength)
  {
    marked1, marked2 := matches1, matches2;
    for k := 0 to matchLength
      invariant marked1 == matches1 + Range(i, i + k)
      invariant marked2 == matches2 + Range(j, j + k)
    {
      marked1 := marked1 + {i + k};
      marked2 := marked2 + {j + k};
    }
  }

  /** The scan's sets after pair `(i, j)`, from those before it. */
  lemma ScanStep(w1: seq<string>, w2: seq<string>, minWords: int, i: nat, j: nat, n: nat,
                 base: set<int>, row: set<int>, next: set<int>, inFirst: bool, start: nat)
    requires i < |w1| && j < |w2| && n == RunLen(w1, w2, i, j)
    requires start == if inFirst then i else j
    requires row == base + RowSet(w1, w2, minWords, inFirst, i, j)
    requires n >= minWords ==> next == row + Range(start, start + n)
    requires n < minWords ==> next == row
    ensures next == base + RowSet(w1, w2, minWords, inFirst, i, j + 1)
  {
    RowStep(w1, w2, minWords, inFirst, i, j, n);
  }

  /** One row of the scan (the inner `for j` loop for a fixed start `i`): adds
      to each set the indices of every qualifying run that starts at `i`. */
  method ScanRow(words1: seq<string>, words2: seq<string>, minWords: int, i: nat,
                 matches1: set<int>, matches2: set<int>)
    returns (row1: set<int>, row2: set<int>)
    requires i < |words1|
    ensures row1 == matches1 + RowSet(words1, words2, minWords, true, i, |words2|)
    ensures row2 == matches2 + RowSet(words1, words2, minWords, false, i, |words2|)
  {
    row1, row2 := matches1, matches2;
    var j := 0;
    while j < |words2|
      invariant 0 <= j <= |words2|
      invariant row1 == matches1 + RowSet(words1, words2, minWords, true, i, j)
      invariant row2 == matches2 + RowSet(words1, words2, minWords, false, i, j)
    {
      var matchLength := GreedyRunLength(words1, words2, i, j);
      var next1, next2 := row1, row2;
      if matchLength >= minWords {
        next1, next2 := MarkRun(row1, row2, i, j, matchLength);
      }
      ScanStep(words1, words2, minWords, i, j, matchLength, matches1, row1, next1, true, i);
      ScanStep(words1, words2, minWords, i, j, matchLength, matches2, row2, next2, false, j);
      row1, row2 := next1, next2;
      j := j + 1;
    }
  }

  /** The shared double loop: for every start pair it measures the greedy run
      and, when the run reaches `minWords`, adds the run's indices to both sets.
      The sets are exactly the indices covered by some qualifying run. */
  method MatchIndices(words1: seq<string>, words2: seq<string>, minWords: int)
    returns (matches1: set<int>, matches2: set<int>)
    ensures forall x :: x in matches1 <==> InRun(words1, words2, minWords, true, x)
    ensures forall y :: y in matches2 <==> InRun(words1, words2, minWords, false, y)
    ensures forall x :: x in matches1 ==> 0 <= x < |words1|
    ensures forall y :: y in matches2 ==> 0 <= y < |words2|
  {
    matches1, matches2 := {}, {};
    var i := 0;
    while i < |words1|
      invariant 0 <= i <= |words1|
      invariant matches1 == GridSet(words1, words2, minWords, true, i)
      invariant matches2 == GridSet(words1, words2, minWords, false, i)
    {
      matches1, matches2 := ScanRow(words1, words2, minWords, i, matches1, matches2);
      i := i + 1;
    }
    forall x
      ensures x in matches1 <==> InRun(words1, words2, minWords, true, x)
      ensures x in matches2 <==> InRun(words1, words2, minWords, false, x)
      ensures x in matches1 ==> 0 <= x < |words1|
      ensures x in matches2 ==> 0 <= x < |words2|
    {
      ScanComplete(words1, words2, minWords, true, x);
      ScanComplete(words1, words2, minWords, false, x);
      InRunBounds(words1, words2, minWords, x);
    }
  }

  /** The greedy run is a block of pairwise equal tokens that cannot be
      extended by one more pair. */
  lemma {:induction false} RunLenMeaning(w1: seq<string>, w2: seq<string>, i: nat, j: nat)
    ensures var n := RunLen(w1, w2, i, j);
      && (forall k :: i <= k < i + n ==> w1[k] == w2[k - i + j])
      && (i + n < |w1| && j + n < |w2| ==> w1[i + n] != w2[j + n])
    decreases |w1| - i
  {
    if i < |w1| && j < |w2| && w1[i] == w2[j] {
      RunLenMeaning(w1, w2, i + 1, j + 1);
    }
  }

  /** The run's tokens, read in either sequence, are the same slice. */
  lemma RunSlices(w1: seq<string>, w2: seq<string>, i: nat, j: nat) returns (n: nat)
    requires i <= |w1| && j <= |w2|
    ensures n == RunLen(w1, w2, i, j)
    ensures i + n <= |w1| && j + n <= |w2| && w1[i..i + n] == w2[j..j + n]
  {
    n := RunLen(w1, w2, i, j);
    RunLenMeaning(w1, w2, i, j);
    var a, b := w1[i..i + n], w2[j..j + n];
    forall k | 0 <= k < n
      ensures a[k] == b[k]
    {
      assert a[k] == w1[i + k] && b[k] == w2[j + k];
      assert w1[i + k] == w2[(i + k) - i + j];
    }
  }

  /** Runs do not depend on which text is first. */
  lemma {:induction false} RunLenSymmetric(w1: seq<string>, w2: seq<string>, i: nat, j: nat)
    ensures RunLen(w1, w2, i, j) == RunLen(w2, w1, j, i)
    decreases |w1| - i
  {
    if i < |w1| && j < |w2| && w1[i] == w2[j] {
      RunLenSymmetric(w1, w2, i + 1, j + 1);
    }
  }

  /** Swapping the two texts swaps the two index sets. */
  lemma MatchSymmetric(w1: seq<string>, w2: seq<string>, minWords: int, x: int)
    ensures InRun(w1, w2, minWords, true, x) <==> InRun(w2, w1, minWords, false, x)
    ensures InRun(w1, w2, minWords, false, x) <==> InRun(w2, w1, minWords, true, x)
  {
    forall i: nat, j: nat, inFirst: bool
      ensures Covers(w1, w2, minWords, i, j, inFirst, x) <==> Covers(w2, w1, minWords, j, i, !inFirst, x)
    {
      RunLenSymmetric(w1, w2, i, j);
    }
    if InRun(w1, w2, minWords, true, x) {
      var i: nat, j: nat :| Covers(w1, w2, minWords, i, j, true, x);
      assert Covers(w2, w1, minWords, j, i, false, x);
    }
    if InRun(w2, w1, minWords, false, x) {
      var j: nat, i: nat :| Covers(w2, w1, minWords, j, i, false, x);
      assert Covers(w1, w2, minWords, i, j, true, x);
    }
    if InRun(w1, w2, minWords, false, x) {
      var i: nat, j: nat :| Covers(w1, w2, minWords, i, j, false, x);
      assert Covers(w2, w1, minWords, j, i, true, x);
    }
    if InRun(w2, w1, minWords, true, x) {
      var j: nat, i: nat :| Covers(w2, w1, minWords, j, i, true, x);
      assert Covers(w1, w2, minWords, i, j, false, x);
    }
  }

  /** A sequence compared with itself runs from every position to its end. */
  lemma {:induction false} RunLenSelf(w: seq<string>, i: nat)
    requires i <= |w|
    ensures RunLen(w, w, i, i) == |w| - i
    decreases |w| - i
  {
    if i < |w| {
      RunLenSelf(w, i + 1);
    }
  }

  /** A text of at least `minWords` tokens compared with itself has every
      index marked on both sides, through the run at the start pair (0, 0). */
  lemma SelfMatchMarksAll(w: seq<string>, minWords: int, x: int)
    requires |w| >= minWords
    requires 0 <= x < |w|
    ensures InRun(w, w, minWords, true, x) && InRun(w, w, minWords, false, x)
  {
    RunLenSelf(w, 0);
    assert Covers(w, w, minWords, 0, 0, true, x);
    assert Covers(w, w, minWords, 0, 0, false, x);
  }

  /** Lowering the threshold never unmarks an index. */
  lemma ThresholdMonotone(w1: seq<string>, w2: seq<string>, lower: int, higher: int, inFirst: bool, x: int)
    requires lower <= higher
    ensures InRun(w1, w2, higher, inFirst, x) ==> InRun(w1, w2, lower, inFirst, x)
  {
    if InRun(w1, w2, higher, inFirst, x) {
      var i: nat, j: nat :| Covers(w1, w2, higher, i, j, inFirst, x);
      assert Covers(w1, w2, lower, i, j, inFirst, x);
    }
  }

  /** No run can reach the threshold when either side has fewer tokens than it. */
  lemma ShortSideMarksNothing(w1: seq<string>, w2: seq<string>, minWords: int, inFirst: bool, x: int)
    requires |w1| < minWords || |w2| < minWords
    ensures !InRun(w1, w2, minWords, inFirst, x)
  {
  }

  /** A marked token of the first text occurs in the second one (at the
      position its run pairs it with), and vice versa. */
  lemma MarkedTokenOccurs(w1: seq<string>, w2: seq<string>, minWords: int, x: int)
    ensures InRun(w1, w2, minWords, true, x) ==> exists y :: 0 <= y < |w2| && w2[y] == w1[x]
    ensures InRun(w1, w2, minWords, false, x) ==> exists y :: 0 <= y < |w1| && w1[y] == w2[x]
  {
    if InRun(w1, w2, minWords, true, x) {
      var i: nat, j: nat :| Covers(w1, w2, minWords, i, j, true, x);
      RunLenMeaning(w1, w2, i, j);
      assert w2[x - i + j] == w1[x];
    }
    if InRun(w1, w2, minWords, false, x) {
      var i: nat, j: nat :| Covers(w1, w2, minWords, i, j, false, x);
      RunLenMeaning(w1, w2, i, j);
      assert w1[x - j + i] == w2[x - j + j];
    }
  }

  /** The set one side ends up with: every index some qualifying run covers. */
  ghost function MarkedSet(w1: seq<string>, w2: seq<string>, minWords: int, inFirst: bool): set<int>
  {
    set x | 0 <= x < (if inFirst then |w1| else |w2|) && InRun(w1, w2, minWords, inFirst, x)
  }

  /** The index sets `MatchIndices` returns are the two marked sets. */
  lemma MarkedSetIff(w1: seq<string>, w2: seq<string>, minWords: int, inFirst: bool, x: int)
    ensures x in MarkedSet(w1, w2, minWords, inFirst) <==> InRun(w1, w2, minWords, inFirst, x)
  {
    InRunBounds(w1, w2, minWords, x);
  }

  lemma {:induction false} RangeSize(lo: int, hi: int)
    requires lo <= hi
    ensures |Range(lo, hi)| == hi - lo
    decreases hi - lo
  {
    if lo < hi {
      RangeSize(lo, hi - 1);
      InRange(lo, hi - 1, hi - 1);
    }
  }

  lemma SubsetSize(a: set<int>, b: set<int>)
    requires a <= b
    ensures |a| <= |b|
  {
    assert b == a + (b - a);
  }

  /** A side never has more marked indices than its text has tokens. */
  lemma MarkedSetSize(w1: seq<string>, w2: seq<string>, minWords: int, inFirst: bool)
    ensures |MarkedSet(w1, w2, minWords, inFirst)| <= (if inFirst then |w1| else |w2|)
  {
    var n := if inFirst then |w1| else |w2|;
    forall x | x in MarkedSet(w1, w2, minWords, inFirst)
      ensures x in Range(0, n)
    {
      InRange(0, n, x);
    }
    SubsetSize(MarkedSet(w1, w2, minWords, inFirst), Range(0, n));
    RangeSize(0, n);
  }

  /** A text of at least `minWords` tokens compared with itself has all of its
      indices marked, so as many as it has tokens. */
  lemma SelfMarkedCount(w: seq<string>, minWords: int)
    requires |w| >= minWords
    ensures MarkedSet(w, w, minWords, true) == Range(0, |w|)
    ensures |MarkedSet(w, w, minWords, true)| == |w|
  {
    forall x
      ensures x in MarkedSet(w, w, minWords, true) <==> x in Range(0, |w|)
    {
      MarkedSetIff(w, w, minWords, true, x);
      InRange(0, |w|, x);
      if 0 <= x < |w| {
        SelfMatchMarksAll(w, minWords, x);
      }
    }
    RangeSize(0, |w|);
  }

  /** Single-spaced words are tokenized into their lower-case forms. */
  lemma TokensJoin(ws: seq<string>)
    requires ws != [] && forall k :: 0 <= k < |ws| ==> IsWord(ws[k])
    ensures Tokens(JoinSpaced(ws)) == LowerAll(ws)
  {
    var t := JoinSpaced(ws);
    assert JsSplit(t) == ws by {
      JsSplitJoin(ws, []);
      assert t + [] == t;
    }
    JsSplitLower(t);
  }

  /** Changing the case of a text does not change its tokens, so neither index set changes. */
  lemma CaseInsensitive(a: string, b: string)
    requires Lower(a) == Lower(b)
    ensures Tokens(a) == Tokens(b)
    ensures Tokens(Lower(a)) == Tokens(a)
  {
    LowerIdempotent(a);
  }
}
