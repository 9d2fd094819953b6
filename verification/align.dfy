/**
  `OCRApp.merge_texts`: merge two caption readings word by word, collapsing
  the longest run of words they share.
*/
module Align {
  import opened Text

  /** Length of the longest common prefix of `u` and `v`: the reference definition of a run. */
  function CommonPrefix(u: seq<string>, v: seq<string>): (n: nat)
    ensures n <= |u| && n <= |v| && u[..n] == v[..n]
    ensures n < |u| && n < |v| ==> u[n] != v[n]
    decreases |u|
  {
    if u != [] && v != [] && u[0] == v[0] then 1 + CommonPrefix(u[1..], v[1..]) else 0
  }

  /** Length of the run of equal words starting at `w1[i]` and `w2[j]` (0 when those words differ). */
  function RunAt(w1: seq<string>, w2: seq<string>, i: nat, j: nat): (n: nat)
    requires i <= |w1| && j <= |w2|
    ensures i + n <= |w1| && j + n <= |w2|
    decreases |w1| - i
  {
    if i < |w1| && j < |w2| && w1[i] == w2[j] then 1 + RunAt(w1, w2, i + 1, j + 1) else 0
  }

  /** The run from `(i, j)` is the common prefix of the two suffixes there. */
  lemma {:induction false} RunAtIsPrefix(w1: seq<string>, w2: seq<string>, i: nat, j: nat)
    requires i <= |w1| && j <= |w2|
    ensures RunAt(w1, w2, i, j) == CommonPrefix(w1[i..], w2[j..])
    decreases |w1| - i
  {
    if i < |w1| && j < |w2| && w1[i] == w2[j] {
      RunAtIsPrefix(w1, w2, i + 1, j + 1);
      assert w1[i..][1..] == w1[i + 1..];
      assert w2[j..][1..] == w2[j + 1..];
    }
  }

  /** The run from `(i, j)` names two equal slices and cannot be extended. */
  lemma {:induction false} RunAtIsRun(w1: seq<string>, w2: seq<string>, i: nat, j: nat)
    requires i <= |w1| && j <= |w2|
    ensures var n := RunAt(w1, w2, i, j);
      && w1[i..i + n] == w2[j..j + n]
      && (i + n == |w1| || j + n == |w2| || w1[i + n] != w2[j + n])
  {
    RunAtIsPrefix(w1, w2, i, j);
    var n := RunAt(w1, w2, i, j);
    assert w1[i..][..n] == w1[i..i + n];
    assert w2[j..][..n] == w2[j..j + n];
    if i + n < |w1| && j + n < |w2| {
      assert w1[i..][n] == w1[i + n];
      assert w2[j..][n] == w2[j + n];
    }
  }

  /**
    The inner `while` loop of `merge_texts`: grows `k` while the words after
    the first match keep agreeing.
  */
  function Extend(w1: seq<string>, w2: seq<string>, i: nat, j: nat, k: nat): (n: nat)
    requires i + k <= |w1| && j + k <= |w2|
    ensures k <= n && i + n <= |w1| && j + n <= |w2|
    decreases |w1| - i - k
  {
    if i + k < |w1| && j + k < |w2| && w1[i + k] == w2[j + k] then Extend(w1, w2, i, j, k + 1) else k
  }

  /**
    The best run found so far: `match_start` is `j` and `match_length` is
    `length`; `i` is where the run starts in the first list, which the source
    does not keep but which decides the tie-break.  `NoMatch` is the initial
    state, with no start recorded and a length of zero.
  */
  datatype Match = NoMatch | Match(i: nat, j: nat, length: nat)
  {
    function Len(): nat
    {
      if Match? then length else 0
    }

    /** Where the first list lands inside the merged list. */
    function Offset(): nat
    {
      if Match? then j else 0
    }
  }

  /** One visit of the double loop at pair `(i, j)`: a strictly longer run replaces the current one. */
  function Consider(w1: seq<string>, w2: seq<string>, i: nat, j: nat, m: Match): (r: Match)
    requires i < |w1| && j < |w2|
    ensures r.Len() >= m.Len()
    ensures r != m ==> r.Match? && r.i == i && r.j == j && r.length > m.Len() && w1[i] == w2[j]
  {
    if w1[i] == w2[j] then
      var k := Extend(w1, w2, i, j, 1);
      if k > m.Len() then Match(i, j, k) else m
    else m
  }

  /** The inner `for j` loop for row `i`, from column `j` on. */
  function ScanRow(w1: seq<string>, w2: seq<string>, i: nat, j: nat, m: Match): (r: Match)
    requires i < |w1| && j <= |w2|
    ensures r.Len() >= m.Len()
    ensures r != m ==> r.Match? && r.i == i && j <= r.j < |w2|
    decreases |w2| - j
  {
    if j == |w2| then m else ScanRow(w1, w2, i, j + 1, Consider(w1, w2, i, j, m))
  }

  /** The outer `for i` loop, from row `i` on. */
  function ScanRows(w1: seq<string>, w2: seq<string>, i: nat, m: Match): (r: Match)
    requires i <= |w1|
    ensures r.Len() >= m.Len()
    decreases |w1| - i
  {
    if i == |w1| then m else ScanRows(w1, w2, i + 1, ScanRow(w1, w2, i, 0, m))
  }

  /** Pair `(a, b)` is visited before `(i, j)`: ascending `i`, then ascending `j`. */
  predicate Before(a: nat, b: nat, i: nat, j: nat)
  {
    a < i || (a == i && b < j)
  }

  /**
    `m` is what the scan should hold once every pair before `(i, j)` has been
    visited: the longest run among them, the first one in scan order among
    equally long runs, and `NoMatch` when none of those pairs has equal words.
  */
  predicate BestUpTo(w1: seq<string>, w2: seq<string>, m: Match, i: nat, j: nat)
  {
    && (m.NoMatch? ==>
          forall a: nat, b: nat :: a < |w1| && b < |w2| && Before(a, b, i, j) ==> RunAt(w1, w2, a, b) == 0)
    && (m.Match? ==>
          && m.i < |w1| && m.j < |w2| && Before(m.i, m.j, i, j)
          && m.length == RunAt(w1, w2, m.i, m.j) && m.length >= 1
          && (forall a: nat, b: nat :: a < |w1| && b < |w2| && Before(a, b, i, j) ==> RunAt(w1, w2, a, b) <= m.length)
          && (forall a: nat, b: nat :: a < |w1| && b < |w2| && Before(a, b, m.i, m.j) ==> RunAt(w1, w2, a, b) < m.length))
  }

  /** The search over every pair of positions. */
  predicate Best(w1: seq<string>, w2: seq<string>, m: Match)
  {
    BestUpTo(w1, w2, m, |w1|, 0)
  }

  /**
    The double loop of `merge_texts`: the longest run of words shared by `w1`
    and `w2`, the first one in ascending-`i`-then-`j` order among equally
    long runs, and `NoMatch` exactly when no word of `w1` equals a word of `w2`.
  */
  function FindMatch(w1: seq<string>, w2: seq<string>): (m: Match)
    ensures Best(w1, w2, m)
    ensures m.NoMatch? <==> forall p, q :: 0 <= p < |w1| && 0 <= q < |w2| ==> w1[p] != w2[q]
    ensures m.Match? ==>
      && m.i + m.length <= |w1| && m.j + m.length <= |w2|
      && w1[m.i..m.i + m.length] == w2[m.j..m.j + m.length]
  {
    ScanRowsBest(w1, w2, 0, NoMatch);
    var m := ScanRows(w1, w2, 0, NoMatch);
    BestNoMatch(w1, w2, m);
    m
  }

  /** The `while` loop, entered with `k` words already matched, adds the run that follows them. */
  lemma {:induction false} ExtendIsRun(w1: seq<string>, w2: seq<string>, i: nat, j: nat, k: nat)
    requires i + k <= |w1| && j + k <= |w2|
    ensures Extend(w1, w2, i, j, k) == k + RunAt(w1, w2, i + k, j + k)
    decreases |w1| - i - k
  {
    if i + k < |w1| && j + k < |w2| && w1[i + k] == w2[j + k] {
      ExtendIsRun(w1, w2, i, j, k + 1);
    }
  }

  /** A run starts at `(i, j)` exactly when the two words there are equal; it is what the `while` loop measures. */
  lemma {:induction false} RunAtStart(w1: seq<string>, w2: seq<string>, i: nat, j: nat)
    requires i < |w1| && j < |w2|
    ensures RunAt(w1, w2, i, j) > 0 <==> w1[i] == w2[j]
    ensures w1[i] == w2[j] ==> Extend(w1, w2, i, j, 1) == RunAt(w1, w2, i, j)
  {
    if w1[i] == w2[j] {
      ExtendIsRun(w1, w2, i, j, 1);
    }
  }

  lemma {:induction false} ConsiderBest(w1: seq<string>, w2: seq<string>, i: nat, j: nat, m: Match)
    requires i < |w1| && j < |w2|
    requires BestUpTo(w1, w2, m, i, j)
    ensures BestUpTo(w1, w2, Consider(w1, w2, i, j, m), i, j + 1)
  {
    RunAtStart(w1, w2, i, j);
  }

  lemma {:induction false} NextRowBest(w1: seq<string>, w2: seq<string>, i: nat, m: Match)
    requires i < |w1|
    requires BestUpTo(w1, w2, m, i, |w2|)
    ensures BestUpTo(w1, w2, m, i + 1, 0)
  {
  }

  lemma {:induction false} ScanRowBest(w1: seq<string>, w2: seq<string>, i: nat, j: nat, m: Match)
    requires i < |w1| && j <= |w2|
    requires BestUpTo(w1, w2, m, i, j)
    ensures BestUpTo(w1, w2, ScanRow(w1, w2, i, j, m), i, |w2|)
    decreases |w2| - j
  {
    if j < |w2| {
      ConsiderBest(w1, w2, i, j, m);
      ScanRowBest(w1, w2, i, j + 1, Consider(w1, w2, i, j, m));
    }
  }

  lemma {:induction false} ScanRowsBest(w1: seq<string>, w2: seq<string>, i: nat, m: Match)
    requires i <= |w1|
    requires BestUpTo(w1, w2, m, i, 0)
    ensures Best(w1, w2, ScanRows(w1, w2, i, m))
    decreases |w1| - i
  {
    if i < |w1| {
      ScanRowBest(w1, w2, i, 0, m);
      NextRowBest(w1, w2, i, ScanRow(w1, w2, i, 0, m));
      ScanRowsBest(w1, w2, i + 1, ScanRow(w1, w2, i, 0, m));
    }
  }

  lemma {:induction false} BestNoMatch(w1: seq<string>, w2: seq<string>, m: Match)
    requires Best(w1, w2, m)
    ensures m.NoMatch? <==> forall p, q :: 0 <= p < |w1| && 0 <= q < |w2| ==> w1[p] != w2[q]
    ensures m.Match? ==> m.i + m.length <= |w1| && m.j + m.length <= |w2|
    ensures m.Match? ==> w1[m.i..m.i + m.length] == w2[m.j..m.j + m.length]
  {
    if m.NoMatch? {
      forall a, b | 0 <= a < |w1| && 0 <= b < |w2|
        ensures w1[a] != w2[b]
      {
        RunAtStart(w1, w2, a, b);
      }
    } else {
      assert RunAt(w1, w2, m.i, m.j) > 0;
      RunAtStart(w1, w2, m.i, m.j);
      RunAtIsRun(w1, w2, m.i, m.j);
    }
  }

  /**
    The double loop of `merge_texts` as the source writes it, with the
    `while` that extends a run; it computes exactly `FindMatch`.
  */
  method LongestRun(w1: seq<string>, w2: seq<string>) returns (m: Match)
    ensures m == FindMatch(w1, w2)
    ensures Best(w1, w2, m)
  {
    m := NoMatch;
    var i := 0;
    while i < |w1|
      invariant 0 <= i <= |w1|
      invariant ScanRows(w1, w2, i, m) == FindMatch(w1, w2)
    {
      ghost var rowStart := m;
      var j := 0;
      while j < |w2|
        invariant 0 <= j <= |w2|
        invariant ScanRow(w1, w2, i, j, m) == ScanRow(w1, w2, i, 0, rowStart)
      {
        if w1[i] == w2[j] {
          var k := 1;
          while i + k < |w1| && j + k < |w2| && w1[i + k] == w2[j + k]
            invariant 1 <= k && i + k <= |w1| && j + k <= |w2|
            invariant Extend(w1, w2, i, j, k) == Extend(w1, w2, i, j, 1)
            decreases |w1| - i - k
          {
            k := k + 1;
          }
          if k > m.Len() {
            m := Match(i, j, k);
          }
        }
        j := j + 1;
      }
      i := i + 1;
    }
  }

  /**
    The word list `merge_texts` joins: `w1` replaces the matched run inside
    `w2`; with no match, `w1` comes first and `w2` follows.
  */
  function MergeWords(w1: seq<string>, w2: seq<string>): (r: seq<string>)
    ensures |r| == |w1| + |w2| - FindMatch(w1, w2).Len()
    ensures var o := FindMatch(w1, w2).Offset(); o + |w1| <= |r| && r[o..o + |w1|] == w1
    ensures |r| >= |w1| && |r| >= |w2|
    ensures forall x :: x in r <==> x in w1 || x in w2
  {
    var m := FindMatch(w1, w2);
    if m.Match? then
      MatchedWordsInFirst(w1, w2, m.i, m.j, m.length);
      w2[..m.j] + w1 + w2[m.j + m.length..]
    else
      w1 + w2
  }

  /** The words of `w2` that the merge drops, `w2[j..j + n]`, are words of `w1`. */
  lemma {:induction false} MatchedWordsInFirst(w1: seq<string>, w2: seq<string>, i: nat, j: nat, n: nat)
    requires i + n <= |w1| && j + n <= |w2|
    requires w1[i..i + n] == w2[j..j + n]
    ensures forall x :: x in w2 ==> x in w2[..j] || x in w1 || x in w2[j + n..]
  {
    forall x | x in w2
      ensures x in w2[..j] || x in w1 || x in w2[j + n..]
    {
      var p :| 0 <= p < |w2| && w2[p] == x;
      if p < j {
        assert w2[..j][p] == x;
      } else if p < j + n {
        assert w2[j..j + n][p - j] == x;
        assert w1[i..i + n][p - j] == w1[i + p - j];
      } else {
        assert w2[j + n..][p - j - n] == x;
      }
    }
  }

  /**
    Where the words of `w2` end up: its part before the matched run opens the
    merged list and its part after the run closes it, both in their order,
    so `w2` is the merged list with `w1` in place of the matched run.  With
    no match, the merged list is `w1` followed by `w2`.
  */
  lemma {:induction false} MergeWordsOrder(w1: seq<string>, w2: seq<string>)
    ensures var m := FindMatch(w1, w2); var r := MergeWords(w1, w2);
      m.Match? ==>
        && m.j + |w1| <= |r|
        && w2 == r[..m.j] + w1[m.i..m.i + m.length] + r[m.j + |w1|..]
    ensures var m := FindMatch(w1, w2); var r := MergeWords(w1, w2);
      m.NoMatch? ==> r[..|w1|] == w1 && r[|w1|..] == w2
  {
    var m := FindMatch(w1, w2);
    var r := MergeWords(w1, w2);
    if m.Match? {
      var before, after := w2[..m.j], w2[m.j + m.length..];
      assert r == before + w1 + after;
      assert r[..m.j] == before;
      assert r[m.j + |w1|..] == after;
      assert w2 == before + w2[m.j..m.j + m.length] + after;
    } else {
      assert r == w1 + w2;
    }
  }

  /** `merge_texts(text1, text2)`: split both, merge the word lists, join with single spaces. */
  function MergeTexts(text1: string, text2: string): (r: string)
    ensures Split(r) == MergeWords(Split(text1), Split(text2))
    ensures Join(Split(r)) == r
  {
    var ws := MergeWords(Split(text1), Split(text2));
    MergedAreWords(Split(text1), Split(text2));
    SplitJoin(ws);
    Join(ws)
  }

  lemma {:induction false} MergedAreWords(w1: seq<string>, w2: seq<string>)
    requires AllWords(w1) && AllWords(w2)
    ensures AllWords(MergeWords(w1, w2))
  {
    var r := MergeWords(w1, w2);
    forall k | 0 <= k < |r|
      ensures IsWord(r[k])
    {
      assert r[k] in r;
    }
  }

  /** With no word in common the lists are simply concatenated, the first one first. */
  lemma {:induction false} MergeDisjoint(w1: seq<string>, w2: seq<string>)
    requires forall a, b :: 0 <= a < |w1| && 0 <= b < |w2| ==> w1[a] != w2[b]
    ensures MergeWords(w1, w2) == w1 + w2
  {
  }

  /** An empty operand leaves the other one's words unchanged. */
  lemma {:induction false} MergeEmpty(w: seq<string>)
    ensures MergeWords([], w) == w
    ensures MergeWords(w, []) == w
  {
    assert [] + w == w;
    assert w + [] == w;
  }

  /** Merging a list with itself gives it back: the whole list is the longest run. */
  lemma {:induction false} MergeSelf(w: seq<string>)
    ensures MergeWords(w, w) == w
  {
    var m := FindMatch(w, w);
    if w != [] {
      RunSelf(w, 0);
      assert m.Match?;
      assert m.length >= |w|;
      assert m.i == 0 && m.j == 0;
      assert w[..0] + w + w[|w|..] == w;
    }
  }

  /** A list agrees with itself from any position to its end. */
  lemma {:induction false} RunSelf(w: seq<string>, i: nat)
    requires i <= |w|
    ensures RunAt(w, w, i, i) == |w| - i
    decreases |w| - i
  {
    if i < |w| {
      RunSelf(w, i + 1);
    }
  }

  /** `["a", "b", "c"]` merged into `["b", "c", "d"]`: the shared run "b c" is collapsed. */
  lemma MergeOverlapExample()
    ensures MergeWords(["a", "b", "c"], ["b", "c", "d"]) == ["a", "b", "c", "d"]
  {
    var w1 := ["a", "b", "c"];
    var w2 := ["b", "c", "d"];
    OverlapMatch();
    assert w2[..0] + w1 + w2[2..] == ["a", "b", "c", "d"];
  }

  lemma OverlapMatch()
    ensures FindMatch(["a", "b", "c"], ["b", "c", "d"]) == Match(1, 0, 2)
  {
    var w1 := ["a", "b", "c"];
    var w2 := ["b", "c", "d"];
    var m := FindMatch(w1, w2);
    assert RunAt(w1, w2, 1, 0) == 2 by {
      assert w1[1..3] == w2[0..2];
    }
    assert m.Match? && m.length >= 2;
    assert w1[0..2] != w2[0..2] by { assert w1[0] != w2[0]; }
    assert w1[0..2] != w2[1..3] by { assert w1[0] != w2[1]; }
    assert w1[1..3] != w2[1..3] by { assert w1[1] != w2[1]; }
    assert w1[0..3] != w2[0..3] by { assert w1[0] != w2[0]; }
  }

  /**
    Two one-word runs, "x" at `(0, 2)` and "y" at `(1, 0)`: the strict `>`
    keeps the one met first, so `w1` lands after "y z" and not at the front.
  */
  lemma MergeTieBreakExample()
    ensures MergeWords(["x", "y"], ["y", "z", "x"]) == ["y", "z", "x", "y"]
  {
    var w1 := ["x", "y"];
    var w2 := ["y", "z", "x"];
    TieBreakMatch();
    assert w2[..2] + w1 + w2[3..] == ["y", "z", "x", "y"];
  }

  lemma TieBreakMatch()
    ensures FindMatch(["x", "y"], ["y", "z", "x"]) == Match(0, 2, 1)
  {
    var w1 := ["x", "y"];
    var w2 := ["y", "z", "x"];
    var m := FindMatch(w1, w2);
    assert RunAt(w1, w2, 0, 2) == 1 by {
      assert w1[0..1] == w2[2..3];
    }
    assert m.Match? && m.length >= 1;
    assert m.length == 1 by {
      assert w1[0..2] != w2[0..2] by { assert w1[0] != w2[0]; }
      assert w1[0..2] != w2[1..3] by { assert w1[0] != w2[1]; }
    }
    assert m.i == 0 by {
      assert !Before(0, 2, m.i, m.j);
    }
    assert m.j == 2 by {
      assert w1[0] != w2[0] && w1[0] != w2[1];
      assert w1[m.i..m.i + 1] == w2[m.j..m.j + 1];
    }
  }
}
