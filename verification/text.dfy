/**
  Whitespace handling as Python defines it for `str.isspace`, `str.strip()`,
  `str.split()` (no argument) and `' '.join`.  Strings are `seq<char>`.
*/
module Text {

  /** The characters for which Python's `str.isspace()` is true. */
  predicate IsSpace(c: char)
  {
    || c == ' '
    || ('\t' <= c <= '\r')
    || ('\U{1C}' <= c <= '\U{1F}')
    || c == '\U{85}' || c == '\U{A0}' || c == '\U{1680}'
    || ('\U{2000}' <= c <= '\U{200A}')
    || c == '\U{2028}' || c == '\U{2029}' || c == '\U{202F}' || c == '\U{205F}' || c == '\U{3000}'
  }

  predicate AllSpace(s: string)
  {
    forall k :: 0 <= k < |s| ==> IsSpace(s[k])
  }

  predicate NoSpace(s: string)
  {
    forall k :: 0 <= k < |s| ==> !IsSpace(s[k])
  }

  /** What `str.split()` produces: a non-empty run without whitespace. */
  predicate IsWord(w: string)
  {
    |w| > 0 && NoSpace(w)
  }

  predicate AllWords(ws: seq<string>)
  {
    forall k :: 0 <= k < |ws| ==> IsWord(ws[k])
  }

  /** `str.lstrip()`: drops the leading whitespace (`TrimLeftSplits` says it drops nothing else). */
  function TrimLeft(s: string): (r: string)
    ensures |r| <= |s|
    ensures r == [] || !IsSpace(r[0])
    decreases |s|
  {
    if s != [] && IsSpace(s[0]) then TrimLeft(s[1..]) else s
  }

  /** `str.rstrip()`: drops the trailing whitespace (`TrimRightSplits` says it drops nothing else). */
  function TrimRight(s: string): (r: string)
    ensures |r| <= |s|
    ensures r == [] || !IsSpace(r[|r| - 1])
    decreases |s|
  {
    if s != [] && IsSpace(s[|s| - 1]) then TrimRight(s[..|s| - 1]) else s
  }

  /** Neither end is whitespace: what `str.strip()` leaves. */
  predicate Stripped(s: string)
  {
    s == [] || (!IsSpace(s[0]) && !IsSpace(s[|s| - 1]))
  }

  /** `str.strip()`: whitespace removed from both ends, and only there (`TrimLeftSplits`, `TrimRightSplits`). */
  function Strip(s: string): (r: string)
    ensures |r| <= |s|
    ensures Stripped(r)
  {
    var t := TrimLeft(s);
    TrimRightSplits(t);
    TrimRight(t)
  }

  /** `s` is a run of whitespace followed by `TrimLeft(s)`. */
  lemma {:induction false} TrimLeftSplits(s: string)
    ensures var n := |s| - |TrimLeft(s)|;
      AllSpace(s[..n]) && s == s[..n] + TrimLeft(s)
    decreases |s|
  {
    if s != [] && IsSpace(s[0]) {
      var s1 := s[1..];
      TrimLeftSplits(s1);
      var n := |s| - |TrimLeft(s)|;
      assert s[..n] == [s[0]] + s1[..n - 1];
      assert s == [s[0]] + s1;
    } else {
      assert s[..0] == [];
    }
  }

  /** `s` is `TrimRight(s)` followed by a run of whitespace. */
  lemma {:induction false} TrimRightSplits(s: string)
    ensures var n := |TrimRight(s)|;
      AllSpace(s[n..]) && s == TrimRight(s) + s[n..]
    decreases |s|
  {
    if s != [] && IsSpace(s[|s| - 1]) {
      var s1 := s[..|s| - 1];
      TrimRightSplits(s1);
      var n := |TrimRight(s)|;
      assert s[n..] == s1[n..] + [s[|s| - 1]];
      assert s == s1 + [s[|s| - 1]];
    } else {
      assert s[|s|..] == [];
    }
  }

  /** `strip()` yields the empty string exactly when the input is all whitespace. */
  lemma {:induction false} StripEmpty(s: string)
    ensures Strip(s) == [] <==> AllSpace(s)
  {
    var t := TrimLeft(s);
    TrimLeftSplits(s);
    TrimRightSplits(t);
    var a := |s| - |t|;
    if Strip(s) != [] {
      assert t[0] == s[a];
    }
  }

  /** Stripping a string that ends in a non-space character keeps that character last. */
  lemma {:induction false} StripKeepsLast(s: string)
    requires s != [] && !IsSpace(s[|s| - 1])
    ensures Strip(s) != [] && Strip(s)[|Strip(s)| - 1] == s[|s| - 1]
  {
    var t := TrimLeft(s);
    TrimLeftSplits(s);
    assert t != [] && t[|t| - 1] == s[|s| - 1];
    assert TrimRight(t) == t;
  }

  /** A string that neither starts nor ends with whitespace is its own strip. */
  lemma {:induction false} StripUntouched(s: string)
    requires Stripped(s)
    ensures Strip(s) == s
  {
    assert TrimLeft(s) == s;
    assert TrimRight(s) == s;
  }

  /** Leading whitespace does not change the strip. */
  lemma {:induction false} StripSkipsSpace(c: char, s: string)
    requires IsSpace(c)
    ensures Strip([c] + s) == Strip(s)
  {
    assert ([c] + s)[1..] == s;
    assert TrimLeft([c] + s) == TrimLeft(s);
  }

  /** A single non-space character is its own strip. */
  lemma {:induction false} StripSingle(c: char)
    requires !IsSpace(c)
    ensures Strip([c]) == [c]
  {
    assert TrimLeft([c]) == [c];
    assert TrimRight([c]) == [c];
  }

  /** The longest prefix of `s` without whitespace. */
  function WordPrefix(s: string): (w: string)
    ensures |w| <= |s| && w == s[..|w|] && NoSpace(w)
    ensures |w| == |s| || IsSpace(s[|w|])
    decreases |s|
  {
    if s != [] && !IsSpace(s[0]) then [s[0]] + WordPrefix(s[1..]) else []
  }

  /** `str.split()` with no argument: the maximal runs of non-whitespace characters, in order. */
  function Split(s: string): (ws: seq<string>)
    ensures AllWords(ws)
    decreases |s|
  {
    var t := TrimLeft(s);
    if t == [] then []
    else
      var w := WordPrefix(t);
      WordPrefixStarts(t);
      var ws := Split(t[|w|..]);
      WordsCons(w, ws);
      [w] + ws
  }

  lemma {:induction false} WordPrefixStarts(t: string)
    requires t != [] && !IsSpace(t[0])
    ensures |WordPrefix(t)| > 0
  {
  }

  lemma {:induction false} WordsCons(w: string, ws: seq<string>)
    requires IsWord(w) && AllWords(ws)
    ensures AllWords([w] + ws)
  {
  }

  /** The words of `ws` joined with one space between neighbours. */
  function Join(ws: seq<string>): (s: string)
    ensures AllWords(ws) && ws != [] ==> s != [] && !IsSpace(s[0]) && !IsSpace(s[|s| - 1])
    ensures ws == [] ==> s == []
  {
    if |ws| == 0 then []
    else if |ws| == 1 then ws[0]
    else ws[0] + [' '] + Join(ws[1..])
  }

  lemma {:induction false} WordPrefixOfWord(w: string, rest: string)
    requires NoSpace(w)
    requires rest == [] || IsSpace(rest[0])
    ensures WordPrefix(w + rest) == w
    decreases |w|
  {
    if w != [] {
      assert (w + rest)[1..] == w[1..] + rest;
      WordPrefixOfWord(w[1..], rest);
    }
  }

  /** A word followed by whitespace or nothing is the first thing `Split` produces. */
  lemma {:induction false} SplitWordThen(w: string, rest: string)
    requires IsWord(w)
    requires rest == [] || IsSpace(rest[0])
    ensures Split(w + rest) == [w] + Split(rest)
  {
    var s := w + rest;
    assert TrimLeft(s) == s;
    WordPrefixOfWord(w, rest);
    assert s[|w|..] == rest;
  }

  lemma {:induction false} SplitSkipsSpace(c: char, s: string)
    requires IsSpace(c)
    ensures Split([c] + s) == Split(s)
  {
    assert ([c] + s)[1..] == s;
    assert TrimLeft([c] + s) == TrimLeft(s);
  }

  /** Splitting a joined sequence of words gives the words back. */
  lemma {:induction false} SplitJoin(ws: seq<string>)
    requires AllWords(ws)
    ensures Split(Join(ws)) == ws
    decreases |ws|
  {
    if |ws| == 0 {
      JoinNone(ws);
      SplitEmpty();
    } else if |ws| == 1 {
      JoinOne(ws);
      SplitOneWord(ws[0]);
    } else {
      WordsRest(ws);
      SplitJoin(ws[1..]);
      SplitJoinChain(ws);
    }
  }

  lemma {:induction false} WordsRest(ws: seq<string>)
    requires AllWords(ws) && |ws| > 0
    ensures AllWords(ws[1..])
  {
  }

  lemma {:induction false} SplitJoinChain(ws: seq<string>)
    requires AllWords(ws) && |ws| > 1
    requires Split(Join(ws[1..])) == ws[1..]
    ensures Split(Join(ws)) == ws
  {
    SplitJoinStep(ws);
    assert ws == [ws[0]] + ws[1..];
  }

  lemma {:induction false} JoinNone(ws: seq<string>)
    requires |ws| == 0
    ensures Join(ws) == [] && ws == []
  {
  }

  lemma {:induction false} JoinOne(ws: seq<string>)
    requires |ws| == 1
    ensures Join(ws) == ws[0] && ws == [ws[0]]
  {
  }

  lemma SplitEmpty()
    ensures Split([]) == []
  {
  }

  lemma {:induction false} SplitOneWord(w: string)
    requires IsWord(w)
    ensures Split(w) == [w]
  {
    assert w + [] == w;
    SplitWordThen(w, []);
    SplitEmpty();
  }

  lemma {:induction false} SplitJoinStep(ws: seq<string>)
    requires AllWords(ws) && |ws| > 1
    ensures Split(Join(ws)) == [ws[0]] + Split(Join(ws[1..]))
  {
    var rest := Join(ws[1..]);
    assert Join(ws) == ws[0] + ([' '] + rest);
    SplitWordThen(ws[0], [' '] + rest);
    SplitSkipsSpace(' ', rest);
  }
}
