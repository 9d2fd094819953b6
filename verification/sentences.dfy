/**
  Sentence terminators and `OCRApp.cut_sentences`, which splits a caption
  line after its last terminator.
*/
module Sentences {
  import opened Wrappers
  import opened Text

  /** The four characters the engine treats as ending a sentence; the comma is one of them. */
  predicate IsTerminator(c: char)
  {
    c == ',' || c == '.' || c == '!' || c == '?'
  }

  /** Some character of `s` is a terminator. */
  predicate HasTerminator(s: string)
  {
    exists k :: 0 <= k < |s| && IsTerminator(s[k])
  }

  /** The last character of `s` is a terminator. */
  predicate EndsWithTerminator(s: string)
  {
    |s| > 0 && IsTerminator(s[|s| - 1])
  }

  /** Some word of `ws` contains a terminator. */
  predicate AnyTerminator(ws: seq<string>)
  {
    exists k :: 0 <= k < |ws| && HasTerminator(ws[k])
  }

  /** Index of the last terminator in `text[..i + 1]`, or -1 when there is none. */
  function LastTerminator(text: string, i: int): (k: int)
    requires -1 <= i < |text|
    ensures -1 <= k <= i
    ensures k >= 0 ==> IsTerminator(text[k])
    ensures forall m :: k < m <= i ==> !IsTerminator(text[m])
    decreases i + 1
  {
    if i < 0 then -1
    else if IsTerminator(text[i]) then i
    else LastTerminator(text, i - 1)
  }

  /**
    The backward loop of `cut_sentences` from index `i` down to 0: it stops at
    the last terminator in `text[..i + 1]` and strips both halves around it.
    `None` is the fall-through when the loop ends without returning.
  */
  function CutFrom(text: string, i: int): (r: Option<(string, string)>)
    requires -1 <= i < |text|
    ensures var k := LastTerminator(text, i);
      && (r.Some? <==> k >= 0)
      && (r.Some? ==> r.value == (Strip(text[..k + 1]), Strip(text[k + 1..])))
    decreases i + 1
  {
    if i < 0 then None
    else if IsTerminator(text[i]) then
      assert LastTerminator(text, i) == i;
      Some((Strip(text[..i + 1]), Strip(text[i + 1..])))
    else
      assert LastTerminator(text, i) == LastTerminator(text, i - 1);
      CutFrom(text, i - 1)
  }

  /**
    `cut_sentences(text)`: `(head, tail)` where `head` is the stripped prefix
    up to and including the last terminator and `tail` the stripped rest, or
    `None` when `text` has no terminator at all.
  */
  function CutSentences(text: string): (r: Option<(string, string)>)
    ensures r.Some? <==> HasTerminator(text)
    ensures r.Some? ==> EndsWithTerminator(r.value.0) && !HasTerminator(r.value.1)
  {
    LastTerminatorFound(text);
    CutSentencesFacts(text);
    CutFrom(text, |text| - 1)
  }

  /**
    The halves `cut_sentences` returns lie around the last terminator of the
    text: the head is the stripped prefix through it, the tail the stripped
    rest, which holds no terminator.
  */
  lemma {:induction false} CutSentencesHalves(text: string)
    requires HasTerminator(text)
    ensures var k := LastTerminator(text, |text| - 1);
      && 0 <= k < |text|
      && !HasTerminator(text[k + 1..])
      && CutSentences(text) == Some((Strip(text[..k + 1]), Strip(text[k + 1..])))
  {
  }

  /**
    Cutting inverts joining: a stripped head that ends with a terminator,
    a space and a stripped tail without terminators are split back apart.
  */
  lemma {:induction false} CutJoin(head: string, tail: string)
    requires EndsWithTerminator(head) && Stripped(head)
    requires !HasTerminator(tail) && Stripped(tail)
    ensures CutSentences(head + [' '] + tail) == Some((head, tail))
  {
    CutJoinLast(head, tail);
    CutAt(head + [' '] + tail, |head|);
    JoinedHalves(head, tail);
    StripSkipsSpace(' ', tail);
    StripUntouched(head);
    StripUntouched(tail);
  }

  /** When the last terminator sits at `n - 1`, `cut_sentences` strips the halves around `n`. */
  lemma {:induction false} CutAt(text: string, n: int)
    requires 0 < n <= |text| && LastTerminator(text, |text| - 1) == n - 1
    ensures CutSentences(text) == Some((Strip(text[..n]), Strip(text[n..])))
  {
    LastTerminatorFound(text);
  }

  lemma {:induction false} JoinedHalves(head: string, tail: string)
    ensures (head + [' '] + tail)[..|head|] == head
    ensures (head + [' '] + tail)[|head|..] == [' '] + tail
  {
  }

  /** In `head + " " + tail` the last terminator is the last character of `head`. */
  lemma {:induction false} CutJoinLast(head: string, tail: string)
    requires EndsWithTerminator(head) && !HasTerminator(tail)
    ensures var text := head + [' '] + tail;
      LastTerminator(text, |text| - 1) == |head| - 1
  {
    var text := head + [' '] + tail;
    var k := LastTerminator(text, |text| - 1);
    assert text[|head| - 1] == head[|head| - 1];
  }

  lemma {:induction false} CutSentencesFacts(text: string)
    ensures var k := LastTerminator(text, |text| - 1);
      k >= 0 ==> !HasTerminator(text[k + 1..])
    ensures var r := CutFrom(text, |text| - 1);
      r.Some? ==> EndsWithTerminator(r.value.0) && !HasTerminator(r.value.1)
  {
    var k := LastTerminator(text, |text| - 1);
    var r := CutFrom(text, |text| - 1);
    if k >= 0 {
      NoTerminatorAfter(text, k);
      CutParts(text, k);
      assert r.value == (Strip(text[..k + 1]), Strip(text[k + 1..]));
    }
  }

  /** The backward scan finds a terminator exactly when the text has one. */
  lemma {:induction false} LastTerminatorFound(text: string)
    ensures LastTerminator(text, |text| - 1) >= 0 <==> HasTerminator(text)
  {
    var k := LastTerminator(text, |text| - 1);
    if HasTerminator(text) {
      var j :| 0 <= j < |text| && IsTerminator(text[j]);
      assert k >= j;
    }
  }

  lemma {:induction false} CutParts(text: string, k: int)
    requires 0 <= k < |text| && IsTerminator(text[k])
    requires forall m :: k < m <= |text| - 1 ==> !IsTerminator(text[m])
    ensures EndsWithTerminator(Strip(text[..k + 1])) && !HasTerminator(Strip(text[k + 1..]))
  {
    NoTerminatorAfter(text, k);
    CutHead(text, k);
    StripTerminator(text[k + 1..]);
  }

  lemma {:induction false} NoTerminatorAfter(text: string, k: int)
    requires 0 <= k < |text|
    requires forall m :: k < m <= |text| - 1 ==> !IsTerminator(text[m])
    ensures !HasTerminator(text[k + 1..])
  {
    var rest := text[k + 1..];
    assert forall m :: 0 <= m < |rest| ==> rest[m] == text[k + 1 + m];
  }

  lemma {:induction false} CutHead(text: string, k: int)
    requires 0 <= k < |text| && IsTerminator(text[k])
    ensures EndsWithTerminator(Strip(text[..k + 1]))
  {
    var head := text[..k + 1];
    assert head[|head| - 1] == text[k];
    StripKeepsLast(head);
  }

  lemma {:induction false} ConcatTerminator(a: string, b: string)
    ensures HasTerminator(a + b) <==> HasTerminator(a) || HasTerminator(b)
  {
    if HasTerminator(a + b) {
      var k :| 0 <= k < |a + b| && IsTerminator((a + b)[k]);
      if k < |a| {
        assert a[k] == (a + b)[k];
      } else {
        assert b[k - |a|] == (a + b)[k];
      }
    }
    if HasTerminator(a) {
      var k :| 0 <= k < |a| && IsTerminator(a[k]);
      assert (a + b)[k] == a[k];
    }
    if HasTerminator(b) {
      var k :| 0 <= k < |b| && IsTerminator(b[k]);
      assert (a + b)[|a| + k] == b[k];
    }
  }

  /** Stripping removes only whitespace, so it neither adds nor removes terminators. */
  lemma {:induction false} StripTerminator(s: string)
    ensures HasTerminator(Strip(s)) <==> HasTerminator(s)
  {
    TrimLeftTerminator(s);
    TrimRightTerminator(TrimLeft(s));
  }

  lemma {:induction false} TrimLeftTerminator(s: string)
    ensures HasTerminator(TrimLeft(s)) <==> HasTerminator(s)
  {
    TrimLeftSplits(s);
    ConcatTerminator(s[..|s| - |TrimLeft(s)|], TrimLeft(s));
    SpaceNoTerminator(s[..|s| - |TrimLeft(s)|]);
  }

  lemma {:induction false} TrimRightTerminator(s: string)
    ensures HasTerminator(TrimRight(s)) <==> HasTerminator(s)
  {
    TrimRightSplits(s);
    ConcatTerminator(TrimRight(s), s[|TrimRight(s)|..]);
    SpaceNoTerminator(s[|TrimRight(s)|..]);
  }

  lemma {:induction false} SpaceNoTerminator(s: string)
    requires AllSpace(s)
    ensures !HasTerminator(s)
  {
  }

  lemma {:induction false} AnyTerminatorCons(w: string, ws: seq<string>)
    ensures AnyTerminator([w] + ws) <==> HasTerminator(w) || AnyTerminator(ws)
  {
    var all := [w] + ws;
    if AnyTerminator(all) {
      var k :| 0 <= k < |all| && HasTerminator(all[k]);
      if k > 0 {
        assert ws[k - 1] == all[k];
      }
    }
    if AnyTerminator(ws) {
      var k :| 0 <= k < |ws| && HasTerminator(ws[k]);
      assert all[k + 1] == ws[k];
    }
    assert all[0] == w;
  }

  /** `' '.join` only adds spaces: the joined text has a terminator exactly when a word has one. */
  lemma {:induction false} JoinTerminator(ws: seq<string>)
    ensures HasTerminator(Join(ws)) <==> AnyTerminator(ws)
    decreases |ws|
  {
    if |ws| == 1 {
      assert ws == [ws[0]] + [];
      AnyTerminatorCons(ws[0], []);
    } else if |ws| > 1 {
      JoinTerminator(ws[1..]);
      ConcatTerminator(ws[0] + [' '], Join(ws[1..]));
      ConcatTerminator(ws[0], [' ']);
      assert !IsTerminator([' '][0]);
      assert ws == [ws[0]] + ws[1..];
      AnyTerminatorCons(ws[0], ws[1..]);
    }
  }

  /** `str.split()` only drops whitespace: the text has a terminator exactly when one of its words has. */
  lemma {:induction false} SplitTerminator(s: string)
    ensures HasTerminator(s) <==> AnyTerminator(Split(s))
    decreases |s|
  {
    TrimLeftTerminator(s);
    var t := TrimLeft(s);
    if t != [] {
      var w := WordPrefix(t);
      var rest := t[|w|..];
      SplitUnfold(s);
      WordPrefixSplits(t);
      ConcatTerminator(w, rest);
      SplitTerminator(rest);
      AnyTerminatorCons(w, Split(rest));
    }
  }

  lemma {:induction false} SplitUnfold(s: string)
    requires TrimLeft(s) != []
    ensures Split(s) == [WordPrefix(TrimLeft(s))] + Split(TrimLeft(s)[|WordPrefix(TrimLeft(s))|..])
  {
  }

  lemma {:induction false} WordPrefixSplits(t: string)
    ensures t == WordPrefix(t) + t[|WordPrefix(t)|..]
  {
  }
}
