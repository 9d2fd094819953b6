/**
  `OCRApp.process_text`: the reconciliation step that folds one OCR snapshot
  into the `previous_text` buffer and decides what to emit.  The buffer is
  passed in and returned instead of living in the object.
*/
module Engine {
  import opened Wrappers
  import opened Text
  import opened Sentences
  import opened Align

  /** An end text longer than this many characters counts as a complete sentence. */
  const CompleteLength := 50

  /** The buffer starts empty when the application starts. */
  const InitialBuffer: string := ""

  /**
    What one call of `process_text` returns (`None` when the function falls
    off its end) and what it leaves in `previous_text`.
  */
  datatype Step = Step(output: Option<string>, buffer: string)

  /** One call of `process_text` on a snapshot, with the buffer holding `buffer` beforehand. */
  function ProcessText(buffer: string, snapshot: string): (r: Step)
    ensures r.output.None? ==> r.buffer == buffer && EndsWithTerminator(snapshot)
    ensures r.output.Some? ==> r.buffer == r.output.value || (EndsWithTerminator(snapshot) && r.buffer == snapshot)
    ensures !HasTerminator(snapshot) ==> !HasTerminator(r.buffer)
  {
    if !HasTerminator(snapshot) then NoTerminatorStep(buffer, snapshot)
    else if !EndsWithTerminator(snapshot) then InnerTerminatorStep(buffer, snapshot)
    else EndTerminatorStep(buffer, snapshot)
  }

  /**
    Snapshot without a terminator: merge it into the buffer; when the merged
    text has a terminator keep only what follows the last one.
  */
  function NoTerminatorStep(buffer: string, snapshot: string): (r: Step)
    requires !HasTerminator(snapshot)
    ensures r.output == Some(r.buffer) && !HasTerminator(r.buffer)
    ensures var merged := MergeTexts(buffer, snapshot);
      r.buffer == merged || (HasTerminator(merged) && r.buffer == CutSentences(merged).value.1)
    ensures !HasTerminator(buffer) ==> r.buffer == MergeTexts(buffer, snapshot)
  {
    var merged := MergeTexts(buffer, snapshot);
    MergeTerminator(buffer, snapshot);
    if HasTerminator(merged) then
      var tail := CutSentences(merged).value.1;
      Step(Some(tail), tail)
    else
      Step(Some(merged), merged)
  }

  /**
    The forward loop over the merged text in the terminator-inside branch.
    Both arms of its body return, so only `merged[0]` is ever looked at; the
    loop falls through (`None`) only when `merged` is empty.
  */
  function ForwardScan(merged: string): (r: Option<string>)
    ensures r.None? <==> merged == []
    ensures r.Some? ==> |r.value| <= |merged|
    ensures r.Some? ==> (r.value == merged <==> !IsTerminator(merged[0]))
  {
    if |merged| == 0 then None
    else if IsTerminator(merged[0]) then Some(Strip(merged[1..]))
    else Some(merged)
  }

  /**
    Snapshot with a terminator that is not its last character: when the part
    before its last terminator has another terminator, emit only what follows
    the last one and forget the buffer; otherwise merge and run `ForwardScan`.
  */
  function InnerTerminatorStep(buffer: string, snapshot: string): (r: Step)
    requires HasTerminator(snapshot) && !EndsWithTerminator(snapshot)
    ensures r.output == Some(r.buffer)
    ensures var (head, tail) := CutSentences(snapshot).value;
      HasTerminator(head[..|head| - 1]) ==> r.buffer == tail
    ensures var (head, tail) := CutSentences(snapshot).value;
      var merged := MergeTexts(buffer, snapshot);
      !HasTerminator(head[..|head| - 1]) ==>
        && merged != []
        && (IsTerminator(merged[0]) ==> r.buffer == Strip(merged[1..]))
        && (!IsTerminator(merged[0]) ==> r.buffer == merged)
  {
    var (head, tail) := CutSentences(snapshot).value;
    if !HasTerminator(head[..|head| - 1]) then
      var merged := MergeTexts(buffer, snapshot);
      MergedNonEmpty(buffer, snapshot);
      match ForwardScan(merged)
      case Some(text) => Step(Some(text), text)
      case None => Step(None, buffer)
    else
      Step(Some(tail), tail)
  }

  /**
    The inner backward loop of the terminator-at-end branch, started at `j`
    and counting down.  Both arms of its body return, so it only looks at
    `merged[j]` for the first `j`; `None` is the fall-through when it starts
    below zero.
  */
  function BackScanInner(merged: string, snapshot: string, j: int): (r: Option<Step>)
    requires -1 <= j < |merged|
    ensures r.None? <==> j < 0
    ensures r.Some? ==> r.value.output.Some?
    ensures r.Some? && r.value != Step(Some(merged), snapshot) ==>
      && IsTerminator(merged[j])
      && r.value.output == Some(r.value.buffer)
      && r.value.buffer == Strip(merged[j + 1..])
      && |r.value.buffer| > CompleteLength
    ensures 0 <= j && IsTerminator(merged[j]) && |Strip(merged[j + 1..])| > CompleteLength ==>
      r == Some(Step(Some(Strip(merged[j + 1..])), Strip(merged[j + 1..])))
  {
    if j < 0 then None
    else if IsTerminator(merged[j]) then
      var endText := Strip(merged[j + 1..]);
      if |endText| > CompleteLength then Some(Step(Some(endText), endText))
      else Some(Step(Some(merged), snapshot))
    else Some(Step(Some(merged), snapshot))
  }

  /** The outer backward loop of the terminator-at-end branch, from index `i` down to 0. */
  function BackScan(merged: string, snapshot: string, i: int): (r: Option<Step>)
    requires -1 <= i < |merged|
    ensures r.None? <==> i < 0 || (i == 0 && IsTerminator(merged[0]))
    ensures r.Some? ==> r.value.output.Some?
    decreases i + 1
  {
    if i < 0 then None
    else if IsTerminator(merged[i]) then
      match BackScanInner(merged, snapshot, i - 1)
      case Some(step) => Some(step)
      case None => BackScan(merged, snapshot, i - 1)
    else Some(Step(Some(merged), merged))
  }

  /**
    Snapshot ending with a terminator: the merged text is emitted; the buffer
    becomes the snapshot when the merged text ends with a terminator and the
    merged text otherwise, except that a one-character merged text falls
    through both loops and leaves everything unchanged.
  */
  function EndTerminatorStep(buffer: string, snapshot: string): (r: Step)
    requires EndsWithTerminator(snapshot)
    ensures var merged := MergeTexts(buffer, snapshot);
      && merged != []
      && (!EndsWithTerminator(merged) ==> r == Step(Some(merged), merged))
      && (EndsWithTerminator(merged) && |merged| > 1 ==> r == Step(Some(merged), snapshot))
      && (EndsWithTerminator(merged) && |merged| == 1 ==> r == Step(None, buffer))
  {
    var merged := MergeTexts(buffer, snapshot);
    MergedNonEmpty(buffer, snapshot);
    BackScanFromEnd(merged, snapshot);
    match BackScan(merged, snapshot, |merged| - 1)
    case Some(step) => step
    case None => Step(None, buffer)
  }

  /** What the two backward loops do when started at the last character. */
  lemma {:induction false} BackScanFromEnd(merged: string, snapshot: string)
    requires merged != []
    ensures var r := BackScan(merged, snapshot, |merged| - 1);
      && (!EndsWithTerminator(merged) ==> r == Some(Step(Some(merged), merged)))
      && (EndsWithTerminator(merged) && |merged| > 1 ==> r == Some(Step(Some(merged), snapshot)))
      && (EndsWithTerminator(merged) && |merged| == 1 ==> r == None)
  {
    var n := |merged|;
    if EndsWithTerminator(merged) {
      if n == 1 {
        assert BackScanInner(merged, snapshot, -1) == None;
        assert BackScan(merged, snapshot, -1) == None;
      } else {
        EndTextIsShort(merged, n - 2);
      }
    }
  }

  /**
    When the inner backward loop starts at `j`, one before a final
    terminator, its end text is that single terminator, never longer than
    the complete-sentence length.  `BackScanFromEnd` shows that this is the
    only start the loops reach.
  */
  lemma {:induction false} EndTextIsShort(merged: string, j: int)
    requires 0 <= j && j + 2 == |merged| && IsTerminator(merged[j + 1])
    ensures Strip(merged[j + 1..]) == merged[j + 1..]
    ensures |Strip(merged[j + 1..])| <= CompleteLength
  {
    assert merged[j + 1..] == [merged[j + 1]];
    StripSingle(merged[j + 1]);
  }

  /** The merged text has a terminator exactly when the buffer or the snapshot has one. */
  lemma {:induction false} MergeTerminator(buffer: string, snapshot: string)
    ensures HasTerminator(MergeTexts(buffer, snapshot)) <==> HasTerminator(buffer) || HasTerminator(snapshot)
  {
    var w1 := Split(buffer);
    var w2 := Split(snapshot);
    var ws := MergeWords(w1, w2);
    SplitTerminator(buffer);
    SplitTerminator(snapshot);
    SplitTerminator(MergeTexts(buffer, snapshot));
    SameWordsTerminator(ws, w1, w2);
  }

  lemma {:induction false} SameWordsTerminator(r: seq<string>, w1: seq<string>, w2: seq<string>)
    requires forall x :: x in r <==> x in w1 || x in w2
    ensures AnyTerminator(r) <==> AnyTerminator(w1) || AnyTerminator(w2)
  {
    if AnyTerminator(r) {
      var k :| 0 <= k < |r| && HasTerminator(r[k]);
      assert r[k] in r;
    }
    if AnyTerminator(w1) {
      var k :| 0 <= k < |w1| && HasTerminator(w1[k]);
      assert w1[k] in w1;
    }
    if AnyTerminator(w2) {
      var k :| 0 <= k < |w2| && HasTerminator(w2[k]);
      assert w2[k] in w2;
    }
  }

  /** A snapshot with a terminator has a word, and every snapshot word survives the merge. */
  lemma {:induction false} MergedNonEmpty(buffer: string, snapshot: string)
    requires HasTerminator(snapshot)
    ensures MergeTexts(buffer, snapshot) != []
  {
    SplitTerminator(snapshot);
    var ws := MergeWords(Split(buffer), Split(snapshot));
    assert ws != [];
    MergedAreWords(Split(buffer), Split(snapshot));
  }

  /**
    Two snapshots without terminators merge into a growing buffer: while
    neither side has a terminator, output and buffer are the merged text.
  */
  lemma {:induction false} NoTerminatorAccumulates(buffer: string, snapshot: string)
    requires !HasTerminator(buffer) && !HasTerminator(snapshot)
    ensures var merged := MergeTexts(buffer, snapshot);
      ProcessText(buffer, snapshot) == Step(Some(merged), merged) && !HasTerminator(merged)
  {
    MergeTerminator(buffer, snapshot);
  }

  /**
    When the text before the snapshot's last terminator already holds another
    terminator, the result does not depend on the buffer at all.
  */
  lemma {:induction false} OldBufferDiscarded(buffer1: string, buffer2: string, snapshot: string)
    requires HasTerminator(snapshot) && !EndsWithTerminator(snapshot)
    requires var head := CutSentences(snapshot).value.0; HasTerminator(head[..|head| - 1])
    ensures ProcessText(buffer1, snapshot) == ProcessText(buffer2, snapshot)
    ensures ProcessText(buffer1, snapshot) == Step(Some(CutSentences(snapshot).value.1), CutSentences(snapshot).value.1)
  {
  }

  /**
    With a snapshot that ends with a terminator, the output is never the
    `end_text` of the `> 50` arm: it is the merged text or nothing, and the
    buffer is the old buffer, the snapshot or the merged text.
  */
  lemma {:induction false} CompleteSentenceNeverEmitted(buffer: string, snapshot: string)
    requires EndsWithTerminator(snapshot)
    ensures var r := ProcessText(buffer, snapshot);
      var merged := MergeTexts(buffer, snapshot);
      && (r.output == None || r.output == Some(merged))
      && (r.buffer == buffer || r.buffer == snapshot || r.buffer == merged)
  {
    assert IsTerminator(snapshot[|snapshot| - 1]);
    assert ProcessText(buffer, snapshot) == EndTerminatorStep(buffer, snapshot);
  }

  /** The snapshot "." on an empty buffer makes `process_text` return `None` and keep the buffer. */
  lemma LoneTerminatorFallsThrough()
    ensures ProcessText(InitialBuffer, ".") == Step(None, InitialBuffer)
  {
    LoneTerminatorMerge();
    var snapshot := ".";
    assert IsTerminator(snapshot[0]);
    assert ProcessText(InitialBuffer, snapshot) == EndTerminatorStep(InitialBuffer, snapshot);
  }

  lemma LoneTerminatorMerge()
    ensures MergeTexts(InitialBuffer, ".") == "."
  {
    SplitEmpty();
    SplitOneWord(".");
    MergeEmpty(["."]);
    assert MergeWords([], ["."]) == ["."];
    assert Join(["."]) == ".";
  }
}
