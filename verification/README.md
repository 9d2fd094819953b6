# Caption reconciliation engine of `llm_translator.py`

The application reads live captions from the screen with OCR. Successive
snapshots overlap heavily, so the methods of `OCRApp` below are written to
fold each snapshot into a buffer (`previous_text`) and decide what to emit.
Their call at line 229 is commented out, so the live loop translates the raw
OCR text; this project models the methods themselves:

- `cut_sentences` splits a line after its last sentence terminator (`,` `.` `!` `?`).
- `merge_texts` splits two texts into words. It finds their longest common run
  of consecutive words, lays the first text over that run inside the second,
  and joins the result with single spaces.
- `process_text` picks one of three branches from where the terminators of
  the snapshot sit. It returns a text or `None`, and it updates the buffer.

The translation loop also keeps a chat history for the language model. It
trims that history to the last ten messages plus the first system prompt.

This project models these pieces as pure functions over `seq<char>`, in six
modules:

- `Wrappers`: `Option`.
- `Text`: Python's `str.isspace`, `strip`, `split()` and `' '.join`.
- `Sentences`: terminators and `cut_sentences`.
- `Align`: `merge_texts`. The longest-run search is written twice: as a fold
  (`FindMatch`) and as the literal nested loops (`LongestRun`). A declarative
  `Best` predicate states which run wins. The longest run wins. On a tie the
  first one found wins, in row-major order over `(i, j)`.
- `Engine`: `process_text`. The buffer is an explicit input, and the
  function returns a `Step` holding the output and the new buffer.
- `History`: the trim of the message list.

The model follows the code as written, including where the docstring of
`process_text` (lines 111-126) and its comments describe something else:

- The forward loop at lines 156-163 returns on its first iteration in both
  arms, so only the first character of the merged text is ever examined
  (`ForwardScan`).
- The inner backward loop at lines 186-199 also returns on its first
  iteration. `BackScanFromEnd` shows that the two loops, started at the last
  character, only ever start the inner loop at the character before the final
  terminator, where the end text is that one terminator (`EndTextIsShort`).
  So the arm for an end text longer than 50 characters (lines 191-193) is
  dead: `EndTerminatorStep` gives the closed form of the branch, and
  `CompleteSentenceNeverEmitted` states that only the merged text is ever
  emitted there.
- When a loop falls through, `process_text` returns `None` and leaves the
  buffer alone. The only input that reaches this is a one-character merged
  text such as `"."` (`LoneTerminatorFallsThrough`).

## Model

| member | source | states |
|---|---|---|
| Text.TrimLeft | llm_translator.py:73 | the left strip is no longer than its input and does not start with whitespace; `TrimLeftSplits` adds that it removes only leading whitespace |
| Text.TrimRight | llm_translator.py:73 | the right strip is no longer than its input and does not end with whitespace; `TrimRightSplits` adds that it removes only trailing whitespace |
| Text.Strip | llm_translator.py:73 | the result of `strip()` is no longer than the input and neither of its ends is whitespace |
| Text.TrimLeftSplits | llm_translator.py:73 | the input is a run of whitespace followed by what the left strip keeps, so nothing else is removed |
| Text.TrimRightSplits | llm_translator.py:73 | the input is what the right strip keeps followed by a run of whitespace, so nothing else is removed |
| Text.StripEmpty | llm_translator.py:73 | `strip()` yields the empty string exactly when the input is all whitespace |
| Text.Split | llm_translator.py:80-81 | every element that `split()` produces is a non-empty word without whitespace |
| Text.Join | llm_translator.py:103-106 | joining no words gives the empty text; joining words gives a text that neither starts nor ends with whitespace; `SplitJoin` shows the words can be recovered |
| Text.SplitJoin | llm_translator.py:103-106 | splitting the `' '.join` of a list of words returns that list |
| Sentences.LastTerminator | llm_translator.py:70-71 | the index found is a terminator, no later index up to `i` is one, and -1 means there is no terminator up to `i` |
| Sentences.CutFrom | llm_translator.py:70-73 | the backward loop from index `i` returns exactly when the text has a terminator up to `i`, and then returns the stripped halves around the last one |
| Sentences.LastTerminatorFound | llm_translator.py:70-73 | the scan over the whole text finds a terminator exactly when the text has one |
| Sentences.CutSentences | llm_translator.py:60-73 | `cut_sentences` returns a pair exactly when the text has a terminator; the head then ends with a terminator and the tail has none |
| Sentences.CutSentencesHalves | llm_translator.py:70-73 | for a text with a terminator, the pair is the stripped prefix through the last terminator and the stripped rest after it, and that rest holds no terminator |
| Sentences.CutJoin | llm_translator.py:60-73 | cutting `head + " " + tail` gives back `head` and `tail`, where `head` is stripped and ends with a terminator and `tail` is stripped and has no terminator |
| Sentences.StripTerminator | llm_translator.py:73 | stripping neither adds nor removes terminators |
| Sentences.SplitTerminator | llm_translator.py:80-81 | a text has a terminator exactly when one of its words has one |
| Sentences.JoinTerminator | llm_translator.py:103-106 | a joined text has a terminator exactly when one of the joined words has one |
| Align.CommonPrefix | llm_translator.py:94-95 | reference definition of a common run: both lists agree on the first `n` words and differ at `n` or end there |
| Align.RunAt | llm_translator.py:91-95 | the run starting at `(i, j)` stays inside both lists; `RunAtIsPrefix` and `RunAtIsRun` characterise its length |
| Align.Extend | llm_translator.py:92-95 | the `while` loop never shrinks `k` and stops inside both lists; `ExtendIsRun` gives the length it stops at |
| Align.RunAtIsPrefix | llm_translator.py:91-95 | the run from `(i, j)` equals the common prefix of the two suffixes there |
| Align.RunAtIsRun | llm_translator.py:91-95 | the run from `(i, j)` names two equal slices and cannot be extended by one more word |
| Align.ExtendIsRun | llm_translator.py:94-95 | the `while` loop entered with `k` matched words stops at `k` plus the run that follows them |
| Align.RunAtStart | llm_translator.py:91-95 | a run starts at `(i, j)` exactly when `words1[i] == words2[j]`; the loop started at `k = 1` measures that run |
| Align.Consider | llm_translator.py:89-99 | one visit of the double loop never shortens the recorded match; a new record starts at the visited pair, holds equal words there and is strictly longer than the old one |
| Align.ScanRow | llm_translator.py:89-99 | the inner `for j` loop never shortens the recorded match, and a new record lies in the scanned row at or after the starting column |
| Align.ScanRows | llm_translator.py:88-99 | the outer `for i` loop never shortens the recorded match; `ScanRowsBest` says it ends at the best match |
| Align.ScanRowsBest | llm_translator.py:88-99 | scanning the remaining rows from a best-so-far record gives the best match of the whole grid |
| Align.BestNoMatch | llm_translator.py:97-102 | the best record is "no match" exactly when no word of one list equals a word of the other; a match names equal, in-bounds slices |
| Align.FindMatch | llm_translator.py:84-99 | the recorded match is longest, ties go to the earliest `(i, j)`, it is absent exactly when the lists share no word, and it names two equal slices |
| Align.LongestRun | llm_translator.py:84-99 | the nested loops compute the same record as `FindMatch`, so the result is the best match |
| Align.MergeWords | llm_translator.py:101-106 | the merged list is as long as `w1` and `w2` together minus the match length; `w1` appears whole at the match offset; a word value occurs in the result exactly when it occurs in an input; the result is at least as long as either input |
| Align.MergeWordsOrder | llm_translator.py:101-106 | the words of `w2` keep their order around `w1`: `w2` is the merged list with `w1` taken out at the match offset and the matched run put back; with no match the result is `w1` then `w2` |
| Align.MatchedWordsInFirst | llm_translator.py:103 | every word of `w2` lies in the part before the matched run, in `w1`, or in the part after it |
| Align.MergeTexts | llm_translator.py:75-108 | splitting the merged text gives the merge of the two word lists, and the merged text is the single-space join of its own words, so it is exactly the join of that merge |
| Align.MergedAreWords | llm_translator.py:103-106 | merging two lists of words yields words only |
| Align.MergeDisjoint | llm_translator.py:104-106 | lists without a common word are simply concatenated |
| Align.MergeEmpty | llm_translator.py:101-106 | merging with an empty list gives the other list |
| Align.RunSelf | llm_translator.py:91-95 | a list agrees with itself from any position to its end |
| Align.MergeSelf | llm_translator.py:88-106 | merging a list with itself gives the same list back |
| Align.OverlapMatch | llm_translator.py:88-99 | for `a b c` and `b c d` the search records the run `b c` at `(1, 0)` |
| Align.MergeOverlapExample | llm_translator.py:88-106 | `a b c` merged with `b c d` gives `a b c d` |
| Align.TieBreakMatch | llm_translator.py:88-99 | for `x y` and `y z x` the two one-word runs tie and the search keeps `x` at `(0, 2)`, met first |
| Align.MergeTieBreakExample | llm_translator.py:88-106 | when two runs are equally long, the first one found wins: `x y` with `y z x` gives `y z x y` |
| Engine.ProcessText | llm_translator.py:110-202 | `None` leaves the buffer unchanged and needs a snapshot ending in a terminator; otherwise the buffer becomes the output or the snapshot; a snapshot without terminators never leaves one in the buffer |
| Engine.NoTerminatorStep | llm_translator.py:132-141 | the output equals the new buffer and has no terminator; it is the merged text, or the tail after the merged text's last terminator; it is the merged text whenever the old buffer had no terminator |
| Engine.ForwardScan | llm_translator.py:156-163 | the loop returns nothing exactly when the merged text is empty; otherwise it returns the merged text unchanged exactly when its first character is not a terminator, and never something longer |
| Engine.InnerTerminatorStep | llm_translator.py:147-180 | if the head of the snapshot already had an earlier terminator, the buffer becomes the snapshot's tail; otherwise the merged text is non-empty and the buffer becomes that text, or the stripped rest after its leading terminator |
| Engine.EndTerminatorStep | llm_translator.py:181-202 | the merged text is emitted; the buffer becomes the merged text when it does not end with a terminator, and the snapshot when it does; a one-character merged text yields `None` with the buffer unchanged |
| Engine.BackScanInner | llm_translator.py:186-199 | the inner loop returns nothing exactly when it starts below zero; what it returns always emits text; at a terminator whose stripped end text is longer than 50 that end text becomes both output and buffer, and in every other case the merged text is emitted and the snapshot kept |
| Engine.BackScan | llm_translator.py:183-202 | the outer loop returns nothing exactly when it starts below zero or at index 0 on a terminator; what it returns always emits text |
| Engine.BackScanFromEnd | llm_translator.py:183-202 | the two backward loops started at the last character end in exactly those three outcomes |
| Engine.EndTextIsShort | llm_translator.py:186-196 | when the inner loop starts one before a final terminator, the end text is that terminator and is never longer than 50; `BackScanFromEnd` shows this is the only start reached |
| Engine.MergeTerminator | llm_translator.py:132-134 | the merged text has a terminator exactly when the buffer or the snapshot has one |
| Engine.MergedNonEmpty | llm_translator.py:152-156 | merging with a snapshot that has a terminator gives a non-empty text |
| Engine.NoTerminatorAccumulates | llm_translator.py:132-141 | with no terminator on either side, output and buffer are the merged text, and it has no terminator |
| Engine.OldBufferDiscarded | llm_translator.py:178-180 | when the snapshot's head already holds an earlier terminator, the result does not depend on the buffer and is the snapshot's tail |
| Engine.CompleteSentenceNeverEmitted | llm_translator.py:181-202 | with a snapshot ending in a terminator, the output is the merged text or nothing, and the buffer is the old buffer, the snapshot or the merged text |
| Engine.LoneTerminatorFallsThrough | llm_translator.py:181-202 | the snapshot `"."` on an empty buffer gives `None` and keeps the buffer |
| History.FirstSystem | llm_translator.py:240-241 | the search returns nothing exactly when no message has the system role, and otherwise the first system message |
| History.TrimHistory | llm_translator.py:236-245 | a list of at most ten messages is unchanged; a longer list keeps its last ten messages, preceded by the first system message when one exists, so it holds at most eleven |
| History.Round | llm_translator.py:233-267 | a round ends with the user text followed by the reply, holds at most twelve messages, and on a list of fewer than ten messages simply appends those two |
| History.RoundKeepsPrompt | llm_translator.py:233-267 | a round that appends the user text, trims and appends the reply keeps the system prompt first and the only system message, and holds at most twelve messages |

## Left out

- Screen capture, window lookup and OCR (lines 26-58 and 217-221): I/O. The snapshot is a parameter. The newline-to-space replacement at lines 211-221 runs before the snapshot reaches the model.
- The guard at line 223 and the `last_text` field: a snapshot reaches the history only when it is non-empty and differs from the previous snapshot. Both halves are a filter in the I/O loop, so `History.Round` also accepts an empty or repeated text, which the application never passes it.
- The language model call and streaming (lines 247-267): a foreign call. The reply is a parameter of `History.Round`.
- Model loading, the subtitle window, the queue, the threads, the timing and the `main` entry point: I/O and concurrency outside the engine.
- The commented-out alternative scan (lines 165-176) and the commented-out call of `process_text` (lines 229-231): they are not executed code.
- The `if sys_msg:` truthiness test (line 244) is modelled as "a system message was found". A dict with two keys is always truthy, so this is exact.
- The match record (`Align.Match`) also keeps the row index `i`, which the source does not store. This makes the tie-break statable. The merge uses only `j` and the length, as the source does.
- The characters that count as whitespace follow Python's `str.isspace`. There is no Unicode normalisation or case handling, because the source does none.
