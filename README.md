# Whisper word-level timestamps, modelled in Dafny

This project models how the Chapter 5 notebook of *Learn OpenAI Whisper* turns a
transcript into word-level timestamps, and proves properties of that model.
The notebook works in these steps:

- It frames the transcript's tokens with control tokens.
- It runs the model once to capture cross-attention.
- It aligns tokens to audio frames by dynamic time warping.
- It reads that alignment path as one start frame per token row.
- It splits the tokens into words, by unicode boundaries and then by spaces.
- It gives every word but the last a begin and an end time, at the jump time of
  its first token and of the next word's first token.
- It drops special tokens and bare punctuation from the table.

The model covers everything that happens after the neural network and the DTW
library: the integer and sequence logic.

Files and modules:

- `results.dfy` (`Results`): the error paths the notebook can hit, as a `Result` type.
- `joining.dfy` (`Joining`): tokens. It also holds the flattening of token groups and the
  joining of texts that the splitters accumulate.
- `text.dfy` (`Text`): Python's `str.strip()` with Python's whitespace set, `str.startswith`,
  substring tests (`x in "..."`), and the U+FFFD test.
- `word_split.dfy` (`WordSplit`): `split_tokens_on_unicode` and `split_tokens_on_spaces` as
  loops, the specification functions they are proved against, and the choice of splitter by
  language.
- `alignment.dfy` (`Alignment`): the decoder input, the cut of the attention columns, the
  jump mask and jump times, and the shape of a warping path.
- `word_times.dfy` (`WordTimes`): word boundaries, the begin/end records, the output filter,
  and one whole pass of the per-transcript loop.

Some things are parameters rather than code:

- The tokenizer's `decode_with_timestamps` is an arbitrary function `seq<Token> -> string`.
- The tokenizer's special tokens are a record (`Tokenizer`), and `tokenizer.encode(...)` is
  an input sequence.
- The DTW path is a pair of index sequences. `IsWarpingPath` states what the rest of the
  pipeline needs of them: they start in the first cell, end in the last, and every step
  moves by at most one row and at most one column and never back. dtw-python's default
  symmetric step pattern produces such paths.

Times are kept as attention-column (frame) indices.

Some behaviours of the code are easy to misread; the model follows the code:

- A sub-word counts as punctuation when its stripped text is a *substring* of
  `string.punctuation`. So the empty string (an all-whitespace sub-word) qualifies, and so do
  runs such as `"()"`; `".,"` does not.
- The same substring test drops words whose stripped text is a substring of `".,!?、。"`.
- Control-token words are dropped only when their text starts with `<|`.
- The unicode pass silently drops trailing tokens that never decode without U+FFFD. So the
  sub-words rebuild a prefix of the input, not necessarily all of it.
- There is no dedicated invalid-input error. A space pass whose first sub-word must merge
  fails on `words[-1]`, and a boundary past the jump times fails in numpy indexing. Both are
  modelled as `Failure` results.

## Model

Source paths are relative to the repository root.

| member | source | states |
|---|---|---|
| WordSplit.ScanFirst | Chapter05/loaiw_ch05_2_transcribing_and_translating_with_whisper.py:360-366 | after any number of loop turns the emitted sub-words and token groups are equally many and every group is non-empty |
| WordSplit.ScanFirstIsSplit | Chapter05/loaiw_ch05_2_transcribing_and_translating_with_whisper.py:355-368 | the pass yields a unicode split of the tokens seen: groups then pending tokens rebuild the input; each sub-word is its own group's decode without U+FFFD; each group is the shortest clean run; no prefix of the pending tokens decodes cleanly |
| WordSplit.ScanUnicode | Chapter05/loaiw_ch05_2_transcribing_and_translating_with_whisper.py:355-368 | the whole pass over the input yields a unicode split of the input, in the sense just stated |
| WordSplit.SplitIsScanFirst | Chapter05/loaiw_ch05_2_transcribing_and_translating_with_whisper.py:355-368 | any unicode split of the first `n` tokens is the one the pass computes (the split is unique) |
| WordSplit.UnicodeSplitIff | Chapter05/loaiw_ch05_2_transcribing_and_translating_with_whisper.py:355-368 | a scan result is a unicode split of the tokens if and only if it is the pass's result |
| WordSplit.UnicodeSplitCoversIff | Chapter05/loaiw_ch05_2_transcribing_and_translating_with_whisper.py:360-368 | the groups rebuild the whole input exactly when nothing is pending; pending tokens, which are dropped, decode with U+FFFD |
| WordSplit.CloseGroupStep | Chapter05/loaiw_ch05_2_transcribing_and_translating_with_whisper.py:363-366 | a clean decode closes the pending run as a new group and keeps the split a unicode split |
| WordSplit.ExtendPendingStep | Chapter05/loaiw_ch05_2_transcribing_and_translating_with_whisper.py:361-363 | a decode with U+FFFD keeps the run pending and keeps the split a unicode split |
| WordSplit.SplitTokensOnUnicode | Chapter05/loaiw_ch05_2_transcribing_and_translating_with_whisper.py:355-368 | the loop returns the specified split: equal lengths, non-empty groups forming a prefix of the tokens, each sub-word its group's decode and free of U+FFFD |
| WordSplit.IsPunctuation | Chapter05/loaiw_ch05_2_transcribing_and_translating_with_whisper.py:378 | because the test is a substring test, a sub-word that strips to nothing counts as punctuation, and one that strips to more characters than `string.punctuation` holds never does |
| WordSplit.StartsNewWord | Chapter05/loaiw_ch05_2_transcribing_and_translating_with_whisper.py:379 | an all-whitespace sub-word opens a word; a sub-word that does not open one has a first token below `eot` and a non-empty text that does not start with a space |
| WordSplit.MergeOne | Chapter05/loaiw_ch05_2_transcribing_and_translating_with_whisper.py:376-384 | a sub-word that is special, starts with a space or is punctuation is appended as a new word; otherwise it extends the last word's text and tokens and leaves earlier words unchanged; this fails exactly when there is no word yet |
| WordSplit.MergeFirst | Chapter05/loaiw_ch05_2_transcribing_and_translating_with_whisper.py:375-386 | after `n` turns there are no more words than sub-words, with as many token groups as words, and at least one word once a turn was taken |
| WordSplit.MergeOnSpaces | Chapter05/loaiw_ch05_2_transcribing_and_translating_with_whisper.py:372-386 | the whole merge loop fails, with the empty-list error, exactly when the first sub-word does not open a word; on success the words have non-empty token groups, and they hold exactly the sub-words' tokens and exactly their text |
| WordSplit.MergeFailsIff | Chapter05/loaiw_ch05_2_transcribing_and_translating_with_whisper.py:379-384 | the space pass fails, with the empty-list error, exactly when the first sub-word does not open a word |
| WordSplit.MergeKeepsTokens | Chapter05/loaiw_ch05_2_transcribing_and_translating_with_whisper.py:375-386 | the word groups join to exactly the joined sub-word groups, with no gap, overlap or reordering, and none is empty |
| WordSplit.MergeKeepsText | Chapter05/loaiw_ch05_2_transcribing_and_translating_with_whisper.py:375-386 | the word texts join to exactly the joined sub-word texts |
| WordSplit.MergeWordCount | Chapter05/loaiw_ch05_2_transcribing_and_translating_with_whisper.py:379-381 | there are exactly as many words as sub-words that open a word |
| WordSplit.MergeAllStarts | Chapter05/loaiw_ch05_2_transcribing_and_translating_with_whisper.py:379-381 | when every sub-word opens a word, the space pass returns the sub-words unchanged |
| WordSplit.MergeSubwords | Chapter05/loaiw_ch05_2_transcribing_and_translating_with_whisper.py:372-386 | the in-place merge loop computes the specified merge, including its failure |
| WordSplit.SplitTokensOnSpaces | Chapter05/loaiw_ch05_2_transcribing_and_translating_with_whisper.py:370-386 | the unicode pass followed by the merge loop gives the specified merge of the unicode split |
| WordSplit.TokenSplit | Chapter05/loaiw_ch05_2_transcribing_and_translating_with_whisper.py:388-394 | the chosen splitter, on success, partitions a prefix of the tokens into non-empty word groups with one text each; for Chinese, Japanese, Thai, Lao and Myanmar it cannot fail |
| WordSplit.SplitTokens | Chapter05/loaiw_ch05_2_transcribing_and_translating_with_whisper.py:388-394 | running the selected splitter's loops gives the specified split |
| WordSplit.SpecialFirstTokenSplits | Chapter05/loaiw_ch05_2_transcribing_and_translating_with_whisper.py:379-394 | whatever the language, tokens whose first token is special (at or above `eot`) always split without error, because the first sub-word opens a word |
| Joining.FlattenExtendLast | Chapter05/loaiw_ch05_2_transcribing_and_translating_with_whisper.py:384 | extending the last group in place extends the joined tokens by the same tokens |
| Joining.JoinExtendLast | Chapter05/loaiw_ch05_2_transcribing_and_translating_with_whisper.py:383 | appending text to the last word extends the joined text by the same text |
| Joining.FlattenFirstIsPrefix | Chapter05/loaiw_ch05_2_transcribing_and_translating_with_whisper.py:498 | the tokens of the first `m` groups are a prefix of those of the first `n >= m` groups |
| Text.SpacesFrom | Chapter05/loaiw_ch05_2_transcribing_and_translating_with_whisper.py:378 | the leading whitespace counted by `strip()` fits in the string |
| Text.SpacesBefore | Chapter05/loaiw_ch05_2_transcribing_and_translating_with_whisper.py:378 | the trailing whitespace counted by `strip()` fits in what is left after the leading whitespace |
| Text.Strip | Chapter05/loaiw_ch05_2_transcribing_and_translating_with_whisper.py:378 | `strip()` never returns a longer string than it was given |
| Text.StripSpec | Chapter05/loaiw_ch05_2_transcribing_and_translating_with_whisper.py:378 | `strip()` returns a slice of the string, everything cut off both ends is whitespace, and the result neither starts nor ends with whitespace |
| Text.SpacesFromAreSpaces | Chapter05/loaiw_ch05_2_transcribing_and_translating_with_whisper.py:505 | the counted leading characters are whitespace, and the next one is not |
| Text.SpacesBeforeAreSpaces | Chapter05/loaiw_ch05_2_transcribing_and_translating_with_whisper.py:505 | the counted trailing characters are whitespace, and the one before them is not |
| Alignment.FrameCount | Chapter05/loaiw_ch05_2_transcribing_and_translating_with_whisper.py:427 | the frame count is the floor of the duration over 320 samples per attention column |
| Alignment.TranscriptTokens | Chapter05/loaiw_ch05_2_transcribing_and_translating_with_whisper.py:422-430 | the decoder input is the start-of-transcript sequence, `timestamp_begin`, the encoded text, the end timestamp `timestamp_begin + duration // 320`, and `eot`, with length `|sot| + |encoded| + 3` |
| Alignment.TranscriptRoundTrip | Chapter05/loaiw_ch05_2_transcribing_and_translating_with_whisper.py:422-430 | the encoded transcript can be read back from the decoder input, and the end timestamp's offset is the number of whole columns the audio fills |
| Alignment.TruncateFrames | Chapter05/loaiw_ch05_2_transcribing_and_translating_with_whisper.py:435 | every token row keeps a prefix of its columns, of length the smaller of its width and `duration // 320` |
| Alignment.TruncatedWidthIsEndTimestamp | Chapter05/loaiw_ch05_2_transcribing_and_translating_with_whisper.py:427-435 | when the encoder covers the audio, the cut matrix is exactly as wide as the end timestamp's offset |
| Alignment.JumpMask | Chapter05/loaiw_ch05_2_transcribing_and_translating_with_whisper.py:444 | one mask entry per path step; the first step is a jump, and a later step is a jump exactly when its row differs from the previous step's |
| Alignment.SelectFirst | Chapter05/loaiw_ch05_2_transcribing_and_translating_with_whisper.py:445 | boolean-mask indexing keeps one value per set mask entry, and the value kept in position `j` is the one at the `j`-th set entry |
| Alignment.JumpTimes | Chapter05/loaiw_ch05_2_transcribing_and_translating_with_whisper.py:444-445 | `index2s[jumps]` has one time per jump, and the first time is the path's first column |
| Alignment.PathMonotone | Chapter05/loaiw_ch05_2_transcribing_and_translating_with_whisper.py:442-445 | along a warping path, earlier steps have neither a larger row nor a larger column, and none is negative |
| Alignment.PathInMatrix | Chapter05/loaiw_ch05_2_transcribing_and_translating_with_whisper.py:442-445 | every step of a warping path lies inside the token-by-column matrix |
| Alignment.JumpCount | Chapter05/loaiw_ch05_2_transcribing_and_translating_with_whisper.py:444-445 | over the first `n` steps of a warping path the number of jumps is the current row plus one |
| Alignment.JumpLandsOnRow | Chapter05/loaiw_ch05_2_transcribing_and_translating_with_whisper.py:444-445 | the jumps before a jump step are as many as the row it enters |
| Alignment.AppendNotBelow | Chapter05/loaiw_ch05_2_transcribing_and_translating_with_whisper.py:445 | appending a column no smaller than all recorded ones keeps the jump times ordered and bounded |
| Alignment.JumpPrefixSorted | Chapter05/loaiw_ch05_2_transcribing_and_translating_with_whisper.py:444-445 | over the first `n` steps, the jump times never decrease and lie between 0 and the current column |
| Alignment.RowsEnteredUpTo | Chapter05/loaiw_ch05_2_transcribing_and_translating_with_whisper.py:444 | every row up to the current one was entered by a jump among the first `n` steps |
| Alignment.JumpTimeAt | Chapter05/loaiw_ch05_2_transcribing_and_translating_with_whisper.py:444-445 | the time recorded for the row a jump enters is that jump's column |
| Alignment.JumpTimeOfRow | Chapter05/loaiw_ch05_2_transcribing_and_translating_with_whisper.py:444-445 | every row's time is the column of a jump that enters that row |
| Alignment.JumpTimesSpec | Chapter05/loaiw_ch05_2_transcribing_and_translating_with_whisper.py:444-445 | on a warping path there is one jump time per token row; the first is 0; the time of the row each jump enters is that jump's column, and every row's time is the column of a jump into it; times never decrease and stay within the columns |
| WordTimes.LengthSum | Chapter05/loaiw_ch05_2_transcribing_and_translating_with_whisper.py:498 | the cumulative length of the first `n` word groups is the length of their joined tokens |
| WordTimes.WordBoundaries | Chapter05/loaiw_ch05_2_transcribing_and_translating_with_whisper.py:498 | one boundary per word (a single 0 for no words); boundary `i` is the offset of word `i`'s first token in the joined split |
| WordTimes.BoundariesLocateWords | Chapter05/loaiw_ch05_2_transcribing_and_translating_with_whisper.py:498 | for a split of the tokens, word `i`'s tokens are exactly the input slice starting at its boundary, and the next boundary is this one plus the word's length |
| WordTimes.BoundariesIncrease | Chapter05/loaiw_ch05_2_transcribing_and_translating_with_whisper.py:498 | boundaries of non-empty words strictly increase |
| WordTimes.WordTimings | Chapter05/loaiw_ch05_2_transcribing_and_translating_with_whisper.py:498-504 | with at most one word the boundaries are a float array and indexing fails; on success there is one record per word but the last |
| WordTimes.WordTimingAt | Chapter05/loaiw_ch05_2_transcribing_and_translating_with_whisper.py:499-504 | record `i` names word `i`, begins at the jump time of its first token and ends at the jump time of the next word's first token |
| WordTimes.WordTimingsFailIff | Chapter05/loaiw_ch05_2_transcribing_and_translating_with_whisper.py:498-500 | for non-empty word groups, the timings fail exactly when there are fewer than two words or the last word's offset is past the jump times |
| WordTimes.WordTimingsContiguous | Chapter05/loaiw_ch05_2_transcribing_and_translating_with_whisper.py:499-500 | each word ends exactly where the next one begins |
| WordTimes.TimingsOrdered | Chapter05/loaiw_ch05_2_transcribing_and_translating_with_whisper.py:499-500 | with ordered jump times inside the matrix, every word begins no later than it ends, inside the matrix |
| WordTimes.IsReported | Chapter05/loaiw_ch05_2_transcribing_and_translating_with_whisper.py:505 | a word that strips to nothing is never reported, because the empty string is a substring of the marks |
| WordTimes.BareMarkDropped | Chapter05/loaiw_ch05_2_transcribing_and_translating_with_whisper.py:505 | a word that strips to one of `.`, `,`, `!`, `?`, `、`, `。` is not reported |
| WordTimes.KeepReportedFirst | Chapter05/loaiw_ch05_2_transcribing_and_translating_with_whisper.py:502-506 | the filter keeps no more records than it looks at, and only reported words |
| WordTimes.KeepReportedFirstIff | Chapter05/loaiw_ch05_2_transcribing_and_translating_with_whisper.py:502-506 | a record survives the filter over the first `n` exactly when it is among them and its word has no special-token prefix and does not strip to a substring of `".,!?、。"` |
| WordTimes.KeepReportedAppend | Chapter05/loaiw_ch05_2_transcribing_and_translating_with_whisper.py:502-506 | filtering `a + b` gives the filtered `a` followed by the filtered `b`, so the filter keeps the records' order |
| WordTimes.KeepReported | Chapter05/loaiw_ch05_2_transcribing_and_translating_with_whisper.py:502-506 | the table has no more rows than there are records, and a record is in it exactly when it is one of the records and its word is reported |
| WordTimes.ReportedRecordIsEarlierWord | Chapter05/loaiw_ch05_2_transcribing_and_translating_with_whisper.py:498-506 | every table row is the record of some word other than the last, with that word's own jump times, and its word is reported |
| WordTimes.Timestamps | Chapter05/loaiw_ch05_2_transcribing_and_translating_with_whisper.py:422-506 | when one transcript's table is returned, the split succeeded, and every row has a reported word and is the record of a word of that split other than the last, with that word's jump times |
| WordTimes.SplitTimingsInMatrix | Chapter05/loaiw_ch05_2_transcribing_and_translating_with_whisper.py:444-500 | when the path runs over the rows of the tokens a split of at least two words came from, no boundary goes past the jump times, and every word's times are ordered and inside the matrix |
| WordTimes.TimestampsInMatrix | Chapter05/loaiw_ch05_2_transcribing_and_translating_with_whisper.py:422-506 | when the first start-of-transcript token is special, the split succeeds. When, in addition, the matrix has one row per decoder token and is cut to the audio, the path runs over that cut matrix, and the split has at least two words, the pipeline succeeds and every reported word begins no later than it ends, before the cut width and so within `duration // 320` columns |
| WordTimes.WordTimestamps | Chapter05/loaiw_ch05_2_transcribing_and_translating_with_whisper.py:422-506 | one pass of the per-transcript loop, with the splitter run as loops, computes the specified table |

## Left out

- Audio loading, the dataset class, downloads, model loading and inference, the Gradio UI,
  font handling, plotting and the display of the table: I/O and presentation.
- The forward hooks that capture cross-attention into `QKs`: framework instrumentation.
- The attention aggregation: the median filter, `qk_scale`, softmax, normalisation and the
  mean over the last six layers. This is floating-point tensor numerics. The model cuts a
  single token-by-column matrix; the layer and head axes are cut the same way.
- The `dtw(...)` call: the path is an input constrained by `IsWarpingPath`. The library's
  step pattern and tie-breaking are not modelled.
- Scaling jump times to seconds (`* AUDIO_TIME_PER_TOKEN`): floating point. Times stay
  column indices.
- `HOP_LENGTH` comes from the whisper library and is not part of this model. Its value 160
  is written in as a constant.
- `decode_with_timestamps` and `encode` are tokenizer code and are not part of this model.
  Because decode is arbitrary, the claim that the sub-word texts join to the decode of the
  whole input is not a property of the code. The model proves that each sub-word is its own
  group's decode, and that the space pass keeps the joined text.
- Aliasing in `split_tokens_on_spaces`: `word_tokens[-1].extend(...)` also grows the list
  object held in the sub-word list. That list is never read again, so the model uses values.
- Chapter 2's audio exploration and Chapter 6's RSS utilities are not part of this model.
- `WordTimes.WordTimings`: the failure with at most one word follows numpy's refusal of the
  floating-point array that `np.cumsum([])` yields as an index. Both index failures are
  modelled as errors, not as Python exceptions.
- `Alignment.IsWarpingPath` requires at least one column. Audio shorter than 320 samples
  leaves the cut matrix with no columns, and the `dtw` call has no path to return there.
  The model covers only inputs of at least 320 samples.
- `WordTimes.TimestampsInMatrix` assumes that the split has at least two words and does not
  prove it. Whether the control tokens decode to separate sub-words depends on the
  tokenizer's decoder, which is not part of this model.
