/** From a word split and the jump times of the alignment path to the table of
    word timestamps: word boundaries as token offsets, the begin and end time of
    every word but the last, and the filter that drops special tokens and bare
    punctuation. */
module WordTimes {
  import opened Results
  import opened Joining
  import opened Text
  import opened WordSplit
  import opened Alignment

  /** The number of tokens in the first `n` words: `np.cumsum` of the word lengths. */
  function LengthSum(wordTokens: seq<seq<Token>>, n: nat): (total: nat)
    requires n <= |wordTokens|
    ensures total == |FlattenFirst(wordTokens, n)|
  {
    if n == 0 then 0 else LengthSum(wordTokens, n - 1) + |wordTokens[n - 1]|
  }

  /** `np.pad(np.cumsum([len(t) for t in word_tokens[:-1]]), (1, 0))`: the offset of
      the first token of every word in the flattened split (a single zero when there
      are no words). */
  function WordBoundaries(wordTokens: seq<seq<Token>>): (r: seq<nat>)
    ensures |r| == if |wordTokens| == 0 then 1 else |wordTokens|
    ensures forall i :: 0 <= i < |r| ==> r[i] == |FlattenFirst(wordTokens, i)|
  {
    [0] + seq(if |wordTokens| == 0 then 0 else |wordTokens| - 1,
              i requires 0 <= i < |wordTokens| - 1 => LengthSum(wordTokens, i + 1))
  }

  /** Every word of a split sits in the transcript at its boundary: its tokens are
      the slice starting there, so consecutive boundaries differ by the word's length. */
  lemma BoundariesLocateWords(tokens: seq<Token>, wordTokens: seq<seq<Token>>, i: nat)
    requires Flatten(wordTokens) <= tokens
    requires i < |wordTokens|
    ensures WordBoundaries(wordTokens)[i] + |wordTokens[i]| <= |tokens|
    ensures tokens[WordBoundaries(wordTokens)[i]..WordBoundaries(wordTokens)[i] + |wordTokens[i]|] == wordTokens[i]
    ensures i + 1 < |wordTokens| ==> WordBoundaries(wordTokens)[i + 1] == WordBoundaries(wordTokens)[i] + |wordTokens[i]|
  {
    var before := FlattenFirst(wordTokens, i);
    var upTo := FlattenFirst(wordTokens, i + 1);
    assert upTo == before + wordTokens[i];
    FlattenFirstIsPrefix(wordTokens, i + 1, |wordTokens|);
    assert upTo <= tokens;
    assert tokens[|before|..|upTo|] == upTo[|before|..];
  }

  /** Boundaries of non-empty words strictly increase, so the last one is the largest. */
  lemma BoundariesIncrease(wordTokens: seq<seq<Token>>)
    requires forall i :: 0 <= i < |wordTokens| ==> |wordTokens[i]| > 0
    ensures forall i, j :: 0 <= i < j < |WordBoundaries(wordTokens)| ==> WordBoundaries(wordTokens)[i] < WordBoundaries(wordTokens)[j]
  {
    var wb := WordBoundaries(wordTokens);
    forall i, j | 0 <= i < j < |wb|
      ensures wb[i] < wb[j]
    {
      FlattenFirstIsPrefix(wordTokens, i + 1, j);
      assert FlattenFirst(wordTokens, i + 1) == FlattenFirst(wordTokens, i) + wordTokens[i];
    }
  }

  /** One row of the timestamp table, times in attention columns. */
  datatype WordTiming = WordTiming(word: string, begin: int, end: int)

  /** The records for `zip(words[:-1], jump_times[word_boundaries[:-1]],
      jump_times[word_boundaries[1:]])`, before filtering. With at most one word the
      boundaries are an empty floating-point array, which numpy refuses as an index;
      a boundary past the jump times is an index error. */
  function WordTimings(words: seq<string>, wordTokens: seq<seq<Token>>, jumpTimes: seq<int>): (r: Result<seq<WordTiming>>)
    requires |words| == |wordTokens|
    ensures |wordTokens| <= 1 ==> r == Failure(FloatIndexArray)
    ensures r.Success? ==> |r.value| == |words| - 1
  {
    if |wordTokens| <= 1 then Failure(FloatIndexArray)
    else
      var wb := WordBoundaries(wordTokens);
      if exists i | 0 <= i < |wb| :: wb[i] >= |jumpTimes| then Failure(JumpIndexOutOfRange)
      else Success(seq(|words| - 1, i requires 0 <= i < |words| - 1 => WordTiming(words[i], jumpTimes[wb[i]], jumpTimes[wb[i + 1]])))
  }

  /** Record `i` names word `i`, begins at the jump time of the word's first token
      and ends at the jump time of the token after its last. */
  lemma WordTimingAt(words: seq<string>, wordTokens: seq<seq<Token>>, jumpTimes: seq<int>, i: nat)
    requires |words| == |wordTokens|
    requires WordTimings(words, wordTokens, jumpTimes).Success?
    requires i < |WordTimings(words, wordTokens, jumpTimes).value|
    ensures var x := WordTimings(words, wordTokens, jumpTimes).value[i];
      && |FlattenFirst(wordTokens, i)| <= |FlattenFirst(wordTokens, i + 1)| < |jumpTimes|
      && x.word == words[i]
      && x.begin == jumpTimes[|FlattenFirst(wordTokens, i)|]
      && x.end == jumpTimes[|FlattenFirst(wordTokens, i + 1)|]
  {
  }

  /** For a split into non-empty words, the timings fail exactly when there are
      fewer than two words or the last word starts past the jump times. */
  lemma WordTimingsFailIff(words: seq<string>, wordTokens: seq<seq<Token>>, jumpTimes: seq<int>)
    requires |words| == |wordTokens|
    requires forall i :: 0 <= i < |wordTokens| ==> |wordTokens[i]| > 0
    ensures WordTimings(words, wordTokens, jumpTimes).Failure? <==>
      |wordTokens| <= 1 || |jumpTimes| <= |FlattenFirst(wordTokens, |wordTokens| - 1)|
  {
    if |wordTokens| > 1 {
      BoundariesIncrease(wordTokens);
      var wb := WordBoundaries(wordTokens);
      assert wb[|wb| - 1] == |FlattenFirst(wordTokens, |wordTokens| - 1)|;
    }
  }

  /** Consecutive records share a time: each word ends where the next one begins. */
  lemma WordTimingsContiguous(words: seq<string>, wordTokens: seq<seq<Token>>, jumpTimes: seq<int>, i: nat)
    requires |words| == |wordTokens|
    requires WordTimings(words, wordTokens, jumpTimes).Success?
    requires 0 < i < |WordTimings(words, wordTokens, jumpTimes).value|
    ensures WordTimings(words, wordTokens, jumpTimes).value[i - 1].end == WordTimings(words, wordTokens, jumpTimes).value[i].begin
  {
  }

  /** Along a non-decreasing sequence of jump times inside `[0, cols)` every word
      begins no later than it ends, and both times lie inside the matrix. */
  lemma TimingsOrdered(words: seq<string>, wordTokens: seq<seq<Token>>, jumpTimes: seq<int>, cols: nat)
    requires |words| == |wordTokens|
    requires NonDecreasing(jumpTimes) && Within(jumpTimes, 0, cols - 1)
    requires WordTimings(words, wordTokens, jumpTimes).Success?
    ensures forall x :: x in WordTimings(words, wordTokens, jumpTimes).value ==> 0 <= x.begin <= x.end < cols
  {
  }

  /** The filter `not word.startswith("<|") and word.strip() not in ".,!?、。"`: special
      tokens go, and so does a word whose stripped text is a substring of the marks,
      which takes in every blank word. */
  predicate IsReported(word: string): (b: bool)
    ensures b ==> Strip(word) != []
  {
    assert OccursAt([], DroppedMarks, 0);
    !StartsWith(word, "<|") && !IsSubstring(Strip(word), DroppedMarks)
  }

  /** A word that is one of the marks once stripped, such as `" ."`, is dropped. */
  lemma BareMarkDropped(word: string, i: nat)
    requires i < |DroppedMarks| && Strip(word) == [DroppedMarks[i]]
    ensures !IsReported(word)
  {
    assert OccursAt(Strip(word), DroppedMarks, i);
  }

  /** The filter's verdict on one record: the record itself, or nothing. */
  function KeptRecord(x: WordTiming): seq<WordTiming> {
    if IsReported(x.word) then [x] else []
  }

  /** The reported records among the first `n`, in order. */
  function KeepReportedFirst(timings: seq<WordTiming>, n: nat): (r: seq<WordTiming>)
    requires n <= |timings|
    ensures |r| <= n
    ensures forall x :: x in r ==> IsReported(x.word)
  {
    if n == 0 then [] else KeepReportedFirst(timings, n - 1) + KeptRecord(timings[n - 1])
  }

  /** The table rows kept by the filter: a record is kept exactly when it is one of
      the records and is reported. */
  function KeepReported(timings: seq<WordTiming>): (r: seq<WordTiming>)
    ensures |r| <= |timings|
    ensures forall x :: x in r <==> x in timings && IsReported(x.word)
  {
    var r := KeepReportedFirst(timings, |timings|);
    assert forall x :: x in r <==> x in timings && IsReported(x.word) by {
      forall x
        ensures x in r <==> x in timings && IsReported(x.word)
      {
        KeepReportedFirstIff(timings, |timings|, x);
        assert timings[..|timings|] == timings;
      }
    }
    r
  }

  /** A record is kept exactly when it is among the first `n` and reported. */
  lemma {:induction false} KeepReportedFirstIff(timings: seq<WordTiming>, n: nat, x: WordTiming)
    requires n <= |timings|
    ensures x in KeepReportedFirst(timings, n) <==> x in timings[..n] && IsReported(x.word)
  {
    if n > 0 {
      KeepReportedFirstIff(timings, n - 1, x);
      assert timings[..n] == timings[..n - 1] + [timings[n - 1]];
    }
  }

  /** Only the first `n` records matter to `KeepReportedFirst(timings, n)`. */
  lemma {:induction false} KeepReportedFirstSame(a: seq<WordTiming>, b: seq<WordTiming>, n: nat)
    requires n <= |a| && n <= |b| && a[..n] == b[..n]
    ensures KeepReportedFirst(a, n) == KeepReportedFirst(b, n)
  {
    if n > 0 {
      assert a[..n - 1] == b[..n - 1];
      assert a[n - 1] == a[..n][n - 1];
      KeepReportedFirstSame(a, b, n - 1);
    }
  }

  /** Regrouping a concatenation; a separate step only so that the proof of
      `KeepReportedAppend` stays small and stable. */
  lemma AppendAssociates(p: seq<WordTiming>, q: seq<WordTiming>, r: seq<WordTiming>)
    ensures p + q + r == p + (q + r)
  {
  }

  /** Filtering keeps the order of the records: it distributes over concatenation. */
  lemma {:induction false} KeepReportedAppend(a: seq<WordTiming>, b: seq<WordTiming>, m: nat)
    requires m <= |b|
    ensures KeepReportedFirst(a + b, |a| + m) == KeepReportedFirst(a, |a|) + KeepReportedFirst(b, m)
  {
    var c := a + b;
    if m == 0 {
      assert c[..|a|] == a[..|a|];
      KeepReportedFirstSame(c, a, |a|);
    } else {
      KeepReportedAppend(a, b, m - 1);
      assert c[|a| + m - 1] == b[m - 1];
      var kept := KeepReportedFirst(a, |a|);
      var before := KeepReportedFirst(b, m - 1);
      var last := KeptRecord(b[m - 1]);
      assert KeepReportedFirst(c, |a| + m) == kept + before + last;
      AppendAssociates(kept, before, last);
    }
  }

  /** `x` is the record of a word other than the last one: it names word `i`, begins
      at the jump time of the word's first token and ends at the jump time of the token
      after its last. */
  ghost predicate IsEarlierWordRecord(words: seq<string>, wordTokens: seq<seq<Token>>, jumpTimes: seq<int>, x: WordTiming) {
    exists i ::
      && 0 <= i < |words| - 1 && i + 1 <= |wordTokens| && |FlattenFirst(wordTokens, i + 1)| < |jumpTimes|
      && x == WordTiming(words[i], jumpTimes[|FlattenFirst(wordTokens, i)|], jumpTimes[|FlattenFirst(wordTokens, i + 1)|])
  }

  /** Every row of the table is the record of a word other than the last one, with
      the times computed for it before filtering, and its word is reported. */
  lemma ReportedRecordIsEarlierWord(words: seq<string>, wordTokens: seq<seq<Token>>, jumpTimes: seq<int>, x: WordTiming)
    requires |words| == |wordTokens|
    requires WordTimings(words, wordTokens, jumpTimes).Success?
    requires x in KeepReported(WordTimings(words, wordTokens, jumpTimes).value)
    ensures IsReported(x.word)
    ensures IsEarlierWordRecord(words, wordTokens, jumpTimes, x)
  {
    var ts := WordTimings(words, wordTokens, jumpTimes).value;
    var i :| 0 <= i < |ts| && ts[i] == x;
    WordTimingAt(words, wordTokens, jumpTimes, i);
  }

  /** The word timestamps of one transcript: build the decoder input, read the jump
      times off the alignment path, split the input into words, time every word but
      the last and filter. Every row of a table it returns is reported and is the
      record of a word of the split, other than the last, with that word's times. */
  function Timestamps(tokenizer: Tokenizer, decode: Decoder, language: string, encoded: seq<Token>, duration: nat,
                      index1s: seq<int>, index2s: seq<int>): (r: Result<seq<WordTiming>>)
    requires |index1s| == |index2s| > 0
    ensures r.Success? ==> forall x :: x in r.value ==> IsReported(x.word)
    ensures r.Success? ==>
      var split := TokenSplit(language, decode, tokenizer.eot, TranscriptTokens(tokenizer, encoded, duration));
      && split.Success?
      && forall x :: x in r.value ==>
           IsEarlierWordRecord(split.value.words, split.value.wordTokens, JumpTimes(index1s, index2s), x)
  {
    var tokens := TranscriptTokens(tokenizer, encoded, duration);
    var jumpTimes := JumpTimes(index1s, index2s);
    var split := TokenSplit(language, decode, tokenizer.eot, tokens);
    if split.Failure? then Failure(split.error)
    else
      var w := split.value;
      var timings := WordTimings(w.words, w.wordTokens, jumpTimes);
      if timings.Failure? then Failure(timings.error)
      else
        var kept := KeepReported(timings.value);
        assert forall x :: x in kept ==> IsEarlierWordRecord(w.words, w.wordTokens, jumpTimes, x) by {
          forall x | x in kept
            ensures IsEarlierWordRecord(w.words, w.wordTokens, jumpTimes, x)
          {
            ReportedRecordIsEarlierWord(w.words, w.wordTokens, jumpTimes, x);
          }
        }
        Success(kept)
  }

  /** When the alignment path runs over the rows of the tokens a split of at least
      two words was taken from, no boundary goes past the jump times, and every word
      begins no later than it ends, inside the cut matrix. */
  lemma SplitTimingsInMatrix(tokens: seq<Token>, w: Words, index1s: seq<int>, index2s: seq<int>, cols: nat)
    requires IsWarpingPath(index1s, index2s, |tokens|, cols)
    requires WordPartition(tokens, w) && |w.wordTokens| >= 2
    ensures var r := WordTimings(w.words, w.wordTokens, JumpTimes(index1s, index2s));
      r.Success? && forall x :: x in r.value ==> 0 <= x.begin <= x.end < cols
  {
    var jumpTimes := JumpTimes(index1s, index2s);
    JumpTimesSpec(index1s, index2s, |tokens|, cols);
    BoundariesLocateWords(tokens, w.wordTokens, |w.wordTokens| - 1);
    assert WordBoundaries(w.wordTokens)[|w.wordTokens| - 1] < |jumpTimes|;
    WordTimingsFailIff(w.words, w.wordTokens, jumpTimes);
    TimingsOrdered(w.words, w.wordTokens, jumpTimes, cols);
  }

  /** The whole pipeline on a well-formed input. The start-of-transcript token is a
      special token, so the split always succeeds. The attention matrix has one row per
      decoder token and is cut to the audio's frames, and the alignment path runs over
      that cut matrix. Then, if the split finds at least two words, no index goes out of
      range and every reported word begins no later than it ends, inside the frames the
      audio fills. */
  lemma TimestampsInMatrix(tokenizer: Tokenizer, decode: Decoder, language: string, encoded: seq<Token>, duration: nat,
                           weights: seq<seq<Weight>>, index1s: seq<int>, index2s: seq<int>, cols: nat)
    requires |tokenizer.sotSequence| > 0 && tokenizer.sotSequence[0] >= tokenizer.eot
    requires |weights| == |TranscriptTokens(tokenizer, encoded, duration)|
    requires cols == |TruncateFrames(weights, duration)[0]|
    requires IsWarpingPath(index1s, index2s, |TranscriptTokens(tokenizer, encoded, duration)|, cols)
    requires var split := TokenSplit(language, decode, tokenizer.eot, TranscriptTokens(tokenizer, encoded, duration));
      split.Success? ==> |split.value.wordTokens| >= 2
    ensures TokenSplit(language, decode, tokenizer.eot, TranscriptTokens(tokenizer, encoded, duration)).Success?
    ensures var r := Timestamps(tokenizer, decode, language, encoded, duration, index1s, index2s);
      r.Success? && forall x :: x in r.value ==> 0 <= x.begin <= x.end < cols <= FrameCount(duration)
  {
    var tokens := TranscriptTokens(tokenizer, encoded, duration);
    assert tokens[0] == tokenizer.sotSequence[0];
    SpecialFirstTokenSplits(language, decode, tokenizer.eot, tokens);
    var w := TokenSplit(language, decode, tokenizer.eot, tokens).value;
    SplitTimingsInMatrix(tokens, w, index1s, index2s, cols);
  }

  /** One pass of the per-transcript loop, with the splitter run as the loops it is. */
  method WordTimestamps(tokenizer: Tokenizer, decode: Decoder, language: string, encoded: seq<Token>, duration: nat,
                        index1s: seq<int>, index2s: seq<int>) returns (r: Result<seq<WordTiming>>)
    requires |index1s| == |index2s| > 0
    ensures r == Timestamps(tokenizer, decode, language, encoded, duration, index1s, index2s)
  {
    var tokens := TranscriptTokens(tokenizer, encoded, duration);
    var jumpTimes := JumpTimes(index1s, index2s);
    var split := SplitTokens(language, decode, tokenizer.eot, tokens);
    if split.Failure? {
      return Failure(split.error);
    }
    var timings := WordTimings(split.value.words, split.value.wordTokens, jumpTimes);
    if timings.Failure? {
      return Failure(timings.error);
    }
    r := Success(KeepReported(timings.value));
  }
}
