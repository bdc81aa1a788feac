/** The forced-alignment side of word timestamps: the token sequence fed to the
    decoder, the cut of the cross-attention weights to the audio's length, and the
    reading of the dynamic-time-warping path into one start frame per token. Times
    stay in frames (attention columns); their scaling to seconds is left out. */
module Alignment {
  import opened Joining

  /** Audio samples per spectrogram frame in the whisper library (`whisper.audio.HOP_LENGTH`). */
  const HopLength: nat := 160

  /** Audio samples per attention column: the encoder halves the spectrogram's frame rate. */
  const AudioSamplesPerToken: nat := HopLength * 2

  /** The tokenizer's special tokens used to frame a transcript. */
  datatype Tokenizer = Tokenizer(sotSequence: seq<Token>, timestampBegin: Token, eot: Token)

  /** `duration // AUDIO_SAMPLES_PER_TOKEN`: the attention columns that hold audio. */
  function FrameCount(duration: nat): (n: nat)
    ensures n * AudioSamplesPerToken <= duration < (n + 1) * AudioSamplesPerToken
  {
    duration / AudioSamplesPerToken
  }

  /** The decoder input: the start-of-transcript sequence, the zero timestamp, the
      encoded transcript, the timestamp of the audio's end and end-of-text. */
  function TranscriptTokens(tokenizer: Tokenizer, encoded: seq<Token>, duration: nat): (r: seq<Token>)
    ensures |r| == |tokenizer.sotSequence| + |encoded| + 3
    ensures r[..|tokenizer.sotSequence|] == tokenizer.sotSequence
    ensures r[|tokenizer.sotSequence|] == tokenizer.timestampBegin
    ensures r[|tokenizer.sotSequence| + 1..|r| - 2] == encoded
    ensures r[|r| - 2] == tokenizer.timestampBegin + FrameCount(duration)
    ensures r[|r| - 1] == tokenizer.eot
  {
    tokenizer.sotSequence + [tokenizer.timestampBegin] + encoded
      + [tokenizer.timestampBegin + FrameCount(duration), tokenizer.eot]
  }

  /** The transcript part of a decoder input laid out as above. */
  function EncodedPart(tokenizer: Tokenizer, tokens: seq<Token>): seq<Token>
    requires |tokenizer.sotSequence| + 3 <= |tokens|
  {
    tokens[|tokenizer.sotSequence| + 1..|tokens| - 2]
  }

  /** The transcript can be read back from the decoder input, and the end timestamp
      says how many attention columns the audio fills. */
  lemma TranscriptRoundTrip(tokenizer: Tokenizer, encoded: seq<Token>, duration: nat)
    ensures var tokens := TranscriptTokens(tokenizer, encoded, duration);
      && EncodedPart(tokenizer, tokens) == encoded
      && (tokens[|tokens| - 2] - tokenizer.timestampBegin) * AudioSamplesPerToken <= duration
      && duration < (tokens[|tokens| - 2] - tokenizer.timestampBegin + 1) * AudioSamplesPerToken
  {
  }

  /** One attention weight (a head's score for a token and a column). */
  type Weight = real

  /** `weights[..., :duration // AUDIO_SAMPLES_PER_TOKEN]` on one token-by-column
      matrix: every row keeps its first columns, at most as many as hold audio. */
  function TruncateFrames(weights: seq<seq<Weight>>, duration: nat): (r: seq<seq<Weight>>)
    ensures |r| == |weights|
    ensures forall i :: 0 <= i < |r| ==> r[i] <= weights[i]
    ensures forall i :: 0 <= i < |r| ==> |r[i]| == if |weights[i]| < FrameCount(duration) then |weights[i]| else FrameCount(duration)
  {
    seq(|weights|, i requires 0 <= i < |weights| =>
      weights[i][..if |weights[i]| < FrameCount(duration) then |weights[i]| else FrameCount(duration)])
  }

  /** When the encoder produced at least as many columns as the audio fills, the cut
      matrix is exactly as wide as the end timestamp of the decoder input says. */
  lemma TruncatedWidthIsEndTimestamp(tokenizer: Tokenizer, encoded: seq<Token>, weights: seq<seq<Weight>>, duration: nat)
    requires forall i :: 0 <= i < |weights| ==> FrameCount(duration) <= |weights[i]|
    ensures var tokens := TranscriptTokens(tokenizer, encoded, duration);
      forall i :: 0 <= i < |weights| ==>
        |TruncateFrames(weights, duration)[i]| == tokens[|tokens| - 2] - tokenizer.timestampBegin
  {
  }

  /** `np.pad(np.diff(index1s), (1, 0), constant_values=1).astype(bool)`: the path
      steps that enter a new row, the first step always counting as one. */
  function JumpMask(index1s: seq<int>): (r: seq<bool>)
    requires |index1s| > 0
    ensures |r| == |index1s|
    ensures r[0]
    ensures forall k :: 0 < k < |r| ==> (r[k] <==> index1s[k] != index1s[k - 1])
  {
    [true] + seq(|index1s| - 1, k requires 0 <= k < |index1s| - 1 => index1s[k + 1] - index1s[k] != 0)
  }

  /** How many of the first `n` mask entries are set. */
  function CountTrue(mask: seq<bool>, n: nat): (c: nat)
    requires n <= |mask|
    ensures c <= n
  {
    if n == 0 then 0 else CountTrue(mask, n - 1) + (if mask[n - 1] then 1 else 0)
  }

  /** The value at set entry `k` of the mask sits in `r` after one value per earlier
      set entry. */
  predicate SelectedAt(values: seq<int>, mask: seq<bool>, r: seq<int>, k: int) {
    0 <= k < |values| && k < |mask| && CountTrue(mask, k) < |r| && r[CountTrue(mask, k)] == values[k]
  }

  /** Boolean-mask indexing `values[mask]` restricted to the first `n` positions: one
      value per set entry, and the `j`-th value kept is the one at the `j`-th set entry. */
  function SelectFirst(values: seq<int>, mask: seq<bool>, n: nat): (r: seq<int>)
    requires |values| == |mask| && n <= |mask|
    ensures |r| == CountTrue(mask, n)
    ensures forall k :: 0 <= k < n && mask[k] ==> SelectedAt(values, mask, r, k)
  {
    if n == 0 then []
    else
      var p := SelectFirst(values, mask, n - 1);
      var r := if mask[n - 1] then p + [values[n - 1]] else p;
      assert forall k :: 0 <= k < n && mask[k] ==> SelectedAt(values, mask, r, k) by {
        forall k | 0 <= k < n && mask[k]
          ensures SelectedAt(values, mask, r, k)
        {
          if k < n - 1 {
            assert SelectedAt(values, mask, p, k);
          }
        }
      }
      r
  }

  /** `index2s[jumps]`: for every token row, the column at which the path enters it.
      The first step is always a jump, so the first time is the path's first column. */
  function JumpTimes(index1s: seq<int>, index2s: seq<int>): (times: seq<int>)
    requires |index1s| == |index2s| > 0
    ensures |times| == CountTrue(JumpMask(index1s), |index1s|)
    ensures |times| > 0 && times[0] == index2s[0]
  {
    var mask := JumpMask(index1s);
    var times := SelectFirst(index2s, mask, |index2s|);
    assert SelectedAt(index2s, mask, times, 0);
    times
  }

  /** The shape of a path returned by dynamic time warping with the symmetric step
      pattern over a `rows` by `cols` cost matrix: it starts in the first cell, ends in
      the last, and each step advances the row, the column or both by one. */
  ghost predicate IsWarpingPath(index1s: seq<int>, index2s: seq<int>, rows: nat, cols: nat) {
    && rows > 0 && cols > 0
    && |index1s| == |index2s| > 0
    && index1s[0] == 0 && index2s[0] == 0
    && index1s[|index1s| - 1] == rows - 1 && index2s[|index2s| - 1] == cols - 1
    && (forall k :: 0 < k < |index1s| ==> 0 <= index1s[k] - index1s[k - 1] <= 1)
    && (forall k :: 0 < k < |index2s| ==> 0 <= index2s[k] - index2s[k - 1] <= 1)
  }

  /** Along a warping path rows and columns never go back, so every cell lies
      between the first and the current one. */
  lemma {:induction false} PathMonotone(index1s: seq<int>, index2s: seq<int>, rows: nat, cols: nat, n: nat)
    requires IsWarpingPath(index1s, index2s, rows, cols)
    requires 0 < n <= |index1s|
    ensures forall k :: 0 <= k < n ==> 0 <= index1s[k] <= index1s[n - 1]
    ensures forall k :: 0 <= k < n ==> 0 <= index2s[k] <= index2s[n - 1]
  {
    if n > 1 {
      PathMonotone(index1s, index2s, rows, cols, n - 1);
    }
  }

  /** The path's rows and columns stay inside the matrix. */
  lemma PathInMatrix(index1s: seq<int>, index2s: seq<int>, rows: nat, cols: nat)
    requires IsWarpingPath(index1s, index2s, rows, cols)
    ensures forall k :: 0 <= k < |index1s| ==> 0 <= index1s[k] < rows && 0 <= index2s[k] < cols
  {
    PathMonotone(index1s, index2s, rows, cols, |index1s|);
  }

  /** On the first `n` steps of a warping path there is one jump per row reached so far. */
  lemma {:induction false} JumpCount(index1s: seq<int>, index2s: seq<int>, rows: nat, cols: nat, n: nat)
    requires IsWarpingPath(index1s, index2s, rows, cols)
    requires 0 < n <= |index1s|
    ensures CountTrue(JumpMask(index1s), n) == index1s[n - 1] + 1
  {
    if n > 1 {
      JumpCount(index1s, index2s, rows, cols, n - 1);
    }
  }

  /** The jumps before a jump step are as many as the row it enters, so that row's
      jump time is the step's column. */
  lemma JumpLandsOnRow(index1s: seq<int>, index2s: seq<int>, rows: nat, cols: nat, k: nat)
    requires IsWarpingPath(index1s, index2s, rows, cols)
    requires k < |index1s| && JumpMask(index1s)[k]
    ensures CountTrue(JumpMask(index1s), k) == index1s[k]
  {
    if k > 0 {
      JumpCount(index1s, index2s, rows, cols, k);
    }
  }

  /** The values of `p` never decrease. */
  predicate NonDecreasing(p: seq<int>) {
    forall s, t :: 0 <= s <= t < |p| ==> p[s] <= p[t]
  }

  /** Every value of `p` lies in `[lo, hi]`. */
  predicate Within(p: seq<int>, lo: int, hi: int) {
    forall t :: 0 <= t < |p| ==> lo <= p[t] <= hi
  }

  lemma AppendNotBelow(p: seq<int>, v: int, hi: int)
    requires NonDecreasing(p) && Within(p, 0, hi) && 0 <= hi <= v
    ensures NonDecreasing(p + [v]) && Within(p + [v], 0, v)
  {
  }

  /** On the first `n` steps, the recorded entries never decrease and lie between
      the first column and the current one. */
  lemma {:induction false} JumpPrefixSorted(index1s: seq<int>, index2s: seq<int>, rows: nat, cols: nat, n: nat)
    requires IsWarpingPath(index1s, index2s, rows, cols)
    requires 0 < n <= |index1s|
    ensures NonDecreasing(SelectFirst(index2s, JumpMask(index1s), n))
    ensures Within(SelectFirst(index2s, JumpMask(index1s), n), 0, index2s[n - 1])
  {
    if n > 1 {
      JumpPrefixSorted(index1s, index2s, rows, cols, n - 1);
      var mask := JumpMask(index1s);
      var p := SelectFirst(index2s, mask, n - 1);
      PathMonotone(index1s, index2s, rows, cols, n);
      assert 0 <= index2s[n - 2] <= index2s[n - 1];
      if mask[n - 1] {
        AppendNotBelow(p, index2s[n - 1], index2s[n - 2]);
      }
    }
  }

  /** Step `k` of the path enters a new row; the first step always does. */
  predicate IsJump(index1s: seq<int>, k: int) {
    0 <= k < |index1s| && (k == 0 || index1s[k - 1] != index1s[k])
  }

  /** Step `k` of the path is a jump that enters row `r`. */
  predicate EntersRow(index1s: seq<int>, k: int, r: int) {
    IsJump(index1s, k) && index1s[k] == r
  }

  /** Row `r` of `times` holds the column of a jump that enters row `r`. */
  ghost predicate RowEnteredAt(index1s: seq<int>, index2s: seq<int>, times: seq<int>, r: int) {
    exists k :: EntersRow(index1s, k, r) && 0 <= r < |times| && k < |index2s| && times[r] == index2s[k]
  }

  /** Some jump among the first `n` steps enters row `r`. */
  ghost predicate EnteredBefore(index1s: seq<int>, n: nat, r: int) {
    exists k :: k < n && EntersRow(index1s, k, r)
  }

  /** Every row up to the current one was entered by a jump among the first `n` steps. */
  lemma {:induction false} RowsEnteredUpTo(index1s: seq<int>, index2s: seq<int>, rows: nat, cols: nat, n: nat)
    requires IsWarpingPath(index1s, index2s, rows, cols)
    requires 0 < n <= |index1s|
    ensures forall r :: 0 <= r <= index1s[n - 1] ==> EnteredBefore(index1s, n, r)
  {
    if n == 1 {
      assert EntersRow(index1s, 0, 0);
    } else {
      RowsEnteredUpTo(index1s, index2s, rows, cols, n - 1);
      assert 0 <= index1s[n - 1] - index1s[n - 2] <= 1;
      forall r | 0 <= r <= index1s[n - 1]
        ensures EnteredBefore(index1s, n, r)
      {
        if r <= index1s[n - 2] {
          assert EnteredBefore(index1s, n - 1, r);
          var k :| k < n - 1 && EntersRow(index1s, k, r);
        } else {
          assert EntersRow(index1s, n - 1, r);
        }
      }
    }
  }

  /** The time recorded for the row a jump enters is the jump's column. */
  lemma JumpTimeAt(index1s: seq<int>, index2s: seq<int>, rows: nat, cols: nat, k: int)
    requires IsWarpingPath(index1s, index2s, rows, cols)
    requires IsJump(index1s, k)
    ensures var times := JumpTimes(index1s, index2s);
      0 <= index1s[k] < |times| && times[index1s[k]] == index2s[k]
  {
    var mask := JumpMask(index1s);
    var times := JumpTimes(index1s, index2s);
    assert mask[k];
    JumpLandsOnRow(index1s, index2s, rows, cols, k);
    assert SelectedAt(index2s, mask, times, k);
  }

  /** Every row is entered by a jump, and the row's time is that jump's column. */
  lemma JumpTimeOfRow(index1s: seq<int>, index2s: seq<int>, rows: nat, cols: nat, r: int)
    requires IsWarpingPath(index1s, index2s, rows, cols)
    requires 0 <= r < rows
    ensures RowEnteredAt(index1s, index2s, JumpTimes(index1s, index2s), r)
  {
    JumpCount(index1s, index2s, rows, cols, |index1s|);
    RowsEnteredUpTo(index1s, index2s, rows, cols, |index1s|);
    assert EnteredBefore(index1s, |index1s|, r);
    var k :| k < |index1s| && EntersRow(index1s, k, r);
    JumpTimeAt(index1s, index2s, rows, cols, k);
    assert EntersRow(index1s, k, r) && 0 <= r < |JumpTimes(index1s, index2s)| && k < |index2s| && JumpTimes(index1s, index2s)[r] == index2s[k];
  }

  /** A step towards `JumpTimesSpec`: one jump time per token row, starting at zero,
      never decreasing and inside the matrix. */
  lemma JumpTimesSorted(index1s: seq<int>, index2s: seq<int>, rows: nat, cols: nat)
    requires IsWarpingPath(index1s, index2s, rows, cols)
    ensures |JumpTimes(index1s, index2s)| == rows
    ensures JumpTimes(index1s, index2s)[0] == 0
    ensures Within(JumpTimes(index1s, index2s), 0, cols - 1)
    ensures NonDecreasing(JumpTimes(index1s, index2s))
  {
    JumpCount(index1s, index2s, rows, cols, |index1s|);
    JumpPrefixSorted(index1s, index2s, rows, cols, |index1s|);
  }

  /** A step towards `JumpTimesSpec`: the time of the row each jump enters is that
      jump's column. */
  lemma JumpTimesAtJumps(index1s: seq<int>, index2s: seq<int>, rows: nat, cols: nat)
    requires IsWarpingPath(index1s, index2s, rows, cols)
    ensures |JumpTimes(index1s, index2s)| == rows
    ensures forall k :: IsJump(index1s, k) ==>
      0 <= index1s[k] < rows && JumpTimes(index1s, index2s)[index1s[k]] == index2s[k]
  {
    JumpCount(index1s, index2s, rows, cols, |index1s|);
    forall k | IsJump(index1s, k)
      ensures 0 <= index1s[k] < rows && JumpTimes(index1s, index2s)[index1s[k]] == index2s[k]
    {
      JumpTimeAt(index1s, index2s, rows, cols, k);
    }
  }

  /** A step towards `JumpTimesSpec`: every row's time is the column of a jump that
      enters it. */
  lemma JumpTimesCoverRows(index1s: seq<int>, index2s: seq<int>, rows: nat, cols: nat)
    requires IsWarpingPath(index1s, index2s, rows, cols)
    ensures forall r :: 0 <= r < rows ==> RowEnteredAt(index1s, index2s, JumpTimes(index1s, index2s), r)
  {
    forall r | 0 <= r < rows
      ensures RowEnteredAt(index1s, index2s, JumpTimes(index1s, index2s), r)
    {
      JumpTimeOfRow(index1s, index2s, rows, cols, r);
    }
  }

  /** Reading a warping path: there is one jump time per token row, the first is
      zero, every row is entered by a jump and its time is the column of that jump,
      and the times never decrease and stay inside the matrix. */
  lemma JumpTimesSpec(index1s: seq<int>, index2s: seq<int>, rows: nat, cols: nat)
    requires IsWarpingPath(index1s, index2s, rows, cols)
    ensures |JumpTimes(index1s, index2s)| == rows
    ensures JumpTimes(index1s, index2s)[0] == 0
    ensures forall k :: IsJump(index1s, k) ==>
      0 <= index1s[k] < rows && JumpTimes(index1s, index2s)[index1s[k]] == index2s[k]
    ensures forall r :: 0 <= r < rows ==> RowEnteredAt(index1s, index2s, JumpTimes(index1s, index2s), r)
    ensures Within(JumpTimes(index1s, index2s), 0, cols - 1)
    ensures NonDecreasing(JumpTimes(index1s, index2s))
  {
    JumpTimesSorted(index1s, index2s, rows, cols);
    JumpTimesAtJumps(index1s, index2s, rows, cols);
    JumpTimesCoverRows(index1s, index2s, rows, cols);
  }
}
