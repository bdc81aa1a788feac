/** Grouping a token sequence into words: `split_tokens_on_unicode`,
    `split_tokens_on_spaces` and the per-language choice between them. */
module WordSplit {
  import opened Results
  import opened Joining
  import opened Text

  /** The tokenizer's `decode_with_timestamps`, which the model does not look inside. */
  type Decoder = seq<Token> -> string

  /** The state of the unicode pass after a prefix of the tokens: the sub-words emitted
      so far, their token groups, and the tokens still waiting for a clean decode. */
  datatype UnicodeScan = UnicodeScan(words: seq<string>, groups: seq<seq<Token>>, pending: seq<Token>)

  /** Words and the token group of each, as both splitters return them. */
  datatype Words = Words(words: seq<string>, wordTokens: seq<seq<Token>>)

  /** What the unicode pass hands to the space pass: parallel lists, no empty group. */
  predicate Grouped(subwords: seq<string>, subwordTokens: seq<seq<Token>>) {
    |subwords| == |subwordTokens| && forall i :: 0 <= i < |subwordTokens| ==> |subwordTokens[i]| > 0
  }

  /** The unicode pass after its first `n` turns: each turn appends one token to the pending
      run and emits the run as a sub-word once its decode holds no U+FFFD. */
  function ScanFirst(decode: Decoder, tokens: seq<Token>, n: nat): (r: UnicodeScan)
    requires n <= |tokens|
    ensures Grouped(r.words, r.groups)
  {
    if n == 0 then UnicodeScan([], [], [])
    else
      var before := ScanFirst(decode, tokens, n - 1);
      var current := before.pending + [tokens[n - 1]];
      var decoded := decode(current);
      if !HasReplacement(decoded) then UnicodeScan(before.words + [decoded], before.groups + [current], [])
      else UnicodeScan(before.words, before.groups, current)
  }

  /** The whole unicode pass: a unicode split of the tokens in the sense below. */
  function ScanUnicode(decode: Decoder, tokens: seq<Token>): (r: UnicodeScan)
    ensures IsUnicodeSplit(decode, tokens, r)
  {
    ScanFirstIsSplit(decode, tokens, |tokens|);
    assert tokens[..|tokens|] == tokens;
    ScanFirst(decode, tokens, |tokens|)
  }

  /** What a unicode split of `tokens` is, independently of how it is computed: the groups
      followed by the pending tokens are exactly `tokens`; every group is non-empty, its text
      is its own decode and holds no U+FFFD, and it is the SHORTEST such run (each proper
      prefix still decodes with U+FFFD); no non-empty prefix of the pending tokens decodes
      cleanly, and they are the tokens the pass drops. */
  ghost predicate IsUnicodeSplit(decode: Decoder, tokens: seq<Token>, s: UnicodeScan) {
    && |s.words| == |s.groups|
    && Flatten(s.groups) + s.pending == tokens
    && (forall i :: 0 <= i < |s.groups| ==>
          |s.groups[i]| > 0 && s.words[i] == decode(s.groups[i]) && !HasReplacement(s.words[i]))
    && (forall i, k :: 0 <= i < |s.groups| && 0 < k < |s.groups[i]| ==> HasReplacement(decode(s.groups[i][..k])))
    && (forall k :: 0 < k <= |s.pending| ==> HasReplacement(decode(s.pending[..k])))
  }

  /** A turn whose run decodes cleanly closes the run as a new group. */
  lemma CloseGroupStep(decode: Decoder, prefix: seq<Token>, t: Token, before: UnicodeScan)
    requires IsUnicodeSplit(decode, prefix, before)
    requires !HasReplacement(decode(before.pending + [t]))
    ensures var current := before.pending + [t];
      IsUnicodeSplit(decode, prefix + [t], UnicodeScan(before.words + [decode(current)], before.groups + [current], []))
  {
    var current := before.pending + [t];
    var after := UnicodeScan(before.words + [decode(current)], before.groups + [current], []);
    FlattenSnoc(before.groups, current);
    forall i, k | 0 <= i < |after.groups| && 0 < k < |after.groups[i]|
      ensures HasReplacement(decode(after.groups[i][..k]))
    {
      if i == |before.groups| {
        assert after.groups[i][..k] == before.pending[..k];
      } else {
        assert after.groups[i] == before.groups[i];
      }
    }
  }

  /** A turn whose run still decodes with U+FFFD keeps the run pending. */
  lemma ExtendPendingStep(decode: Decoder, prefix: seq<Token>, t: Token, before: UnicodeScan)
    requires IsUnicodeSplit(decode, prefix, before)
    requires HasReplacement(decode(before.pending + [t]))
    ensures IsUnicodeSplit(decode, prefix + [t], UnicodeScan(before.words, before.groups, before.pending + [t]))
  {
    var current := before.pending + [t];
    assert forall k :: 0 < k <= |before.pending| ==> current[..k] == before.pending[..k];
    assert current[..|current|] == current;
  }

  lemma {:induction false} ScanFirstIsSplit(decode: Decoder, tokens: seq<Token>, n: nat)
    requires n <= |tokens|
    ensures IsUnicodeSplit(decode, tokens[..n], ScanFirst(decode, tokens, n))
  {
    if n > 0 {
      var before := ScanFirst(decode, tokens, n - 1);
      ScanFirstIsSplit(decode, tokens, n - 1);
      assert tokens[..n] == tokens[..n - 1] + [tokens[n - 1]];
      if !HasReplacement(decode(before.pending + [tokens[n - 1]])) {
        CloseGroupStep(decode, tokens[..n - 1], tokens[n - 1], before);
      } else {
        ExtendPendingStep(decode, tokens[..n - 1], tokens[n - 1], before);
      }
    }
  }

  /** Without its last token, a split whose pending run is non-empty keeps its groups. */
  lemma ShortenPending(decode: Decoder, tokens: seq<Token>, s: UnicodeScan)
    requires IsUnicodeSplit(decode, tokens, s) && |s.pending| > 0
    ensures |tokens| > 0 && s.pending[|s.pending| - 1] == tokens[|tokens| - 1]
    ensures IsUnicodeSplit(decode, tokens[..|tokens| - 1], UnicodeScan(s.words, s.groups, s.pending[..|s.pending| - 1]))
  {
    var p := |s.pending| - 1;
    assert forall k :: 0 < k <= p ==> s.pending[..p][..k] == s.pending[..k];
    assert s.pending == s.pending[..p] + [s.pending[p]];
    assert Flatten(s.groups) + s.pending[..p] == tokens[..|tokens| - 1];
  }

  /** Without its last token, a split with nothing pending reopens its last group as the pending run. */
  lemma ReopenLastGroup(decode: Decoder, tokens: seq<Token>, s: UnicodeScan)
    requires IsUnicodeSplit(decode, tokens, s) && |s.pending| == 0 && |s.groups| > 0
    ensures var g := s.groups[|s.groups| - 1];
      && |tokens| > 0 && g[|g| - 1] == tokens[|tokens| - 1]
      && s.words[|s.words| - 1] == decode(g)
      && IsUnicodeSplit(decode, tokens[..|tokens| - 1],
           UnicodeScan(s.words[..|s.words| - 1], s.groups[..|s.groups| - 1], g[..|g| - 1]))
  {
    var m := |s.groups|;
    var g := s.groups[m - 1];
    var q := |g| - 1;
    var shorter := UnicodeScan(s.words[..m - 1], s.groups[..m - 1], g[..q]);
    assert s.groups == s.groups[..m - 1] + [g];
    FlattenSnoc(s.groups[..m - 1], g);
    assert g == g[..q] + [g[q]];
    assert Flatten(shorter.groups) + shorter.pending == tokens[..|tokens| - 1];
    assert forall k :: 0 < k <= q ==> shorter.pending[..k] == g[..k];
    forall i | 0 <= i < |shorter.groups|
      ensures |shorter.groups[i]| > 0 && shorter.words[i] == decode(shorter.groups[i])
      ensures !HasReplacement(shorter.words[i])
    {
      assert shorter.groups[i] == s.groups[i] && shorter.words[i] == s.words[i];
    }
    forall i, k | 0 <= i < |shorter.groups| && 0 < k < |shorter.groups[i]|
      ensures HasReplacement(decode(shorter.groups[i][..k]))
    {
      assert shorter.groups[i] == s.groups[i];
    }
  }

  /** A split is pinned down by `IsUnicodeSplit`: any split of the first `n` tokens is the
      one the pass computes. */
  lemma {:induction false} SplitIsScanFirst(decode: Decoder, tokens: seq<Token>, n: nat, s: UnicodeScan)
    requires n <= |tokens|
    requires IsUnicodeSplit(decode, tokens[..n], s)
    ensures s == ScanFirst(decode, tokens, n)
    decreases n, 1
  {
    if |s.pending| > 0 {
      PendingSplitIsScanFirst(decode, tokens, n, s);
    } else if |s.groups| > 0 {
      ClosedSplitIsScanFirst(decode, tokens, n, s);
    } else {
      assert Flatten(s.groups) == [];
    }
  }

  /** The case of `SplitIsScanFirst` where the last token is still pending. */
  lemma {:induction false} PendingSplitIsScanFirst(decode: Decoder, tokens: seq<Token>, n: nat, s: UnicodeScan)
    requires n <= |tokens|
    requires IsUnicodeSplit(decode, tokens[..n], s) && |s.pending| > 0
    ensures s == ScanFirst(decode, tokens, n)
    decreases n, 0
  {
    var p := |s.pending| - 1;
    ShortenPending(decode, tokens[..n], s);
    assert tokens[..n][..n - 1] == tokens[..n - 1];
    SplitIsScanFirst(decode, tokens, n - 1, UnicodeScan(s.words, s.groups, s.pending[..p]));
    assert s.pending[..p] + [tokens[n - 1]] == s.pending;
    assert s.pending[..|s.pending|] == s.pending;
  }

  /** The case of `SplitIsScanFirst` where the last token closed a group. */
  lemma {:induction false} ClosedSplitIsScanFirst(decode: Decoder, tokens: seq<Token>, n: nat, s: UnicodeScan)
    requires n <= |tokens|
    requires IsUnicodeSplit(decode, tokens[..n], s) && |s.pending| == 0 && |s.groups| > 0
    ensures s == ScanFirst(decode, tokens, n)
    decreases n, 0
  {
    var m := |s.groups|;
    var g := s.groups[m - 1];
    var q := |g| - 1;
    ReopenLastGroup(decode, tokens[..n], s);
    assert tokens[..n][..n - 1] == tokens[..n - 1];
    SplitIsScanFirst(decode, tokens, n - 1, UnicodeScan(s.words[..m - 1], s.groups[..m - 1], g[..q]));
    assert g[..q] + [tokens[n - 1]] == g;
    assert s.groups == s.groups[..m - 1] + [g];
    assert s.words == s.words[..m - 1] + [decode(g)];
  }

  /** `ScanUnicode` computes exactly the splits that `IsUnicodeSplit` describes. */
  lemma UnicodeSplitIff(decode: Decoder, tokens: seq<Token>, s: UnicodeScan)
    ensures IsUnicodeSplit(decode, tokens, s) <==> s == ScanUnicode(decode, tokens)
  {
    assert tokens[..|tokens|] == tokens;
    ScanFirstIsSplit(decode, tokens, |tokens|);
    if IsUnicodeSplit(decode, tokens, s) {
      SplitIsScanFirst(decode, tokens, |tokens|, s);
    }
  }

  /** The groups cover the whole input exactly when nothing is left pending, and tokens
      left pending (which the pass drops) still decode with U+FFFD as a whole. */
  lemma UnicodeSplitCoversIff(decode: Decoder, tokens: seq<Token>)
    ensures var s := ScanUnicode(decode, tokens);
      && (Flatten(s.groups) == tokens <==> s.pending == [])
      && (s.pending != [] ==> HasReplacement(decode(s.pending)))
  {
    var s := ScanUnicode(decode, tokens);
    UnicodeSplitIff(decode, tokens, s);
    assert Flatten(s.groups) + s.pending == tokens;
    if s.pending != [] {
      assert s.pending[..|s.pending|] == s.pending;
    }
  }

  /** `split_tokens_on_unicode`. */
  method SplitTokensOnUnicode(decode: Decoder, tokens: seq<Token>) returns (words: seq<string>, wordTokens: seq<seq<Token>>)
    ensures words == ScanUnicode(decode, tokens).words && wordTokens == ScanUnicode(decode, tokens).groups
    ensures Grouped(words, wordTokens)
    ensures Flatten(wordTokens) <= tokens
    ensures forall i :: 0 <= i < |wordTokens| ==> words[i] == decode(wordTokens[i]) && !HasReplacement(words[i])
  {
    words, wordTokens := [], [];
    var currentTokens: seq<Token> := [];
    for i := 0 to |tokens|
      invariant ScanFirst(decode, tokens, i) == UnicodeScan(words, wordTokens, currentTokens)
    {
      currentTokens := currentTokens + [tokens[i]];
      var decoded := decode(currentTokens);
      if !HasReplacement(decoded) {
        words := words + [decoded];
        wordTokens := wordTokens + [currentTokens];
        currentTokens := [];
      }
    }
    ScanFirstIsSplit(decode, tokens, |tokens|);
    assert tokens[..|tokens|] == tokens;
  }

  /** `subword.strip() in string.punctuation`. */
  predicate IsPunctuation(subword: string): (b: bool)
    ensures Strip(subword) == [] ==> b
    ensures |Strip(subword)| > |AsciiPunctuation| ==> !b
  {
    assert OccursAt([], AsciiPunctuation, 0);
    IsSubstring(Strip(subword), AsciiPunctuation)
  }

  /** The three tests of `split_tokens_on_spaces` that open a new word: a special token
      (id at or above `eot`), a leading space, or punctuation (a substring test, so an
      all-whitespace sub-word and a run such as `"()"` qualify). */
  predicate StartsNewWord(eot: Token, subword: string, subwordTokens: seq<Token>): (b: bool)
    requires |subwordTokens| > 0
    ensures Strip(subword) == [] ==> b
    ensures !b ==> subwordTokens[0] < eot && subword != [] && subword[0] != ' '
  {
    subwordTokens[0] >= eot || StartsWith(subword, " ") || IsPunctuation(subword)
  }

  /** One turn of the merge loop: `subword` opens a new word, or is appended to the last
      word, text and tokens, which fails when there is no word yet. */
  function MergeOne(eot: Token, before: Words, subword: string, subwordTokens: seq<Token>): (r: Result<Words>)
    requires |before.words| == |before.wordTokens| && |subwordTokens| > 0
    ensures r.Failure? <==> |before.words| == 0 && !StartsNewWord(eot, subword, subwordTokens)
    ensures r.Success? ==> |r.value.words| == |r.value.wordTokens| > 0
    ensures r.Success? && StartsNewWord(eot, subword, subwordTokens) ==>
              r.value.words == before.words + [subword] && r.value.wordTokens == before.wordTokens + [subwordTokens]
    ensures r.Success? && !StartsNewWord(eot, subword, subwordTokens) ==>
              var m := |before.words|;
              && |r.value.words| == m
              && (forall i :: 0 <= i < m - 1 ==>
                    r.value.words[i] == before.words[i] && r.value.wordTokens[i] == before.wordTokens[i])
              && r.value.words[m - 1] == before.words[m - 1] + subword
              && r.value.wordTokens[m - 1] == before.wordTokens[m - 1] + subwordTokens
  {
    if StartsNewWord(eot, subword, subwordTokens) then
      Success(Words(before.words + [subword], before.wordTokens + [subwordTokens]))
    else if |before.words| == 0 then Failure(EmptyWordList)
    else
      var last := |before.words| - 1;
      Success(Words(before.words[last := before.words[last] + subword],
                    before.wordTokens[last := before.wordTokens[last] + subwordTokens]))
  }

  /** The merge loop of `split_tokens_on_spaces` after its first `n` turns. */
  function MergeFirst(eot: Token, subwords: seq<string>, subwordTokens: seq<seq<Token>>, n: nat): (r: Result<Words>)
    requires Grouped(subwords, subwordTokens) && n <= |subwords|
    ensures r.Success? ==> |r.value.words| == |r.value.wordTokens| <= n
    ensures r.Success? ==> (|r.value.words| == 0 <==> n == 0)
  {
    if n == 0 then Success(Words([], []))
    else
      var before := MergeFirst(eot, subwords, subwordTokens, n - 1);
      if before.Failure? then before
      else MergeOne(eot, before.value, subwords[n - 1], subwordTokens[n - 1])
  }

  /** The whole merge loop. It fails, with `EmptyWordList`, exactly when the first
      sub-word does not open a word; otherwise the words hold the same tokens and the
      same text as the sub-words, in one non-empty group per word. */
  function MergeOnSpaces(eot: Token, subwords: seq<string>, subwordTokens: seq<seq<Token>>): (r: Result<Words>)
    requires Grouped(subwords, subwordTokens)
    ensures r.Failure? <==> |subwords| > 0 && !StartsNewWord(eot, subwords[0], subwordTokens[0])
    ensures r.Failure? ==> r == Failure(EmptyWordList)
    ensures r.Success? ==> Grouped(r.value.words, r.value.wordTokens)
    ensures r.Success? ==> Flatten(r.value.wordTokens) == Flatten(subwordTokens)
    ensures r.Success? ==> Join(r.value.words) == Join(subwords)
  {
    var n := |subwords|;
    MergeFailsIff(eot, subwords, subwordTokens, n);
    var r := MergeFirst(eot, subwords, subwordTokens, n);
    if r.Success? then
      MergeKeepsTokens(eot, subwords, subwordTokens, n);
      MergeKeepsText(eot, subwords, subwordTokens, n);
      r
    else r
  }

  /** The merge fails exactly when the first sub-word would have to extend a word that does
      not exist, and then with that error. */
  lemma {:induction false} MergeFailsIff(eot: Token, subwords: seq<string>, subwordTokens: seq<seq<Token>>, n: nat)
    requires Grouped(subwords, subwordTokens) && n <= |subwords|
    ensures MergeFirst(eot, subwords, subwordTokens, n).Failure? <==>
              n > 0 && !StartsNewWord(eot, subwords[0], subwordTokens[0])
    ensures MergeFirst(eot, subwords, subwordTokens, n).Failure? ==>
              MergeFirst(eot, subwords, subwordTokens, n) == Failure(EmptyWordList)
  {
    if n > 1 {
      MergeFailsIff(eot, subwords, subwordTokens, n - 1);
    }
  }

  /** Merging neither drops, duplicates nor reorders tokens: the word groups join to the
      same tokens as the sub-word groups, and no group is empty. */
  lemma {:induction false} MergeKeepsTokens(eot: Token, subwords: seq<string>, subwordTokens: seq<seq<Token>>, n: nat)
    requires Grouped(subwords, subwordTokens) && n <= |subwords|
    requires MergeFirst(eot, subwords, subwordTokens, n).Success?
    ensures Flatten(MergeFirst(eot, subwords, subwordTokens, n).value.wordTokens) == FlattenFirst(subwordTokens, n)
    ensures forall i :: 0 <= i < |MergeFirst(eot, subwords, subwordTokens, n).value.wordTokens| ==>
              |MergeFirst(eot, subwords, subwordTokens, n).value.wordTokens[i]| > 0
  {
    if n > 0 {
      MergeKeepsTokens(eot, subwords, subwordTokens, n - 1);
      var before := MergeFirst(eot, subwords, subwordTokens, n - 1).value;
      var after := MergeFirst(eot, subwords, subwordTokens, n).value;
      var g := subwordTokens[n - 1];
      if StartsNewWord(eot, subwords[n - 1], g) {
        FlattenSnoc(before.wordTokens, g);
      } else {
        var m := |before.wordTokens|;
        assert after.wordTokens == before.wordTokens[m - 1 := before.wordTokens[m - 1] + g];
        FlattenExtendLast(before.wordTokens, g);
      }
    }
  }

  /** Merging keeps the text: the word texts join to the joined sub-word texts. */
  lemma {:induction false} MergeKeepsText(eot: Token, subwords: seq<string>, subwordTokens: seq<seq<Token>>, n: nat)
    requires Grouped(subwords, subwordTokens) && n <= |subwords|
    requires MergeFirst(eot, subwords, subwordTokens, n).Success?
    ensures Join(MergeFirst(eot, subwords, subwordTokens, n).value.words) == JoinFirst(subwords, n)
  {
    if n > 0 {
      MergeKeepsText(eot, subwords, subwordTokens, n - 1);
      var before := MergeFirst(eot, subwords, subwordTokens, n - 1).value;
      var after := MergeFirst(eot, subwords, subwordTokens, n).value;
      var w := subwords[n - 1];
      if StartsNewWord(eot, w, subwordTokens[n - 1]) {
        JoinSnoc(before.words, w);
      } else {
        var m := |before.words|;
        assert after.words == before.words[m - 1 := before.words[m - 1] + w];
        JoinExtendLast(before.words, w);
      }
    }
  }

  /** How many of the first `n` sub-words open a word. */
  function StartCount(eot: Token, subwords: seq<string>, subwordTokens: seq<seq<Token>>, n: nat): nat
    requires Grouped(subwords, subwordTokens) && n <= |subwords|
  {
    if n == 0 then 0
    else StartCount(eot, subwords, subwordTokens, n - 1) + (if StartsNewWord(eot, subwords[n - 1], subwordTokens[n - 1]) then 1 else 0)
  }

  /** On success there is one word per sub-word that opens one. */
  lemma {:induction false} MergeWordCount(eot: Token, subwords: seq<string>, subwordTokens: seq<seq<Token>>, n: nat)
    requires Grouped(subwords, subwordTokens) && n <= |subwords|
    requires MergeFirst(eot, subwords, subwordTokens, n).Success?
    ensures |MergeFirst(eot, subwords, subwordTokens, n).value.words| == StartCount(eot, subwords, subwordTokens, n)
  {
    if n > 0 {
      MergeWordCount(eot, subwords, subwordTokens, n - 1);
    }
  }

  /** When every sub-word opens a word the space pass changes nothing. */
  lemma {:induction false} MergeAllStarts(eot: Token, subwords: seq<string>, subwordTokens: seq<seq<Token>>, n: nat)
    requires Grouped(subwords, subwordTokens) && n <= |subwords|
    requires forall i :: 0 <= i < n ==> StartsNewWord(eot, subwords[i], subwordTokens[i])
    ensures MergeFirst(eot, subwords, subwordTokens, n) == Success(Words(subwords[..n], subwordTokens[..n]))
  {
    if n > 0 {
      MergeAllStarts(eot, subwords, subwordTokens, n - 1);
      assert subwords[..n] == subwords[..n - 1] + [subwords[n - 1]];
      assert subwordTokens[..n] == subwordTokens[..n - 1] + [subwordTokens[n - 1]];
    }
  }

  /** The merge loop of `split_tokens_on_spaces`, which updates the last word in place. */
  method MergeSubwords(eot: Token, subwords: seq<string>, subwordTokens: seq<seq<Token>>) returns (r: Result<Words>)
    requires Grouped(subwords, subwordTokens)
    ensures r == MergeOnSpaces(eot, subwords, subwordTokens)
  {
    var words: seq<string> := [];
    var wordTokens: seq<seq<Token>> := [];
    for i := 0 to |subwords|
      invariant MergeFirst(eot, subwords, subwordTokens, i) == Success(Words(words, wordTokens))
    {
      if StartsNewWord(eot, subwords[i], subwordTokens[i]) {
        words := words + [subwords[i]];
        wordTokens := wordTokens + [subwordTokens[i]];
      } else if |words| == 0 {
        MergeFailsIff(eot, subwords, subwordTokens, |subwords|);
        return Failure(EmptyWordList);
      } else {
        words := words[|words| - 1 := words[|words| - 1] + subwords[i]];
        wordTokens := wordTokens[|wordTokens| - 1 := wordTokens[|wordTokens| - 1] + subwordTokens[i]];
      }
      assert MergeFirst(eot, subwords, subwordTokens, i + 1) == Success(Words(words, wordTokens));
    }
    r := Success(Words(words, wordTokens));
  }

  /** `split_tokens_on_spaces`: the unicode pass, then the merge loop. */
  method SplitTokensOnSpaces(decode: Decoder, eot: Token, tokens: seq<Token>) returns (r: Result<Words>)
    ensures r == MergeOnSpaces(eot, ScanUnicode(decode, tokens).words, ScanUnicode(decode, tokens).groups)
  {
    var subwords, subwordTokensList := SplitTokensOnUnicode(decode, tokens);
    r := MergeSubwords(eot, subwords, subwordTokensList);
  }

  /** Parallel word lists whose non-empty groups, in order, make up a prefix of `tokens`. */
  ghost predicate WordPartition(tokens: seq<Token>, w: Words) {
    && |w.words| == |w.wordTokens|
    && (forall i :: 0 <= i < |w.wordTokens| ==> |w.wordTokens[i]| > 0)
    && Flatten(w.wordTokens) <= tokens
  }

  /** Languages whose text is split at every clean unicode boundary instead of at spaces. */
  const UnspacedLanguages: set<string> := {"Chinese", "Japanese", "Thai", "Lao", "Myanmar"}

  /** What `split_tokens(tokens)` returns for `language`: the unicode pass alone for the
      unspaced languages, which never fails, and the space pass for every other. */
  function TokenSplit(language: string, decode: Decoder, eot: Token, tokens: seq<Token>): (r: Result<Words>)
    ensures r.Success? ==> WordPartition(tokens, r.value)
    ensures language in UnspacedLanguages ==> r.Success?
  {
    var scan := ScanUnicode(decode, tokens);
    UnicodeSplitIff(decode, tokens, scan);
    if language in UnspacedLanguages then Success(Words(scan.words, scan.groups))
    else
      MergeOnSpaces(eot, scan.words, scan.groups)
  }

  /** A transcript whose first token is special (at or above `eot`) always splits: the
      first sub-word holds that token and so opens a word. */
  lemma SpecialFirstTokenSplits(language: string, decode: Decoder, eot: Token, tokens: seq<Token>)
    requires |tokens| > 0 && tokens[0] >= eot
    ensures TokenSplit(language, decode, eot, tokens).Success?
  {
    var scan := ScanUnicode(decode, tokens);
    if |scan.groups| > 0 {
      FlattenFirstIsPrefix(scan.groups, 1, |scan.groups|);
      assert FlattenFirst(scan.groups, 1) == scan.groups[0];
      assert scan.groups[0][0] == tokens[0];
    }
  }

  /** The splitter selection and call. */
  method SplitTokens(language: string, decode: Decoder, eot: Token, tokens: seq<Token>) returns (r: Result<Words>)
    ensures r == TokenSplit(language, decode, eot, tokens)
  {
    if language in UnspacedLanguages {
      var words, wordTokens := SplitTokensOnUnicode(decode, tokens);
      r := Success(Words(words, wordTokens));
    } else {
      r := SplitTokensOnSpaces(decode, eot, tokens);
    }
  }
}
