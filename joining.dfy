/** Tokens, and the flattening of token groups and word texts that the splitters
    accumulate with `list.extend` and string `+`. Recursion runs over a count of
    leading elements rather than over slices. */
module Joining {

  /** A token id of the tokenizer's vocabulary. */
  type Token = int

  /** The first `n` token groups joined in order. */
  function FlattenFirst(groups: seq<seq<Token>>, n: nat): seq<Token>
    requires n <= |groups|
  {
    if n == 0 then [] else FlattenFirst(groups, n - 1) + groups[n - 1]
  }

  /** All token groups joined in order. */
  function Flatten(groups: seq<seq<Token>>): seq<Token> {
    FlattenFirst(groups, |groups|)
  }

  /** The first `n` texts joined in order. */
  function JoinFirst(texts: seq<string>, n: nat): string
    requires n <= |texts|
  {
    if n == 0 then [] else JoinFirst(texts, n - 1) + texts[n - 1]
  }

  /** `"".join(texts)`. */
  function Join(texts: seq<string>): string {
    JoinFirst(texts, |texts|)
  }

  /** Only the first `n` groups matter to `FlattenFirst(groups, n)`. */
  lemma {:induction false} FlattenFirstSame(a: seq<seq<Token>>, b: seq<seq<Token>>, n: nat)
    requires n <= |a| && n <= |b| && a[..n] == b[..n]
    ensures FlattenFirst(a, n) == FlattenFirst(b, n)
  {
    if n > 0 {
      assert a[..n - 1] == b[..n - 1];
      assert a[n - 1] == a[..n][n - 1];
      FlattenFirstSame(a, b, n - 1);
    }
  }

  /** Only the first `n` texts matter to `JoinFirst(texts, n)`. */
  lemma {:induction false} JoinFirstSame(a: seq<string>, b: seq<string>, n: nat)
    requires n <= |a| && n <= |b| && a[..n] == b[..n]
    ensures JoinFirst(a, n) == JoinFirst(b, n)
  {
    if n > 0 {
      assert a[..n - 1] == b[..n - 1];
      assert a[n - 1] == a[..n][n - 1];
      JoinFirstSame(a, b, n - 1);
    }
  }

  lemma FlattenSnoc(groups: seq<seq<Token>>, g: seq<Token>)
    ensures Flatten(groups + [g]) == Flatten(groups) + g
  {
    FlattenFirstSame(groups + [g], groups, |groups|);
  }

  lemma JoinSnoc(texts: seq<string>, t: string)
    ensures Join(texts + [t]) == Join(texts) + t
  {
    JoinFirstSame(texts + [t], texts, |texts|);
  }

  /** Extending the last group extends the flattening by the same tokens. */
  lemma FlattenExtendLast(groups: seq<seq<Token>>, g: seq<Token>)
    requires |groups| > 0
    ensures Flatten(groups[|groups| - 1 := groups[|groups| - 1] + g]) == Flatten(groups) + g
  {
    var n := |groups| - 1;
    FlattenFirstSame(groups[n := groups[n] + g], groups, n);
  }

  /** Extending the last text extends the joined text by the same characters. */
  lemma JoinExtendLast(texts: seq<string>, t: string)
    requires |texts| > 0
    ensures Join(texts[|texts| - 1 := texts[|texts| - 1] + t]) == Join(texts) + t
  {
    var n := |texts| - 1;
    JoinFirstSame(texts[n := texts[n] + t], texts, n);
  }

  /** Joining fewer leading groups gives a prefix. */
  lemma {:induction false} FlattenFirstIsPrefix(groups: seq<seq<Token>>, m: nat, n: nat)
    requires m <= n <= |groups|
    ensures FlattenFirst(groups, m) <= FlattenFirst(groups, n)
    decreases n
  {
    if m < n {
      FlattenFirstIsPrefix(groups, m, n - 1);
    }
  }
}
