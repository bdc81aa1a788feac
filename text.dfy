/** The few Python string operations the splitters and the output filter use. */
module Text {

  /** U+FFFD, which the tokenizer's decoder emits while a token run ends inside a code point. */
  const ReplacementChar: char := '\U{FFFD}'

  /** `string.punctuation`. */
  const AsciiPunctuation: string := "!\"#$%&'()*+,-./:;<=>?@[\\]^_`{|}~"

  /** The marks whose words the output table leaves out: `".,!?、。"`. */
  const DroppedMarks: string := ".,!?\U{3001}\U{3002}"

  predicate HasReplacement(s: string) {
    ReplacementChar in s
  }

  /** `str.isspace()` for one character: the characters `str.strip()` removes. */
  predicate IsSpace(c: char) {
    || c == ' '
    || ('\t' <= c <= '\r')
    || ('\U{1C}' <= c <= '\U{1F}')
    || c == '\U{85}' || c == '\U{A0}' || c == '\U{1680}'
    || ('\U{2000}' <= c <= '\U{200A}')
    || c == '\U{2028}' || c == '\U{2029}' || c == '\U{202F}' || c == '\U{205F}' || c == '\U{3000}'
  }

  /** `s.startswith(prefix)`. */
  predicate StartsWith(s: string, prefix: string) {
    prefix <= s
  }

  /** How many whitespace characters follow one another in `s` from index `i` on. */
  function SpacesFrom(s: string, i: nat): (n: nat)
    requires i <= |s|
    ensures i + n <= |s|
    decreases |s| - i
  {
    if i < |s| && IsSpace(s[i]) then 1 + SpacesFrom(s, i + 1) else 0
  }

  /** How many whitespace characters come right before index `j` of `s`, not looking before `lo`. */
  function SpacesBefore(s: string, lo: nat, j: nat): (n: nat)
    requires lo <= j <= |s|
    ensures lo + n <= j
    decreases j
  {
    if lo < j && IsSpace(s[j - 1]) then 1 + SpacesBefore(s, lo, j - 1) else 0
  }

  /** `s.strip()`: a slice of `s`, cut at its leading and trailing whitespace (`StripSpec`). */
  function Strip(s: string): (r: string)
    ensures |r| <= |s|
  {
    var lo := SpacesFrom(s, 0);
    s[lo..|s| - SpacesBefore(s, lo, |s|)]
  }

  /** `r` is the slice of `s` starting at `lo`, and all of `s` around it is whitespace. */
  ghost predicate StrippedAt(s: string, r: string, lo: int) {
    && 0 <= lo <= lo + |r| <= |s|
    && r == s[lo..lo + |r|]
    && (forall i :: 0 <= i < lo ==> IsSpace(s[i]))
    && (forall i :: lo + |r| <= i < |s| ==> IsSpace(s[i]))
  }

  lemma {:induction false} SpacesFromAreSpaces(s: string, i: nat)
    requires i <= |s|
    ensures forall k :: i <= k < i + SpacesFrom(s, i) ==> IsSpace(s[k])
    ensures i + SpacesFrom(s, i) == |s| || !IsSpace(s[i + SpacesFrom(s, i)])
    decreases |s| - i
  {
    if i < |s| && IsSpace(s[i]) {
      SpacesFromAreSpaces(s, i + 1);
    }
  }

  lemma {:induction false} SpacesBeforeAreSpaces(s: string, lo: nat, j: nat)
    requires lo <= j <= |s|
    ensures forall k :: j - SpacesBefore(s, lo, j) <= k < j ==> IsSpace(s[k])
    ensures j - SpacesBefore(s, lo, j) == lo || !IsSpace(s[j - SpacesBefore(s, lo, j) - 1])
    decreases j
  {
    if lo < j && IsSpace(s[j - 1]) {
      SpacesBeforeAreSpaces(s, lo, j - 1);
    }
  }

  /** `s.strip()` is the slice of `s` left once whitespace is cut from both ends: everything
      cut off is whitespace and what is left neither starts nor ends with it. */
  lemma StripSpec(s: string)
    ensures StrippedAt(s, Strip(s), SpacesFrom(s, 0))
    ensures Strip(s) == [] || (!IsSpace(Strip(s)[0]) && !IsSpace(Strip(s)[|Strip(s)| - 1]))
  {
    var lo := SpacesFrom(s, 0);
    var hi := |s| - SpacesBefore(s, lo, |s|);
    SpacesFromAreSpaces(s, 0);
    SpacesBeforeAreSpaces(s, lo, |s|);
    assert Strip(s) == s[lo..hi];
  }

  /** `s` occurs in `t` starting at index `lo`. */
  predicate OccursAt(s: string, t: string, lo: int) {
    0 <= lo <= |t| - |s| && t[lo..lo + |s|] == s
  }

  /** Python's `s in t` on two strings: a substring test, so `""` is in every string. */
  predicate IsSubstring(s: string, t: string) {
    exists lo | 0 <= lo <= |t| - |s| :: OccursAt(s, t, lo)
  }
}
