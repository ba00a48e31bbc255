/**
 * The string predicates of common/string.hpp, together with the two
 * std::string searches the core relies on (find and rfind).
 * Strings are sequences of characters; a search result is an index or None
 * (std::string::npos).
 */
module Strings {
  import opened Results

  /** The occurrence relation: `pat` starts at index `i` of `s`. */
  ghost predicate OccursAt(s: string, pat: string, i: nat) {
    i + |pat| <= |s| && s[i..i + |pat|] == pat
  }

  /** `pat` occurs at index `i` of `s` and nowhere after it. */
  ghost predicate IsLastOccurrence(s: string, pat: string, i: nat) {
    OccursAt(s, pat, i) && forall j :: i < j ==> !OccursAt(s, pat, j)
  }

  /** A one-character pattern occurs exactly where that character stands. */
  lemma CharOccurrences(s: string, c: char)
    ensures forall j: nat :: OccursAt(s, [c], j) <==> j < |s| && s[j] == c
  {
    forall j: nat | j < |s|
      ensures OccursAt(s, [c], j) <==> s[j] == c
    {
      assert s[j..j + 1] == [s[j]];
    }
  }

  /** Character-by-character comparison of `pat` against `s` from index `i`
      (what std::string::compare and the searches do). */
  predicate MatchAt(s: string, pat: string, i: nat)
    decreases |pat|
  {
    if |pat| == 0 then i <= |s|
    else i < |s| && s[i] == pat[0] && MatchAt(s, pat[1..], i + 1)
  }

  lemma {:induction false} MatchAtIsOccurrence(s: string, pat: string, i: nat)
    ensures MatchAt(s, pat, i) <==> OccursAt(s, pat, i)
    decreases |pat|
  {
    if |pat| > 0 {
      MatchAtIsOccurrence(s, pat[1..], i + 1);
      if i + |pat| <= |s| {
        var window := s[i..i + |pat|];
        assert window[0] == s[i] && window[1..] == s[i + 1..i + 1 + |pat[1..]|];
        assert window == pat <==> window[0] == pat[0] && window[1..] == pat[1..];
      }
    }
  }

  /** startsWith(input, prefix) (string.hpp:5-11): false when the prefix is
      longer than the input, otherwise whether rfind(prefix, 0) finds the
      prefix at position 0. */
  function StartsWith(input: string, prefix: string): (r: bool)
    ensures r <==> |prefix| <= |input| && input[..|prefix|] == prefix
  {
    MatchAtIsOccurrence(input, prefix, 0);
    if |input| >= |prefix| then MatchAt(input, prefix, 0) else false
  }

  /** endsWith(input, suffix) (string.hpp:13-19): false when the suffix is
      longer than the input, otherwise whether the last |suffix| characters
      compare equal to it. */
  function EndsWith(input: string, suffix: string): (r: bool)
    ensures r <==> |suffix| <= |input| && input[|input| - |suffix|..] == suffix
  {
    if |input| >= |suffix| then
      MatchAtIsOccurrence(input, suffix, |input| - |suffix|);
      MatchAt(input, suffix, |input| - |suffix|)
    else false
  }

  /** The empty string is a prefix and a suffix of every string. */
  lemma EmptyIsPrefixAndSuffix(input: string)
    ensures StartsWith(input, "") && EndsWith(input, "")
  {
  }

  /** A prefix or suffix longer than the input is rejected. */
  lemma LongerIsNeitherPrefixNorSuffix(input: string, affix: string)
    requires |affix| > |input|
    ensures !StartsWith(input, affix) && !EndsWith(input, affix)
  {
  }

  lemma ConcatenationHasItsParts(p: string, t: string)
    ensures StartsWith(p + t, p) && EndsWith(t + p, p)
  {
    assert (p + t)[..|p|] == p;
    assert (t + p)[|t + p| - |p|..] == p;
  }

  /** std::string::find(pat, i): the first occurrence of `pat` at an index
      at or after `i`. */
  function FindFrom(s: string, pat: string, i: nat): (r: Option<nat>)
    ensures r.Some? ==> i <= r.value && OccursAt(s, pat, r.value)
    ensures r.Some? ==> forall j :: i <= j < r.value ==> !OccursAt(s, pat, j)
    ensures r.None? ==> forall j :: i <= j ==> !OccursAt(s, pat, j)
    decreases |s| - i
  {
    MatchAtIsOccurrence(s, pat, i);
    if i + |pat| > |s| then None
    else if MatchAt(s, pat, i) then Some(i)
    else FindFrom(s, pat, i + 1)
  }

  /** std::string::find(pat): the first occurrence of `pat` in `s`. */
  function Find(s: string, pat: string): (r: Option<nat>)
    ensures r.Some? ==> OccursAt(s, pat, r.value) && forall j :: 0 <= j < r.value ==> !OccursAt(s, pat, j)
    ensures r.None? <==> forall j :: 0 <= j ==> !OccursAt(s, pat, j)
  {
    FindFrom(s, pat, 0)
  }

  /** The last occurrence of `pat` starting strictly before index `i`. */
  function FindLastBefore(s: string, pat: string, i: nat): (r: Option<nat>)
    ensures r.Some? ==> r.value < i && OccursAt(s, pat, r.value)
    ensures r.Some? ==> forall j :: r.value < j < i ==> !OccursAt(s, pat, j)
    ensures r.None? ==> forall j :: 0 <= j < i ==> !OccursAt(s, pat, j)
  {
    if i == 0 then None
    else
      MatchAtIsOccurrence(s, pat, i - 1);
      if MatchAt(s, pat, i - 1) then Some(i - 1)
      else FindLastBefore(s, pat, i - 1)
  }

  /** std::string::rfind(pat): the last occurrence of `pat` in `s`. */
  function RFind(s: string, pat: string): (r: Option<nat>)
    ensures r.Some? ==> IsLastOccurrence(s, pat, r.value)
    ensures r.None? <==> forall j :: 0 <= j ==> !OccursAt(s, pat, j)
  {
    if |pat| > |s| then None else FindLastBefore(s, pat, |s| - |pat| + 1)
  }
}
