/** The three string tests of `StringExtensions`, each defined through an
    ordinal `String.IndexOf` (first occurrence, -1 when absent, 0 for the
    empty needle). */
module StringExtensions {

  /** `v` occurs in `s` starting at index `i`. */
  predicate OccursAt(s: string, v: string, i: int) {
    0 <= i && i + |v| <= |s| && s[i..i + |v|] == v
  }

  /** `String.IndexOf(v, start)`: the first index at or after `start` where
      `v` occurs in `s`, or -1. */
  function IndexFrom(s: string, v: string, start: nat): (r: int)
    decreases |s| + 1 - start
    ensures r == -1 || start <= r
    ensures r == -1 <==> forall i :: start <= i ==> !OccursAt(s, v, i)
    ensures r != -1 ==> OccursAt(s, v, r)
    ensures forall i :: start <= i < r ==> !OccursAt(s, v, i)
  {
    if start + |v| > |s| then -1
    else if s[start..start + |v|] == v then assert OccursAt(s, v, start); start
    else IndexFrom(s, v, start + 1)
  }

  /** `String.IndexOf(v)` with ordinal comparison. */
  function IndexOf(s: string, v: string): (r: int)
    ensures -1 <= r <= |s|
    ensures r == -1 <==> forall i :: 0 <= i ==> !OccursAt(s, v, i)
    ensures r != -1 ==> OccursAt(s, v, r)
    ensures forall i :: 0 <= i < r ==> !OccursAt(s, v, i)
  {
    IndexFrom(s, v, 0)
  }

  /** `StringExtensions.StartsWith`: the first occurrence is at index 0. */
  function StartsWith(s: string, v: string): (r: bool)
    ensures r <==> |v| <= |s| && s[..|v|] == v
  {
    assert |v| <= |s| && s[..|v|] == v ==> OccursAt(s, v, 0);
    IndexOf(s, v) == 0
  }

  /** `StringExtensions.Contains`: some occurrence exists. */
  function Contains(s: string, v: string): (r: bool)
    ensures r <==> exists i :: OccursAt(s, v, i)
  {
    IndexOf(s, v) >= 0
  }

  /** `StringExtensions.EndsWith` as written: the FIRST occurrence sits at
      `|s| - |v|`. This is a suffix test only when `v` occurs nowhere else,
      and it also holds whenever `v` is exactly one character longer than
      `s` (then -1 == |s| - |v|). */
  function EndsWith(s: string, v: string): (r: bool)
    ensures r && |v| <= |s| ==> s[|s| - |v|..] == v
    ensures r <==>
      || |v| == |s| + 1
      || (&& |v| <= |s|
          && s[|s| - |v|..] == v
          && forall i :: 0 <= i < |s| - |v| ==> !OccursAt(s, v, i))
  {
    assert |v| <= |s| ==> (s[|s| - |v|..] == v <==> OccursAt(s, v, |s| - |v|));
    IndexOf(s, v) == |s| - |v|
  }

  /** The suffix test `EndsWith` evidently intends: search for `v` only at
      the one place a suffix can start. */
  function HasSuffix(s: string, v: string): (r: bool)
    ensures r <==> |v| <= |s| && s[|s| - |v|..] == v
  {
    assert |v| <= |s| ==> (s[|s| - |v|..] == v <==> OccursAt(s, v, |s| - |v|));
    |v| <= |s| && IndexFrom(s, v, |s| - |v|) == |s| - |v|
  }

  /** "ab" is a suffix of "abab", yet `EndsWith` rejects it because the
      first occurrence is at index 0. */
  lemma EndsWithMissesRepeatedSuffix()
    ensures !EndsWith("abab", "ab")
    ensures HasSuffix("abab", "ab")
  {
    assert OccursAt("abab", "ab", 0);
  }

  /** "ab" is not a suffix of "a", yet `EndsWith` accepts it: IndexOf gives
      -1, and so does 1 - 2. */
  lemma EndsWithAcceptsOverlongNeedle()
    ensures EndsWith("a", "ab")
    ensures !HasSuffix("a", "ab")
  {
  }

  /** The empty string is a suffix of every string, but `EndsWith` accepts
      it only for the empty subject, since IndexOf("") is 0. */
  lemma EndsWithEmptyNeedle(s: string)
    ensures EndsWith(s, "") <==> s == ""
    ensures HasSuffix(s, "")
  {
    assert OccursAt(s, "", 0);
  }
}
