/** String operations the triage loop relies on: Python's `str.lower()` on
    ASCII letters, the substring test `pat in s`, and the slice-plus-ellipsis
    used for card titles (`s[:n] + "..."`). */
module Text {

  /** Python's `lower()` on one character, for the ASCII letters A-Z. */
  function LowerChar(c: char): char {
    if 'A' <= c <= 'Z' then (c as int + 32) as char else c
  }

  predicate IsUpper(c: char) {
    'A' <= c <= 'Z'
  }

  /** Python's `s.lower()`, character by character. */
  function Lower(s: string): (r: string)
    ensures |r| == |s|
    ensures forall i :: 0 <= i < |s| ==> r[i] == LowerChar(s[i])
    ensures forall i :: 0 <= i < |r| ==> !IsUpper(r[i])
  {
    seq(|s|, i requires 0 <= i < |s| => LowerChar(s[i]))
  }

  /** Lower-casing twice is lower-casing once. */
  lemma LowerIdempotent(s: string)
    ensures Lower(Lower(s)) == Lower(s)
  {
  }

  /** `pat` occurs in `s` starting at position `i`. */
  predicate OccursAt(s: string, pat: string, i: nat) {
    i + |pat| <= |s| && s[i..i + |pat|] == pat
  }

  /** An occurrence in `s[1..]` is an occurrence in `s` one position later. */
  lemma OccursAtShift(s: string, pat: string, i: nat)
    requires |s| > 0
    ensures OccursAt(s[1..], pat, i) <==> OccursAt(s, pat, i + 1)
  {
    if i + 1 + |pat| <= |s| {
      assert s[1..][i..i + |pat|] == s[i + 1..i + 1 + |pat|];
    }
  }

  /** Python's `pat in s`: true exactly when `pat` is a contiguous part of
      `s` (the empty pattern is part of every string). */
  function Contains(s: string, pat: string): (r: bool)
    ensures r <==> exists i: nat :: OccursAt(s, pat, i)
    decreases |s|
  {
    if |s| < |pat| then
      false
    else if s[..|pat|] == pat then
      assert OccursAt(s, pat, 0);
      true
    else
      ContainsStep(s, pat);
      Contains(s[1..], pat)
  }

  /** When `pat` is not a prefix of `s`, its occurrences in `s` are those
      in `s[1..]`. */
  lemma ContainsStep(s: string, pat: string)
    requires |pat| <= |s| && s[..|pat|] != pat
    ensures (exists i: nat :: OccursAt(s, pat, i)) <==> (exists i: nat :: OccursAt(s[1..], pat, i))
  {
    assert !OccursAt(s, pat, 0);
    // |s| > 0: otherwise the empty pattern would be a prefix of s
    forall i: nat ensures OccursAt(s[1..], pat, i) <==> OccursAt(s, pat, i + 1) {
      OccursAtShift(s, pat, i);
    }
    if exists i: nat :: OccursAt(s, pat, i) {
      var i: nat :| OccursAt(s, pat, i);
      assert i > 0;
      assert OccursAt(s[1..], pat, i - 1);
    }
  }

  const Ellipsis: string := "..."

  /** Python's `s[:n] + "..."`: the first min(n, |s|) characters of `s`
      followed by the ellipsis; a short string is kept whole. */
  function Truncate(s: string, n: nat): (r: string)
    ensures |r| == (if |s| < n then |s| else n) + |Ellipsis|
    ensures r[..|r| - |Ellipsis|] <= s
    ensures r[|r| - |Ellipsis|..] == Ellipsis
    ensures |s| <= n ==> r == s + Ellipsis
  {
    (if |s| < n then s else s[..n]) + Ellipsis
  }
}
