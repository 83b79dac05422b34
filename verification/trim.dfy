/**
 Trimming of a colour literal before it is scanned: the characters that are
 not letters or digits are cut from both ends of the string, and only from
 the ends — an interior `-` or `#` stays where it is.
 */
module Trimming {

  /** ASCII letters and digits: the model's stand-in for the Unicode
      alphanumeric character set. */
  predicate IsAlphanumeric(c: char) {
    ('0' <= c <= '9') || ('a' <= c <= 'z') || ('A' <= c <= 'Z')
  }

  /** No letter or digit among `s[lo..hi]`. */
  predicate NoAlphanumericIn(s: string, lo: int, hi: int)
    requires 0 <= lo <= hi <= |s|
  {
    forall k :: lo <= k < hi ==> !IsAlphanumeric(s[k])
  }

  predicate NoAlphanumeric(s: string) {
    NoAlphanumericIn(s, 0, |s|)
  }

  /** `s` is empty, or it starts and ends with an alphanumeric character. */
  predicate AlphanumericEnds(s: string) {
    s == [] || (IsAlphanumeric(s[0]) && IsAlphanumeric(s[|s| - 1]))
  }

  /** Cutting `s[..i]` and `s[j..]` removes only non-alphanumeric
      characters, and what remains cannot be cut further. */
  predicate TrimCuts(s: string, i: int, j: int) {
    && 0 <= i <= j <= |s|
    && NoAlphanumericIn(s, 0, i)
    && NoAlphanumericIn(s, j, |s|)
    && (i < j ==> IsAlphanumeric(s[i]) && IsAlphanumeric(s[j - 1]))
  }

  /** `r` is what remains of `s` after cuts of that kind. */
  ghost predicate IsTrimOf(r: string, s: string) {
    exists i, j :: TrimCuts(s, i, j) && r == s[i..j]
  }

  /** Where the leading cut ends, scanning forward from `k`: the first
      letter or digit at or after `k`, or the end of the string. */
  function LeadingCut(s: string, k: nat): (i: nat)
    requires k <= |s| && NoAlphanumericIn(s, 0, k)
    ensures k <= i <= |s|
    ensures NoAlphanumericIn(s, 0, i)
    ensures i < |s| ==> IsAlphanumeric(s[i])
    decreases |s| - k
  {
    if k < |s| && !IsAlphanumeric(s[k]) then LeadingCut(s, k + 1) else k
  }

  /** Where the trailing cut starts, scanning backward from `k` but not
      below `lo`: just after the last letter or digit, or `lo`. */
  function TrailingCut(s: string, lo: nat, k: nat): (j: nat)
    requires lo <= k <= |s| && NoAlphanumericIn(s, k, |s|)
    ensures lo <= j <= k
    ensures NoAlphanumericIn(s, j, |s|)
    ensures j > lo ==> IsAlphanumeric(s[j - 1])
    decreases k
  {
    if k > lo && !IsAlphanumeric(s[k - 1]) then TrailingCut(s, lo, k - 1) else k
  }

  /** The trimmed colour literal: a slice of `s` with only non-alphanumeric
      characters cut around it, starting and ending with a letter or digit,
      and empty exactly when `s` holds no letter or digit at all. */
  function Trim(s: string): (r: string)
    ensures IsTrimOf(r, s)
    ensures AlphanumericEnds(r)
    ensures r == [] <==> NoAlphanumeric(s)
  {
    var i := LeadingCut(s, 0);
    var j := TrailingCut(s, i, |s|);
    assert TrimCuts(s, i, j);
    CutsEmptyIffNoAlphanumeric(s, i, j);
    s[i..j]
  }

  /** Cuts of the trimming kind leave nothing exactly when there was no
      letter or digit to keep. */
  lemma CutsEmptyIffNoAlphanumeric(s: string, i: int, j: int)
    requires TrimCuts(s, i, j)
    ensures i == j <==> NoAlphanumeric(s)
  {
    if i < j {
      assert !IsAlphanumeric(s[i]) ==> !NoAlphanumeric(s);
    }
  }

  /** Two non-empty trims of one string cut at the same places. */
  lemma CutsAgree(s: string, i1: int, j1: int, i2: int, j2: int)
    requires TrimCuts(s, i1, j1) && TrimCuts(s, i2, j2)
    requires i1 < j1 && i2 < j2
    ensures i1 == i2 && j1 == j2
  {
  }

  /** The characterisation `IsTrimOf` leaves no choice: a string has only one
      trimmed form. */
  lemma TrimOfIsUnique(r1: string, r2: string, s: string)
    requires IsTrimOf(r1, s) && IsTrimOf(r2, s)
    ensures r1 == r2
  {
    var i1, j1 :| TrimCuts(s, i1, j1) && r1 == s[i1..j1];
    var i2, j2 :| TrimCuts(s, i2, j2) && r2 == s[i2..j2];
    CutsEmptyIffNoAlphanumeric(s, i1, j1);
    CutsEmptyIffNoAlphanumeric(s, i2, j2);
    if !NoAlphanumeric(s) {
      CutsAgree(s, i1, j1, i2, j2);
    }
  }

  /** Whatever non-alphanumeric padding surrounds a string that already
      starts and ends with letters or digits is exactly what trimming cuts. */
  lemma TrimOfPadded(p: string, m: string, q: string)
    requires NoAlphanumeric(p) && NoAlphanumeric(q) && AlphanumericEnds(m)
    ensures Trim(p + m + q) == m
  {
    var s := p + m + q;
    var i, j := |p|, |p| + |m|;
    assert s[i..j] == m;
    assert forall k :: 0 <= k < i ==> s[k] == p[k];
    assert forall k :: j <= k < |s| ==> s[k] == q[k - j];
    if m != [] {
      assert s[i] == m[0] && s[j - 1] == m[|m| - 1];
    }
    assert TrimCuts(s, i, j);
    TrimOfIsUnique(Trim(s), m, s);
  }

  /** Trimming twice cuts nothing more. */
  lemma TrimIdempotent(s: string)
    ensures Trim(Trim(s)) == Trim(s)
  {
    var t := Trim(s);
    assert t[0..|t|] == t;
    assert TrimCuts(t, 0, |t|);
    TrimOfIsUnique(Trim(t), t, t);
  }
}
