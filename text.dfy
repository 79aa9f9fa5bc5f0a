/** Occurrences of one string inside another. */
module Text {
  /** `pat` occurs in `s` as a contiguous run starting at position `i`. */
  predicate OccursAt(pat: string, s: string, i: nat)
  {
    i + |pat| <= |s| && s[i..i + |pat|] == pat
  }

  /** `pat` is a contiguous substring of `s`. */
  ghost predicate IsSubstring(pat: string, s: string)
  {
    exists i: nat :: OccursAt(pat, s, i)
  }

  /** An occurrence inside an occurrence is an occurrence. */
  lemma OccursAtTransitive(a: string, b: string, c: string, i: nat, j: nat)
    requires OccursAt(a, b, i) && OccursAt(b, c, j)
    ensures OccursAt(a, c, j + i)
  {
    forall k | 0 <= k < |a| ensures c[j + i + k] == a[k] {
      assert c[j..j + |b|][i + k] == b[i + k];
    }
  }

  lemma IsSubstringTransitive(a: string, b: string, c: string)
    requires IsSubstring(a, b) && IsSubstring(b, c)
    ensures IsSubstring(a, c)
  {
    var i: nat :| OccursAt(a, b, i);
    var j: nat :| OccursAt(b, c, j);
    OccursAtTransitive(a, b, c, i, j);
  }
}
