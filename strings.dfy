/** Language-neutral facts about substrings, shared by the Java and the
    JavaScript parts of the model. */
module Strings {

  /** `pat` occurs in `s` starting at index `i`. */
  predicate OccursAt(s: string, pat: string, i: int) {
    0 <= i && i + |pat| <= |s| && s[i..i + |pat|] == pat
  }

  /** `pat` is a substring of `s`. */
  predicate Contains(s: string, pat: string) {
    exists i :: 0 <= i <= |s| && OccursAt(s, pat, i)
  }

  predicate StartsWith(s: string, pat: string) {
    |pat| <= |s| && s[..|pat|] == pat
  }

  /** A substring of a substring is a substring, at the summed offset. */
  lemma OccursAtCompose(s: string, t: string, u: string, i: int, j: int)
    requires OccursAt(s, t, i) && OccursAt(t, u, j)
    ensures OccursAt(s, u, i + j)
  {
    forall k | 0 <= k < |u|
      ensures s[i + j + k] == u[k]
    {
      assert t[j + k] == u[k];
    }
  }

  /** Every slice of `s` occurs in `s` at its start index. */
  lemma SliceOccurs(s: string, i: int, j: int)
    requires 0 <= i <= j <= |s|
    ensures OccursAt(s, s[i..j], i)
  {
  }

  /** An occurrence after a leading character is one in the tail. */
  lemma OccursAfterHead(c: char, rest: string, pat: string, i: int)
    requires 0 < i
    ensures OccursAt([c] + rest, pat, i) <==> OccursAt(rest, pat, i - 1)
  {
    var s := [c] + rest;
    if i + |pat| <= |s| {
      assert s[i..i + |pat|] == rest[i - 1..i - 1 + |pat|];
    }
  }
}
