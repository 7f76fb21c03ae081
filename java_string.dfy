/** The few `java.lang.String` operations the reply extraction uses, on
    `seq<char>`: `trim`, `indexOf` of a character and `lastIndexOf` of a
    string, with their edge cases (`-1` when nothing is found). */
module JavaString {
  import opened Strings

  /** `String.trim` removes every leading and trailing character whose code
      is at most U+0020 (space and all control characters). */
  predicate IsTrimmable(c: char) {
    c <= ' '
  }

  /** Number of trimmable characters at the front of `s`. */
  function LeadingSpace(s: string): (n: nat)
    ensures n <= |s|
    ensures forall i :: 0 <= i < n ==> IsTrimmable(s[i])
    ensures n < |s| ==> !IsTrimmable(s[n])
  {
    if |s| > 0 && IsTrimmable(s[0]) then 1 + LeadingSpace(s[1..]) else 0
  }

  /** Index at which the run of trimmable characters closing `s` begins. */
  function TrailingSpaceStart(s: string): (n: nat)
    ensures n <= |s|
    ensures forall i :: n <= i < |s| ==> IsTrimmable(s[i])
    ensures 0 < n ==> !IsTrimmable(s[n - 1])
  {
    if |s| > 0 && IsTrimmable(s[|s| - 1]) then TrailingSpaceStart(s[..|s| - 1]) else |s|
  }

  /** `String.trim`: the result is the part of `s` between its leading and
      trailing runs of trimmable characters, and neither end of it is
      trimmable. */
  function Trim(s: string): (r: string)
    ensures OccursAt(s, r, LeadingSpace(s))
    ensures r != [] ==> !IsTrimmable(r[0]) && !IsTrimmable(r[|r| - 1])
    ensures forall i :: LeadingSpace(s) + |r| <= i < |s| ==> IsTrimmable(s[i])
  {
    var a := LeadingSpace(s);
    if a == |s| then "" else
    s[a..TrailingSpaceStart(s)]
  }

  /** A string that neither starts nor ends with a trimmable character is
      its own trimmed form. */
  lemma TrimUnchanged(s: string)
    requires s == [] || (!IsTrimmable(s[0]) && !IsTrimmable(s[|s| - 1]))
    ensures Trim(s) == s
  {
    if s != [] {
      assert LeadingSpace(s) == 0;
      assert TrailingSpaceStart(s) == |s|;
    }
  }

  /** `String.indexOf`: the first index holding `c`, or -1 when no index
      does. The service calls it with the one-character string "\n", for
      which `indexOf(String)` and `indexOf(char)` agree. */
  function IndexOf(s: string, c: char): (r: int)
    ensures -1 <= r < |s|
    ensures 0 <= r ==> s[r] == c
    ensures forall j :: 0 <= j < |s| && (r == -1 || j < r) ==> s[j] != c
  {
    if |s| == 0 then -1
    else if s[0] == c then 0
    else
      var k := IndexOf(s[1..], c);
      if k == -1 then -1 else k + 1
  }

  /** `String.lastIndexOf(String)` for a non-empty pattern: the greatest
      index at which `pat` occurs, or -1 when it occurs nowhere. */
  function LastIndexOf(s: string, pat: string): (r: int)
    requires |pat| > 0
    ensures r == -1 || OccursAt(s, pat, r)
    ensures forall j :: r < j ==> !OccursAt(s, pat, j)
    decreases |s|
  {
    if |s| < |pat| then -1
    else if s[|s| - |pat|..] == pat then |s| - |pat|
    else
      var k := LastIndexOf(s[..|s| - 1], pat);
      OccursInPrefix(s, pat, k);
      NoOccurrenceInTail(s, s[..|s| - 1], pat, k);
      k
  }

  /* An occurrence in the prefix `s[..|s|-1]` is one in `s`. */
  lemma OccursInPrefix(s: string, pat: string, k: int)
    requires |s| > 0 && |pat| > 0
    requires k == -1 || OccursAt(s[..|s| - 1], pat, k)
    ensures k == -1 || OccursAt(s, pat, k)
  {
    if k != -1 {
      assert s[..|s| - 1][k..k + |pat|] == s[k..k + |pat|];
    }
  }

  /* No occurrence after `k` in `s`, when the one ending at `|s|` fails and
     none after `k` exists in the prefix. */
  lemma NoOccurrenceInTail(s: string, prefix: string, pat: string, k: int)
    requires |pat| > 0 && |pat| <= |s| && s[|s| - |pat|..] != pat
    requires prefix == s[..|s| - 1]
    requires forall j :: k < j ==> !OccursAt(prefix, pat, j)
    ensures forall j :: k < j ==> !OccursAt(s, pat, j)
  {
    forall j | k < j && OccursAt(s, pat, j)
      ensures false
    {
      if j + |pat| < |s| {
        assert prefix[j..j + |pat|] == s[j..j + |pat|];
        assert OccursAt(prefix, pat, j);
      }
    }
  }
}
