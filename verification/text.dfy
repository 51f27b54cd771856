/**
  The two string operations the FAQ filter is built from: `toLowerCase`
  (restricted to ASCII letters) and `includes` (substring containment).
 */
module Text {

  predicate IsUpper(c: char) {
    'A' <= c <= 'Z'
  }

  predicate IsLower(c: char) {
    'a' <= c <= 'z'
  }

  /** ASCII lower-casing of one character: upper-case letters become the
      lower-case letter at the same position in the alphabet, every other
      character is left alone. */
  function LowerChar(c: char): (r: char)
    ensures !IsUpper(r)
    ensures !IsUpper(c) ==> r == c
    ensures IsUpper(c) ==> IsLower(r) && r as int - 'a' as int == c as int - 'A' as int
  {
    if IsUpper(c) then (c as int + ('a' as int - 'A' as int)) as char else c
  }

  /** `s.toLowerCase()`, ASCII only: each character lowered in place, so the
      length is kept, 'A'..'Z' become their lower-case partners, every other
      character is unchanged, and no upper-case letter is left. */
  function Lower(s: string): (r: string)
    ensures |r| == |s|
    ensures forall i :: 0 <= i < |s| ==>
      (IsUpper(s[i]) ==> r[i] as int == s[i] as int + 32) && (!IsUpper(s[i]) ==> r[i] == s[i])
    ensures forall i :: 0 <= i < |r| ==> !IsUpper(r[i])
  {
    seq(|s|, i requires 0 <= i < |s| => LowerChar(s[i]))
  }

  /** Lower-casing twice is lower-casing once. */
  lemma LowerIdempotent(s: string)
    ensures Lower(Lower(s)) == Lower(s)
  {
    var once := Lower(s);
    var twice := Lower(once);
    assert forall i :: 0 <= i < |s| ==> twice[i] == once[i];
  }

  /** A lower-case letter occurs in a lower-cased string only if it, or its
      upper-case partner, occurs in the original. */
  lemma LowerMissingLetter(s: string, lower: char, upper: char)
    requires IsUpper(upper) && LowerChar(upper) == lower
    requires lower !in s && upper !in s
    ensures lower !in Lower(s)
  {
  }

  /** `a` and `b` differ at most in the ASCII case of their letters. */
  predicate EqualIgnoringCase(a: string, b: string) {
    |a| == |b| && forall i :: 0 <= i < |a| ==> LowerChar(a[i]) == LowerChar(b[i])
  }

  /** Strings that differ only in case lower-case to the same string. */
  lemma LowerEqualIgnoringCase(a: string, b: string)
    requires EqualIgnoringCase(a, b)
    ensures Lower(a) == Lower(b)
  {
    assert forall i :: 0 <= i < |a| ==> Lower(a)[i] == LowerChar(a[i]);
  }

  /** `pat` occurs in `s` starting at index `i`. */
  ghost predicate OccursAt(s: string, pat: string, i: int) {
    0 <= i && i + |pat| <= |s| && s[i..i + |pat|] == pat
  }

  /** `pat` is a substring of `s`: the reference definition `Includes` is proved against. */
  ghost predicate IsSubstring(pat: string, s: string) {
    exists i :: OccursAt(s, pat, i)
  }

  /** `s.includes(pat)`: compares `pat` with each window of `s`, left to right. */
  function Includes(s: string, pat: string): (r: bool)
    ensures r ==> |pat| <= |s|
    ensures pat == [] ==> r
    decreases |s|
  {
    if |pat| > |s| then false
    else if s[..|pat|] == pat then true
    else Includes(s[1..], pat)
  }

  /** `Includes` is exactly substring containment, in both directions. */
  lemma {:induction false} IncludesIff(s: string, pat: string)
    ensures Includes(s, pat) <==> IsSubstring(pat, s)
    decreases |s|
  {
    if |pat| > |s| {
      assert forall i :: !OccursAt(s, pat, i);
    } else if s[..|pat|] == pat {
      assert OccursAt(s, pat, 0);
    } else {
      IncludesIff(s[1..], pat);
      if Includes(s, pat) {
        var j :| OccursAt(s[1..], pat, j);
        assert s[j + 1..j + 1 + |pat|] == s[1..][j..j + |pat|];
        assert OccursAt(s, pat, j + 1);
      }
      if i :| OccursAt(s, pat, i) {
        assert i != 0;
        assert s[1..][i - 1..i - 1 + |pat|] == s[i..i + |pat|];
        assert OccursAt(s[1..], pat, i - 1);
      }
    }
  }

  /** Every string includes the empty string. */
  lemma IncludesEmpty(s: string)
    ensures Includes(s, "")
  {
  }

  /** A non-empty pattern can only be included if its first character is
      somewhere in the string. */
  lemma {:induction false} IncludesFirstChar(s: string, pat: string)
    requires |pat| > 0 && Includes(s, pat)
    ensures pat[0] in s
    decreases |s|
  {
    if s[..|pat|] == pat {
      assert s[0] == pat[0];
    } else {
      IncludesFirstChar(s[1..], pat);
      assert pat[0] in s[1..];
    }
  }

  /** A string includes itself prefixed to anything. */
  lemma IncludesPrefix(s: string, pat: string)
    requires |pat| <= |s| && s[..|pat|] == pat
    ensures Includes(s, pat)
  {
  }
}
