/**
 * Python's `str.replace(pat, '')`: one left-to-right scan that deletes every
 * non-overlapping occurrence of `pat`.
 */
module Text {

  ghost predicate OccursAt(s: string, pat: string, i: int)
  {
    0 <= i && i + |pat| <= |s| && s[i..i + |pat|] == pat
  }

  ghost predicate Contains(s: string, pat: string)
  {
    exists i :: OccursAt(s, pat, i)
  }

  /** `s.replace(pat, '')` for a non-empty `pat`. */
  function RemoveAll(s: string, pat: string): (r: string)
    requires pat != []
    ensures |r| <= |s|
    decreases |s|
  {
    if |s| < |pat| then s
    else if s[..|pat|] == pat then RemoveAll(s[|pat|..], pat)
    else [s[0]] + RemoveAll(s[1..], pat)
  }

  /** A string without the pattern comes back unchanged. */
  lemma {:induction false} RemoveAllNoOccurrence(s: string, pat: string)
    requires pat != []
    requires !Contains(s, pat)
    ensures RemoveAll(s, pat) == s
    decreases |s|
  {
    if |s| >= |pat| {
      assert !OccursAt(s, pat, 0);
      var t := s[1..];
      forall i | 0 <= i && i + |pat| <= |t|
        ensures !OccursAt(t, pat, i)
      {
        assert t[i..i + |pat|] == s[i + 1..i + 1 + |pat|];
        assert !OccursAt(s, pat, i + 1);
      }
      RemoveAllNoOccurrence(t, pat);
      assert s == [s[0]] + t;
    }
  }

  /** A string holding the pattern comes back strictly shorter. */
  lemma {:induction false} RemoveAllShortens(s: string, pat: string)
    requires pat != []
    requires Contains(s, pat)
    ensures |RemoveAll(s, pat)| < |s|
    decreases |s|
  {
    var i :| OccursAt(s, pat, i);
    if s[..|pat|] != pat {
      assert i != 0;
      var t := s[1..];
      assert t[i - 1..i - 1 + |pat|] == s[i..i + |pat|];
      assert OccursAt(t, pat, i - 1);
      RemoveAllShortens(t, pat);
    }
  }

  /**
   * The replacement leaves a string unchanged exactly when the pattern does
   * not occur in it.
   */
  lemma RemoveAllUnchangedIff(s: string, pat: string)
    requires pat != []
    ensures RemoveAll(s, pat) == s <==> !Contains(s, pat)
  {
    if Contains(s, pat) {
      RemoveAllShortens(s, pat);
    } else {
      RemoveAllNoOccurrence(s, pat);
    }
  }

  /** A string none of whose characters starts the pattern cannot contain it. */
  lemma NoFirstCharNoOccurrence(s: string, pat: string)
    requires pat != []
    requires forall i :: 0 <= i < |s| ==> s[i] != pat[0]
    ensures !Contains(s, pat)
  {
    forall i | 0 <= i && i + |pat| <= |s|
      ensures !OccursAt(s, pat, i)
    {
      assert s[i..i + |pat|][0] == s[i];
    }
  }

  /** A leading occurrence is deleted and the scan resumes right after it. */
  lemma LeadingOccurrenceRemoved(pat: string, rest: string)
    requires pat != []
    ensures RemoveAll(pat + rest, pat) == RemoveAll(rest, pat)
  {
    assert (pat + rest)[..|pat|] == pat;
    assert (pat + rest)[|pat|..] == rest;
  }
}
