/**
 * Substring replacement with the semantics of Python's `str.replace`:
 * the text is scanned left to right, and every occurrence of the pattern
 * that does not overlap an earlier replaced one is replaced.
 */
module Text {

  /** `pat` occurs in `s` starting at index `i`. */
  predicate MatchAt(s: string, pat: string, i: nat)
  {
    i + |pat| <= |s| && s[i..i + |pat|] == pat
  }

  /** `pat` occurs somewhere in `s`. */
  predicate Occurs(s: string, pat: string)
  {
    exists i: nat | i <= |s| :: MatchAt(s, pat, i)
  }

  /** `s.replace(pat, rep)` for a non-empty `pat`. */
  function ReplaceAll(s: string, pat: string, rep: string): string
    requires pat != []
    decreases |s|
  {
    if |s| < |pat| then s
    else if s[..|pat|] == pat then rep + ReplaceAll(s[|pat|..], pat, rep)
    else [s[0]] + ReplaceAll(s[1..], pat, rep)
  }

  /** Number of occurrences `ReplaceAll` replaces: `s.count(pat)`. */
  function Count(s: string, pat: string): nat
    requires pat != []
    decreases |s|
  {
    if |s| < |pat| then 0
    else if s[..|pat|] == pat then 1 + Count(s[|pat|..], pat)
    else Count(s[1..], pat)
  }

  /** Each replaced occurrence trades `|pat|` characters for `|rep|`. */
  lemma {:induction false} ReplaceAllLength(s: string, pat: string, rep: string)
    requires pat != []
    ensures |ReplaceAll(s, pat, rep)| + Count(s, pat) * |pat| == |s| + Count(s, pat) * |rep|
    decreases |s|
  {
    if |s| < |pat| {
    } else if s[..|pat|] == pat {
      var t := s[|pat|..];
      ReplaceAllLength(t, pat, rep);
      var c := Count(t, pat);
      assert Count(s, pat) == c + 1;
      assert |ReplaceAll(s, pat, rep)| == |rep| + |ReplaceAll(t, pat, rep)|;
      MulSucc(c, |pat|);
      MulSucc(c, |rep|);
    } else {
      var t := s[1..];
      ReplaceAllLength(t, pat, rep);
      assert Count(s, pat) == Count(t, pat);
      assert |ReplaceAll(s, pat, rep)| == 1 + |ReplaceAll(t, pat, rep)|;
    }
  }

  /** The scan finds an occurrence exactly when there is one. */
  lemma {:induction false} CountPositiveIffOccurs(s: string, pat: string)
    requires pat != []
    ensures Count(s, pat) > 0 <==> Occurs(s, pat)
    decreases |s|
  {
    if |s| < |pat| {
      assert forall i: nat :: !MatchAt(s, pat, i);
    } else if s[..|pat|] == pat {
      assert MatchAt(s, pat, 0);
    } else {
      CountPositiveIffOccurs(s[1..], pat);
      if Occurs(s, pat) {
        var i: nat :| i <= |s| && MatchAt(s, pat, i);
        assert i != 0;
        ShiftMatch(s, pat, i - 1);
      }
      if Occurs(s[1..], pat) {
        var i: nat :| i <= |s[1..]| && MatchAt(s[1..], pat, i);
        ShiftMatch(s, pat, i);
      }
    }
  }

  /** A match in the tail `s[1..]` is a match one position later in `s`. */
  lemma ShiftMatch(s: string, pat: string, i: nat)
    requires s != []
    ensures MatchAt(s[1..], pat, i) <==> MatchAt(s, pat, i + 1)
  {
    if i + |pat| <= |s[1..]| {
      assert s[1..][i..i + |pat|] == s[i + 1..i + 1 + |pat|];
    }
  }

  /** Text in which no occurrence of the pattern starts is copied unchanged. */
  lemma {:induction false} ReplaceAllPlainPrefix(a: string, b: string, pat: string, rep: string)
    requires pat != []
    requires forall j :: 0 <= j < |a| ==> !MatchAt(a + b, pat, j)
    ensures ReplaceAll(a + b, pat, rep) == a + ReplaceAll(b, pat, rep)
    decreases |a|
  {
    if a != [] {
      var s := a + b;
      assert s[1..] == a[1..] + b;
      forall j | 0 <= j < |a[1..]|
        ensures !MatchAt(a[1..] + b, pat, j)
      {
        ShiftMatch(s, pat, j);
      }
      ReplaceAllPlainPrefix(a[1..], b, pat, rep);
      if |s| < |pat| {
        // Too short to hold the pattern: both sides are the text itself.
        assert ReplaceAll(b, pat, rep) == b;
      } else {
        assert !MatchAt(s, pat, 0);
        assert ReplaceAll(s, pat, rep) == [a[0]] + ReplaceAll(a[1..] + b, pat, rep);
        assert a == [a[0]] + a[1..];
        assert [a[0]] + (a[1..] + ReplaceAll(b, pat, rep)) == a + ReplaceAll(b, pat, rep);
      }
    } else {
      assert a + b == b;
    }
  }

  /** No occurrence starts inside a stretch that lacks the pattern's first character. */
  lemma NoMatchWithoutHead(a: string, b: string, pat: string)
    requires pat != [] && forall k :: 0 <= k < |a| ==> a[k] != pat[0]
    ensures forall j :: 0 <= j < |a| ==> !MatchAt(a + b, pat, j)
  {
    forall j | 0 <= j < |a|
      ensures !MatchAt(a + b, pat, j)
    {
      if j + |pat| <= |a + b| {
        assert (a + b)[j..j + |pat|][0] == a[j] != pat[0];
      }
    }
  }

  /** A text that starts with the pattern starts with the replacement. */
  lemma ReplaceAllLeadingMatch(b: string, pat: string, rep: string)
    requires pat != []
    ensures ReplaceAll(pat + b, pat, rep) == rep + ReplaceAll(b, pat, rep)
  {
    assert (pat + b)[..|pat|] == pat;
    assert (pat + b)[|pat|..] == b;
  }

  /**
   * The first occurrence is the one replaced, whatever precedes it, and the
   * scan resumes right after it.
   */
  lemma ReplaceAllFirstMatch(a: string, b: string, pat: string, rep: string)
    requires pat != []
    requires forall j :: 0 <= j < |a| ==> !MatchAt(a + pat + b, pat, j)
    ensures ReplaceAll(a + pat + b, pat, rep) == a + rep + ReplaceAll(b, pat, rep)
  {
    assert a + pat + b == a + (pat + b);
    ReplaceAllPlainPrefix(a, pat + b, pat, rep);
    ReplaceAllLeadingMatch(b, pat, rep);
  }

  /** A text in which the pattern does not occur comes back unchanged. */
  lemma {:induction false} ReplaceAllAbsent(s: string, pat: string, rep: string)
    requires pat != [] && Count(s, pat) == 0
    ensures ReplaceAll(s, pat, rep) == s
    decreases |s|
  {
    if |s| >= |pat| {
      ReplaceAllAbsent(s[1..], pat, rep);
      assert [s[0]] + s[1..] == s;
    }
  }

  /**
   * When the replacement has a different length than the pattern, the text
   * is left unchanged if and only if the pattern does not occur in it.
   */
  lemma ReplaceAllFixedIff(s: string, pat: string, rep: string)
    requires pat != [] && |rep| != |pat|
    ensures ReplaceAll(s, pat, rep) == s <==> !Occurs(s, pat)
  {
    CountPositiveIffOccurs(s, pat);
    ReplaceAllLength(s, pat, rep);
    if Count(s, pat) == 0 {
      ReplaceAllAbsent(s, pat, rep);
    } else {
      if |rep| < |pat| {
        MulStrict(Count(s, pat), |rep|, |pat|);
      } else {
        MulStrict(Count(s, pat), |pat|, |rep|);
      }
    }
  }

  /** A shorter replacement never makes the text longer. */
  lemma ReplaceAllShrinks(s: string, pat: string, rep: string)
    requires pat != [] && |rep| <= |pat|
    ensures |ReplaceAll(s, pat, rep)| <= |s|
  {
    ReplaceAllLength(s, pat, rep);
    if Count(s, pat) > 0 && |rep| < |pat| {
      MulStrict(Count(s, pat), |rep|, |pat|);
    }
  }

  lemma MulSucc(c: nat, k: nat)
    ensures (c + 1) * k == c * k + k
  {
  }

  lemma {:induction false} MulStrict(c: nat, a: nat, b: nat)
    requires c > 0 && a < b
    ensures c * a < c * b
  {
    if c > 1 {
      MulStrict(c - 1, a, b);
      assert c * a == (c - 1) * a + a;
      assert c * b == (c - 1) * b + b;
    }
  }
}
