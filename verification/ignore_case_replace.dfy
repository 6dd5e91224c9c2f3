/**
 Ordinal, case-insensitive replacement of every occurrence of a pattern in a
 string, scanning left to right without overlap: the behaviour of
 `string.Replace(oldValue, newValue, StringComparison.OrdinalIgnoreCase)` that
 the middleware applies to the configured User-Agent template.

 `Replace` is the recursive definition; `ReplaceAll` is the imperative,
 index-search based algorithm (find the next occurrence, copy the text before
 it, append the replacement, continue after the occurrence) and is proved to
 compute the same string.
 */
module IgnoreCaseReplace {

  /** Case folding used for the comparison: ASCII upper-case letters map to lower case. */
  function FoldAscii(c: char): char {
    if 'A' <= c <= 'Z' then (c as int + 32) as char else c
  }

  /** An occurrence of `pat` (up to ASCII case) starts at index `i` of `s`. */
  predicate MatchesAt(s: string, pat: string, i: nat) {
    i + |pat| <= |s| && forall k :: 0 <= k < |pat| ==> FoldAscii(s[i + k]) == FoldAscii(pat[k])
  }

  /** Two strings are equal up to ASCII case: the one is an occurrence of the other filling it. */
  predicate EqualsIgnoreCase(a: string, b: string) {
    |a| == |b| && MatchesAt(a, b, 0)
  }

  /** No occurrence of `pat` starts at an index in `[lo, hi)`. */
  predicate NoMatchIn(s: string, pat: string, lo: nat, hi: nat) {
    forall k: nat :: lo <= k < hi ==> !MatchesAt(s, pat, k)
  }

  /** An occurrence in a suffix is an occurrence in the whole string, shifted. */
  lemma MatchesAtSuffix(s: string, pat: string, d: nat, k: nat)
    requires d <= |s|
    ensures MatchesAt(s[d..], pat, k) <==> MatchesAt(s, pat, d + k)
  {
    if d + k + |pat| <= |s| {
      forall j | 0 <= j < |pat|
        ensures FoldAscii(s[d..][k + j]) == FoldAscii(pat[j]) <==> FoldAscii(s[d + k + j]) == FoldAscii(pat[j])
      {
      }
    }
  }

  /**
   Replaces every occurrence of `pat` in `s`, found left to right, by `rep`.
   The scan resumes after the occurrence, so the inserted `rep` is never
   rescanned. A replacement no shorter than the pattern never shortens the
   string, and one no longer than the pattern never lengthens it.
   */
  function Replace(s: string, pat: string, rep: string): (r: string)
    requires |pat| > 0
    ensures |rep| >= |pat| ==> |r| >= |s|
    ensures |rep| <= |pat| ==> |r| <= |s|
    decreases |s|
  {
    if |s| == 0 then []
    else if MatchesAt(s, pat, 0) then rep + Replace(s[|pat|..], pat, rep)
    else [s[0]] + Replace(s[1..], pat, rep)
  }

  /** The text before the first occurrence is copied verbatim. */
  lemma {:induction false} ReplaceCopiesFreeText(s: string, pat: string, rep: string, i: nat, j: nat)
    requires |pat| > 0
    requires i <= j <= |s|
    requires NoMatchIn(s, pat, i, j)
    ensures Replace(s[i..], pat, rep) == s[i..j] + Replace(s[j..], pat, rep)
    decreases j - i
  {
    if i < j {
      MatchesAtSuffix(s, pat, i, 0);
      assert !MatchesAt(s[i..], pat, 0);
      assert s[i..][1..] == s[i + 1..];
      ReplaceCopiesFreeText(s, pat, rep, i + 1, j);
      assert s[i..j] == [s[i]] + s[i + 1..j];
    }
  }

  /** An occurrence is replaced by `rep` and the scan resumes right after it. */
  lemma ReplaceAtOccurrence(s: string, pat: string, rep: string, j: nat)
    requires |pat| > 0
    requires MatchesAt(s, pat, j)
    ensures Replace(s[j..], pat, rep) == rep + Replace(s[j + |pat|..], pat, rep)
  {
    MatchesAtSuffix(s, pat, j, 0);
    assert MatchesAt(s[j..], pat, 0);
    assert s[j..][|pat|..] == s[j + |pat|..];
  }

  /**
   Index of the first occurrence of `pat` at or after `start`, or -1 when
   there is none.
   */
  method IndexOf(s: string, pat: string, start: nat) returns (j: int)
    requires start <= |s|
    ensures j == -1 ==> NoMatchIn(s, pat, start, |s|)
    ensures j != -1 ==> start <= j < |s| && MatchesAt(s, pat, j) && NoMatchIn(s, pat, start, j)
  {
    var k := start;
    while k < |s|
      invariant start <= k <= |s|
      invariant NoMatchIn(s, pat, start, k)
      decreases |s| - k
    {
      if MatchesAt(s, pat, k) {
        return k;
      }
      k := k + 1;
    }
    return -1;
  }

  /** The search-and-copy algorithm; computes exactly `Replace(s, pat, rep)`. */
  method ReplaceAll(s: string, pat: string, rep: string) returns (r: string)
    requires |pat| > 0
    ensures r == Replace(s, pat, rep)
  {
    r := [];
    var i: nat := 0;
    assert s[0..] == s;
    while i < |s|
      invariant i <= |s|
      invariant r + Replace(s[i..], pat, rep) == Replace(s, pat, rep)
      decreases |s| - i
    {
      var j := IndexOf(s, pat, i);
      if j == -1 {
        ReplaceFreeTail(s, pat, rep, i);
        assert r + Replace(s[i..], pat, rep) == (r + s[i..]) + Replace(s[|s|..], pat, rep);
        r := r + s[i..];
        i := |s|;
      } else {
        ReplaceUpToOccurrence(s, pat, rep, i, j);
        var next: nat := j + |pat|;
        assert r + Replace(s[i..], pat, rep) == (r + (s[i..j] + rep)) + Replace(s[next..], pat, rep);
        r := r + (s[i..j] + rep);
        i := next;
      }
    }
  }

  /** A string without any occurrence comes back unchanged. */
  lemma ReplaceWithoutOccurrence(s: string, pat: string, rep: string)
    requires |pat| > 0
    requires NoMatchIn(s, pat, 0, |s|)
    ensures Replace(s, pat, rep) == s
  {
    ReplaceCopiesFreeText(s, pat, rep, 0, |s|);
    assert s[0..] == s;
  }

  /** A tail without occurrences is copied unchanged. */
  lemma ReplaceFreeTail(s: string, pat: string, rep: string, i: nat)
    requires |pat| > 0
    requires i <= |s|
    requires NoMatchIn(s, pat, i, |s|)
    ensures Replace(s[i..], pat, rep) == s[i..]
  {
    ReplaceCopiesFreeText(s, pat, rep, i, |s|);
  }

  /** From `i` to the next occurrence at `j`: free text, then `rep`, then the rest. */
  lemma ReplaceUpToOccurrence(s: string, pat: string, rep: string, i: nat, j: nat)
    requires |pat| > 0
    requires i <= j
    requires MatchesAt(s, pat, j)
    requires NoMatchIn(s, pat, i, j)
    ensures Replace(s[i..], pat, rep) == (s[i..j] + rep) + Replace(s[j + |pat|..], pat, rep)
  {
    ReplaceCopiesFreeText(s, pat, rep, i, j);
    ReplaceAtOccurrence(s, pat, rep, j);
  }

  /** A string that is one occurrence of the pattern is replaced as a whole. */
  lemma ReplaceWholeOccurrence(s: string, pat: string, rep: string)
    requires |pat| > 0
    requires EqualsIgnoreCase(s, pat)
    ensures Replace(s, pat, rep) == rep
  {
  }

  /**
   The replacement is inserted literally and not rescanned: whatever `rep`
   contains, an occurrence followed by `t` becomes `rep` followed by the
   replacement of `t` alone.
   */
  lemma ReplaceNotRescanned(p: string, t: string, pat: string, rep: string)
    requires |pat| > 0
    requires EqualsIgnoreCase(p, pat)
    ensures Replace(p + t, pat, rep) == rep + Replace(t, pat, rep)
  {
    var s := p + t;
    assert MatchesAt(s, pat, 0) by {
      assert forall k :: 0 <= k < |pat| ==> s[0 + k] == p[k];
    }
    assert s[|pat|..] == t;
  }

  /** Every occurrence of `pat` in `s` is spelled exactly as `pat`. */
  ghost predicate ExactOccurrences(s: string, pat: string) {
    forall i: nat :: i <= |s| && MatchesAt(s, pat, i) ==> s[i..i + |pat|] == pat
  }

  /** Cutting a prefix keeps every occurrence exact. */
  lemma ExactOccurrencesSuffix(s: string, pat: string, d: nat)
    requires d <= |s|
    requires ExactOccurrences(s, pat)
    ensures ExactOccurrences(s[d..], pat)
  {
    forall i: nat | i <= |s[d..]| && MatchesAt(s[d..], pat, i)
      ensures s[d..][i..i + |pat|] == pat
    {
      MatchesAtSuffix(s, pat, d, i);
      assert s[d..][i..i + |pat|] == s[d + i..d + i + |pat|];
    }
  }

  /**
   Round trip: when every occurrence is spelled exactly like the pattern,
   replacing the pattern by itself gives back the original string.
   */
  lemma {:induction false} ReplaceBySelfIsIdentity(s: string, pat: string)
    requires |pat| > 0
    requires ExactOccurrences(s, pat)
    ensures Replace(s, pat, pat) == s
    decreases |s|
  {
    if |s| > 0 {
      var d := if MatchesAt(s, pat, 0) then |pat| else 1;
      ExactOccurrencesSuffix(s, pat, d);
      ReplaceBySelfIsIdentity(s[d..], pat);
      if MatchesAt(s, pat, 0) {
        assert s[0..|pat|] == pat;
        assert s == s[..|pat|] + s[|pat|..];
      } else {
        assert s == [s[0]] + s[1..];
      }
    }
  }
}
