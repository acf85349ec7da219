/**
  The substitution scan of `re.sub`. (`str.replace` is modelled on its own,
  by `StrReplace.ReplaceAll`, and scans the same way.)

  The scan tries a match at the current position; the leftmost match wins, its
  replacement is emitted, and the scan resumes at the end of the match, so
  matches never overlap. Where nothing matches, one character is copied and
  the scan moves on by one. The matcher sees the whole string, so a pattern
  may look behind its start position (as `\b` does).
 */
module Scan {
  import opened SpaceErasure

  /** An occurrence, character by character. */
  lemma OccursAtChars(s: string, i: nat, w: string)
    requires OccursAt(s, i, w)
    ensures forall n :: 0 <= n < |w| ==> s[i + n] == w[n]
    ensures |w| > 0 ==> s[i] == w[0]
    ensures |w| > 1 ==> s[i + 1] == w[1]
  {
    forall n | 0 <= n < |w|
      ensures s[i + n] == w[n]
    {
      assert s[i..i + |w|][n] == s[i + n];
    }
  }

  /** Result of trying a pattern at one position: where the match ends and its replacement. */
  datatype MatchResult = NoMatch | Matched(end: nat, rep: string)

  /** `w` occurs in `s` starting at position `i`. */
  predicate OccursAt(s: string, i: nat, w: string) {
    i + |w| <= |s| && s[i..i + |w|] == w
  }

  /** `w` occurs nowhere in `s`. */
  predicate Absent(s: string, w: string) {
    forall i: nat :: i < |s| ==> !OccursAt(s, i, w)
  }

  /** Tries a pattern at a position of a string. */
  type Matcher = (string, nat) -> MatchResult

  /** Every match of `f` in `s` lies inside `s` and consumes at least one character. */
  ghost predicate Advances(f: Matcher, s: string) {
    forall i: nat :: i <= |s| && f(s, i).Matched? ==> i < f(s, i).end <= |s|
  }

  /** Every match of `f` in `s` is replaced by something strictly shorter. */
  ghost predicate Shrinks(f: Matcher, s: string)
    requires Advances(f, s)
  {
    forall i: nat :: i <= |s| && f(s, i).Matched? ==> |f(s, i).rep| < f(s, i).end - i
  }

  /** Every match of `f` in `s` is replaced by the matched text with some whitespace deleted. */
  ghost predicate ErasesOnlySpace(f: Matcher, s: string)
    requires Advances(f, s)
  {
    forall i: nat :: i <= |s| && f(s, i).Matched? ==> ErasesSpace(s[i..f(s, i).end], f(s, i).rep)
  }

  /** No match of `f` starts anywhere in `[i, k)`. */
  ghost predicate NoMatchBetween(f: Matcher, s: string, i: nat, k: nat) {
    forall n: nat :: i <= n < k ==> f(s, n).NoMatch?
  }

  /** The substitution scan of `s` from position `i` on. */
  function SubFrom(f: Matcher, s: string, i: nat): (r: string)
    requires i <= |s|
    requires Advances(f, s)
    ensures i < |s| && f(s, i).NoMatch? ==> |r| > 0 && r[0] == s[i]
    ensures i == |s| ==> r == []
    decreases |s| - i
  {
    if i == |s| then []
    else
      var m := f(s, i);
      if m.Matched? then m.rep + SubFrom(f, s, m.end)
      else [s[i]] + SubFrom(f, s, i + 1)
  }

  /** When every replacement deletes only whitespace, so does the whole scan. */
  lemma {:induction false} SubFromErases(f: Matcher, s: string, i: nat)
    requires i <= |s| && Advances(f, s) && ErasesOnlySpace(f, s)
    ensures ErasesSpace(s[i..], SubFrom(f, s, i))
    decreases |s| - i
  {
    if i == |s| {
      assert s[i..] == [];
    } else {
      var m := f(s, i);
      if m.Matched? {
        SubFromErases(f, s, m.end);
        assert s[i..] == s[i..m.end] + s[m.end..];
        ErasesConcat(s[i..m.end], m.rep, s[m.end..], SubFrom(f, s, m.end));
      } else {
        SubFromErases(f, s, i + 1);
        assert s[i..] == [s[i]] + s[i + 1..];
        ErasesRefl([s[i]]);
        ErasesConcat([s[i]], [s[i]], s[i + 1..], SubFrom(f, s, i + 1));
      }
    }
  }

  /** When every replacement is shorter than its match, the scan never lengthens the text. */
  lemma {:induction false} SubFromLength(f: Matcher, s: string, i: nat)
    requires i <= |s| && Advances(f, s) && Shrinks(f, s)
    ensures |SubFrom(f, s, i)| <= |s| - i
    decreases |s| - i
  {
    if i < |s| {
      var m := f(s, i);
      if m.Matched? {
        SubFromLength(f, s, m.end);
      } else {
        SubFromLength(f, s, i + 1);
      }
    }
  }

  /** One step of the scan at a position inside the string. */
  lemma SubFromStep(f: Matcher, s: string, i: nat)
    requires i < |s| && Advances(f, s)
    ensures f(s, i).Matched? ==> SubFrom(f, s, i) == f(s, i).rep + SubFrom(f, s, f(s, i).end)
    ensures f(s, i).NoMatch? ==> SubFrom(f, s, i) == [s[i]] + SubFrom(f, s, i + 1)
  {
  }

  /** Text in which nothing matches from `i` on is copied unchanged. */
  lemma {:induction false} SubNoMatch(f: Matcher, s: string, i: nat)
    requires i <= |s| && Advances(f, s)
    requires NoMatchBetween(f, s, i, |s|)
    ensures SubFrom(f, s, i) == s[i..]
    decreases |s| - i
  {
    if i < |s| {
      assert f(s, i).NoMatch?;
      SubNoMatch(f, s, i + 1);
      assert s[i..] == [s[i]] + s[i + 1..];
    }
  }

  /**
    The leftmost match decides: if nothing matches in `[i, k)` and `f` matches
    at `k`, the text before `k` is copied, the match is replaced, and the scan
    resumes where the match ended.
   */
  lemma {:induction false} SubLeftmost(f: Matcher, s: string, i: nat, k: nat)
    requires i <= k < |s| && Advances(f, s)
    requires NoMatchBetween(f, s, i, k)
    requires f(s, k).Matched?
    ensures SubFrom(f, s, i) == s[i..k] + f(s, k).rep + SubFrom(f, s, f(s, k).end)
    decreases k - i
  {
    var m := f(s, k);
    var rest := SubFrom(f, s, m.end);
    if i < k {
      assert f(s, i).NoMatch?;
      SubFromStep(f, s, i);
      SubLeftmost(f, s, i + 1, k);
      calc {
        SubFrom(f, s, i);
        [s[i]] + SubFrom(f, s, i + 1);
        [s[i]] + (s[i + 1..k] + m.rep + rest);
        { assert [s[i]] + s[i + 1..k] == s[i..k]; }
        s[i..k] + m.rep + rest;
      }
    } else {
      SubFromStep(f, s, k);
      assert s[i..k] == [];
    }
  }

  /** The leftmost match at or after `i`, when there is one. */
  lemma {:induction false} FirstMatch(f: Matcher, s: string, i: nat) returns (k: nat)
    requires i <= |s|
    requires !NoMatchBetween(f, s, i, |s|)
    ensures i <= k < |s| && f(s, k).Matched?
    ensures NoMatchBetween(f, s, i, k)
    decreases |s| - i
  {
    if f(s, i).Matched? {
      k := i;
    } else {
      k := FirstMatch(f, s, i + 1);
    }
  }

  /**
    When every replacement is shorter than what it replaces, the scan leaves
    the text unchanged exactly when nothing matches.
   */
  lemma SubUnchangedIff(f: Matcher, s: string)
    requires Advances(f, s) && Shrinks(f, s)
    ensures SubFrom(f, s, 0) == s <==> NoMatchBetween(f, s, 0, |s|)
  {
    if NoMatchBetween(f, s, 0, |s|) {
      SubNoMatch(f, s, 0);
    } else {
      var k := FirstMatch(f, s, 0);
      SubLeftmost(f, s, 0, k);
      SubFromLength(f, s, f(s, k).end);
      assert |SubFrom(f, s, 0)| < |s|;
    }
  }
}
