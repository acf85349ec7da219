/**
  Python's `str.replace(pat, repl)` for a non-empty `pat`: every non-overlapping
  occurrence of `pat`, found left to right, is replaced by `repl`.

  A literal pattern never looks behind its start, so the scan is written
  directly on the remaining suffix.
 */
module StrReplace {
  import opened SpaceErasure
  import opened Scan

  /** `s.replace(pat, repl)`. */
  function ReplaceAll(s: string, pat: string, repl: string): (r: string)
    requires |pat| > 0
    ensures |repl| <= |pat| ==> |r| <= |s|
    decreases |s|
  {
    if |s| == 0 then []
    else if OccursAt(s, 0, pat) then repl + ReplaceAll(s[|pat|..], pat, repl)
    else [s[0]] + ReplaceAll(s[1..], pat, repl)
  }

  /** Occurrences in a suffix are the occurrences in the whole string, shifted. */
  lemma OccursShift(s: string, e: nat, i: nat, pat: string)
    requires e <= i <= |s|
    ensures OccursAt(s, i, pat) <==> OccursAt(s[e..], i - e, pat)
  {
    if i + |pat| <= |s| {
      assert s[e..][i - e..i - e + |pat|] == s[i..i + |pat|];
    }
  }

  /** When the replacement is `pat` with some whitespace deleted, so is the whole result. */
  lemma {:induction false} ReplaceErases(s: string, pat: string, repl: string)
    requires |pat| > 0 && ErasesSpace(pat, repl)
    ensures ErasesSpace(s, ReplaceAll(s, pat, repl))
    decreases |s|
  {
    if |s| > 0 {
      if OccursAt(s, 0, pat) {
        var rest := s[|pat|..];
        ReplaceErases(rest, pat, repl);
        assert s == pat + rest;
        ErasesConcat(pat, repl, rest, ReplaceAll(rest, pat, repl));
      } else {
        ReplaceErases(s[1..], pat, repl);
        assert s == [s[0]] + s[1..];
        ErasesRefl([s[0]]);
        ErasesConcat([s[0]], [s[0]], s[1..], ReplaceAll(s[1..], pat, repl));
      }
    }
  }

  /** A pattern with a character that `s` lacks does not occur in `s`. */
  lemma AbsentWhenMissingChar(s: string, pat: string, c: char)
    requires c in pat && c !in s
    ensures Absent(s, pat)
  {
    var n :| 0 <= n < |pat| && pat[n] == c;
    forall i: nat | i < |s|
      ensures !OccursAt(s, i, pat)
    {
      if i + |pat| <= |s| {
        assert s[i + n] == s[i..i + |pat|][n];
      }
    }
  }

  /** A pattern containing a non-empty word that does not occur in `s` does not occur in `s` either. */
  lemma AbsentBySubword(s: string, pat: string, w: string, m: nat)
    requires |w| > 0 && OccursAt(pat, m, w) && Absent(s, w)
    ensures Absent(s, pat)
  {
    forall i: nat | i < |s|
      ensures !OccursAt(s, i, pat)
    {
      if OccursAt(s, i, pat) {
        var u := s[i..i + |pat|];
        assert u[m..m + |w|] == w;
        forall k | 0 <= k < |w|
          ensures s[i + m..i + m + |w|][k] == w[k]
        {
          assert w[k] == u[m + k] == s[i + m + k];
        }
        assert s[i + m..i + m + |w|] == w;
        assert i + m < |s| && OccursAt(s, i + m, w);
      }
    }
  }

  /** A string without an occurrence of `pat` is returned unchanged. */
  lemma {:induction false} ReplaceAbsent(s: string, pat: string, repl: string)
    requires |pat| > 0
    requires Absent(s, pat)
    ensures ReplaceAll(s, pat, repl) == s
    decreases |s|
  {
    if |s| > 0 {
      assert !OccursAt(s, 0, pat);
      assert Absent(s[1..], pat) by {
        forall i: nat | i < |s[1..]|
          ensures !OccursAt(s[1..], i, pat)
        {
          OccursShift(s, 1, i + 1, pat);
        }
      }
      ReplaceAbsent(s[1..], pat, repl);
      assert s == [s[0]] + s[1..];
    }
  }

  /**
    `str.replace` is determined by the leftmost occurrence: the text before it
    is kept, the occurrence is replaced, and replacement continues on the text
    after it.
   */
  lemma ReplaceLeftmost(s: string, pat: string, repl: string, k: nat)
    requires |pat| > 0
    requires OccursAt(s, k, pat)
    requires forall i: nat :: i < k ==> !OccursAt(s, i, pat)
    ensures ReplaceAll(s, pat, repl) == s[..k] + repl + ReplaceAll(s[k + |pat|..], pat, repl)
  {
    ReplaceFrom(s, pat, repl, 0, k);
    assert s[0..] == s;
  }

  /** `ReplaceLeftmost` for the suffix of `s` from `j` on. */
  lemma {:induction false} ReplaceFrom(s: string, pat: string, repl: string, j: nat, k: nat)
    requires |pat| > 0 && j <= k
    requires OccursAt(s, k, pat)
    requires forall i: nat :: j <= i < k ==> !OccursAt(s, i, pat)
    ensures ReplaceAll(s[j..], pat, repl) == s[j..k] + repl + ReplaceAll(s[k + |pat|..], pat, repl)
    decreases k - j
  {
    var u := s[j..];
    OccursShift(s, j, j, pat);
    if j == k {
      assert OccursAt(u, 0, pat);
      assert u[|pat|..] == s[k + |pat|..];
      assert s[j..k] == [];
    } else {
      assert !OccursAt(u, 0, pat) && u[0] == s[j];
      assert u[1..] == s[j + 1..];
      ReplaceFrom(s, pat, repl, j + 1, k);
      assert [s[j]] + s[j + 1..k] == s[j..k];
    }
  }

  /**
    An occurrence preceded by text without the pattern's first character, and
    followed by text without the pattern, is the one occurrence replaced.
   */
  lemma ReplaceInMiddle(pre: string, pat: string, post: string, repl: string)
    requires |pat| > 0 && forall i :: 0 <= i < |pre| ==> pre[i] != pat[0]
    requires Absent(post, pat)
    ensures ReplaceAll(pre + pat + post, pat, repl) == pre + repl + post
  {
    var s := pre + pat + post;
    assert OccursAt(s, |pre|, pat) by { assert s[|pre|..|pre| + |pat|] == pat; }
    forall i: nat | i < |pre|
      ensures !OccursAt(s, i, pat)
    {
      if i + |pat| <= |s| {
        assert s[i] == pre[i];
        assert s[i..i + |pat|][0] == s[i];
      }
    }
    ReplaceLeftmost(s, pat, repl, |pre|);
    assert s[..|pre|] == pre && s[|pre| + |pat|..] == post;
    ReplaceAbsent(post, pat, repl);
  }

  /** Text that is exactly one occurrence of `pat` becomes `repl`. */
  lemma ReplaceWhole(pat: string, repl: string)
    requires |pat| > 0
    ensures ReplaceAll(pat, pat, repl) == repl
  {
    ReplaceLeftmost(pat, pat, repl, 0);
    assert pat[|pat|..] == [];
    assert pat[..0] == [];
  }

  /** The leftmost occurrence of `pat`, when there is one. */
  lemma {:induction false} FirstOccurrence(s: string, pat: string, i: nat) returns (k: nat)
    requires i <= |s|
    requires forall n: nat :: n < i ==> !OccursAt(s, n, pat)
    requires !Absent(s, pat)
    ensures k < |s| && OccursAt(s, k, pat)
    ensures forall n: nat :: n < k ==> !OccursAt(s, n, pat)
    decreases |s| - i
  {
    if i < |s| && OccursAt(s, i, pat) {
      k := i;
    } else {
      assert i < |s|;
      k := FirstOccurrence(s, pat, i + 1);
    }
  }

  /** When `repl` is shorter than `pat`, the string changes exactly when `pat` occurs in it. */
  lemma ReplaceUnchangedIff(s: string, pat: string, repl: string)
    requires 0 < |pat| && |repl| < |pat|
    ensures ReplaceAll(s, pat, repl) == s <==> Absent(s, pat)
  {
    if Absent(s, pat) {
      ReplaceAbsent(s, pat, repl);
    } else {
      var k := FirstOccurrence(s, pat, 0);
      ReplaceLeftmost(s, pat, repl, k);
      assert |ReplaceAll(s, pat, repl)| < |s|;
    }
  }
}
