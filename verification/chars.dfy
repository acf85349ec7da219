/**
  Character classes used by the repair patterns, and maximal runs of them.

  `\s` is Python's whitespace class for `str` patterns: exactly the characters
  for which `str.isspace()` holds. `\w` (which `\b` is defined from) is
  approximated by the ASCII word characters `[A-Za-z0-9_]`; Python's Unicode
  `\w` also admits non-ASCII letters and digits.
 */
module Chars {

  /**
    Python's `\s` on `str`. No whitespace character belongs to the other
    classes or is one of the punctuation characters the patterns spell out,
    so each greedy run in a pattern has only one place to stop.
   */
  predicate IsSpace(c: char)
    ensures IsSpace(c) ==> !IsWordChar(c) && c != '-'
    ensures IsSpace(c) ==> c != '<' && c != '>' && c != '/' && c != '=' && c != '"'
    ensures c in " \t\n\r" ==> IsSpace(c)
  {
    || ('\t' <= c <= '\r')
    || ('\U{1C}' <= c <= '\U{1F}')
    || c == ' '
    || c == '\U{85}'
    || c == '\U{A0}'
    || c == '\U{1680}'
    || ('\U{2000}' <= c <= '\U{200A}')
    || c == '\U{2028}'
    || c == '\U{2029}'
    || c == '\U{202F}'
    || c == '\U{205F}'
    || c == '\U{3000}'
  }

  /** `[a-zA-Z]` */
  predicate IsLetter(c: char) {
    ('a' <= c <= 'z') || ('A' <= c <= 'Z')
  }

  /** `[a-zA-Z0-9]` */
  predicate IsAlnum(c: char) {
    IsLetter(c) || ('0' <= c <= '9')
  }

  /** `\w`, restricted to ASCII. */
  predicate IsWordChar(c: char) {
    IsAlnum(c) || c == '_'
  }

  /** The bracketed classes that occur, repeated with `+`, in the patterns. */
  datatype CharClass =
    | Alnum           // [a-zA-Z0-9]
    | AlnumOrHyphen   // [a-zA-Z0-9-]
    | LetterOrHyphen  // [a-zA-Z-]
    | Space           // \s

  predicate InClass(c: char, k: CharClass) {
    match k
    case Alnum => IsAlnum(c)
    case AlnumOrHyphen => IsAlnum(c) || c == '-'
    case LetterOrHyphen => IsLetter(c) || c == '-'
    case Space => IsSpace(c)
  }

  predicate AllIn(w: string, k: CharClass) {
    forall n :: 0 <= n < |w| ==> InClass(w[n], k)
  }

  /** End of the longest run of class `k` starting at `i`: where a greedy `k+` stops. */
  function RunEnd(s: string, i: nat, k: CharClass): (j: nat)
    requires i <= |s|
    ensures i <= j <= |s|
    ensures AllIn(s[i..j], k)
    ensures j == |s| || !InClass(s[j], k)
    decreases |s| - i
  {
    if i < |s| && InClass(s[i], k) then
      var j := RunEnd(s, i + 1, k);
      assert forall n :: 0 < n < j - i ==> s[i..j][n] == s[i + 1..j][n - 1];
      j
    else i
  }

  /** A run is determined by its class: any split point with the run property is the greedy end. */
  lemma {:induction false} RunEndUnique(s: string, i: nat, j: nat, k: CharClass)
    requires i <= j <= |s|
    requires AllIn(s[i..j], k)
    requires j == |s| || !InClass(s[j], k)
    ensures RunEnd(s, i, k) == j
    decreases j - i
  {
    if i < j {
      assert s[i..j][0] == s[i];
      assert AllIn(s[i + 1..j], k) by {
        assert s[i + 1..j] == s[i..j][1..];
      }
      RunEndUnique(s, i + 1, j, k);
    }
  }

  /** `\b` at position `i`: exactly one of the neighbouring characters is a word character. */
  predicate AtWordBoundary(s: string, i: nat)
    requires i <= |s|
    ensures i < |s| && IsWordChar(s[i]) ==> (AtWordBoundary(s, i) <==> i == 0 || !IsWordChar(s[i - 1]))
    ensures 0 < i && IsWordChar(s[i - 1]) ==> (AtWordBoundary(s, i) <==> i == |s| || !IsWordChar(s[i]))
    ensures AtWordBoundary(s, i) ==> (i < |s| && IsWordChar(s[i])) || (0 < i && IsWordChar(s[i - 1]))
  {
    (i > 0 && IsWordChar(s[i - 1])) != (i < |s| && IsWordChar(s[i]))
  }
}
