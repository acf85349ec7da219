/**
  The one thing every repair pass does: delete whitespace characters.

  `ErasesSpace(s, t)` says that `t` is `s` with zero or more whitespace
  characters deleted; every other character of `s` survives, in order.
 */
module SpaceErasure {
  import opened Chars

  /** `t` is obtained from `s` by deleting some whitespace characters of `s`. */
  predicate ErasesSpace(s: string, t: string)
    decreases |s|
  {
    if |s| == 0 then |t| == 0
    else
      || (IsSpace(s[0]) && ErasesSpace(s[1..], t))
      || (|t| > 0 && t[0] == s[0] && ErasesSpace(s[1..], t[1..]))
  }

  /** `w` contains no whitespace character. */
  predicate NoSpace(w: string) {
    forall n :: 0 <= n < |w| ==> !IsSpace(w[n])
  }

  /** `s` with every whitespace character deleted. */
  function Strip(s: string): (r: string)
    ensures |r| <= |s|
    ensures NoSpace(r)
  {
    if |s| == 0 then []
    else if IsSpace(s[0]) then Strip(s[1..])
    else [s[0]] + Strip(s[1..])
  }

  lemma {:induction false} ErasesRefl(s: string)
    ensures ErasesSpace(s, s)
    decreases |s|
  {
    if |s| > 0 {
      ErasesRefl(s[1..]);
    }
  }

  /** A run of whitespace can be deleted entirely. */
  lemma {:induction false} ErasesAllSpace(w: string)
    requires AllIn(w, Space)
    ensures ErasesSpace(w, [])
    decreases |w|
  {
    if |w| > 0 {
      assert IsSpace(w[0]);
      assert AllIn(w[1..], Space) by {
        assert forall n :: 0 <= n < |w[1..]| ==> w[1..][n] == w[n + 1];
      }
      ErasesAllSpace(w[1..]);
    }
  }

  /** Deletions in two adjacent pieces combine into a deletion in the whole. */
  lemma {:induction false} ErasesConcat(a: string, b: string, c: string, d: string)
    requires ErasesSpace(a, b) && ErasesSpace(c, d)
    ensures ErasesSpace(a + c, b + d)
    decreases |a|
  {
    if |a| == 0 {
      assert a + c == c;
      assert b + d == d;
    } else {
      assert (a + c)[0] == a[0];
      assert (a + c)[1..] == a[1..] + c;
      if IsSpace(a[0]) && ErasesSpace(a[1..], b) {
        ErasesConcat(a[1..], b, c, d);
      } else {
        assert (b + d)[0] == b[0];
        assert (b + d)[1..] == b[1..] + d;
        ErasesConcat(a[1..], b[1..], c, d);
      }
    }
  }

  lemma {:induction false} ErasesTrans(a: string, b: string, c: string)
    requires ErasesSpace(a, b) && ErasesSpace(b, c)
    ensures ErasesSpace(a, c)
    decreases |a|
  {
    if |a| > 0 {
      if IsSpace(a[0]) && ErasesSpace(a[1..], b) {
        ErasesTrans(a[1..], b, c);
      } else if IsSpace(b[0]) && ErasesSpace(b[1..], c) {
        ErasesTrans(a[1..], b[1..], c);
      } else {
        ErasesTrans(a[1..], b[1..], c[1..]);
      }
    }
  }

  /** Deleting a whitespace gap between two pieces. */
  lemma ErasesGap(a: string, w: string, b: string)
    requires AllIn(w, Space)
    ensures ErasesSpace(a + w + b, a + b)
  {
    ErasesRefl(a);
    ErasesRefl(b);
    ErasesAllSpace(w);
    ErasesConcat(a, a, w, []);
    assert a + [] == a;
    ErasesConcat(a + w, a, b, b);
  }

  /** Deletion never lengthens. */
  lemma {:induction false} ErasesLength(s: string, t: string)
    requires ErasesSpace(s, t)
    ensures |t| <= |s|
    decreases |s|
  {
    if |s| > 0 {
      if IsSpace(s[0]) && ErasesSpace(s[1..], t) {
        ErasesLength(s[1..], t);
      } else {
        ErasesLength(s[1..], t[1..]);
      }
    }
  }

  /** A deletion that keeps the length deletes nothing. */
  lemma {:induction false} ErasesSameLength(s: string, t: string)
    requires ErasesSpace(s, t) && |t| == |s|
    ensures t == s
    decreases |s|
  {
    if |s| > 0 {
      if IsSpace(s[0]) && ErasesSpace(s[1..], t) {
        ErasesLength(s[1..], t);
        assert false;
      } else {
        ErasesSameLength(s[1..], t[1..]);
        assert t == [t[0]] + t[1..];
        assert s == [s[0]] + s[1..];
      }
    }
  }

  /** The non-whitespace characters, in order, are exactly those of the original. */
  lemma {:induction false} ErasesKeepsNonSpace(s: string, t: string)
    requires ErasesSpace(s, t)
    ensures Strip(t) == Strip(s)
    decreases |s|
  {
    if |s| > 0 {
      if IsSpace(s[0]) && ErasesSpace(s[1..], t) {
        ErasesKeepsNonSpace(s[1..], t);
      } else {
        ErasesKeepsNonSpace(s[1..], t[1..]);
      }
    }
  }

  /** Deleting every whitespace character is one such deletion. */
  lemma {:induction false} ErasesToStrip(s: string)
    ensures ErasesSpace(s, Strip(s))
    decreases |s|
  {
    if |s| > 0 {
      ErasesToStrip(s[1..]);
      if !IsSpace(s[0]) {
        assert ([s[0]] + Strip(s[1..]))[1..] == Strip(s[1..]);
      }
    }
  }

  /** A whitespace-free deletion of `s` can only be `Strip(s)`. */
  lemma StripIsOnlySpaceFreeErasure(s: string, t: string)
    requires ErasesSpace(s, t)
    requires NoSpace(t)
    ensures t == Strip(s)
  {
    ErasesKeepsNonSpace(s, t);
    StripNoSpace(t);
  }

  lemma {:induction false} StripNoSpace(t: string)
    requires NoSpace(t)
    ensures Strip(t) == t
    decreases |t|
  {
    if |t| > 0 {
      assert !IsSpace(t[0]);
      assert NoSpace(t[1..]) by {
        assert forall n :: 0 <= n < |t[1..]| ==> t[1..][n] == t[n + 1];
      }
      StripNoSpace(t[1..]);
      assert t == [t[0]] + t[1..];
    }
  }

  /** Text without whitespace admits no deletion but itself. */
  lemma ErasesFromNoSpace(s: string, t: string)
    requires NoSpace(s) && ErasesSpace(s, t)
    ensures t == s
  {
    ErasesKeepsNonSpace(s, t);
    StripNoSpace(s);
    ErasesLength(s, t);
    ErasesLength(t, Strip(t));
    ErasesToStrip(t);
    ErasesSameLength(t, Strip(t));
  }
}
