/**
  Running the script twice is not the same as running it once. In
  `x - y = "` the hyphenated-attribute pass (step 3) finds nothing, because
  the `=` is still spaced; step 4 then closes the `=`, which would have let
  step 3 match, but step 3 has already run. A second run finishes the job.
 */
module RepairRerun {
  import opened Chars
  import opened SpaceErasure
  import opened Scan
  import opened Patterns
  import opened StrReplace
  import opened MenuRepair

  /** The first run repairs only the `=`; the second run then repairs the hyphen. */
  lemma RepairNotIdempotent()
    ensures Repair("x - y = \"") == "x - y=\""
    ensures Repair(Repair("x - y = \"")) == "x-y=\""
    ensures Repair(Repair("x - y = \"")) != Repair("x - y = \"")
    ensures Run("x - y = \"").changed && Run(Repair("x - y = \"")).changed
  {
    FirstRun();
    SecondRun();
  }

  lemma FirstRun()
    ensures Repair("x - y = \"") == "x - y=\""
  {
    var s1, s2 := "x - y = \"", "x - y=\"";
    NoTags(s1);
    FirstRunAttributes();
    AttributesByPasses(s1, s1, s2);
    FirstRunRest(s2);
    RepairByStages(s1, s1, s2, s2, s2);
  }

  /** Text without `<` passes the tag steps unchanged. */
  lemma NoTags(s: string)
    requires '<' !in s
    ensures FixTags(s) == s
  {
    PassNeedsMarker(CloseTag, s);
    PassNeedsMarker(OpenTag, s);
  }

  /** Neither the known properties nor the tables occur in `x - y="`. */
  lemma FirstRunRest(s: string)
    requires s == "x - y=\""
    ensures FixKnownProps(s, KnownCssProps) == s
    ensures FixLiterals(s) == s
  {
    PropsAbsent(s);
    FixKnownPropsAbsent(s, KnownCssProps);
    NoTableLeads(s);
    LiteralsNeedLead(s);
  }

  /** Step 3 finds nothing in `x - y = "`; step 4 rewrites `y = "` to `y="`. */
  lemma FirstRunAttributes()
    ensures Sub(HyphenAttr, "x - y = \"") == "x - y = \""
    ensures Sub(EqualsAttr, "x - y = \"") == "x - y=\""
  {
    var s := "x - y = \"";
    HyphenWaitsForEquals(s);
    PassUnchangedIff(HyphenAttr, s);
    FirstRunEquals(s);
  }

  lemma FirstRunEquals(s: string)
    requires s == "x - y = \""
    ensures Sub(EqualsAttr, s) == "x - y=\""
  {
    EqualsAtFour(s);
    PassSingleMatch(EqualsAttr, s, 4);
    assert s[..4] == "x - ";
  }

  /** The hyphen in `x - y = "` is not followed by `=` directly, so step 3 matches nowhere. */
  lemma HyphenWaitsForEquals(s: string)
    requires s == "x - y = \""
    ensures forall i: nat :: i < |s| ==> MatchAt(HyphenAttr, s, i).NoMatch?
  {
    forall i: nat | i < |s|
      ensures MatchAt(HyphenAttr, s, i).NoMatch?
    {
      if MatchHyphenAttr(s, i).Matched? {
        var j, k := HyphenAttrParse(s, i);
      }
    }
  }

  /** Step 4 matches `y = "` at position 4 and nowhere else. */
  lemma EqualsAtFour(s: string)
    requires s == "x - y = \""
    ensures MatchAt(EqualsAttr, s, 4) == Matched(9, "y=\"")
    ensures forall i: nat :: i < 4 ==> MatchAt(EqualsAttr, s, i).NoMatch?
  {
    assert AllIn(s[4..5], AlnumOrHyphen);
    EqualsAttrFound(s, 4, 5);
    assert s[4..5] == "y";
    forall i: nat | i < 4
      ensures MatchAt(EqualsAttr, s, i).NoMatch?
    {
      if MatchEqualsAttr(s, i).Matched? {
        var j := EqualsAttrParse(s, i);
      }
    }
  }

  lemma NoTableLeads(s: string)
    requires s == "x - y=\""
    ensures forall c :: c in TableLeads ==> c !in s
  {
  }

  lemma SecondRun()
    ensures Repair("x - y=\"") == "x-y=\""
  {
    var s2, s3 := "x - y=\"", "x-y=\"";
    NoTags(s2);
    SecondRunHyphen(s2);
    SettledAfterHyphen(s3);
    AttributesByPasses(s2, s3, s3);
    RepairByStages(s2, s2, s3, s3, s3);
  }

  /** `x-y="` has no whitespace left, so every later step leaves it alone. */
  lemma SettledAfterHyphen(s: string)
    requires s == "x-y=\""
    ensures Sub(EqualsAttr, s) == s
    ensures FixKnownProps(s, KnownCssProps) == s
    ensures FixLiterals(s) == s
  {
    assert NoSpace(s);
    PassKeepsSpaceFree(EqualsAttr, s);
    ErasesFromNoSpace(s, FixKnownProps(s, KnownCssProps));
    ErasesFromNoSpace(s, FixLiterals(s));
  }

  /** Once the `=` is closed, step 3 rewrites `x - y=` to `x-y=`. */
  lemma SecondRunHyphen(s: string)
    requires s == "x - y=\""
    ensures Sub(HyphenAttr, s) == "x-y=\""
  {
    HyphenAtZero(s);
    PassSingleMatch(HyphenAttr, s, 0);
    assert s[..0] + "x-y=" + s[6..] == "x-y=\"";
  }

  lemma HyphenAtZero(s: string)
    requires s == "x - y=\""
    ensures MatchAt(HyphenAttr, s, 0) == Matched(6, "x-y=")
    ensures MatchAt(HyphenAttr, s, 6).NoMatch?
  {
    assert AllIn(s[0..1], Alnum) && AllIn(s[4..5], Alnum);
    HyphenAttrFound(s, 0, 1, 5);
    assert s[0..1] == "x" && s[4..5] == "y";
  }

  /** No known property prefix starts with a character of `x - y="`. */
  lemma PropsAbsent(s: string)
    requires s == "x - y=\""
    ensures forall n :: 0 <= n < |KnownCssProps| ==> Absent(s, KnownCssProps[n])
  {
    forall n | 0 <= n < |KnownCssProps|
      ensures Absent(s, KnownCssProps[n])
    {
      AbsentWhenMissingChar(s, KnownCssProps[n], KnownCssProps[n][0]);
    }
  }
}
