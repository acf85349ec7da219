/**
  The repairs the script's comments describe, worked on concrete text, and
  the inputs they promise to leave alone.
 */
module RepairExamples {
  import opened Chars
  import opened SpaceErasure
  import opened Scan
  import opened Patterns
  import opened StrReplace
  import opened MenuRepair

  /** `</ div>` becomes `</div>`. */
  lemma CloseTagExample()
    ensures Sub(CloseTag, "</ div>") == "</div>"
  {
    CloseTagPieces(" ", "div");
    CloseTagWhole(" ", "div");
  }

  lemma CloseTagPieces(w: string, name: string)
    requires w == " " && name == "div"
    ensures |w| > 0 && AllIn(w, Space) && |name| > 0 && AllIn(name, Alnum)
    ensures "</" + w + name + ">" == "</ div>" && "</" + name + ">" == "</div>"
  {
  }

  /** A tag name with a hyphen is not a closing-tag match: `</ my-div>` is left alone. */
  lemma CloseTagHyphenatedUntouched()
    ensures Sub(CloseTag, "</ my-div>") == "</ my-div>"
  {
    HyphenatedTagNoMatch("</ my-div>");
    PassUnchangedIff(CloseTag, "</ my-div>");
  }

  lemma HyphenatedTagNoMatch(s: string)
    requires s == "</ my-div>"
    ensures forall i: nat :: i < |s| ==> MatchAt(CloseTag, s, i).NoMatch?
  {
    HyphenStopsTagName(s);
    forall i: nat | 0 < i < |s|
      ensures MatchAt(CloseTag, s, i).NoMatch?
    {
      assert s[i] != '<';
    }
  }

  /** The name run in `</ my-div>` stops at the hyphen, which is not `>`. */
  lemma HyphenStopsTagName(s: string)
    requires s == "</ my-div>"
    ensures MatchCloseTag(s, 0).NoMatch?
  {
    assert AllIn(s[2..3], Space) && AllIn(s[3..5], Alnum);
    RunEndUnique(s, 2, 3, Space);
    RunEndUnique(s, 3, 5, Alnum);
  }

  /** `< div` becomes `<div`. */
  lemma OpenTagExample()
    ensures Sub(OpenTag, "< div") == "<div"
  {
    OpenTagPieces(" ", "div");
    OpenTagWhole(" ", "div");
  }

  lemma OpenTagPieces(w: string, name: string)
    requires w == " " && name == "div"
    ensures |w| > 0 && AllIn(w, Space) && |name| > 0 && AllIn(name, Alnum)
    ensures "<" + w + name == "< div" && "<" + name == "<div"
  {
  }

  /** `data - order=` becomes `data-order=`. */
  lemma HyphenAttrExample()
    ensures Sub(HyphenAttr, "data - order=") == "data-order="
  {
    HyphenAttrPieces("data", "order");
    HyphenAttrWhole("data", ' ', ' ', "order");
  }

  lemma HyphenAttrPieces(a: string, b: string)
    requires a == "data" && b == "order"
    ensures |a| > 0 && AllIn(a, Alnum) && |b| > 0 && AllIn(b, Alnum)
    ensures a + [' '] + "-" + [' '] + b + "=" == "data - order="
    ensures a + "-" + b + "=" == "data-order="
  {
  }

  /** Without the `=` the hyphenated-attribute pass does not apply: `data - order` is left alone. */
  lemma HyphenAttrNeedsEquals()
    ensures Sub(HyphenAttr, "data - order") == "data - order"
  {
    PassNeedsMarker(HyphenAttr, "data - order");
  }

  /** `style = "` becomes `style="`. */
  lemma EqualsAttrExample()
    ensures Sub(EqualsAttr, "style = \"") == "style=\""
  {
    EqualsAttrPieces("style");
    EqualsAttrWhole("style", ' ', ' ');
  }

  lemma EqualsAttrPieces(name: string)
    requires name == "style"
    ensures |name| > 0 && AllIn(name, AlnumOrHyphen) && IsWordChar(name[0])
    ensures name + [' '] + "=" + [' '] + "\"" == "style = \""
    ensures name + "=\"" == "style=\""
  {
  }

  /** `box - shadow` becomes `box-shadow`: the pass for `box` joins it, and the fourteen passes after it find nothing. */
  lemma KnownPropExample()
    ensures Sub(KnownProp("box"), "box - shadow") == "box-shadow"
    ensures FixKnownProps("box - shadow", KnownCssProps) == "box-shadow"
  {
    KnownPropPieces("box", "shadow");
    KnownPropWhole("box", ' ', ' ', "shadow");
    KnownPropsAfterFirst("box - shadow", "box-shadow", KnownCssProps);
  }

  lemma KnownPropPieces(prop: string, word: string)
    requires prop == "box" && word == "shadow"
    ensures |prop| > 0 && IsWordChar(prop[0]) && |word| > 0 && AllIn(word, LetterOrHyphen)
    ensures prop + [' '] + "-" + [' '] + word == "box - shadow"
    ensures prop + "-" + word == "box-shadow"
    ensures NoSpace(prop + "-" + word)
  {
  }

  /** When the first property pass leaves text without whitespace, the later passes keep it. */
  lemma KnownPropsAfterFirst(s: string, r: string, props: seq<string>)
    requires |props| > 0 && Sub(KnownProp(props[0]), s) == r && NoSpace(r)
    ensures FixKnownProps(s, props) == r
  {
    var rest := props[1..];
    forall n | 0 <= n < |rest|
      ensures Sub(KnownProp(rest[n]), r) == r
    {
      PassKeepsSpaceFree(KnownProp(rest[n]), r);
    }
    FixKnownPropsUnchanged(r, rest);
  }

  /**
    The other side of the ASCII `\b`: Python's `\b` sees a boundary between
    `é` and `-`, so it would join `é- = "` to `é-="`; here `é` is no word
    character, no boundary stands there, and the text is left as it is.
   */
  lemma NonAsciiBeforeHyphen()
    ensures Sub(EqualsAttr, "é- = \"") == "é- = \""
  {
    NonAsciiEqualsUntouched("é- = \"");
  }

  lemma NonAsciiEqualsUntouched(s: string)
    requires s == "é- = \""
    ensures Sub(EqualsAttr, s) == s
  {
    forall i: nat | i < |s|
      ensures MatchAt(EqualsAttr, s, i).NoMatch?
    {
      if MatchEqualsAttr(s, i).Matched? {
        var j := EqualsAttrParse(s, i);
      }
    }
    PassUnchangedIff(EqualsAttr, s);
  }

  /** `Free - For:` is not a known CSS property, so the known-property step leaves it alone. */
  lemma FreeForUntouched()
    ensures FixKnownProps("Free - For:", KnownCssProps) == "Free - For:"
  {
    PropsAbsentFromFreeFor("Free - For:");
    FixKnownPropsAbsent("Free - For:", KnownCssProps);
  }

  lemma PropsAbsentFromFreeFor(s: string)
    requires s == "Free - For:"
    ensures forall n :: 0 <= n < |KnownCssProps| ==> Absent(s, KnownCssProps[n])
  {
    forall n | 0 <= n < |KnownCssProps|
      ensures Absent(s, KnownCssProps[n])
    {
      if KnownCssProps[n] == "overflow" {
        AbsentWhenMissingChar(s, KnownCssProps[n], 'v');
      } else {
        AbsentWhenMissingChar(s, KnownCssProps[n], KnownCssProps[n][0]);
      }
    }
  }

  /** The entry matches the whole text, and what it leaves has no whitespace for later entries to act on. */
  lemma WholeEntryThenSettled(s: string, fixes: seq<Fix>)
    requires |fixes| > 0 && AllWellFormed(fixes)
    requires s == Broken(fixes[0]) && NoSpace(Fixed(fixes[0]))
    ensures ApplyFixes(s, fixes) == Fixed(fixes[0])
  {
    var x := fixes[0];
    FixErases(x);
    ReplaceWhole(Broken(x), Fixed(x));
    assert AllWellFormed(fixes[1..]);
    assert ApplyFixes(s, fixes) == ApplyFixes(Fixed(x), fixes[1..]);
    ApplyFixesKeepsSpaceFree(Fixed(x), fixes[1..]);
  }

  /** `.mp-mode - btn` becomes `.mp-mode-btn` (line 62). */
  lemma SelectorExample()
    ensures ApplyFixes(".mp-mode - btn", SelectorFixes) == ".mp-mode-btn"
  {
    TablesWellFormed();
    assert SelectorFixes[0] == Rehyphenate([".mp-mode", "btn"]);
    assert Broken(SelectorFixes[0]) == ".mp-mode - btn" by {
      assert Join([".mp-mode", "btn"], " - ") == ".mp-mode" + " - " + "btn";
    }
    assert Fixed(SelectorFixes[0]) == ".mp-mode-btn" by {
      assert Join([".mp-mode", "btn"], "-") == ".mp-mode" + "-" + "btn";
    }
    assert NoSpace(".mp-mode-btn");
    WholeEntryThenSettled(".mp-mode - btn", SelectorFixes);
  }

  /** `#mp-join - room - modal` becomes `#mp-join-room-modal` (line 63). */
  lemma DoubleSelectorExample()
    ensures ApplyFixes("#mp-join - room - modal", SelectorFixes) == "#mp-join-room-modal"
  {
    var s := "#mp-join - room - modal";
    TablesWellFormed();
    SelectorHeadFacts();
    SkipAbsentEntry(s, SelectorFixes);
    WholeEntryThenSettled(s, SelectorFixes[1..]);
  }

  /** The first selector entry does not occur in `#mp-join - room - modal`; the second is all of it. */
  lemma SelectorHeadFacts()
    ensures |SelectorFixes| > 1
    ensures Absent("#mp-join - room - modal", Broken(SelectorFixes[0]))
    ensures Broken(SelectorFixes[1]) == "#mp-join - room - modal"
    ensures Fixed(SelectorFixes[1]) == "#mp-join-room-modal"
    ensures NoSpace(Fixed(SelectorFixes[1]))
  {
    SelectorHead();
    FirstSelectorAbsent("#mp-join - room - modal", SelectorFixes[0]);
    SecondSelectorEntry(SelectorFixes[1]);
  }

  /** The first two selector entries (lines 62-63). */
  lemma SelectorHead()
    ensures |SelectorFixes| > 1
    ensures SelectorFixes[0] == Rehyphenate([".mp-mode", "btn"])
    ensures SelectorFixes[1] == Rehyphenate(["#mp-join", "room", "modal"])
  {
    assert SelectorFixes[..|MultiplayerFixes|] == MultiplayerFixes;
  }

  lemma FirstSelectorAbsent(s: string, x: Fix)
    requires s == "#mp-join - room - modal" && x == Rehyphenate([".mp-mode", "btn"])
    ensures Absent(s, Broken(x))
  {
    assert Lead(x) == ".mp-mode";
    AbsentByLead(s, x, '.');
  }

  lemma SecondSelectorEntry(x: Fix)
    requires x == Rehyphenate(["#mp-join", "room", "modal"])
    ensures Broken(x) == "#mp-join - room - modal"
    ensures Fixed(x) == "#mp-join-room-modal"
    ensures NoSpace(Fixed(x))
  {
    JoinThree("#mp-join", "room", "modal", " - ");
    JoinThree("#mp-join", "room", "modal", "-");
    assert "#mp-join" + " - " + "room" + " - " + "modal" == "#mp-join - room - modal";
    assert "#mp-join" + "-" + "room" + "-" + "modal" == "#mp-join-room-modal";
    assert NoSpace("#mp-join-room-modal");
  }

  lemma JoinThree(a: string, b: string, c: string, sep: string)
    ensures Join([a, b, c], sep) == a + sep + b + sep + c
  {
    assert [a, b, c][1..] == [b, c];
    assert [b, c][1..] == [c];
    assert Join([b, c], sep) == b + sep + c;
    assert a + sep + (b + sep + c) == a + sep + b + sep + c;
  }

  /** `Free -for-All` becomes `Free-for-All` (line 119). */
  lemma ProseGapExample()
    ensures ApplyFixes("Free -for-All", ProseFixes) == "Free-for-All"
  {
    TablesWellFormed();
    FirstProseEntry();
    WholeEntryThenSettled("Free -for-All", ProseFixes);
  }

  lemma FirstProseEntry()
    ensures Broken(ProseFixes[0]) == "Free -for-All"
    ensures Fixed(ProseFixes[0]) == "Free-for-All"
    ensures NoSpace(Fixed(ProseFixes[0]))
  {
    assert ProseFixes[0] == CloseGap("Free", "-for-All");
    assert "Free" + " " + "-for-All" == "Free -for-All";
    assert "Free" + "-for-All" == "Free-for-All";
    assert NoSpace("Free-for-All");
  }

  /** `Co - op` becomes `Co-op` (line 120). */
  lemma ProseHyphenExample()
    ensures ApplyFixes("Co - op", ProseFixes) == "Co-op"
  {
    var s := "Co - op";
    TablesWellFormed();
    SecondProseEntry();
    SkipAbsentEntry(s, ProseFixes);
    WholeEntryThenSettled(s, ProseFixes[1..]);
  }

  lemma SecondProseEntry()
    ensures Absent("Co - op", Broken(ProseFixes[0]))
    ensures Broken(ProseFixes[1]) == "Co - op"
    ensures Fixed(ProseFixes[1]) == "Co-op"
    ensures NoSpace(Fixed(ProseFixes[1]))
  {
    AbsentByLead("Co - op", ProseFixes[0], 'F');
    assert ProseFixes[1] == Rehyphenate(["Co", "op"]);
    assert Join(["Co", "op"], " - ") == "Co" + " - " + "op";
    assert Join(["Co", "op"], "-") == "Co" + "-" + "op";
    assert NoSpace("Co-op");
  }

  /**
    Table order matters: in `mp - room - details` the entry for `room - details`
    (line 65) fires first, and the entry for `mp - room` (line 66) then finds
    `mp - room-details` and finishes the job.
   */
  lemma RoomDetailsExample()
    ensures ApplyFixes("mp - room - details", SelectorFixes[3..5]) == "mp-room-details"
  {
    TablesWellFormed();
    RoomEntries();
    ApplyTwo("mp - room - details", SelectorFixes[3], SelectorFixes[4]);
    RoomDetailsFirst("mp - room - details", "room - details", "room-details");
    MpRoomSecond("mp - room-details", "mp - room", "mp-room");
  }

  lemma RoomEntries()
    ensures |SelectorFixes| > 4
    ensures SelectorFixes[3..5] == [SelectorFixes[3], SelectorFixes[4]]
    ensures WellFormed(SelectorFixes[3]) && WellFormed(SelectorFixes[4])
    ensures Broken(SelectorFixes[3]) == "room - details" && Fixed(SelectorFixes[3]) == "room-details"
    ensures Broken(SelectorFixes[4]) == "mp - room" && Fixed(SelectorFixes[4]) == "mp-room"
  {
    assert SelectorFixes[..|MultiplayerFixes|] == MultiplayerFixes;
    TwoWordEntry(SelectorFixes[3], "room", "details");
    TwoWordEntry(SelectorFixes[4], "mp", "room");
  }

  lemma TwoWordEntry(x: Fix, a: string, b: string)
    requires x == Rehyphenate([a, b])
    ensures Broken(x) == a + " - " + b && Fixed(x) == a + "-" + b
  {
    assert [a, b][1..] == [b];
    assert Join([b], " - ") == b && Join([b], "-") == b;
  }

  /** A two-entry table is two replacements in a row. */
  lemma ApplyTwo(s: string, x: Fix, y: Fix)
    requires WellFormed(x) && WellFormed(y) && |Broken(x)| > 0 && |Broken(y)| > 0
    ensures ApplyFixes(s, [x, y]) == ReplaceAll(ReplaceAll(s, Broken(x), Fixed(x)), Broken(y), Fixed(y))
  {
    var t := ReplaceAll(s, Broken(x), Fixed(x));
    assert [x, y][1..] == [y];
    assert ApplyFixes(s, [x, y]) == ApplyFixes(t, [y]);
    assert [y][1..] == [];
    assert ApplyFixes(t, [y]) == ApplyFixes(ReplaceAll(t, Broken(y), Fixed(y)), []);
  }

  /** `pat` at the very start, followed by text too short to hold it again. */
  lemma ReplaceAtStart(pat: string, rest: string, repl: string)
    requires |rest| < |pat|
    ensures ReplaceAll(pat + rest, pat, repl) == repl + rest
  {
    var s := pat + rest;
    assert OccursAt(s, 0, pat) by { assert s[0..|pat|] == pat; }
    ReplaceLeftmost(s, pat, repl, 0);
    assert s[..0] == [] && s[|pat|..] == rest;
    ReplaceAbsent(rest, pat, repl);
  }

  lemma RoomDetailsFirst(s: string, pat: string, repl: string)
    requires s == "mp - room - details" && pat == "room - details" && repl == "room-details"
    ensures ReplaceAll(s, pat, repl) == "mp - room-details"
  {
    var pre := "mp - ";
    RoomDetailsSplit(pre, pat, repl);
    ReplaceInMiddle(pre, pat, [], repl);
    assert pre + pat + [] == s && pre + repl + [] == "mp - room-details";
  }

  lemma RoomDetailsSplit(pre: string, pat: string, repl: string)
    requires pre == "mp - " && pat == "room - details" && repl == "room-details"
    ensures |pat| > 0 && forall i :: 0 <= i < |pre| ==> pre[i] != pat[0]
    ensures pre + pat == "mp - room - details"
    ensures pre + repl == "mp - room-details"
  {
  }

  lemma MpRoomSecond(s: string, pat: string, repl: string)
    requires s == "mp - room-details" && pat == "mp - room" && repl == "mp-room"
    ensures ReplaceAll(s, pat, repl) == "mp-room-details"
  {
    assert s == pat + "-details";
    ReplaceAtStart(pat, "-details", repl);
  }
}
