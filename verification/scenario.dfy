/**
  One corrupted line of the menu, run through the whole script:

    <div class="mp - room - details"> text </ div>
    <div class="mp-room-details"> text </div>

  Step 1 closes the `</ div>` tag. Steps 2 to 5 find nothing to do. In the
  selector table, the entry for `room - details` (line 65) fires first, and
  the entry for `mp - room` (line 66) then finds `mp - room-details`.

  The lines are written as an opening, a class name, a text and a closing
  tag joined by `+`. Facts about single characters of one 45-character
  literal are costly for the solver, while the same facts about short pieces
  are cheap; so the small lemmas below (`CorruptedPieces`, `LineSlashFree`,
  `LineNoLeads`, ...) only restate a literal in pieces or read off its
  characters, and the generic lemmas they feed carry the argument.
 */
module RepairScenario {
  import opened Chars
  import opened SpaceErasure
  import opened Scan
  import opened Patterns
  import opened StrReplace
  import opened MenuRepair
  import opened RepairExamples

  /** The corrupted class name, through the whole selector table. */
  lemma RoomDetailsThroughSelectors()
    ensures ApplyFixes("mp - room - details", SelectorFixes) == "mp-room-details"
  {
    TablesWellFormed();
    RoomDetailsChain("mp - room - details", "mp-room-details", SelectorFixes);
  }

  lemma RoomDetailsChain(s: string, r: string, fixes: seq<Fix>)
    requires s == "mp - room - details" && r == "mp-room-details" && fixes == SelectorFixes
    ensures AllWellFormed(fixes) && ApplyFixes(s, fixes) == r
  {
    var head, mid, tail := SelectorSplit();
    RoomDetailsNoLeads(s);
    HeadMissing(s, head);
    RoomDetailsExample();
    RoomDetailsSettled(r);
    ApplyFixesKeepsSpaceFree(r, tail);
    ThroughThreeParts(s, r, r, head, mid, tail);
  }

  lemma RoomDetailsSettled(r: string)
    requires r == "mp-room-details"
    ensures NoSpace(r)
  {
  }

  lemma RoomDetailsNoLeads(s: string)
    requires s == "mp - room - details"
    ensures forall i :: 0 <= i < |s| ==> s[i] != '.' && s[i] != '#'
  {
  }

  /** A table in three parts, where the first part changes nothing. */
  lemma ThroughThreeParts(s: string, t: string, r: string, head: seq<Fix>, mid: seq<Fix>, tail: seq<Fix>)
    requires AllWellFormed(head) && AllWellFormed(mid) && AllWellFormed(tail)
    requires ApplyFixes(s, head) == s && ApplyFixes(s, mid) == t && ApplyFixes(t, tail) == r
    ensures AllWellFormed(head + mid + tail)
    ensures ApplyFixes(s, head + mid + tail) == r
  {
    ApplyFixesConcat(s, head, mid);
    ApplyFixesConcat(s, head + mid, tail);
  }

  /** The selector table as the three entries before line 65, lines 65-66, and the rest. */
  lemma SelectorSplit() returns (head: seq<Fix>, mid: seq<Fix>, tail: seq<Fix>)
    ensures SelectorFixes == head + mid + tail
    ensures head == SelectorFixes[..3] && mid == SelectorFixes[3..5] && tail == SelectorFixes[5..]
    ensures AllWellFormed(head) && AllWellFormed(mid) && AllWellFormed(tail)
    ensures LeadsIn(head, {'.', '#'})
  {
    TablesWellFormed();
    RoomEntries();
    head, mid, tail := SelectorFixes[..3], SelectorFixes[3..5], SelectorFixes[5..];
    assert SelectorFixes == head + mid + tail;
    assert SelectorFixes[..|MultiplayerFixes|] == MultiplayerFixes;
    assert head == MultiplayerFixes[..3];
  }

  /** The first three selector entries start with `.` or `#`, which `s` lacks. */
  lemma HeadMissing(s: string, head: seq<Fix>)
    requires AllWellFormed(head) && LeadsIn(head, {'.', '#'})
    requires forall i :: 0 <= i < |s| ==> s[i] != '.' && s[i] != '#'
    ensures ApplyFixes(s, head) == s
  {
    ApplyFixesMissingLeads(s, head, {'.', '#'});
  }

  /** The whole script on the corrupted line: only the tag and the class name change, and the file is written. */
  lemma RoomDetailsLine()
    ensures Repair("<div class=\"mp - room - details\"> text </ div>") == "<div class=\"mp-room-details\"> text </div>"
    ensures Run("<div class=\"mp - room - details\"> text </ div>").changed
  {
    var s0, s1, r := "<div class=\"mp - room - details\"> text </ div>", "<div class=\"mp - room - details\"> text </div>", "<div class=\"mp-room-details\"> text </div>";
    CorruptedPieces(s0);
    ClosedPieces(s1);
    RepairedPieces(r);
    LineChain(s0, s1, r);
  }

  // The lines of the scenario, each as its opening, class name, text and closing tag.

  lemma CorruptedPieces(s: string)
    requires s == "<div class=\"mp - room - details\"> text </ div>"
    ensures s == "<div class=\"" + "mp - room - details" + "\"> text " + "</ div>"
  {
  }

  lemma ClosedPieces(s: string)
    requires s == "<div class=\"mp - room - details\"> text </div>"
    ensures s == "<div class=\"" + "mp - room - details" + "\"> text " + "</div>"
  {
  }

  lemma RepairedPieces(s: string)
    requires s == "<div class=\"mp-room-details\"> text </div>"
    ensures s == "<div class=\"" + "mp-room-details" + "\"> text " + "</div>"
  {
  }

  lemma LineChain(s0: string, s1: string, r: string)
    requires s0 == "<div class=\"" + "mp - room - details" + "\"> text " + "</ div>"
    requires s1 == "<div class=\"" + "mp - room - details" + "\"> text " + "</div>"
    requires r == "<div class=\"" + "mp-room-details" + "\"> text " + "</div>"
    ensures Repair(s0) == r && r != s0
  {
    LineCloseTag("<div class=\"" + "mp - room - details" + "\"> text ", s0, s1);
    LineNoOpenTag(s1);
    OpenTagNeedsSpace(s1);
    TagsByPasses(s0, s1, s1);
    LineNoHyphenAttr(s1);
    HyphenAttrNeedsHyphenFirst(s1, 11);
    LineNoEqualsAttr(s1);
    EqualsAttrNeedsSpace(s1);
    AttributesByPasses(s1, s1, s1);
    LinePropsUnchanged(s1);
    LineLiterals(s1, r);
    RepairByStages(s0, s1, s1, s1, r);
    assert |r| < |s0|;
  }

  /** Step 1 matches only the `</ div>` that ends the line. */
  lemma LineCloseTag(q: string, s0: string, s1: string)
    requires q == "<div class=\"" + "mp - room - details" + "\"> text "
    requires s0 == q + "</ div>" && s1 == q + "</div>"
    ensures Sub(CloseTag, s0) == s1
  {
    LineSlashFree(q);
    CloseTagLast(q, "</ div>");
    CloseTagNeedsSlash(s0, |q|);
    PassSingleMatch(CloseTag, s0, |q|);
    assert s0[..|q|] == q && s0[|q| + 7..] == [];
  }

  lemma LineSlashFree(q: string)
    requires q == "<div class=\"" + "mp - room - details" + "\"> text "
    ensures '/' !in q
  {
  }

  /** `</ div>` after text without `/` is matched where it starts, and nothing before it can start a closing tag. */
  lemma CloseTagLast(q: string, w: string)
    requires w == "</ div>" && '/' !in q
    ensures MatchAt(CloseTag, q + w, |q|) == Matched(|q| + 7, "</div>")
    ensures forall n :: 1 <= n <= |q| ==> (q + w)[n] != '/'
  {
    var s, i := q + w, |q|;
    assert s[i..i + 2] == "</";
    assert AllIn(s[i + 2..i + 3], Space) && AllIn(s[i + 3..i + 6], Alnum) && s[i + 6] == '>';
    CloseTagFound(s, i, i + 3, i + 6);
    assert s[i + 3..i + 6] == "div";
    forall n | 1 <= n <= |q|
      ensures s[n] != '/'
    {
      if n < |q| {
        assert s[n] == q[n];
      }
    }
  }

  /** Step 2 finds no `<` followed by whitespace. */
  lemma LineNoOpenTag(s: string)
    requires s == "<div class=\"" + "mp - room - details" + "\"> text " + "</div>"
    ensures NoSpaceAfter(s, '<')
  {
    var a, m, e, c := "<div class=\"", "mp - room - details", "\"> text ", "</div>";
    NoSpaceAfterConcat(a, m, '<');
    NoSpaceAfterConcat(a + m, e, '<');
    NoSpaceAfterConcat(a + m + e, c, '<');
  }

  /** Step 3: the only `=` comes before every `-`. */
  lemma LineNoHyphenAttr(s: string)
    requires s == "<div class=\"" + "mp - room - details" + "\"> text " + "</div>"
    ensures forall n :: 0 <= n < 11 && n < |s| ==> s[n] != '-'
    ensures forall n :: 11 <= n < |s| ==> s[n] != '='
  {
  }

  /** Step 4: the only `=` has no whitespace in front of it. */
  lemma LineNoEqualsAttr(s: string)
    requires s == "<div class=\"" + "mp - room - details" + "\"> text " + "</div>"
    ensures NoSpaceBefore(s, '=')
  {
    var a, m, e, c := "<div class=\"", "mp - room - details", "\"> text ", "</div>";
    NoSpaceBeforeConcat(a, m, '=');
    NoSpaceBeforeConcat(a + m, e, '=');
    NoSpaceBeforeConcat(a + m + e, c, '=');
  }

  /** Step 5: `text` is the only property prefix in the line, and it is not followed by ` - `. */
  lemma LinePropsUnchanged(s: string)
    requires s == "<div class=\"" + "mp - room - details" + "\"> text " + "</div>"
    ensures FixKnownProps(s, KnownCssProps) == s
  {
    forall n | 0 <= n < |KnownCssProps|
      ensures Sub(KnownProp(KnownCssProps[n]), s) == s
    {
      var prop := KnownCssProps[n];
      if prop == "text" {
        LineTextBeforeHyphens(s, prop);
        KnownPropNeedsPrefixBeforeHyphen(prop, s);
      } else {
        PropMissingChar(s, prop);
        KnownPropPassAbsent(prop, s);
      }
    }
    FixKnownPropsUnchanged(s, KnownCssProps);
  }

  lemma LineTextBeforeHyphens(s: string, prop: string)
    requires s == "<div class=\"" + "mp - room - details" + "\"> text " + "</div>" && prop == "text"
    ensures |prop| > 0
    ensures forall n :: |prop| + 1 <= n < |s| && s[n] == '-' ==> s[n - |prop| - 1] != prop[0]
  {
  }

  /** Every other property prefix has a character the line lacks. */
  lemma PropMissingChar(s: string, prop: string)
    requires s == "<div class=\"" + "mp - room - details" + "\"> text " + "</div>"
    requires prop in KnownCssProps && prop != "text"
    ensures Absent(s, prop)
  {
    var c :=
      if prop in {"pointer", "line"} then 'n'
      else if prop in {"margin", "padding", "align"} then 'g'
      else if prop == "overflow" then 'f'
      else prop[0];
    LineLacks(s, c);
    AbsentWhenMissingChar(s, prop, c);
  }

  lemma LineLacks(s: string, c: char)
    requires s == "<div class=\"" + "mp - room - details" + "\"> text " + "</div>"
    requires c == 'b' || c == 'f' || c == 'g' || c == 'j' || c == 'n' || c == 'z'
    ensures c !in s
  {
    MissingFromPieces(c, "<div class=\"", "mp - room - details", "\"> text ", "</div>");
  }

  lemma MissingFromPieces(c: char, a: string, m: string, e: string, d: string)
    requires forall i :: 0 <= i < |a| ==> a[i] != c
    requires forall i :: 0 <= i < |m| ==> m[i] != c
    requires forall i :: 0 <= i < |e| ==> e[i] != c
    requires forall i :: 0 <= i < |d| ==> d[i] != c
    ensures c !in a + m + e + d
  {
  }

  /** Step 6: lines 65 and 66 rejoin the class name; no other entry applies. */
  lemma LineLiterals(s: string, r: string)
    requires s == "<div class=\"" + "mp - room - details" + "\"> text " + "</div>"
    requires r == "<div class=\"" + "mp-room-details" + "\"> text " + "</div>"
    ensures FixLiterals(s) == r
  {
    var head, mid, tail := SelectorSplit();
    LineNoLeads(s);
    HeadMissing(s, head);
    LineRoomEntries(s, r, mid);
    LineSettled(r);
    TablesGapBeforeHyphen();
    assert AllGapBeforeHyphen(tail) by {
      assert forall n :: 0 <= n < |tail| ==> tail[n] == SelectorFixes[n + 5];
    }
    ApplyFixesNeedSpacedHyphen(r, tail);
    ThroughThreeParts(s, r, r, head, mid, tail);
    TablesWellFormed();
    ApplyFixesNeedSpacedHyphen(r, ProseFixes);
    LiteralsByTables(s, r, r);
  }

  lemma LineNoLeads(s: string)
    requires s == "<div class=\"" + "mp - room - details" + "\"> text " + "</div>"
    ensures forall i :: 0 <= i < |s| ==> s[i] != '.' && s[i] != '#'
  {
  }

  /** The entries of lines 65 and 66 on the line. */
  lemma LineRoomEntries(s: string, r: string, mid: seq<Fix>)
    requires s == "<div class=\"" + "mp - room - details" + "\"> text " + "</div>"
    requires r == "<div class=\"" + "mp-room-details" + "\"> text " + "</div>"
    requires mid == SelectorFixes[3..5]
    ensures AllWellFormed(mid) && ApplyFixes(s, mid) == r
  {
    RoomEntries();
    var x, y := SelectorFixes[3], SelectorFixes[4];
    ApplyTwo(s, x, y);
    var t := "<div class=\"" + "mp - room-details" + "\"> text " + "</div>";
    LineRoomDetails(s, t, Broken(x), Fixed(x));
    LineMpRoom(t, r, Broken(y), Fixed(y));
  }

  /** Line 65 on the line; kept apart from line 66 so that each proof holds only one line's literals. */
  lemma LineRoomDetails(s: string, t: string, pat: string, repl: string)
    requires s == "<div class=\"" + "mp - room - details" + "\"> text " + "</div>"
    requires t == "<div class=\"" + "mp - room-details" + "\"> text " + "</div>"
    requires pat == "room - details" && repl == "room-details"
    ensures ReplaceAll(s, pat, repl) == t
  {
    ClassNameSplits();
    ReplaceInClassName("<div class=\"", "mp - room - details", "\"> text ", "</div>", "mp - ", pat, "", repl, 'r');
  }

  /** Line 66 on the result of line 65. */
  lemma LineMpRoom(t: string, r: string, pat: string, repl: string)
    requires t == "<div class=\"" + "mp - room-details" + "\"> text " + "</div>"
    requires r == "<div class=\"" + "mp-room-details" + "\"> text " + "</div>"
    requires pat == "mp - room" && repl == "mp-room"
    ensures ReplaceAll(t, pat, repl) == r
  {
    ClassNameSplits();
    ReplaceInClassName("<div class=\"", "mp - room-details", "\"> text ", "</div>", "", pat, "-details", repl, 'm');
  }

  /** Where the class names split around the selectors of lines 65 and 66. */
  lemma ClassNameSplits()
    ensures "mp - room - details" == "mp - " + "room - details"
    ensures "mp - room-details" == "mp - " + "room-details"
    ensures "mp - room-details" == "mp - room" + "-details"
    ensures "mp-room-details" == "mp-room" + "-details"
  {
  }

  /** The repaired line has no space in front of a hyphen. */
  lemma LineSettled(r: string)
    requires r == "<div class=\"" + "mp-room-details" + "\"> text " + "</div>"
    ensures Absent(r, " -")
  {
    var a, m, e, c := "<div class=\"", "mp-room-details", "\"> text ", "</div>";
    NoSpaceBeforeConcat(a, m, '-');
    NoSpaceBeforeConcat(a + m, e, '-');
    NoSpaceBeforeConcat(a + m + e, c, '-');
    NoSpaceBeforeHyphen(r);
  }

  /**
    A replacement inside the class name of a line: `pat` occurs in the class
    name after `b`, and neither before it nor after it, where `ch` is missing.
   */
  lemma ReplaceInClassName(a: string, m: string, e: string, c: string, b: string, pat: string, tail: string, repl: string, ch: char)
    requires m == b + pat + tail
    requires |pat| > 0 && pat[0] !in a && pat[0] !in b
    requires ch in pat && ch !in tail && ch !in e && ch !in c
    ensures ReplaceAll(a + m + e + c, pat, repl) == a + (b + repl + tail) + e + c
  {
    var pre, post := a + b, tail + e + c;
    forall i | 0 <= i < |pre|
      ensures pre[i] != pat[0]
    {
      if i < |a| {
        assert pre[i] == a[i];
      } else {
        assert pre[i] == b[i - |a|];
      }
    }
    AbsentWhenMissingChar(post, pat, ch);
    ReplaceInMiddle(pre, pat, post, repl);
    assert a + m + e + c == pre + pat + post;
    assert a + (b + repl + tail) + e + c == pre + repl + post;
  }

  /** No whitespace directly follows a `c`. */
  predicate NoSpaceAfter(s: string, c: char) {
    forall n :: 0 <= n < |s| - 1 && s[n] == c ==> !IsSpace(s[n + 1])
  }

  /** No whitespace directly precedes a `c`. */
  predicate NoSpaceBefore(s: string, c: char) {
    forall n :: 0 < n < |s| && s[n] == c ==> !IsSpace(s[n - 1])
  }

  /** Two texts without whitespace after a `c` stay so when joined, unless the seam puts one there. */
  lemma NoSpaceAfterConcat(a: string, b: string, c: char)
    requires NoSpaceAfter(a, c) && NoSpaceAfter(b, c)
    requires |a| == 0 || |b| == 0 || a[|a| - 1] != c || !IsSpace(b[0])
    ensures NoSpaceAfter(a + b, c)
  {
    var s := a + b;
    forall n | 0 <= n < |s| - 1 && s[n] == c
      ensures !IsSpace(s[n + 1])
    {
      if n + 1 < |a| {
        assert s[n] == a[n] && s[n + 1] == a[n + 1];
      } else if n < |a| {
        assert s[n] == a[|a| - 1] && s[n + 1] == b[0];
      } else {
        assert s[n] == b[n - |a|] && s[n + 1] == b[n - |a| + 1];
      }
    }
  }

  /** Two texts without whitespace before a `c` stay so when joined, unless the seam puts one there. */
  lemma NoSpaceBeforeConcat(a: string, b: string, c: char)
    requires NoSpaceBefore(a, c) && NoSpaceBefore(b, c)
    requires |a| == 0 || |b| == 0 || b[0] != c || !IsSpace(a[|a| - 1])
    ensures NoSpaceBefore(a + b, c)
  {
    var s := a + b;
    forall n | 0 < n < |s| && s[n] == c
      ensures !IsSpace(s[n - 1])
    {
      if n < |a| {
        assert s[n] == a[n] && s[n - 1] == a[n - 1];
      } else if n == |a| {
        assert s[n] == b[0] && s[n - 1] == a[|a| - 1];
      } else {
        assert s[n] == b[n - |a|] && s[n - 1] == b[n - |a| - 1];
      }
    }
  }

  /** Text in which no `-` follows a space does not contain ` -`. */
  lemma NoSpaceBeforeHyphen(r: string)
    requires NoSpaceBefore(r, '-')
    ensures Absent(r, " -")
  {
    forall i: nat | i < |r|
      ensures !OccursAt(r, i, " -")
    {
      if OccursAt(r, i, " -") {
        OccursAtChars(r, i, " -");
      }
    }
  }
}
