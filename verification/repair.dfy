/**
  The repair script as a whole: the regular-expression passes for tags,
  attributes and CSS properties, then the literal replacement tables for
  selectors and prose, applied in the order the script runs them; and the
  final decision whether the file needs to be written back.
 */
module MenuRepair {
  import opened Chars
  import opened SpaceErasure
  import opened Scan
  import opened Patterns
  import opened StrReplace

  /**
    One literal `content.replace(broken, fixed)` of the script, written by
    its structure: every table entry either re-joins words that the
    corruption separated with ` - `, or closes a single space gap.
   */
  datatype Fix =
    | Rehyphenate(words: seq<string>)            // "w1 - w2 - ..."  ->  "w1-w2-..."
    | CloseGap(before: string, after: string)    // before + " " + after  ->  before + after

  /** `ws` joined with `sep` between consecutive words. */
  function Join(ws: seq<string>, sep: string): (r: string)
    decreases |ws|
  {
    if |ws| == 0 then []
    else if |ws| == 1 then ws[0]
    else ws[0] + sep + Join(ws[1..], sep)
  }

  /** The text the entry searches for. */
  function Broken(x: Fix): (r: string) {
    match x
    case Rehyphenate(ws) => Join(ws, " - ")
    case CloseGap(a, b) => a + " " + b
  }

  /** The text the entry puts in its place. */
  function Fixed(x: Fix): (r: string) {
    match x
    case Rehyphenate(ws) => Join(ws, "-")
    case CloseGap(a, b) => a + b
  }

  /** A re-joining entry names at least two words, so it searches for at least one ` - `. */
  predicate WellFormed(x: Fix) {
    x.Rehyphenate? ==> |x.words| >= 2
  }

  predicate AllWellFormed(fixes: seq<Fix>) {
    forall n :: 0 <= n < |fixes| ==> WellFormed(fixes[n])
  }

  /** Every well-formed entry searches for non-empty text and only deletes whitespace from it. */
  lemma FixErases(x: Fix)
    requires WellFormed(x)
    ensures |Broken(x)| > 0
    ensures |Fixed(x)| < |Broken(x)|
    ensures ErasesSpace(Broken(x), Fixed(x))
  {
    match x
    case Rehyphenate(ws) =>
      JoinErases(ws);
    case CloseGap(a, b) =>
      assert AllIn(" ", Space);
      ErasesGap(a, " ", b);
  }

  /** Joining with ` - ` and deleting the spaces gives the words joined with `-`, two characters shorter per join. */
  lemma {:induction false} JoinErases(ws: seq<string>)
    requires |ws| >= 1
    ensures ErasesSpace(Join(ws, " - "), Join(ws, "-"))
    ensures |Join(ws, " - ")| == |Join(ws, "-")| + 2 * (|ws| - 1)
    decreases |ws|
  {
    if |ws| == 1 {
      ErasesRefl(ws[0]);
    } else {
      var a, b := ws[0], Join(ws[1..], "-");
      var b' := Join(ws[1..], " - ");
      JoinErases(ws[1..]);
      JoinAcrossHyphen(a, ' ', ' ', b');
      assert a + [' '] + "-" + [' '] + b' == a + " - " + b';
      ErasesRefl(a + "-");
      ErasesConcat(a + "-", a + "-", b', b);
      ErasesTrans(a + " - " + b', a + "-" + b', a + "-" + b);
    }
  }

  /** The CSS property prefixes whose hyphen is restored (lines 30-32), in the order they are tried. */
  const KnownCssProps: seq<string> := [
    "box", "text", "border", "z", "pointer", "background", "margin", "padding",
    "flex", "grid", "align", "justify", "overflow", "font", "line"
  ]

  /** The known broken selectors and their repaired forms (lines 62-114), in the order they are applied. */
  const SelectorFixes: seq<Fix> :=
    MultiplayerFixes + ProgressFixes + QuestFixes + AchievementFixes + MapAndPanelFixes + WindowFixes

  /** Lines 62-71: multiplayer lobby. */
  const MultiplayerFixes: seq<Fix> := [
    Rehyphenate([".mp-mode", "btn"]),
    Rehyphenate(["#mp-join", "room", "modal"]),
    Rehyphenate(["#mp-room", "details"]),
    Rehyphenate(["room", "details"]),
    Rehyphenate(["mp", "room"]),
    Rehyphenate(["mp", "btn"]),
    Rehyphenate(["mp", "create"]),
    Rehyphenate(["mp", "connection"]),
    Rehyphenate(["mp", "status"]),
    Rehyphenate(["mp", "rooms"])
  ]

  /** Lines 72-79: battle button and progress panel. */
  const ProgressFixes: seq<Fix> := [
    Rehyphenate(["battle", "btn"]),
    Rehyphenate(["progress", "tab"]),
    Rehyphenate(["progress", "content"]),
    Rehyphenate(["progress", "level"]),
    Rehyphenate(["progress", "stat"]),
    Rehyphenate(["progress", "bonus"]),
    Rehyphenate(["progress", "next"]),
    Rehyphenate(["progress", "xp"])
  ]

  /** Lines 80-87: quest cards. */
  const QuestFixes: seq<Fix> := [
    Rehyphenate(["quest", "card"]),
    Rehyphenate(["quest", "header"]),
    Rehyphenate(["quest", "name"]),
    Rehyphenate(["quest", "status"]),
    Rehyphenate(["quest", "description"]),
    Rehyphenate(["quest", "progress"]),
    Rehyphenate(["quest", "rewards"]),
    Rehyphenate(["quest", "reward"])
  ]

  /** Lines 88-96: achievement cards. */
  const AchievementFixes: seq<Fix> := [
    Rehyphenate(["achievement", "card"]),
    Rehyphenate(["achievement", "header"]),
    Rehyphenate(["achievement", "icon"]),
    Rehyphenate(["achievement", "name"]),
    Rehyphenate(["achievement", "tier"]),
    Rehyphenate(["achievement", "description"]),
    Rehyphenate(["achievement", "reward"]),
    Rehyphenate(["achievement", "status"]),
    Rehyphenate(["achievement", "category"])
  ]

  /** Lines 97-106: map selection and panels. */
  const MapAndPanelFixes: seq<Fix> := [
    Rehyphenate(["map", "card"]),
    Rehyphenate(["map", "grid"]),
    Rehyphenate(["map", "selection"]),
    Rehyphenate(["panel", "content"]),
    Rehyphenate(["panel", "title"]),
    Rehyphenate(["panel", "close"]),
    Rehyphenate(["panel", "btn"]),
    Rehyphenate(["panel", "buttons"]),
    Rehyphenate(["panel", "header"]),
    Rehyphenate(["panel", "overlay"])
  ]

  /** Lines 107-114: play window and buttons. */
  const WindowFixes: seq<Fix> := [
    Rehyphenate(["play", "window"]),
    Rehyphenate(["window", "actions"]),
    Rehyphenate(["window", "btn"]),
    Rehyphenate(["section", "title"]),
    Rehyphenate(["mode", "buttons"]),
    Rehyphenate(["game", "type"]),
    Rehyphenate(["btn", "label"]),
    Rehyphenate(["btn", "icon"])
  ]

  /** Lines 119-121: prose. */
  const ProseFixes: seq<Fix> := [
    CloseGap("Free", "-for-All"),
    Rehyphenate(["Co", "op"]),
    Rehyphenate(["Free", "for", "All"])
  ]

  lemma TablesWellFormed()
    ensures AllWellFormed(SelectorFixes)
    ensures AllWellFormed(ProseFixes)
  {
  }

  /** One known-property pass per prefix of `props`, in order. */
  function FixKnownProps(s: string, props: seq<string>): (r: string)
    ensures ErasesSpace(s, r)
    decreases |props|
  {
    if |props| == 0 then
      ErasesRefl(s);
      s
    else
      var t := Sub(KnownProp(props[0]), s);
      var r := FixKnownProps(t, props[1..]);
      ErasesTrans(s, t, r);
      r
  }

  /** The replacements of `fixes`, each applied to the result of the previous one. */
  function ApplyFixes(s: string, fixes: seq<Fix>): (r: string)
    requires AllWellFormed(fixes)
    ensures ErasesSpace(s, r)
    decreases |fixes|
  {
    if |fixes| == 0 then
      ErasesRefl(s);
      s
    else
      FixErases(fixes[0]);
      var t := ReplaceAll(s, Broken(fixes[0]), Fixed(fixes[0]));
      ReplaceErases(s, Broken(fixes[0]), Fixed(fixes[0]));
      var r := ApplyFixes(t, fixes[1..]);
      ErasesTrans(s, t, r);
      r
  }

  /** Text in which no prefix of `props` occurs passes the known-property step unchanged. */
  lemma {:induction false} FixKnownPropsAbsent(s: string, props: seq<string>)
    requires forall n :: 0 <= n < |props| ==> Absent(s, props[n])
    ensures FixKnownProps(s, props) == s
    decreases |props|
  {
    if |props| > 0 {
      KnownPropPassAbsent(props[0], s);
      FixKnownPropsAbsent(s, props[1..]);
    }
  }

  /** Text in which no entry's broken form occurs passes the table unchanged. */
  lemma {:induction false} ApplyFixesAbsent(s: string, fixes: seq<Fix>)
    requires AllWellFormed(fixes)
    requires forall n :: 0 <= n < |fixes| ==> Absent(s, Broken(fixes[n]))
    ensures ApplyFixes(s, fixes) == s
    decreases |fixes|
  {
    if |fixes| > 0 {
      FixErases(fixes[0]);
      ReplaceAbsent(s, Broken(fixes[0]), Fixed(fixes[0]));
      ApplyFixesAbsent(s, fixes[1..]);
    }
  }

  /** Text without whitespace passes every table unchanged. */
  lemma ApplyFixesKeepsSpaceFree(s: string, fixes: seq<Fix>)
    requires AllWellFormed(fixes) && NoSpace(s)
    ensures ApplyFixes(s, fixes) == s
  {
    ErasesFromNoSpace(s, ApplyFixes(s, fixes));
  }

  /** An entry whose broken form does not occur is skipped. */
  lemma SkipAbsentEntry(s: string, fixes: seq<Fix>)
    requires |fixes| > 0 && AllWellFormed(fixes)
    requires Absent(s, Broken(fixes[0]))
    ensures ApplyFixes(s, fixes) == ApplyFixes(s, fixes[1..])
  {
    FixErases(fixes[0]);
    ReplaceAbsent(s, Broken(fixes[0]), Fixed(fixes[0]));
  }

  /** A table split in two is its first part applied, then its second part. */
  lemma {:induction false} ApplyFixesConcat(s: string, a: seq<Fix>, b: seq<Fix>)
    requires AllWellFormed(a) && AllWellFormed(b)
    ensures AllWellFormed(a + b)
    ensures ApplyFixes(s, a + b) == ApplyFixes(ApplyFixes(s, a), b)
    decreases |a|
  {
    forall n | 0 <= n < |a + b|
      ensures WellFormed((a + b)[n])
    {
      if n < |a| {
        assert (a + b)[n] == a[n];
      } else {
        assert (a + b)[n] == b[n - |a|];
      }
    }
    if |a| == 0 {
      assert a + b == b;
    } else {
      FixErases(a[0]);
      var t := ReplaceAll(s, Broken(a[0]), Fixed(a[0]));
      assert (a + b)[0] == a[0];
      assert (a + b)[1..] == a[1..] + b;
      ApplyFixesConcat(t, a[1..], b);
    }
  }

  /** When no property pass on its own changes the text, the whole property step leaves it alone. */
  lemma {:induction false} FixKnownPropsUnchanged(s: string, props: seq<string>)
    requires forall n :: 0 <= n < |props| ==> Sub(KnownProp(props[n]), s) == s
    ensures FixKnownProps(s, props) == s
    decreases |props|
  {
    if |props| > 0 {
      FixKnownPropsUnchanged(s, props[1..]);
    }
  }

  /** The first word of an entry: its broken form starts with it. */
  function Lead(x: Fix): (r: string) {
    match x
    case Rehyphenate(ws) => if |ws| == 0 then [] else ws[0]
    case CloseGap(a, _) => a
  }

  lemma LeadStartsBroken(x: Fix)
    requires WellFormed(x)
    ensures OccursAt(Broken(x), 0, Lead(x))
  {
    match x
    case Rehyphenate(ws) =>
      assert Broken(x) == ws[0] + (" - " + Join(ws[1..], " - "));
    case CloseGap(a, b) =>
      assert Broken(x) == a + (" " + b);
  }

  /** An entry whose first word has a character missing from `s` does not occur in `s`. */
  lemma AbsentByLead(s: string, x: Fix, c: char)
    requires WellFormed(x) && c in Lead(x) && c !in s
    ensures Absent(s, Broken(x))
  {
    LeadStartsBroken(x);
    var n :| 0 <= n < |Lead(x)| && Lead(x)[n] == c;
    assert Broken(x)[n] == Broken(x)[0..|Lead(x)|][n];
    AbsentWhenMissingChar(s, Broken(x), c);
  }

  /** Every character a table entry can start with. */
  const TableLeads: set<char> := {'.', '#', 'C', 'F', 'a', 'b', 'g', 'm', 'p', 'q', 'r', 's', 'w'}

  /** Every entry of `fixes` has a non-empty first word that starts with a character of `leads`. */
  predicate LeadsIn(fixes: seq<Fix>, leads: set<char>) {
    forall n :: 0 <= n < |fixes| ==> |Lead(fixes[n])| > 0 && Lead(fixes[n])[0] in leads
  }

  lemma LeadsInConcat(a: seq<Fix>, b: seq<Fix>, leads: set<char>)
    requires LeadsIn(a, leads) && LeadsIn(b, leads)
    ensures LeadsIn(a + b, leads)
  {
    forall n | 0 <= n < |a + b|
      ensures |Lead((a + b)[n])| > 0 && Lead((a + b)[n])[0] in leads
    {
      if n < |a| {
        assert (a + b)[n] == a[n];
      } else {
        assert (a + b)[n] == b[n - |a|];
      }
    }
  }

  lemma TableLeadsCover()
    ensures LeadsIn(SelectorFixes, TableLeads)
    ensures LeadsIn(ProseFixes, TableLeads)
  {
    MultiplayerLeads();
    ProgressLeads();
    QuestLeads();
    AchievementLeads();
    MapAndPanelLeads();
    WindowLeads();
    ProseLeads();
    var acc := MultiplayerFixes;
    LeadsInConcat(acc, ProgressFixes, TableLeads);
    acc := acc + ProgressFixes;
    LeadsInConcat(acc, QuestFixes, TableLeads);
    acc := acc + QuestFixes;
    LeadsInConcat(acc, AchievementFixes, TableLeads);
    acc := acc + AchievementFixes;
    LeadsInConcat(acc, MapAndPanelFixes, TableLeads);
    acc := acc + MapAndPanelFixes;
    LeadsInConcat(acc, WindowFixes, TableLeads);
    acc := acc + WindowFixes;
    assert acc == SelectorFixes;
  }

  lemma MultiplayerLeads()
    ensures LeadsIn(MultiplayerFixes, TableLeads)
  {
  }

  lemma ProgressLeads()
    ensures LeadsIn(ProgressFixes, TableLeads)
  {
  }

  lemma QuestLeads()
    ensures LeadsIn(QuestFixes, TableLeads)
  {
  }

  lemma AchievementLeads()
    ensures LeadsIn(AchievementFixes, TableLeads)
  {
  }

  lemma MapAndPanelLeads()
    ensures LeadsIn(MapAndPanelFixes, TableLeads)
  {
  }

  lemma WindowLeads()
    ensures LeadsIn(WindowFixes, TableLeads)
  {
  }

  lemma ProseLeads()
    ensures LeadsIn(ProseFixes, TableLeads)
  {
  }

  /** A table none of whose entries can start in `s` leaves `s` unchanged. */
  lemma ApplyFixesMissingLeads(s: string, fixes: seq<Fix>, leads: set<char>)
    requires AllWellFormed(fixes) && LeadsIn(fixes, leads)
    requires forall c :: c in leads ==> c !in s
    ensures ApplyFixes(s, fixes) == s
  {
    forall n | 0 <= n < |fixes|
      ensures Absent(s, Broken(fixes[n]))
    {
      AbsentByLead(s, fixes[n], Lead(fixes[n])[0]);
    }
    ApplyFixesAbsent(s, fixes);
  }

  /** Text that contains none of the entries' first characters passes both tables unchanged. */
  lemma LiteralsNeedLead(s: string)
    requires forall c :: c in TableLeads ==> c !in s
    ensures FixLiterals(s) == s
  {
    TablesWellFormed();
    TableLeadsCover();
    ApplyFixesMissingLeads(s, SelectorFixes, TableLeads);
    ApplyFixesMissingLeads(s, ProseFixes, TableLeads);
  }

  /** The entry closes the space in front of a hyphen: every table entry but the `CloseGap` kind does, by construction. */
  predicate GapBeforeHyphen(x: Fix) {
    x.Rehyphenate? || (|x.after| > 0 && x.after[0] == '-')
  }

  predicate AllGapBeforeHyphen(fixes: seq<Fix>) {
    forall n :: 0 <= n < |fixes| ==> GapBeforeHyphen(fixes[n])
  }

  /** Such an entry's broken form has ` -` right after its first word. */
  lemma SpacedHyphenAfterLead(x: Fix)
    requires WellFormed(x) && GapBeforeHyphen(x)
    ensures OccursAt(Broken(x), |Lead(x)|, " -")
  {
    match x
    case Rehyphenate(ws) =>
      var b := Broken(x);
      assert b == ws[0] + " -" + (" " + Join(ws[1..], " - "));
      assert b[|ws[0]|..|ws[0]| + 2] == " -";
    case CloseGap(a, c) =>
      var b := Broken(x);
      assert b == a + " -" + c[1..];
      assert b[|a|..|a| + 2] == " -";
  }

  /** A table of such entries leaves alone text with no space in front of a hyphen. */
  lemma ApplyFixesNeedSpacedHyphen(s: string, fixes: seq<Fix>)
    requires AllWellFormed(fixes) && AllGapBeforeHyphen(fixes)
    requires Absent(s, " -")
    ensures ApplyFixes(s, fixes) == s
  {
    forall n | 0 <= n < |fixes|
      ensures Absent(s, Broken(fixes[n]))
    {
      SpacedHyphenAfterLead(fixes[n]);
      AbsentBySubword(s, Broken(fixes[n]), " -", |Lead(fixes[n])|);
    }
    ApplyFixesAbsent(s, fixes);
  }

  /** Every entry of both tables repairs a space in front of a hyphen. */
  lemma TablesGapBeforeHyphen()
    ensures AllGapBeforeHyphen(SelectorFixes)
    ensures AllGapBeforeHyphen(ProseFixes)
  {
  }

  /** Text with no space in front of a hyphen passes both tables unchanged. */
  lemma LiteralsNeedSpacedHyphen(s: string)
    requires Absent(s, " -")
    ensures FixLiterals(s) == s
  {
    TablesWellFormed();
    TablesGapBeforeHyphen();
    ApplyFixesNeedSpacedHyphen(s, SelectorFixes);
    ApplyFixesNeedSpacedHyphen(s, ProseFixes);
  }

  /** Steps 1 and 2: closing tags, then opening tags. */
  function FixTags(s: string): (r: string)
    ensures ErasesSpace(s, r)
  {
    var t := Sub(CloseTag, s);
    var r := Sub(OpenTag, t);
    ErasesTrans(s, t, r);
    r
  }

  /** Steps 3 and 4: hyphenated attribute names, then spacing around `=`. */
  function FixAttributes(s: string): (r: string)
    ensures ErasesSpace(s, r)
  {
    var t := Sub(HyphenAttr, s);
    var r := Sub(EqualsAttr, t);
    ErasesTrans(s, t, r);
    r
  }

  /** Step 6 and the prose fixes: the two literal tables. */
  function FixLiterals(s: string): (r: string)
    ensures ErasesSpace(s, r)
  {
    TablesWellFormed();
    var t := ApplyFixes(s, SelectorFixes);
    var r := ApplyFixes(t, ProseFixes);
    ErasesTrans(s, t, r);
    r
  }

  /** The whole script on the file's text: every pass only deletes whitespace. */
  function Repair(s: string): (r: string)
    ensures ErasesSpace(s, r)
    ensures |r| <= |s|
    ensures Strip(r) == Strip(s)
  {
    var t1 := FixTags(s);
    var t2 := FixAttributes(t1);
    var t3 := FixKnownProps(t2, KnownCssProps);
    var r := FixLiterals(t3);
    ErasesTrans(s, t1, t2);
    ErasesTrans(s, t2, t3);
    ErasesTrans(s, t3, r);
    ErasesLength(s, r);
    ErasesKeepsNonSpace(s, r);
    r
  }

  /** `Repair` is its four stages in order. */
  lemma RepairByStages(s: string, t1: string, t2: string, t3: string, r: string)
    requires FixTags(s) == t1 && FixAttributes(t1) == t2
    requires FixKnownProps(t2, KnownCssProps) == t3 && FixLiterals(t3) == r
    ensures Repair(s) == r
  {
  }

  /** Steps 1 and 2 are the closing-tag pass followed by the opening-tag pass. */
  lemma TagsByPasses(s: string, t: string, r: string)
    requires Sub(CloseTag, s) == t && Sub(OpenTag, t) == r
    ensures FixTags(s) == r
  {
  }

  /** Step 6 is the selector table followed by the prose table. */
  lemma LiteralsByTables(s: string, t: string, r: string)
    requires ApplyFixes(s, SelectorFixes) == t && ApplyFixes(t, ProseFixes) == r
    ensures FixLiterals(s) == r
  {
  }

  /** Steps 3 and 4 are the hyphenated-attribute pass followed by the `=` pass. */
  lemma AttributesByPasses(s: string, t: string, r: string)
    requires Sub(HyphenAttr, s) == t && Sub(EqualsAttr, t) == r
    ensures FixAttributes(s) == r
  {
  }

  /** What the script ends with: the repaired text, and whether it writes it back. */
  datatype Outcome = Outcome(content: string, changed: bool)

  /**
    The script on a file's text. The file is written back exactly when the
    repaired text differs from the original, which is exactly when some
    whitespace was deleted.
   */
  function Run(original: string): (o: Outcome)
    ensures o.changed <==> o.content != original
    ensures o.changed <==> |o.content| < |original|
    ensures ErasesSpace(original, o.content)
    ensures Strip(o.content) == Strip(original)
  {
    var content := Repair(original);
    assert |content| == |original| ==> content == original by {
      if |content| == |original| {
        ErasesSameLength(original, content);
      }
    }
    Outcome(content, content != original)
  }

  /** Text without whitespace is left alone, and the file is not written. */
  lemma RunKeepsSpaceFree(s: string)
    requires NoSpace(s)
    ensures Run(s) == Outcome(s, false)
  {
    ErasesFromNoSpace(s, Repair(s));
  }

  /** When the repair leaves no whitespace behind, running the script again changes nothing. */
  lemma RepairIdempotentWhenSpaceFree(s: string)
    requires NoSpace(Repair(s))
    ensures Repair(Repair(s)) == Repair(s)
    ensures !Run(Repair(s)).changed
  {
    ErasesFromNoSpace(Repair(s), Repair(Repair(s)));
  }
}
