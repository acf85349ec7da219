/**
  The five regular expressions of the repair script, each as a hand-written
  matcher at one position, and one `re.sub` pass of each.

  Each matcher mirrors Python's backtracking matcher on its pattern. In every
  pattern a greedy `+` run is followed by a character its class excludes, so
  backtracking into the run can never succeed and the greedy run end
  (`RunEnd`) is the only candidate.
 */
module Patterns {
  import opened Chars
  import opened SpaceErasure
  import opened Scan

  /** The patterns of the script, one constructor per `re.sub` call site. */
  datatype Pattern =
    | CloseTag                 // </\s+([a-zA-Z0-9]+)>                   ->  </\1>
    | OpenTag                  // <\s+([a-zA-Z0-9]+)                     ->  <\1
    | HyphenAttr               // \b([a-zA-Z0-9]+)\s-\s([a-zA-Z0-9]+)=   ->  \1-\2=
    | EqualsAttr               // \b([a-zA-Z0-9-]+)\s=\s"                ->  \1="
    | KnownProp(prop: string)  // \b<prop>\s-\s([a-zA-Z-]+)              ->  <prop>-\1

  /**
    A match found at `i` is sound: it stays inside `s`, and its replacement is
    the matched text with at least one whitespace character deleted and
    nothing else changed.
   */
  predicate DeletesSpace(s: string, i: nat, m: MatchResult)
    requires m.Matched?
  {
    && i < m.end <= |s|
    && |m.rep| < m.end - i
    && ErasesSpace(s[i..m.end], m.rep)
  }

  /** `</\s+([a-zA-Z0-9]+)>` replaced by `</\1>`. */
  function MatchCloseTag(s: string, i: nat): (r: MatchResult)
    requires i <= |s|
    ensures r.Matched? ==> DeletesSpace(s, i, r)
    ensures r.Matched? ==> OccursAt(s, i, "</") && s[r.end - 1] == '>'
    ensures r.Matched? ==> r.rep == Strip(s[i..r.end])
  {
    if OccursAt(s, i, "</") then
      var j := RunEnd(s, i + 2, Space);
      var k := RunEnd(s, j, Alnum);
      if i + 2 < j < k < |s| && s[k] == '>' then
        CloseTagSound(s, i, j, k);
        Matched(k + 1, "</" + s[j..k] + ">")
      else NoMatch
    else NoMatch
  }

  /** The closing-tag rewrite deletes exactly the whitespace after `</`. */
  lemma CloseTagSound(s: string, i: nat, j: nat, k: nat)
    requires OccursAt(s, i, "</") && i + 2 < j < k < |s|
    requires AllIn(s[i + 2..j], Space) && AllIn(s[j..k], Alnum) && s[k] == '>'
    ensures var rep := "</" + s[j..k] + ">";
      |rep| < k + 1 - i && ErasesSpace(s[i..k + 1], rep) && rep == Strip(s[i..k + 1])
  {
    var rep := "</" + s[j..k] + ">";
    assert s[i..i + 2] == "</";
    assert s[i..k + 1] == s[i..i + 2] + s[i + 2..j] + s[j..k] + [s[k]];
    assert s[i..k + 1] == "</" + s[i + 2..j] + (s[j..k] + ">");
    assert rep == "</" + (s[j..k] + ">");
    ErasesGap("</", s[i + 2..j], s[j..k] + ">");
    assert NoSpace(rep) by { ClassRunHasNoSpace(s[j..k], Alnum); }
    StripIsOnlySpaceFreeErasure(s[i..k + 1], rep);
  }

  /** `<\s+([a-zA-Z0-9]+)` replaced by `<\1`. */
  function MatchOpenTag(s: string, i: nat): (r: MatchResult)
    requires i <= |s|
    ensures r.Matched? ==> DeletesSpace(s, i, r)
    ensures r.Matched? ==> s[i] == '<' && IsAlnum(s[r.end - 1])
    ensures r.Matched? ==> r.end == |s| || !IsAlnum(s[r.end])
    ensures r.Matched? ==> r.rep == Strip(s[i..r.end])
  {
    if i < |s| && s[i] == '<' then
      var j := RunEnd(s, i + 1, Space);
      var k := RunEnd(s, j, Alnum);
      if i + 1 < j < k then
        OpenTagSound(s, i, j, k);
        Matched(k, "<" + s[j..k])
      else NoMatch
    else NoMatch
  }

  /** The opening-tag rewrite deletes exactly the whitespace after `<`. */
  lemma OpenTagSound(s: string, i: nat, j: nat, k: nat)
    requires i < |s| && s[i] == '<' && i + 1 < j < k <= |s|
    requires AllIn(s[i + 1..j], Space) && AllIn(s[j..k], Alnum)
    ensures var rep := "<" + s[j..k];
      |rep| < k - i && ErasesSpace(s[i..k], rep) && rep == Strip(s[i..k])
  {
    var rep := "<" + s[j..k];
    assert s[i..k] == [s[i]] + s[i + 1..j] + s[j..k];
    assert s[i..k] == "<" + s[i + 1..j] + s[j..k];
    ErasesGap("<", s[i + 1..j], s[j..k]);
    assert NoSpace(rep) by { ClassRunHasNoSpace(s[j..k], Alnum); }
    StripIsOnlySpaceFreeErasure(s[i..k], rep);
  }

  /** `\b([a-zA-Z0-9]+)\s-\s([a-zA-Z0-9]+)=` replaced by `\1-\2=`. */
  function MatchHyphenAttr(s: string, i: nat): (r: MatchResult)
    requires i <= |s|
    ensures r.Matched? ==> DeletesSpace(s, i, r)
    ensures r.Matched? ==> AtWordBoundary(s, i) && IsAlnum(s[i]) && s[r.end - 1] == '='
    ensures r.Matched? ==> r.rep == Strip(s[i..r.end])
  {
    if AtWordBoundary(s, i) then
      var j := RunEnd(s, i, Alnum);
      if i < j && j + 3 <= |s| && IsSpace(s[j]) && s[j + 1] == '-' && IsSpace(s[j + 2]) then
        var k := RunEnd(s, j + 3, Alnum);
        if j + 3 < k < |s| && s[k] == '=' then
          HyphenJoinSound(s, i, j, k);
          Matched(k + 1, s[i..j] + "-" + s[j + 3..k] + "=")
        else NoMatch
      else NoMatch
    else NoMatch
  }

  /** The hyphenated-attribute rewrite deletes exactly the two whitespace characters around `-`. */
  lemma HyphenJoinSound(s: string, i: nat, j: nat, k: nat)
    requires i < j && j + 3 < k < |s|
    requires AllIn(s[i..j], Alnum) && AllIn(s[j + 3..k], Alnum) && s[k] == '='
    requires IsSpace(s[j]) && s[j + 1] == '-' && IsSpace(s[j + 2])
    ensures var rep := s[i..j] + "-" + s[j + 3..k] + "=";
      |rep| < k + 1 - i && ErasesSpace(s[i..k + 1], rep) && rep == Strip(s[i..k + 1])
  {
    var rep := s[i..j] + "-" + s[j + 3..k] + "=";
    HyphenJoinErases(s, i, j, k);
    assert NoSpace(rep) by { ClassRunHasNoSpace(s[i..j], Alnum); ClassRunHasNoSpace(s[j + 3..k], Alnum); }
    StripIsOnlySpaceFreeErasure(s[i..k + 1], rep);
  }

  lemma HyphenJoinErases(s: string, i: nat, j: nat, k: nat)
    requires i < j && j + 3 < k < |s| && s[k] == '='
    requires IsSpace(s[j]) && s[j + 1] == '-' && IsSpace(s[j + 2])
    ensures ErasesSpace(s[i..k + 1], s[i..j] + "-" + s[j + 3..k] + "=")
  {
    JoinAcrossHyphen(s[i..j], s[j], s[j + 2], s[j + 3..k] + "=");
    assert s[j..j + 3] == [s[j]] + "-" + [s[j + 2]];
    assert s[i..k + 1] == s[i..j] + s[j..j + 3] + s[j + 3..k] + [s[k]];
    assert s[i..k + 1] == s[i..j] + [s[j]] + "-" + [s[j + 2]] + (s[j + 3..k] + "=");
    assert s[i..j] + "-" + s[j + 3..k] + "=" == s[i..j] + "-" + (s[j + 3..k] + "=");
  }

  /** `\b([a-zA-Z0-9-]+)\s=\s"` replaced by `\1="`. */
  function MatchEqualsAttr(s: string, i: nat): (r: MatchResult)
    requires i <= |s|
    ensures r.Matched? ==> DeletesSpace(s, i, r)
    ensures r.Matched? ==> AtWordBoundary(s, i) && s[r.end - 1] == '"' && |r.rep| >= 2 && OccursAt(r.rep, |r.rep| - 2, "=\"")
    ensures r.Matched? ==> r.rep == Strip(s[i..r.end])
  {
    if AtWordBoundary(s, i) then
      var j := RunEnd(s, i, AlnumOrHyphen);
      if i < j && j + 4 <= |s| && IsSpace(s[j]) && s[j + 1] == '=' && IsSpace(s[j + 2]) && s[j + 3] == '"' then
        EqualsJoinSound(s, i, j);
        Matched(j + 4, s[i..j] + "=\"")
      else NoMatch
    else NoMatch
  }

  /** The `=` rewrite deletes exactly the two whitespace characters around `=`. */
  lemma EqualsJoinSound(s: string, i: nat, j: nat)
    requires i < j && j + 4 <= |s| && AllIn(s[i..j], AlnumOrHyphen)
    requires IsSpace(s[j]) && s[j + 1] == '=' && IsSpace(s[j + 2]) && s[j + 3] == '"'
    ensures var rep := s[i..j] + "=\"";
      |rep| < j + 4 - i && ErasesSpace(s[i..j + 4], rep) && rep == Strip(s[i..j + 4])
  {
    var rep := s[i..j] + "=\"";
    assert s[i..j + 4] == s[i..j] + [s[j]] + "=" + [s[j + 2]] + "\"";
    JoinAcrossEquals(s[i..j], s[j], s[j + 2]);
    assert NoSpace(rep) by { ClassRunHasNoSpace(s[i..j], AlnumOrHyphen); }
    StripIsOnlySpaceFreeErasure(s[i..j + 4], rep);
  }

  /** `\b<prop>\s-\s([a-zA-Z-]+)` replaced by `<prop>-` and the captured word. */
  function MatchKnownProp(prop: string, s: string, i: nat): (r: MatchResult)
    requires i <= |s|
    ensures r.Matched? ==> DeletesSpace(s, i, r)
    ensures r.Matched? ==> AtWordBoundary(s, i) && OccursAt(s, i, prop) && OccursAt(r.rep, 0, prop + "-")
  {
    if AtWordBoundary(s, i) && OccursAt(s, i, prop) then
      var j := i + |prop|;
      if j + 3 < |s| && IsSpace(s[j]) && s[j + 1] == '-' && IsSpace(s[j + 2]) then
        var k := RunEnd(s, j + 3, LetterOrHyphen);
        if j + 3 < k then
          KnownPropSound(prop, s, i, k);
          Matched(k, prop + "-" + s[j + 3..k])
        else NoMatch
      else NoMatch
    else NoMatch
  }

  /** The known-property rewrite deletes exactly the two whitespace characters around `-`. */
  lemma KnownPropSound(prop: string, s: string, i: nat, k: nat)
    requires OccursAt(s, i, prop) && i + |prop| + 3 < k <= |s|
    requires IsSpace(s[i + |prop|]) && s[i + |prop| + 1] == '-' && IsSpace(s[i + |prop| + 2])
    ensures var rep := prop + "-" + s[i + |prop| + 3..k];
      |rep| < k - i && ErasesSpace(s[i..k], rep)
  {
    var j := i + |prop|;
    JoinAcrossHyphen(prop, s[j], s[j + 2], s[j + 3..k]);
    assert s[i..j] == prop;
    assert s[j..j + 3] == [s[j]] + "-" + [s[j + 2]];
    assert s[i..k] == s[i..j] + s[j..j + 3] + s[j + 3..k];
    assert s[i..k] == prop + [s[j]] + "-" + [s[j + 2]] + s[j + 3..k];
  }

  /** Trying pattern `p` at position `i` of `s`; nothing matches beyond the end. */
  function MatchAt(p: Pattern, s: string, i: nat): (r: MatchResult)
    ensures r.Matched? ==> i <= |s| && DeletesSpace(s, i, r)
  {
    if i > |s| then NoMatch
    else
      match p
      case CloseTag => MatchCloseTag(s, i)
      case OpenTag => MatchOpenTag(s, i)
      case HyphenAttr => MatchHyphenAttr(s, i)
      case EqualsAttr => MatchEqualsAttr(s, i)
      case KnownProp(prop) => MatchKnownProp(prop, s, i)
  }

  function PatternMatcher(p: Pattern): (f: Matcher) {
    (s: string, i: nat) => MatchAt(p, s, i)
  }

  /** Every pattern's matches advance, shrink, and delete only whitespace. */
  lemma MatcherSound(p: Pattern, s: string)
    ensures Advances(PatternMatcher(p), s)
    ensures Shrinks(PatternMatcher(p), s)
    ensures ErasesOnlySpace(PatternMatcher(p), s)
  {
  }

  /** `re.sub(p, ..., s)`: one full pass of pattern `p`, which deletes only whitespace. */
  function Sub(p: Pattern, s: string): (r: string)
    ensures ErasesSpace(s, r)
  {
    MatcherSound(p, s);
    SubFromErases(PatternMatcher(p), s, 0);
    assert s[0..] == s;
    SubFrom(PatternMatcher(p), s, 0)
  }

  /** A pass changes the text exactly when its pattern matches somewhere in it. */
  lemma PassUnchangedIff(p: Pattern, s: string)
    ensures Sub(p, s) == s <==> (forall i: nat :: i < |s| ==> MatchAt(p, s, i).NoMatch?)
  {
    MatcherSound(p, s);
    Scan.SubUnchangedIff(PatternMatcher(p), s);
    assert forall i: nat :: PatternMatcher(p)(s, i) == MatchAt(p, s, i);
  }

  /** A pass over text without whitespace changes nothing. */
  lemma PassKeepsSpaceFree(p: Pattern, s: string)
    requires NoSpace(s)
    ensures Sub(p, s) == s
  {
    ErasesFromNoSpace(s, Sub(p, s));
  }

  /**
    A pass with a single match: the text before it and after it is copied,
    the match is replaced.
   */
  lemma PassSingleMatch(p: Pattern, s: string, k: nat)
    requires k < |s| && MatchAt(p, s, k).Matched?
    requires forall i: nat :: i < k ==> MatchAt(p, s, i).NoMatch?
    requires forall i: nat :: MatchAt(p, s, k).end <= i < |s| ==> MatchAt(p, s, i).NoMatch?
    ensures Sub(p, s) == s[..k] + MatchAt(p, s, k).rep + s[MatchAt(p, s, k).end..]
  {
    var f := PatternMatcher(p);
    var m := MatchAt(p, s, k);
    MatcherSound(p, s);
    assert f(s, k) == m;
    SubLeftmost(f, s, 0, k);
    SubNoMatch(f, s, m.end);
    assert s[0..] == s;
    assert s[0..k] == s[..k];
  }

  /** A character every match of the pattern contains. */
  function Marker(p: Pattern): (c: char) {
    match p
    case CloseTag => '<'
    case OpenTag => '<'
    case HyphenAttr => '='
    case EqualsAttr => '"'
    case KnownProp(_) => '-'
  }

  /** Text without the pattern's marker character passes through unchanged. */
  lemma PassNeedsMarker(p: Pattern, s: string)
    requires Marker(p) !in s
    ensures Sub(p, s) == s
  {
    forall i: nat | i < |s|
      ensures MatchAt(p, s, i).NoMatch?
    {
      if MatchAt(p, s, i).Matched? {
        match p
        case CloseTag =>
        case OpenTag =>
        case HyphenAttr =>
        case EqualsAttr =>
        case KnownProp(prop) =>
          var k := KnownPropParse(prop, s, i);
      }
    }
    PassUnchangedIff(p, s);
  }

  /** No closing tag starts before `m` when no `/` follows any of those positions. */
  lemma CloseTagNeedsSlash(s: string, m: nat)
    requires m < |s| && forall n :: 1 <= n <= m ==> s[n] != '/'
    ensures forall i: nat :: i < m ==> MatchAt(CloseTag, s, i).NoMatch?
  {
    forall i: nat | i < m
      ensures MatchAt(CloseTag, s, i).NoMatch?
    {
      if MatchCloseTag(s, i).Matched? {
        OccursAtChars(s, i, "</");
      }
    }
  }

  /** Step 2 leaves alone text in which no `<` is followed by whitespace. */
  lemma OpenTagNeedsSpace(s: string)
    requires forall n :: 0 <= n < |s| - 1 && s[n] == '<' ==> !IsSpace(s[n + 1])
    ensures Sub(OpenTag, s) == s
  {
    forall i: nat | i < |s|
      ensures MatchAt(OpenTag, s, i).NoMatch?
    {
      if MatchOpenTag(s, i).Matched? {
        var j, k := OpenTagParse(s, i);
      }
    }
    PassUnchangedIff(OpenTag, s);
  }

  /** Step 3 leaves alone text whose every `-` comes after its every `=`. */
  lemma HyphenAttrNeedsHyphenFirst(s: string, m: nat)
    requires forall n :: 0 <= n < m && n < |s| ==> s[n] != '-'
    requires forall n :: m <= n < |s| ==> s[n] != '='
    ensures Sub(HyphenAttr, s) == s
  {
    forall i: nat | i < |s|
      ensures MatchAt(HyphenAttr, s, i).NoMatch?
    {
      if MatchHyphenAttr(s, i).Matched? {
        var j, k := HyphenAttrParse(s, i);
      }
    }
    PassUnchangedIff(HyphenAttr, s);
  }

  /** Step 4 leaves alone text in which no `=` follows whitespace. */
  lemma EqualsAttrNeedsSpace(s: string)
    requires forall n :: 0 < n < |s| && s[n] == '=' ==> !IsSpace(s[n - 1])
    ensures Sub(EqualsAttr, s) == s
  {
    forall i: nat | i < |s|
      ensures MatchAt(EqualsAttr, s, i).NoMatch?
    {
      if MatchEqualsAttr(s, i).Matched? {
        var j := EqualsAttrParse(s, i);
      }
    }
    PassUnchangedIff(EqualsAttr, s);
  }

  /** A property pass leaves alone text in which no `-` stands where the prefix and a whitespace would put it. */
  lemma KnownPropNeedsPrefixBeforeHyphen(prop: string, s: string)
    requires |prop| > 0
    requires forall n :: |prop| + 1 <= n < |s| && s[n] == '-' ==> s[n - |prop| - 1] != prop[0]
    ensures Sub(KnownProp(prop), s) == s
  {
    forall i: nat | i < |s|
      ensures MatchAt(KnownProp(prop), s, i).NoMatch?
    {
      if MatchKnownProp(prop, s, i).Matched? {
        var k := KnownPropParse(prop, s, i);
        OccursAtChars(s, i, prop);
      }
    }
    PassUnchangedIff(KnownProp(prop), s);
  }

  /** The pass for a property prefix that does not occur leaves the text unchanged. */
  lemma KnownPropPassAbsent(prop: string, s: string)
    requires Absent(s, prop)
    ensures Sub(KnownProp(prop), s) == s
  {
    PassUnchangedIff(KnownProp(prop), s);
  }

  // Completeness: each matcher finds exactly the text its pattern describes.

  /** `</`, whitespace, a tag name and `>` at `i` are matched and rewritten to `</name>`. */
  lemma CloseTagFound(s: string, i: nat, j: nat, k: nat)
    requires OccursAt(s, i, "</") && i + 2 < j < k < |s|
    requires AllIn(s[i + 2..j], Space) && AllIn(s[j..k], Alnum) && s[k] == '>'
    ensures MatchCloseTag(s, i) == Matched(k + 1, "</" + s[j..k] + ">")
  {
    assert s[j..k][0] == s[j];
    RunEndUnique(s, i + 2, j, Space);
    RunEndUnique(s, j, k, Alnum);
  }

  /** Conversely, every closing-tag match has that shape: a tag name directly followed by `>`. */
  lemma CloseTagParse(s: string, i: nat) returns (j: nat, k: nat)
    requires i <= |s| && MatchCloseTag(s, i).Matched?
    ensures OccursAt(s, i, "</") && i + 2 < j < k < |s|
    ensures AllIn(s[i + 2..j], Space) && AllIn(s[j..k], Alnum) && s[k] == '>'
    ensures MatchCloseTag(s, i) == Matched(k + 1, "</" + s[j..k] + ">")
  {
    j := RunEnd(s, i + 2, Space);
    k := RunEnd(s, j, Alnum);
  }

  /** `<`, whitespace and a maximal tag name at `i` are matched and rewritten to `<name`. */
  lemma OpenTagFound(s: string, i: nat, j: nat, k: nat)
    requires i < |s| && s[i] == '<' && i + 1 < j < k <= |s|
    requires AllIn(s[i + 1..j], Space) && AllIn(s[j..k], Alnum)
    requires k == |s| || !IsAlnum(s[k])
    ensures MatchOpenTag(s, i) == Matched(k, "<" + s[j..k])
  {
    assert s[j..k][0] == s[j];
    RunEndUnique(s, i + 1, j, Space);
    RunEndUnique(s, j, k, Alnum);
  }

  /** Conversely, every opening-tag match has that shape. */
  lemma OpenTagParse(s: string, i: nat) returns (j: nat, k: nat)
    requires i <= |s| && MatchOpenTag(s, i).Matched?
    ensures i < |s| && s[i] == '<' && i + 1 < j < k <= |s|
    ensures AllIn(s[i + 1..j], Space) && AllIn(s[j..k], Alnum)
    ensures k == |s| || !IsAlnum(s[k])
    ensures MatchOpenTag(s, i) == Matched(k, "<" + s[j..k])
    ensures IsSpace(s[i + 1])
  {
    j := RunEnd(s, i + 1, Space);
    k := RunEnd(s, j, Alnum);
    assert s[i + 1..j][0] == s[i + 1];
  }

  /**
    A word starting at a word boundary, one whitespace, `-`, one whitespace,
    a second word and `=` are matched and rewritten to `word-word=`.
   */
  lemma HyphenAttrFound(s: string, i: nat, j: nat, k: nat)
    requires i < j && j + 3 < k < |s| && AtWordBoundary(s, i)
    requires AllIn(s[i..j], Alnum) && AllIn(s[j + 3..k], Alnum) && s[k] == '='
    requires IsSpace(s[j]) && s[j + 1] == '-' && IsSpace(s[j + 2])
    ensures MatchHyphenAttr(s, i) == Matched(k + 1, s[i..j] + "-" + s[j + 3..k] + "=")
  {
    RunEndUnique(s, i, j, Alnum);
    RunEndUnique(s, j + 3, k, Alnum);
  }

  /** Conversely, every hyphenated-attribute match has that shape: the second word is directly followed by `=`. */
  lemma HyphenAttrParse(s: string, i: nat) returns (j: nat, k: nat)
    requires i <= |s| && MatchHyphenAttr(s, i).Matched?
    ensures AtWordBoundary(s, i) && i < j && j + 3 < k < |s|
    ensures AllIn(s[i..j], Alnum) && AllIn(s[j + 3..k], Alnum) && s[k] == '='
    ensures IsSpace(s[j]) && s[j + 1] == '-' && IsSpace(s[j + 2])
    ensures MatchHyphenAttr(s, i) == Matched(k + 1, s[i..j] + "-" + s[j + 3..k] + "=")
    ensures IsAlnum(s[k - 1])
  {
    j := RunEnd(s, i, Alnum);
    k := RunEnd(s, j + 3, Alnum);
    assert s[j + 3..k][k - 1 - (j + 3)] == s[k - 1];
  }

  /**
    An attribute name starting at a word boundary, one whitespace, `=`, one
    whitespace and `"` are matched and rewritten to `name="`.
   */
  lemma EqualsAttrFound(s: string, i: nat, j: nat)
    requires i < j && j + 4 <= |s| && AtWordBoundary(s, i) && AllIn(s[i..j], AlnumOrHyphen)
    requires IsSpace(s[j]) && s[j + 1] == '=' && IsSpace(s[j + 2]) && s[j + 3] == '"'
    ensures MatchEqualsAttr(s, i) == Matched(j + 4, s[i..j] + "=\"")
  {
    RunEndUnique(s, i, j, AlnumOrHyphen);
  }

  /** Conversely, every equals-spacing match has that shape. */
  lemma EqualsAttrParse(s: string, i: nat) returns (j: nat)
    requires i <= |s| && MatchEqualsAttr(s, i).Matched?
    ensures AtWordBoundary(s, i) && i < j && j + 4 <= |s| && AllIn(s[i..j], AlnumOrHyphen)
    ensures IsSpace(s[j]) && s[j + 1] == '=' && IsSpace(s[j + 2]) && s[j + 3] == '"'
    ensures MatchEqualsAttr(s, i) == Matched(j + 4, s[i..j] + "=\"")
  {
    j := RunEnd(s, i, AlnumOrHyphen);
  }

  /**
    `prop` at a word boundary, one whitespace, `-`, one whitespace and a
    maximal run of letters and hyphens are matched and rewritten to `prop-run`.
   */
  lemma KnownPropFound(prop: string, s: string, i: nat, k: nat)
    requires i + |prop| + 3 < k <= |s|
    requires AtWordBoundary(s, i) && OccursAt(s, i, prop)
    requires IsSpace(s[i + |prop|]) && s[i + |prop| + 1] == '-' && IsSpace(s[i + |prop| + 2])
    requires AllIn(s[i + |prop| + 3..k], LetterOrHyphen)
    requires k == |s| || !InClass(s[k], LetterOrHyphen)
    ensures MatchKnownProp(prop, s, i) == Matched(k, prop + "-" + s[i + |prop| + 3..k])
  {
    RunEndUnique(s, i + |prop| + 3, k, LetterOrHyphen);
  }

  /** Conversely, every known-property match has that shape. */
  lemma KnownPropParse(prop: string, s: string, i: nat) returns (k: nat)
    requires i <= |s| && MatchKnownProp(prop, s, i).Matched?
    ensures AtWordBoundary(s, i) && OccursAt(s, i, prop)
    ensures i + |prop| + 3 < k <= |s|
    ensures IsSpace(s[i + |prop|]) && s[i + |prop| + 1] == '-' && IsSpace(s[i + |prop| + 2])
    ensures AllIn(s[i + |prop| + 3..k], LetterOrHyphen)
    ensures k == |s| || !InClass(s[k], LetterOrHyphen)
    ensures MatchKnownProp(prop, s, i) == Matched(k, prop + "-" + s[i + |prop| + 3..k])
  {
    k := RunEnd(s, i + |prop| + 3, LetterOrHyphen);
  }

  // A text that is exactly one instance of a pattern is repaired as a whole.

  /** `</`, whitespace, a tag name and `>` become `</name>`. */
  lemma CloseTagWhole(w: string, name: string)
    requires |w| > 0 && AllIn(w, Space) && |name| > 0 && AllIn(name, Alnum)
    ensures Sub(CloseTag, "</" + w + name + ">") == "</" + name + ">"
  {
    var s := "</" + w + name + ">";
    var j, k := 2 + |w|, 2 + |w| + |name|;
    assert s[2..j] == w && s[j..k] == name;
    CloseTagFound(s, 0, j, k);
    PassSingleMatch(CloseTag, s, 0);
  }

  /** `<`, whitespace and a tag name become `<name`. */
  lemma OpenTagWhole(w: string, name: string)
    requires |w| > 0 && AllIn(w, Space) && |name| > 0 && AllIn(name, Alnum)
    ensures Sub(OpenTag, "<" + w + name) == "<" + name
  {
    var s := "<" + w + name;
    var j, k := 1 + |w|, 1 + |w| + |name|;
    assert s[1..j] == w && s[j..k] == name;
    OpenTagFound(s, 0, j, k);
    PassSingleMatch(OpenTag, s, 0);
  }

  /** `a - b=`, with any single whitespace characters around the hyphen, becomes `a-b=`. */
  lemma HyphenAttrWhole(a: string, c1: char, c2: char, b: string)
    requires |a| > 0 && AllIn(a, Alnum) && |b| > 0 && AllIn(b, Alnum)
    requires IsSpace(c1) && IsSpace(c2)
    ensures Sub(HyphenAttr, a + [c1] + "-" + [c2] + b + "=") == a + "-" + b + "="
  {
    var s := a + [c1] + "-" + [c2] + b + "=";
    var j, k := |a|, |a| + 3 + |b|;
    assert s[0..j] == a && s[j + 3..k] == b;
    assert IsWordChar(s[0]);
    HyphenAttrFound(s, 0, j, k);
    PassSingleMatch(HyphenAttr, s, 0);
  }

  /** `name = "`, with any single whitespace characters around `=`, becomes `name="`. */
  lemma EqualsAttrWhole(name: string, c1: char, c2: char)
    requires |name| > 0 && AllIn(name, AlnumOrHyphen) && IsWordChar(name[0])
    requires IsSpace(c1) && IsSpace(c2)
    ensures Sub(EqualsAttr, name + [c1] + "=" + [c2] + "\"") == name + "=\""
  {
    var s := name + [c1] + "=" + [c2] + "\"";
    var j := |name|;
    assert s[0..j] == name;
    EqualsAttrFound(s, 0, j);
    PassSingleMatch(EqualsAttr, s, 0);
  }

  /** `prop - word`, with any single whitespace characters around the hyphen, becomes `prop-word`. */
  lemma KnownPropWhole(prop: string, c1: char, c2: char, word: string)
    requires |prop| > 0 && IsWordChar(prop[0])
    requires IsSpace(c1) && IsSpace(c2) && |word| > 0 && AllIn(word, LetterOrHyphen)
    ensures Sub(KnownProp(prop), prop + [c1] + "-" + [c2] + word) == prop + "-" + word
  {
    var s := prop + [c1] + "-" + [c2] + word;
    var k := |s|;
    assert s[0..|prop|] == prop && s[|prop| + 3..k] == word;
    KnownPropFound(prop, s, 0, k);
    PassSingleMatch(KnownProp(prop), s, 0);
  }

  // Helpers for the match soundness proofs.

  /** A run of a class without whitespace has no whitespace. */
  lemma ClassRunHasNoSpace(w: string, k: CharClass)
    requires k != Space && AllIn(w, k)
    ensures NoSpace(w)
  {
  }

  lemma JoinAcrossHyphen(a: string, w1: char, w2: char, b: string)
    requires IsSpace(w1) && IsSpace(w2)
    ensures ErasesSpace(a + [w1] + "-" + [w2] + b, a + "-" + b)
  {
    assert AllIn([w1], Space);
    assert AllIn([w2], Space);
    ErasesGap(a, [w1], "-" + [w2] + b);
    assert a + [w1] + "-" + [w2] + b == a + [w1] + ("-" + [w2] + b);
    ErasesGap(a + "-", [w2], b);
    assert a + "-" + [w2] + b == a + ("-" + [w2] + b);
    ErasesTrans(a + [w1] + "-" + [w2] + b, a + "-" + [w2] + b, a + "-" + b);
  }

  lemma JoinAcrossEquals(a: string, w1: char, w2: char)
    requires IsSpace(w1) && IsSpace(w2)
    ensures ErasesSpace(a + [w1] + "=" + [w2] + "\"", a + "=\"")
  {
    assert AllIn([w1], Space);
    assert AllIn([w2], Space);
    ErasesGap(a, [w1], "=" + [w2] + "\"");
    assert a + [w1] + "=" + [w2] + "\"" == a + [w1] + ("=" + [w2] + "\"");
    ErasesGap(a + "=", [w2], "\"");
    assert a + "=" + [w2] + "\"" == a + ("=" + [w2] + "\"");
    assert a + "=" + "\"" == a + "=\"";
    ErasesTrans(a + [w1] + "=" + [w2] + "\"", a + "=" + [w2] + "\"", a + "=\"");
  }
}
