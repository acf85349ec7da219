# Menu corruption repair, modelled in Dafny

`fix_menu_corruption.py` repairs a TypeScript menu file whose hyphens and
tag brackets were corrupted by stray spaces. Examples are `</ div>`,
`data - order=`, `box - shadow` and `.mp-mode - btn`. The script reads the
file and runs a fixed sequence of passes over its text:

1. closing tags `</ name>`;
2. opening tags `< name`;
3. hyphenated attribute names `a - b=`;
4. spacing around `=` before a quote, as in `style = "`;
5. one pass for each of fifteen known CSS property prefixes (`box - shadow`);
6. a table of literal selector repairs, then a table of literal prose repairs.

It writes the file back only when the text changed.

This project models that text transformation:

- `Chars` holds the regular-expression character classes: `\s`, `[a-zA-Z0-9]`, `[a-zA-Z0-9-]`, `[a-zA-Z-]` and the `\b` word boundary. It also defines a greedy run of one class.
- `SpaceErasure` holds the central invariant. `ErasesSpace(s, t)` holds when `t` is `s` with some whitespace characters deleted.
- `Scan` is a generic model of `re.sub`. It scans left to right, takes the leftmost match, and continues after the match without overlapping it.
- `Patterns` holds the five regular expressions as matchers at a position. Each has a `Found` lemma (the match it produces) and a `Parse` lemma (what any match looks like).
- `StrReplace` models Python's `str.replace` for a literal pattern.
- `MenuRepair` holds the known-property list and the two replacement tables. It also holds the whole pipeline `Repair` and the write-back decision `Run`.
- `RepairExamples` proves the concrete repairs the script's comments promise.
- `RepairRerun` shows that running the script twice can change the text again.
- `RepairScenario` follows one corrupted line of the menu through the whole script.

Running the script a second time can still change the text. In `x - y = "`, step 3 finds nothing because the `=` is still spaced. Step 4 then closes the `=`, and only a second run joins `x-y`. `RepairRerun.RepairNotIdempotent` proves this. `MenuRepair.RepairIdempotentWhenSpaceFree` proves the weaker statement that does hold: a run is idempotent once no whitespace is left.

## Model

| member | source | states |
|---|---|---|
| Chars.IsSpace | fix_menu_corruption.py:12 | Python's `\s`: exactly the characters `str.isspace` accepts; no such character is a word character or one of `- < > / = "`, and space, tab, newline and carriage return are in it |
| Chars.AtWordBoundary | fix_menu_corruption.py:20 | ASCII `\b`: before a word character it holds exactly at a word start, after one exactly at a word end, and it needs a word character on one side |
| Chars.IsWordChar | fix_menu_corruption.py:20 | `\w` restricted to ASCII `[A-Za-z0-9_]`, the word characters of `\b` |
| Chars.InClass | fix_menu_corruption.py:12-37 | the four character classes the patterns repeat with `+`: `[a-zA-Z0-9]`, `[a-zA-Z0-9-]`, `[a-zA-Z-]` and `\s` |
| Chars.RunEnd | fix_menu_corruption.py:12 | a greedy `+` run: every character up to the returned end is in the class, and the character at the end is not |
| Chars.RunEndUnique | fix_menu_corruption.py:12 | any maximal run of the class starting at a position ends where the greedy run ends |
| SpaceErasure.ErasesTrans | fix_menu_corruption.py:12-121 | deleting whitespace twice in a row is deleting whitespace once, so consecutive passes compose |
| SpaceErasure.ErasesLength | fix_menu_corruption.py:12-121 | deleting whitespace never lengthens the text |
| SpaceErasure.ErasesSameLength | fix_menu_corruption.py:123 | a whitespace deletion that keeps the length is the identity |
| SpaceErasure.ErasesKeepsNonSpace | fix_menu_corruption.py:12-121 | deleting whitespace keeps every other character, in order |
| SpaceErasure.StripIsOnlySpaceFreeErasure | fix_menu_corruption.py:12-15 | the whitespace-free text reachable by deleting whitespace is unique: it is the stripped text |
| SpaceErasure.ErasesFromNoSpace | fix_menu_corruption.py:12-121 | text without whitespace can only be erased to itself |
| Scan.SubFrom | fix_menu_corruption.py:12-37 | the `re.sub` scan from a position: where nothing matches the character is copied first, and at the end of the text nothing is left; `Scan.SubLeftmost` gives the matched case |
| Scan.SubNoMatch | fix_menu_corruption.py:12-37 | text in which nothing matches from a position on is copied unchanged |
| Scan.SubFromLength | fix_menu_corruption.py:12-37 | when every replacement is shorter than its match, the scan never lengthens the text |
| Scan.SubFromErases | fix_menu_corruption.py:12-37 | a substitution whose matches only delete whitespace only deletes whitespace from the whole text |
| Scan.SubLeftmost | fix_menu_corruption.py:12-37 | `re.sub` keeps the text before the leftmost match, puts in the replacement, and continues after the match |
| Scan.SubUnchangedIff | fix_menu_corruption.py:12-37 | a substitution with shrinking matches leaves the text unchanged exactly when it matches nowhere |
| Patterns.MatchCloseTag | fix_menu_corruption.py:12 | a match of `</\s+([a-zA-Z0-9]+)>` starts with `</`, ends at `>`, and its replacement is the match with its whitespace deleted |
| Patterns.CloseTagFound | fix_menu_corruption.py:12 | `</`, whitespace, an alphanumeric name and `>` match, and are replaced by `</name>` |
| Patterns.CloseTagParse | fix_menu_corruption.py:12 | every closing-tag match is `</`, whitespace, an alphanumeric name and `>` |
| Patterns.MatchOpenTag | fix_menu_corruption.py:15 | a match of `<\s+([a-zA-Z0-9]+)` starts with `<`, takes the whole name, and only deletes the whitespace |
| Patterns.OpenTagFound | fix_menu_corruption.py:15 | `<`, whitespace and a maximal alphanumeric name match, and are replaced by `<name` |
| Patterns.OpenTagParse | fix_menu_corruption.py:15 | every opening-tag match is `<`, whitespace and a maximal alphanumeric name |
| Patterns.MatchHyphenAttr | fix_menu_corruption.py:20 | a match of `\b([a-zA-Z0-9]+)\s-\s([a-zA-Z0-9]+)=` starts at a word boundary, ends at `=`, and its replacement is the match with every whitespace character deleted |
| Patterns.HyphenAttrFound | fix_menu_corruption.py:20 | `a`, one whitespace, `-`, one whitespace, `b`, `=` at a word boundary becomes `a-b=` |
| Patterns.HyphenAttrParse | fix_menu_corruption.py:20 | every hyphenated-attribute match has that shape, so without `=` right after the second word nothing matches |
| Patterns.MatchEqualsAttr | fix_menu_corruption.py:23 | a match of `\b([a-zA-Z0-9-]+)\s=\s"` ends at the quote and its replacement ends in `="` |
| Patterns.EqualsAttrFound | fix_menu_corruption.py:23 | a name, one whitespace, `=`, one whitespace and `"` at a word boundary becomes `name="` |
| Patterns.EqualsAttrParse | fix_menu_corruption.py:23 | every `=` match has that shape |
| Patterns.MatchKnownProp | fix_menu_corruption.py:36-37 | a match of `\b` + prefix + `\s-\s([a-zA-Z-]+)` starts at a word boundary with the prefix, only deletes whitespace, and its replacement starts with the prefix and `-` |
| Patterns.KnownPropFound | fix_menu_corruption.py:36-37 | prefix, ` - ` and a maximal run of letters and hyphens at a word boundary become prefix-word |
| Patterns.KnownPropParse | fix_menu_corruption.py:36-37 | every known-property match is the prefix, ` - ` and a maximal run of letters and hyphens, and is replaced by prefix, `-` and that run |
| Patterns.MatchAt | fix_menu_corruption.py:12-37 | every pattern's match lies within the text, is non-empty, and its replacement is shorter and only deletes whitespace |
| Patterns.MatcherSound | fix_menu_corruption.py:12-37 | every pass advances, shrinks its matches, and only deletes whitespace |
| Patterns.Sub | fix_menu_corruption.py:12-37 | each `re.sub` pass only deletes whitespace from the text |
| Patterns.PassUnchangedIff | fix_menu_corruption.py:12-37 | a pass leaves the text unchanged exactly when its pattern matches at no position |
| Patterns.PassKeepsSpaceFree | fix_menu_corruption.py:12-37 | a pass leaves text without whitespace unchanged |
| Patterns.PassSingleMatch | fix_menu_corruption.py:12-37 | a pass with one match rewrites only that match |
| Patterns.PassNeedsMarker | fix_menu_corruption.py:12-37 | text lacking a pattern's required character (`<`, `=`, `"` or `-`) passes unchanged |
| Patterns.CloseTagNeedsSlash | fix_menu_corruption.py:12 | no closing tag starts before a position when no `/` follows any earlier position |
| Patterns.OpenTagNeedsSpace | fix_menu_corruption.py:15 | step 2 leaves alone text in which no `<` is followed by whitespace |
| Patterns.HyphenAttrNeedsHyphenFirst | fix_menu_corruption.py:20 | step 3 leaves alone text in which every `=` comes before every `-` |
| Patterns.EqualsAttrNeedsSpace | fix_menu_corruption.py:23 | step 4 leaves alone text in which no `=` follows whitespace |
| Patterns.KnownPropNeedsPrefixBeforeHyphen | fix_menu_corruption.py:36-37 | a property pass leaves alone text in which no `-` stands where the prefix's first letter and a whitespace would put it |
| Patterns.KnownPropPassAbsent | fix_menu_corruption.py:36-37 | text without the property prefix passes that property's pass unchanged |
| Patterns.CloseTagWhole | fix_menu_corruption.py:11-12 | `</` + whitespace + name + `>` becomes `</name>` |
| Patterns.OpenTagWhole | fix_menu_corruption.py:14-15 | `<` + whitespace + name becomes `<name` |
| Patterns.HyphenAttrWhole | fix_menu_corruption.py:17-20 | `a - b=` becomes `a-b=` for alphanumeric `a` and `b` and one whitespace character on each side of `-` |
| Patterns.EqualsAttrWhole | fix_menu_corruption.py:22-23 | `name = "` becomes `name="` |
| Patterns.KnownPropWhole | fix_menu_corruption.py:33-37 | `prop - word` becomes `prop-word` |
| StrReplace.ReplaceAll | fix_menu_corruption.py:62-121 | `str.replace` with a replacement no longer than the pattern never lengthens the text |
| StrReplace.ReplaceErases | fix_menu_corruption.py:62-121 | when the replacement is the pattern with whitespace deleted, `str.replace` only deletes whitespace |
| StrReplace.ReplaceAbsent | fix_menu_corruption.py:62-121 | a pattern that does not occur leaves the text unchanged |
| StrReplace.ReplaceLeftmost | fix_menu_corruption.py:62-121 | `str.replace` keeps the text before the leftmost occurrence, replaces it, and continues after it |
| StrReplace.ReplaceWhole | fix_menu_corruption.py:62-121 | text that is exactly the pattern becomes the replacement |
| StrReplace.FirstOccurrence | fix_menu_corruption.py:62-121 | a pattern that occurs has a leftmost occurrence |
| StrReplace.ReplaceInMiddle | fix_menu_corruption.py:62-121 | an occurrence preceded by text that cannot start the pattern and followed by text without it is the one occurrence replaced |
| StrReplace.AbsentBySubword | fix_menu_corruption.py:62-121 | text lacking a piece of the pattern lacks the pattern |
| StrReplace.ReplaceUnchangedIff | fix_menu_corruption.py:62-121 | with a shorter replacement, the text changes exactly when the pattern occurs |
| MenuRepair.KnownCssProps | fix_menu_corruption.py:30-32 | the fifteen property prefixes, in the order the loop visits them |
| MenuRepair.SelectorFixes | fix_menu_corruption.py:62-114 | the 53 selector entries, in the order of the `replace` calls |
| MenuRepair.ProseFixes | fix_menu_corruption.py:119-121 | the three prose entries, in the order of the `replace` calls |
| MenuRepair.Broken | fix_menu_corruption.py:62-121 | the search text of a `replace` call: the words joined by ` - `, or the two parts around one space |
| MenuRepair.Fixed | fix_menu_corruption.py:62-121 | its replacement: the words joined by `-`, or the two parts joined |
| MenuRepair.FixErases | fix_menu_corruption.py:62-121 | every table entry searches for non-empty text and its repaired form is that text with whitespace deleted |
| MenuRepair.JoinErases | fix_menu_corruption.py:62-121 | words joined by ` - ` lose exactly two spaces per join when re-joined by `-` |
| MenuRepair.FixKnownProps | fix_menu_corruption.py:30-37 | the fifteen known-property passes together only delete whitespace |
| MenuRepair.FixKnownPropsAbsent | fix_menu_corruption.py:30-37 | text containing none of the prefixes passes the property step unchanged |
| MenuRepair.FixKnownPropsUnchanged | fix_menu_corruption.py:30-37 | when every property pass on its own leaves the text unchanged, so does the loop |
| MenuRepair.ApplyFixes | fix_menu_corruption.py:62-121 | applying a table of replacements in order only deletes whitespace |
| MenuRepair.ApplyFixesAbsent | fix_menu_corruption.py:62-121 | text containing no entry's broken form passes the table unchanged |
| MenuRepair.ApplyFixesKeepsSpaceFree | fix_menu_corruption.py:62-121 | text without whitespace passes every table unchanged |
| MenuRepair.ApplyFixesConcat | fix_menu_corruption.py:62-121 | applying two tables one after the other is applying their concatenation |
| MenuRepair.SkipAbsentEntry | fix_menu_corruption.py:62-121 | an entry whose broken form is absent has no effect |
| MenuRepair.LeadStartsBroken | fix_menu_corruption.py:62-121 | each entry's broken form starts with its first word |
| MenuRepair.AbsentByLead | fix_menu_corruption.py:62-121 | an entry whose first word has a character missing from the text does not occur in it |
| MenuRepair.TableLeadsCover | fix_menu_corruption.py:62-121 | every entry of both tables starts with one of thirteen characters |
| MenuRepair.ApplyFixesMissingLeads | fix_menu_corruption.py:62-121 | a table none of whose entries can start in the text leaves it unchanged |
| MenuRepair.LiteralsNeedLead | fix_menu_corruption.py:62-121 | text without any of those thirteen characters passes both tables unchanged |
| MenuRepair.SpacedHyphenAfterLead | fix_menu_corruption.py:62-121 | an entry whose broken form breaks at a hyphen has ` -` right after its first word |
| MenuRepair.ApplyFixesNeedSpacedHyphen | fix_menu_corruption.py:62-121 | a table of such entries leaves text without ` -` unchanged |
| MenuRepair.LiteralsNeedSpacedHyphen | fix_menu_corruption.py:62-121 | text without ` -` passes both tables unchanged |
| MenuRepair.FixTags | fix_menu_corruption.py:12-15 | steps 1 and 2 together only delete whitespace |
| MenuRepair.FixAttributes | fix_menu_corruption.py:20-23 | steps 3 and 4 together only delete whitespace |
| MenuRepair.FixLiterals | fix_menu_corruption.py:62-121 | the two literal tables together only delete whitespace |
| MenuRepair.Repair | fix_menu_corruption.py:12-121 | the whole pipeline only deletes whitespace, never lengthens the text, and keeps every other character in order |
| MenuRepair.Run | fix_menu_corruption.py:123-128 | the file is written back exactly when the text differs from the snapshot taken on line 9, which is exactly when the text got shorter |
| MenuRepair.RunKeepsSpaceFree | fix_menu_corruption.py:123-128 | a file without whitespace is left alone and not written |
| MenuRepair.RepairIdempotentWhenSpaceFree | fix_menu_corruption.py:123-128 | once a run leaves no whitespace, a second run changes nothing and writes nothing |
| RepairRerun.RepairNotIdempotent | fix_menu_corruption.py:20-23 | on `x - y = "` the first run yields `x - y="` and a second run yields `x-y="`, and both runs write the file |
| RepairExamples.CloseTagExample | fix_menu_corruption.py:11 | `</ div>` becomes `</div>` |
| RepairExamples.CloseTagHyphenatedUntouched | fix_menu_corruption.py:12 | `</ my-div>` is not a closing-tag match and is left alone |
| RepairExamples.OpenTagExample | fix_menu_corruption.py:14 | `< div` becomes `<div` |
| RepairExamples.HyphenAttrExample | fix_menu_corruption.py:17 | `data - order=` becomes `data-order=` |
| RepairExamples.HyphenAttrNeedsEquals | fix_menu_corruption.py:19-20 | `data - order` without `=` is left alone |
| RepairExamples.EqualsAttrExample | fix_menu_corruption.py:22 | `style = "` becomes `style="` |
| RepairExamples.KnownPropExample | fix_menu_corruption.py:25-37 | `box - shadow` becomes `box-shadow` in the `box` pass, and the whole fifteen-pass property loop yields `box-shadow` |
| RepairExamples.KnownPropsAfterFirst | fix_menu_corruption.py:30-37 | when the first property pass leaves text without whitespace, the whole loop yields that text |
| RepairExamples.NonAsciiBeforeHyphen | fix_menu_corruption.py:23 | `é- = "` is left as it is, since `é` is no ASCII word character and no `\b` stands before the `-` |
| RepairExamples.FreeForUntouched | fix_menu_corruption.py:28-37 | `Free - For:` passes the known-property step unchanged |
| RepairExamples.WholeEntryThenSettled | fix_menu_corruption.py:62-121 | text that is exactly the first entry's broken form becomes its repaired form, and later entries have nothing left to act on |
| RepairExamples.SelectorExample | fix_menu_corruption.py:62 | `.mp-mode - btn` becomes `.mp-mode-btn` through the whole selector table |
| RepairExamples.DoubleSelectorExample | fix_menu_corruption.py:63 | `#mp-join - room - modal` becomes `#mp-join-room-modal` through the whole selector table |
| RepairExamples.ApplyTwo | fix_menu_corruption.py:65-66 | a two-entry table is two `str.replace` calls in a row |
| RepairExamples.ReplaceAtStart | fix_menu_corruption.py:66 | a pattern at the start, followed by text too short to hold it again, is replaced once |
| RepairExamples.RoomDetailsExample | fix_menu_corruption.py:65-66 | `mp - room - details` becomes `mp-room-details` through the entries of lines 65 and 66, in that order |
| RepairScenario.RoomDetailsThroughSelectors | fix_menu_corruption.py:62-114 | `mp - room - details` becomes `mp-room-details` through the whole selector table: the first three entries find nothing, lines 65 and 66 join it, and the rest find nothing |
| RepairScenario.RoomDetailsLine | fix_menu_corruption.py:9-128 | the whole script turns `<div class="mp - room - details"> text </ div>` into `<div class="mp-room-details"> text </div>`, and the file is written |
| RepairScenario.ThroughThreeParts | fix_menu_corruption.py:62-114 | a table in three parts whose first part changes nothing applies as its second and third parts |
| RepairScenario.ReplaceInClassName | fix_menu_corruption.py:65-66 | a replacement whose pattern occurs once, inside the class name of a line, rewrites only the class name |
| RepairExamples.ProseGapExample | fix_menu_corruption.py:119 | `Free -for-All` becomes `Free-for-All` through the prose table |
| RepairExamples.ProseHyphenExample | fix_menu_corruption.py:120 | `Co - op` becomes `Co-op` through the prose table |

## Left out

- Reading and writing the file (lines 4-7, 124-125) and the two messages (lines 126, 128) are not modelled. `MenuRepair.Run` returns the repaired text and the write decision instead. The file is opened in text mode, so reading turns `\r\n` and a lone `\r` into `\n`, and writing turns every `\n` into the platform's line separator (`\r\n` on Windows, where the path on line 4 points). The model works on the newline-normalised text, and its whitespace-only guarantee is about that text, not the file's bytes: a rewritten file with `\n` line ends gains a `\r` on every line.
- The prefix loop on lines 45-58 does nothing (its body is `pass`), so it is not modelled.
- `\b` uses ASCII `[A-Za-z0-9_]` as the word characters. Python's `\w` also counts non-ASCII letters and digits, so a pattern preceded by, say, `é` is treated as starting at a boundary here when Python would not match. The reverse also happens: in `é- = "` Python sees a boundary between `é` and `-` and step 4 yields `é-="`, while here no boundary stands there and the text is left as it is (`RepairExamples.NonAsciiBeforeHyphen`). `\s` is exactly the set of characters Python's `str.isspace` accepts.
- The replacement on line 37 is a Python lambda. It is modelled directly as the text it builds (prefix, `-`, captured word).
- StrReplace.ReplaceAll: only non-empty search strings are modelled, because `str.replace` with an empty pattern inserts the replacement between characters and every table entry is non-empty.
- General idempotence is not proved, because the code does not have it (`RepairRerun.RepairNotIdempotent`). `MenuRepair.RepairIdempotentWhenSpaceFree` states the case in which a re-run is harmless.
