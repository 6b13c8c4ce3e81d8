# dawn-tools text logic in Dafny

This project models the pure text logic of the dawn-tools VS Code extension.
The editor is reduced to the document's text, with positions as offsets into it.
The third-party parsers are inputs to the model:

- hyntax's node for a tag is the record `TagAst.RawTag`;
- posthtml-parser's "is this an element" check is the predicate `accepts`;
- the TypeScript parser is the function `parse` returning a `Bracket.Syntax` record;
- the matches of a caller's regular expression in `getNearMatch` are a list of `Nearest.RegexMatch`.

Modules, one per concern of the source:

- `Wrappers`: `Option` (the extension's `undefined` returns) and `Result` (its exceptions).
- `JsText`: the JavaScript string primitives used, over `seq<char>`:
  - `trim`, `trimEnd`, `indexOf`, `lastIndexOf`, `substring`;
  - `split` on one character, `join`, `replaceAll`;
  - the regex classes `\s` and `\w`.
- `Offsets`: `positionOffset`, the host's clamping of offsets, and line numbers and line starts as counts of `'\n'`.
- `Paths`: `formatFilePath`, `getRootPath` and `getFileName`.
- `FileCommand`: the `dawn-tools.file.name.copy` command.
- `Indentation`: `getIndentationMode` and `getLineIndent`.
- `Nearest`: the first-smallest-distance rule shared by `getNearPosition`, `getNearHtmlAttr` and `getNearMatch`.
- `TagScan`: `getHtmlStartIndex`, `getHtmlEndIndex` and `getNowHtmlTagRange`.
- `TagAst`: the post-processing of `getHtmlAst`, plus `isTagWrap` and `getNearHtmlAttr`.
- `HtmlFormat`: the `dawn-tools.html.format` command, which reflows a tag between one line and one attribute per line.
- `Symbols`: `symbol_map`, `symbol_map_get` and the `dawn-tools.other.symbol` command.
- `VueScroll`: the `dawn-tools.vue.scrollTo` command.
- `History`: the bounded selection history of `src/store.ts`.
- `Bracket`: `getBracketAst`, from its empty check to the offsets of its nodes.

After a failed end search, `getNowHtmlTagRange` retries from the `<` it has just found (src/tools.ts:151).
On a `<` the start search returns the cursor itself (src/tools.ts:108), so the retry finds the same `<` again and the loop never ends (see Findings).
`TagScan.NowTagRangeAsWritten` models the loop as written.
`TagScan.NowTagRange` retries one character before the `<`, the only retry that makes progress, and stops at the start of the document.
The two agree whenever the written loop finishes (`TagScan.NowTagRangeAgrees`).

## Model

| member | source | states |
|---|---|---|
| JsText.Trim | src/html.ts:22 | The result is the slice of the input between its leading and trailing white space. It is empty exactly when the input is all white space. |
| JsText.TrimOfTrimmed | src/html.ts:13-14 | Trimming a string with no white space at either end changes nothing. |
| JsText.TrimEnd | src/tools.ts:160 | The result is the longest prefix not ending in white space; all removed characters are white space. |
| JsText.IndexOf | src/tools.ts:275 | `indexOf(pat, from)` is the first occurrence at or after the clamped `from`, or -1 exactly when none occurs there. |
| JsText.LastIndexOf | src/tools.ts:111 | `lastIndexOf` gives an occurrence with none after it, or -1. |
| JsText.Substring | src/tools.ts:274 | `substring` clamps both ends into the string and swaps them when reversed. |
| JsText.Split | src/tools.ts:46 | `split` on one character gives at least one part, and no part holds the separator. There is exactly one part when the separator is absent. |
| JsText.Join | src/html.ts:33 | `join` begins with the first part. |
| JsText.JoinAsConcat | src/html.ts:33 | For every list of parts, `join` is fixed: the separator followed by the join equals the concatenation of the parts, each with the separator put in front. |
| JsText.JoinEndsWithLast | src/html.ts:33-36 | `join` ends with the last part. |
| JsText.SplitJoin | src/tools.ts:46 | Joining the parts of a split with the separator gives the string back. |
| JsText.LastCharIndexUnique | src/tools.ts:46-47 | The last index of a character is the only index after which that character no longer occurs. |
| JsText.ReplaceAll | src/tools.ts:74 | `replaceAll` leaves a string shorter than the pattern unchanged, and replacing a pattern by itself changes nothing. |
| JsText.ReplaceAllNone | src/tools.ts:74 | `replaceAll` leaves a string in which the pattern occurs nowhere unchanged. |
| JsText.ReplaceAllAt | src/html.ts:33-36 | At the first occurrence `k`, `replaceAll` keeps the text before `k`, puts the replacement for the occurrence, and goes on from just after it. So replacements are leftmost and never overlap. |
| JsText.ReplaceAllAbsent | src/html.ts:33 | `replaceAll` leaves a string unchanged when the pattern's first character is absent. |
| JsText.ReplaceAllSameLength | src/tools.ts:74 | `replaceAll` with a same-length replacement keeps the length. |
| JsText.IndentRoundTrip | src/html.ts:33-36 | Replacing `"\n"` by `"\n" + tab` and then `"\n" + tab` by `"\n"` restores any string, for any `tab`. |
| Offsets.Validate | src/tools.ts:88 | `positionAt` clamps an offset into `[0, len]`, and offsets inside are kept. |
| Offsets.PositionOffset | src/tools.ts:79-89 | For a non-empty document the result is `at + delta` clamped to `[0, len - 1]`, so the end offset `len` is never returned. |
| Offsets.LineOf | src/tools.ts:196-199 | `positionAt(off).line` is 0 exactly when no `'\n'` precedes the clamped offset. It never exceeds the number of line breaks. |
| Offsets.SameLineIff | src/tools.ts:196-199 | Two offsets are on the same line exactly when no `'\n'` lies between them. |
| Offsets.LineStart | src/tools.ts:224 | `Position(line, 0)` is the first offset with `line` line breaks before it, or the end of a shorter document. It sits just after a `'\n'`. |
| Offsets.LineStartBefore | src/tools.ts:224 | A line whose break count is reached by `off` starts at or before `off`. |
| Offsets.LineStartAfter | src/tools.ts:224 | A line below the one holding `off` starts at or after `off`. |
| Offsets.LineOfLineStart | src/tools.ts:224 | The start of an existing line lies on that line. |
| Offsets.LineBegin | src/html.ts:30 | The start of the line holding `off` is at or before `off`, with no `'\n'` in between, and just after a `'\n'` or at 0. |
| Offsets.LineText | src/html.ts:30 | `lineAt(...).text` is the document's text from the line's start up to the next `'\n'` or the document's end, reaching at least `off`. It holds no line break. |
| Offsets.Indentation | src/html.ts:31 | `text.substring(0, firstNonWhitespaceCharacterIndex)` is the line's maximal white-space prefix. |
| Paths.Slashes | src/tools.ts:32 | `replace(/\\/g, '/')` turns each backslash into `/` and keeps every other character in place. No backslash remains, and a path without one is unchanged. |
| Paths.FormatFilePath | src/tools.ts:30-35 | The output has no backslash. A leading `/X:` loses its slash. A lower-case leading drive letter is upper-cased. Everything else only has `\` turned into `/`. |
| Paths.FormatFilePathIdempotent | src/tools.ts:30-35 | Formatting twice equals formatting once. |
| Paths.FormatKeepsTrailingSlash | src/tools.ts:30-35 | A path ending in a slash or backslash still ends in `/` once formatted. |
| Paths.RootPath | src/tools.ts:38-42 | `getRootPath` is nothing exactly when no formatted root prefixes the formatted path. Otherwise it is the formatted path of the first root that does. |
| Paths.FirstRoot | src/tools.ts:41 | `roots.find(root => path.startsWith(root))`: the first root that is a prefix, or nothing when none is. |
| Paths.StripExtension | src/tools.ts:47 | `replace(/(.+)\..*/, '$1')` on a one-line string drops the text from the last `.` when a character precedes it. Otherwise it keeps the string. It adds no `/`. |
| Paths.SplitLast | src/tools.ts:46-47 | The last element of `split(c)` is the text after the last `c`. |
| Paths.SplitSecondLast | src/tools.ts:46-50 | With a `c` present, the last element but one of `split(c)` is the segment before the last `c`. |
| Paths.SplitLastPart | src/tools.ts:46-47 | `result.at(-1)` is the last `/` segment of the formatted path. |
| Paths.SplitSecondLastPart | src/tools.ts:50 | `result.at(-2)` is the segment before the last `/`. |
| Paths.NameOf | src/tools.ts:46-52 | The stem of the last segment is returned unless it is `index`. Then the parent segment is returned, or nothing without a `/`. |
| Paths.FileName | src/tools.ts:45-53 | `getFileName` states the same as `NameOf` on the formatted path. |
| FileCommand.CopyFileName | src/file.ts:5-15 | The name copied and returned is `getFileName`'s result when it is non-empty, and then holds no `/`. Nothing is copied exactly when that name is missing or empty. |
| FileCommand.TrailingSlashCopiesNothing | src/file.ts:6-12 | A path ending in a slash copies nothing. |
| FileCommand.BareIndexCopiesNothing | src/file.ts:9-12 | A bare `index` has no parent segment, so nothing is copied. |
| FileCommand.IndexHasNoName | src/tools.ts:49-52 | `getFileName("index")` is nothing. |
| FileCommand.IndexHasNoExtension | src/tools.ts:47 | `index` has no extension to strip. |
| Indentation.GetIndentationMode | src/tools.ts:56-66 | The size is the tab size, and the unit is never empty. The unit is that many spaces when inserting spaces, else one tab. The line break is `\n` exactly for LF documents, else `\r\n`. |
| Indentation.GetLineIndent | src/tools.ts:69-76 | The text is the line's leading white space. With a tab unit its width is its length. With a space unit and space indentation its width counts each whole unit once. |
| Indentation.IndentWidth | src/tools.ts:74 | `text.replaceAll(tab, ' ').length` is the length of the text for a tab unit. For space indentation under a space unit it counts each whole unit once plus the spaces left over. |
| Indentation.SpaceUnits | src/tools.ts:74 | `replaceAll(unit, ' ').length` on `l` spaces is the number of whole units plus the spaces left over. |
| Nearest.SpanDistance | src/tools.ts:211 | The distance to a span is the smaller of the distances to its two ends. |
| Nearest.Min | src/tools.ts:97 | `Math.min(...xs)` is an element no larger than any other. |
| Nearest.FirstIndex | src/tools.ts:98 | `indexOf(v)` is -1 exactly when `v` is absent, else the first position holding `v`. |
| Nearest.ArgMin | src/tools.ts:96-98 | `xs.indexOf(Math.min(...xs))` is a smallest element with no earlier one as small. |
| Nearest.FirstMinUnique | src/tools.ts:96-98 | The first smallest index is unique, so ties go to the lowest index. |
| Nearest.PointDistances | src/tools.ts:95-96 | There is one distance per position: its absolute difference from the cursor, which is zero exactly at the cursor. |
| Nearest.NearPosition | src/tools.ts:92-99 | `getNearPosition` is nothing exactly for an empty list. Otherwise it returns a listed position at the smallest distance, the first such one. |
| Nearest.MatchWindow | src/tools.ts:224-225 | The searched range contains the cursor. It starts at the start of the line above the cursor, or of line 0. It ends at the start of the second line below the cursor when the document has that line, and at the end of the document exactly when it does not. |
| Nearest.TranslateOnLine | src/tools.ts:239 | `translate(0, length)`, once the host validates it, moves `length` characters along the start's line or stops at that line's end. No line break lies in between. |
| Nearest.NearMatchIn | src/tools.ts:226-240 | For matches measured from the window start: nothing exactly when there are none. Otherwise it reports the first match at the smallest distance from the cursor, with its start mapped into the document, and its range runs `|value|` characters along the start's line or stops at that line's end. |
| Nearest.NearMatch | src/tools.ts:220-241 | `getNearMatch` states the same as `NearMatchIn` for the window of the lines around the cursor. |
| TagScan.WordEnd | src/tools.ts:109 | `\w+` extends over word characters up to the first character that is not one. |
| TagScan.TagOpenMatches | src/tools.ts:109 | Each match of `/<\w+/g` from `p` on starts at a `<` followed by a word character and covers that whole word. The matches run strictly left to right. |
| TagScan.LastTagOpenMatch | src/tools.ts:109 | The matches of `/<\w+/g` are empty exactly when no `<` followed by a word character exists. Otherwise the last one starts at the rightmost such `<`. |
| TagScan.LastIndexOfLastMatch | src/tools.ts:111 | `lastIndexOf` of the last match's text finds that match's start again. |
| TagScan.LastTagOpen | src/tools.ts:109-112 | The start of the last `/<\w+/` match, or nothing when there is none. |
| TagScan.StartIndex | src/tools.ts:102-114 | It is the cursor when the character at the cursor is `<`. Otherwise it is the rightmost `<` before a word character in the text up to the cursor, and nothing exactly when there is none. |
| TagScan.StartIndexSkips | src/tools.ts:102-114 | `getHtmlStartIndex` skips no `<` followed by a word character between its result and the cursor. When it returns nothing, there is none at or before the cursor. |
| TagScan.StartIndexFixedPoint | src/tools.ts:108 | Searching again from a start just found finds that start again. |
| TagScan.EndScan | src/tools.ts:122-134 | The `do … while` over `/>/g` stops just past the first `>` whose prefix is accepted. No earlier `>` is accepted. |
| TagScan.EndIndex | src/tools.ts:117-137 | `getHtmlEndIndex` is one past the first `>` at or after the start whose prefix from the start is accepted. It is nothing exactly when there is no such `>`. |
| TagScan.NowTagRangeAsWritten | src/tools.ts:140-154 | The written loop, run for a given number of rounds. A range it returns starts where `getHtmlStartIndex` points. |
| TagScan.NowTagRangeAsWrittenStalls | src/tools.ts:146-152 | Once the end search fails, the written loop finishes within no number of rounds. |
| TagScan.UnterminatedTagStalls | src/tools.ts:146-152 | With the cursor in an unterminated `<a`, the written loop never finishes. |
| TagScan.NowTagRange | src/tools.ts:140-154 | A range found starts at or before the cursor at a `<`, ends just past a `>`, and is accepted. No shorter range from that `<` is accepted. It is the nearest: no `<` followed by a word character between its start and the cursor has an accepted end. When nothing is found, none at or before the cursor has one. |
| TagScan.FoundRange | src/tools.ts:147-153 | A start and an end found together form such a range. |
| TagScan.NowTagRangeAgrees | src/tools.ts:140-154 | Whenever the written loop finishes, the corrected search returns the same answer. |
| TagAst.TrimEndToken | src/tools.ts:159-161 | `trimEnd` keeps a prefix, removes only white space, and moves `endPosition` back by exactly the number of characters removed. |
| TagAst.PostAttr | src/tools.ts:164-181 | A keyed attribute is kept exactly when its trimmed key or its value is present. It is kept with `assembly` = key, plus `=` wrapper value wrapper when valued, and it ends at its last token. |
| TagAst.PostAttrText | src/tools.ts:168-180 | One attribute's kept text is its raw text, and it is kept exactly when that text is non-empty. |
| TagAst.Kept | src/tools.ts:164-181 | The indices of the attributes that contribute text are exactly those with non-empty text, each once, in increasing order. |
| TagAst.KeylessStep | src/tools.ts:165 | Some attribute lacks a key exactly when the first does or a later one does. |
| TagAst.PostAttrs | src/tools.ts:164-181 | The `flatMap` throws exactly when an attribute lacks a key. Otherwise its `j`th result is built from the `j`th attribute with text, each is consistent, and no attribute text is lost. |
| TagAst.KeptInOrderStep | src/tools.ts:164-181 | The attributes kept from the first attribute, followed by those kept from the rest, come in the order of the attributes they were built from. |
| TagAst.PostAttrsStep | src/tools.ts:164-181 | The attributes kept from the first and from the rest, together, are those kept from all. |
| TagAst.HtmlAst | src/tools.ts:157-187 | The open start is end-trimmed and `isClose` holds exactly when the open end starts with `/`. `attributes` is deleted exactly when none remain. Otherwise the `j`th kept attribute comes from the `j`th raw attribute with text. It throws exactly on a keyless attribute. |
| TagAst.IsTagWrap | src/tools.ts:190-200 | The tag wraps exactly when a `'\n'` lies between its `<` and the offset just inside its first node. |
| TagAst.NearHtmlAttr | src/tools.ts:203-217 | `getNearHtmlAttr` is nothing exactly for a tag without attributes. Otherwise it is the first attribute at the smallest distance, reported with the cursor's offset in the tag. |
| HtmlFormat.FirstBroken | src/html.ts:17-20 | The first attribute whose text throws when read (missing key, or a value without wrappers), if any. |
| HtmlFormat.NonBlank | src/html.ts:23 | The strings left are exactly the input's non-empty strings: none is empty and every non-empty input string is among them. |
| HtmlFormat.NonBlankSingle | src/html.ts:23 | One string is kept exactly when it is not empty. |
| HtmlFormat.NonBlankAppend | src/html.ts:23 | Filtering a concatenation filters each part in turn. With `NonBlankSingle` this fixes the result as the non-empty strings in input order. |
| HtmlFormat.NonBlankKeepsText | src/html.ts:23 | Dropping the empty strings loses no text: the concatenation is unchanged. |
| HtmlFormat.AttrStrings | src/html.ts:17-24 | The attribute strings throw exactly when some attribute is broken. Otherwise they are exactly the attributes' trimmed texts in order with the empty ones dropped, one per non-blank attribute. |
| HtmlFormat.AttrStringsFault | src/html.ts:17-20 | The error thrown is that of the first broken attribute. |
| HtmlFormat.AttrStringsTrimmed | src/html.ts:22-23 | Every attribute string is non-blank and trimmed. |
| HtmlFormat.AttrStringsKeepText | src/html.ts:17-24 | The strings are the attributes' trimmed texts in order with blanks left out, so no text is lost or reordered. |
| HtmlFormat.FirstKeyed | src/html.ts:26 | `find(attr => attr.key.content.trim())` is the first attribute with a non-blank key, or nothing. |
| HtmlFormat.Reflow | src/html.ts:13-14 | The new tag begins with the trimmed open start and ends with the trimmed open end. |
| HtmlFormat.ExpandLayout | src/html.ts:30-34 | Expanded: each attribute follows `"\n" + baseTab + tab`, with its line breaks re-indented by `tab`. Then `"\n" + baseTab` and the end follow. |
| HtmlFormat.CollapseLayout | src/html.ts:36-37 | Collapsed: each attribute follows a space, with `"\n" + tab` turned back into `"\n"`. A space comes before an end starting with `/`. |
| HtmlFormat.CollapseUndoesExpand | src/html.ts:33-36 | Collapsing the attributes undoes expanding them, for any indentation unit. |
| HtmlFormat.CollapseOfExpanded | src/html.ts:33-37 | Collapsing an expanded attribute list yields the original attributes joined by spaces. |
| HtmlFormat.KeyLineIff | src/html.ts:27-29 | The command's comparison of line numbers holds exactly when no line break lies between the tag's `<` and the first key. |
| HtmlFormat.Format | src/html.ts:11-38 | It throws without attributes, on the first broken attribute, and when no key is non-blank. Otherwise it reflows. The tag is expanded exactly when the first keyed attribute is on the tag's line, with the line's indentation as base. |
| HtmlFormat.FormatHasAttributes | src/html.ts:17-37 | A formatted tag always has at least one attribute string to lay out. |
| HtmlFormat.FormatCommand | src/html.ts:6-42 | With the tag found by the corrected `NowTagRange`: nothing happens exactly when no tag surrounds the cursor. A fault occurs exactly when formatting throws. Otherwise only the tag's range is replaced by the new tag, with the text before and after kept. |
| Symbols.SymbolMapValid | src/other.ts:3-25 | Every key of `symbol_map` is non-empty and made of full-width symbol characters. Every value is ASCII. |
| Symbols.CandidateStart | src/other.ts:27-28 | A match starts at a full-width symbol character. |
| Symbols.KeyAt | src/other.ts:27 | The alternation tries the keys in `Object.keys` order and takes the first that matches at a position. |
| Symbols.FindFrom | src/other.ts:28-30 | The regular expression's match is the leftmost position where some key matches. It is nothing exactly when no position does. |
| Symbols.SymbolMapGetAsWritten | src/other.ts:26-37 | As written, the result is the leftmost key after which no key character, no `(`, no `)` and no vertical bar follow, or null when there is none. |
| Symbols.SymbolMapGet | src/other.ts:26-37 | Corrected, the result is the leftmost key after which no key character follows, that is the line's last symbol, or null. |
| Symbols.NothingAfterMatch | src/other.ts:28 | With the corrected class, no full-width symbol follows the matched key. |
| Symbols.NoSymbolNoMatch | src/other.ts:30-31 | A line without symbol characters gives null. |
| Symbols.CandidateAppend | src/other.ts:28 | Appending a character that is not a symbol keeps every match, unless the class refuses that character, which blocks them all. |
| Symbols.FindDetermined | src/other.ts:28-30 | Texts with the same ways of matching get the same answer. |
| Symbols.AsWrittenAsciiBracketBlocks | src/other.ts:27-28 | As written, a line ending in `(`, `)` or a vertical bar has no symbol found. |
| Symbols.FullWidthBracketAsWritten | src/other.ts:27-28 | As written, `（x)` converts nothing. |
| Symbols.FullWidthBracketCorrected | src/other.ts:26-36 | Corrected, `（x)` yields key `（`, value `(`, index 0. |
| Symbols.TrailingAsciiIgnored | src/other.ts:28 | Corrected, typing a non-symbol character at the end does not change the result. |
| Symbols.LoneEllipsisBlocks | src/other.ts:7 | A lone `…` is no key, yet it keeps an earlier `！` from being found. |
| Symbols.FoundEntry | src/other.ts:31-35 | With either class, a result is an entry of `symbol_map` occurring at the reported index. |
| Symbols.ReplaceAtLowersCount | src/other.ts:46-51 | Replacing a found key by its value lowers the line's count of symbol characters. |
| Symbols.CommandWith | src/other.ts:40-53 | With the class as written or corrected: nothing happens exactly when nothing is found. Otherwise exactly `[index, index + key.length)` is replaced by the value, the rest of the line is kept, and the symbol count drops. |
| Symbols.BracketLineCommand | src/other.ts:26-53 | On the line `（x)` the command as written changes nothing. With the corrected class it gives `(x)`. |
| VueScroll.TestLineIff | src/vue.ts:7-8 | `reg.test(line)` holds exactly when the line is white space, then `<` + type, then a `>` somewhere after. |
| VueScroll.FindLine | src/vue.ts:8 | `findIndex` is -1 exactly when no line matches. Otherwise it is the first matching line. |
| VueScroll.LineToScroll | src/vue.ts:8-11 | The result is one past the first matching line's index, or nothing exactly when no line matches. |
| VueScroll.ScrollTo | src/vue.ts:4-12 | The command's result is the above for the document split at `'\n'`. |
| VueScroll.NoWordBoundary | src/vue.ts:7 | `<templateX>` matches the type `template`. |
| VueScroll.FirstLineGivesOne | src/vue.ts:8-11 | A tag on the first line gives 1. |
| History.Push | src/store.ts:5-8 | One event appends the selections and keeps the last `min(n, 5)` entries. |
| History.PushBoundedNewestLast | src/store.ts:6-7 | After an event the history holds at most 5 entries, and the newest is last. |
| History.PushFullDropsOldest | src/store.ts:7 | A push on a full history drops exactly the oldest entry and keeps the order of the rest. |
| History.PushShort | src/store.ts:6-7 | Below capacity a push keeps every entry. |
| History.After | src/store.ts:4-8 | After `n` events the history has `min(n, 5)` entries, and the newest event is last. |
| History.AfterKeepsLastEvents | src/store.ts:4-8 | After `n` events the history is the last `min(n, 5)` events in arrival order. |
| Bracket.Interior | src/tools.ts:252 | `replace(/^.(.+).$/s, '$1')` drops the first and last characters when something lies between them. Otherwise it keeps the text. |
| Bracket.ParsedNodes | src/tools.ts:257-269 | Per opening bracket: the parameters of `(...)`, else the arguments of `fn(...)`; the elements of `[...]`; the properties of `[{...}]`'s first element; the type arguments of `fn<...>`. The text parsed last is the one node texts come from. |
| Bracket.Locate | src/tools.ts:271-276 | Each node is located with `indexOf` from where the previous one ended: the first occurrence, or -1 when there is none. |
| Bracket.LocatedExtend | src/tools.ts:273-276 | Locating one more node from the end of the previous ones keeps every node located. |
| Bracket.LocatedInOrder | src/tools.ts:274-276 | Found nodes lie inside the text in order without overlapping. |
| Bracket.BracketAst | src/tools.ts:244-285 | Nothing for an empty selection, a text not starting with `( [ { <`, or a parse without the node list. No nodes when the interior is white space. Otherwise each node carries its located text, and each found node starts at the selection's start plus its `indexOf` result, ends at the end of its text, and covers that text. |
| Bracket.ToNodes | src/tools.ts:277-281 | One node per located text, carrying it, with offsets clamped into the document. A found node inside the document starts at the selection's start plus its `indexOf` result and ends at the end of its text. |
| Bracket.FoundNodesCover | src/tools.ts:277-281 | Each found node's document range holds its text inside the selection, and found neighbours keep their order. |
| Bracket.FoundNodeCovers | src/tools.ts:275-280 | One found node's document range holds exactly its text and starts at the selection's start plus its `indexOf` result. |
| Bracket.FoundNodesOrdered | src/tools.ts:276-280 | A found node starts at or after the previous found node's end. |

## Left out

- VS Code plumbing is not modelled: `executeCommand`, `editor.edit`, selections, `revealRange`, the clipboard and `workspace.workspaceFolders`. Their inputs and outputs are plain values.
- `waitSelectionChange` and `insertLineIfNotEmpty` (src/tools.ts:7-27) are left out. They are asynchronous event and command glue with no text logic.
- src/snippets.ts is left out. It is editor and clipboard glue.
- hyntax, posthtml-parser and TypeScript's `createSourceFile` are not modelled. Their results are inputs (`RawTag`, `accepts`, `parse`).
- The regular-expression engine is not modelled. `getNearMatch` receives its matches as a list, and `symbol_map_get` and the vue test are given by their meaning.
- A `type` passed to the vue command is taken as literal text. Regular-expression metacharacters in it are not interpreted.
- Offsets count Unicode characters (`char`). VS Code and JavaScript count UTF-16 code units, so a character outside the Basic Multilingual Plane counts once here and twice in the source.
- Line numbers count `'\n'` only. A lone `'\r'` as a line break, and the host's CRLF handling, are not modelled.
- `getBracketAst`'s `active` field and the bracket selection step are left out. The selection `[selStart, selEnd)` is an input.
- Bracket.ParsedNodes: for `{...}`, a parse whose `elements[0]` is missing (a TypeError in the source) is folded into "no node list", like a missing list.
- In `getBracketAst`, a node whose text is not found (`index` is -1) is still listed, with its offsets clamped. The contracts only place found nodes.
- The selection that `dawn-tools.html.format` makes after its edit, and its `console.log`, are left out.
- Missing `activeTextEditor` or `selection` returns are not modelled, because a document is always given. For the same reason `getHtmlStartIndex`'s `index < 1` return cannot happen.
- HtmlFormat.FormatCommand: it is built on the corrected `TagScan.NowTagRange`, not on the written loop. It agrees with the program wherever that loop finishes (`TagScan.NowTagRangeAgrees`). Where the program hangs, for example on `<a><b` with the cursor at offset 4, the model reformats the tag `<a>` that the corrected search finds.
- Nearest.NearMatch: the range's end is the position as the host validates it. The `Position` that `translate` builds holds `start.character + length` even past the end of the line until the host clamps it.
- TagScan.NowTagRangeAsWritten: the written loop is modelled with a round budget (`fuel`), since it need not terminate.
- Indentation.GetLineIndent: the width is stated only for a tab unit, or for space indentation with a space unit. Mixed tabs and spaces under a space unit are left uncharacterised.
- Indentation.GetIndentationMode: the editor's `tabSize` is taken as a number of at least one, as the editor enforces. `Number(tabSize)` on a string option is not modelled.
- Paths.StripExtension: the contract covers names without line terminators. For a name that spans several lines the body follows the regex line by line, since `.` does not match a line terminator, but no ensures states that case. File names hold no line breaks.
- JsText.ReplaceAll: `$` patterns in the replacement are not interpreted. The extension's replacements are a line break plus indentation and hold none.
- When no workspace root matches, `getRootPath`'s `!` assertion hands its caller `undefined`; the model returns `None`.
- The `value` type of a history entry (`readonly Selection[]`) is abstract.

## Findings

| source | as written | input that shows it | evidently intended | confidence | as-written member | corrected member |
|---|---|---|---|---|---|---|
| src/tools.ts:146-152 | After a failed end search the loop retries from the `<` just found. `getHtmlStartIndex` returns that same position, so the loop never ends. | Document `<a` with the cursor on `a` (offset 1): the start is 0 and no `>` exists. | Retry from one character before the `<` and stop at the document start. On a `<` the start search returns that `<` itself (src/tools.ts:108, `TagScan.StartIndexFixedPoint`), so only a retry that moves back makes progress. | not executed | TagScan.NowTagRangeAsWritten (with TagScan.NowTagRangeAsWrittenStalls, TagScan.UnterminatedTagStalls) | TagScan.NowTagRange (with TagScan.NowTagRangeAgrees) |
| src/other.ts:27-28 | The negated class `[^${keys}]` reuses the alternation group, parentheses and vertical bars included, so `(`, `)` and the vertical bar are refused after a symbol as well as the symbol characters. | The line `（x)`: the trailing ASCII `)` blocks the full-width `（`, and nothing is converted. | Refuse only the symbol characters, so that the line's last full-width symbol is found. | not executed | Symbols.SymbolMapGetAsWritten (with Symbols.AsWrittenAsciiBracketBlocks, Symbols.FullWidthBracketAsWritten) | Symbols.SymbolMapGet (with Symbols.FullWidthBracketCorrected, Symbols.TrailingAsciiIgnored) |
