# unmock VS Code extension: a Dafny model of its detectors and edits

This project models the decision logic of the unmock VS Code extension. The extension looks at
a test file. If the file calls an HTTP client library and never calls `unmock(`, it offers to
insert an unmock import and the `beforeEach`/`afterEach` calls.

The model covers:

- **Comment stripping and pattern tests.** `removeJSCommentsFromSourceText` and the regular
  expressions the providers test against. Each regular expression is a hand-written matcher.
  One global-scan engine gives the JavaScript meaning of `test`, `match` and `match(/…/g)`:
  the leftmost match first, and scanning resumes after it. It also gives `replace(/…/g)`.
- **Locating matches.** `getRangeFromTextAndMatch` turns matched texts into line ranges.
  `findPositionInRanges` finds the range that holds a position.
- **The insert-unmock providers.** Hover, code action and code lens. They decide whether to
  fire and where, and they build the action object (last import, unmock import location,
  language).
- **The older go-to-mock code lens.**
- **The `insertUnmockToTest` command.** The two snippet insertions it makes, and the round
  trip: once they are made, the detector no longer fires.
- **The mock explorer.** Which directories are known to hold JSON, which children it lists,
  and the label of each.
- **The snapshot-linking hover.** Which snapshot files it accepts, and how it picks a
  document's snapshot.

Each file holds one module:

| file | module | models |
|---|---|---|
| `strings.dfy` | StringUtils | the JavaScript string methods used: `indexOf`, `lastIndexOf`, `split`, `trimLeft`, `toLowerCase`, `replace` |
| `editor.dfy` | Editor | `vscode.Position`/`vscode.Range`, document offsets and snippet insertion |
| `patterns.dfy` | Patterns | the regular expressions and the scan engine |
| `utils.dfy` | Utils | `src/utils.ts` |
| `insert_unmock.dfy` | InsertUnmock | `src/providers/insert-unmock.ts` and `src/interfaces.ts` |
| `goto_mock.dfy` | GotoMock | `src/providers.ts` |
| `insert_command.dfy` | InsertCommand | `insertUnmockToTest` in `src/index.ts` |
| `explorer.dfy` | MockExplorer | `src/explorer.ts` |
| `link_tests_mocks.dfy` | LinkTestsMocks | `src/providers/link-tests-mocks.ts` |

The JavaScript details the model keeps:

- `indexOf` clamps its start into the string.
- `substr(0, -1)` is empty.
- `toLowerCase` is modelled for ASCII letters.
- `^` and `$` under the multiline flag also match at `\r`, U+2028 and U+2029.
- `new vscode.Range` swaps ends given in the wrong order.
- `Range.contains` includes both ends.

Host calls become inputs:

- The document text.
- The found files and their contents.
- The directory listings and stat results, as maps. A missing entry is the exception the
  call would throw, modelled as an `Err` result.

The comment regular expression is followed as the code writes it. A `/*` with no closing
`*/` starts no block comment, because the lazy `[\s\S]*?\*\/` needs the closing marker. Only
a `//` in it can still start a line comment.

## Model

| member | source | states |
|---|---|---|
| Utils.ImportStatement | src/utils.ts:8-13 | the import statement exists exactly for TypeScript or JavaScript, in any letter case, and is the unmock import text |
| Utils.TestCalls | src/utils.ts:15-20 | the test calls exist exactly for the same two languages and are the `beforeEach`/`afterEach` text |
| Utils.LanguageIgnoresCase | src/utils.ts:9-10 | the language is lower-cased first, so `TypeScript` and `JavaScript` are recognised and `python` is not |
| Utils.ImportTextIsRecognised | src/utils.ts:11 | the inserted import is itself an `import …;` statement and an unmock import, as the two import patterns read it |
| Utils.TestCallsCallUnmock | src/utils.ts:18 | the inserted test calls contain `unmock(` and no slash |
| Utils.RemoveJSComments | src/utils.ts:67-72 | stripping comments never lengthens the text and keeps its line-feed count |
| Patterns.CommentRemovalKeepsNewlines | src/utils.ts:68-70 | each removed comment becomes as many line feeds as it held, so line numbers survive |
| Patterns.NoCommentMarkersKeepText | src/utils.ts:69 | a text with no `/*` and no `//` is left unchanged, by either replacement |
| Patterns.EscapedSlashesStartNoComment | src/utils.ts:69 | a `//` after a colon or a backslash starts no comment at the character before it; at the slash itself one starts only when a third slash follows |
| Patterns.EscapedSlashesKeepText | src/utils.ts:69 | a text whose every `//` follows a colon or backslash, and which has no `/*`, is unchanged |
| Patterns.LineCommentTakesCharBefore | src/utils.ts:69 | a line comment also consumes the one character before it and runs to the end of the line |
| Patterns.CommentFromCharToLineEnd | src/utils.ts:69 | the comment match starts at the character before `//` and ends at the end of the line |
| Patterns.ReachedTextSurvives | src/utils.ts:69 | text that the scan reaches and where no comment starts is kept by the replacement |
| Patterns.NoCommentWithoutSlash | src/utils.ts:69 | no comment starts in a stretch without slashes |
| Utils.CountInString | src/utils.ts:74-76 | `match(new RegExp(substr, "g")).length` counts non-overlapping occurrences; the empty pattern matches at every offset |
| Utils.CountInStringOfChar | src/utils.ts:75 | counting a one-character pattern is counting that character |
| Utils.CountInStringZero | src/utils.ts:75 | the count is zero exactly when the text lacks the pattern |
| Utils.RemoveStrings | src/utils.ts:78-80 | removing quoted literals never lengthens the text |
| Patterns.NoQuotesKeepText | src/utils.ts:79 | a text without quote characters is unchanged |
| Patterns.LiteralIsDeleted | src/utils.ts:79 | a literal between quote-free stretches is deleted whole, with quote characters of the other kinds inside it, and the text around it is kept |
| Patterns.LiteralMatchAt | src/utils.ts:79 | a literal match runs from its opening quote to the next quote of the same kind, lazily |
| Utils.NeedleRange | src/utils.ts:108-121 | one needle's range is on the needle's line; the whole-line form runs from the indentation to the end of the line; the narrow form spans the first occurrence on the line, and fails when the line lacks it |
| Utils.FoundNeedleHasNarrowRange | src/utils.ts:116-120 | a needle without line feeds found in the text has a narrow range that starts no later than the needle's own column |
| Utils.EntireLineRange | src/utils.ts:111-115 | a found needle's whole-line range is the span of its line |
| Utils.RangesAt | src/utils.ts:104-122 | one range per needle, in order, each from that needle's offset; the whole result fails exactly when one needle's range fails |
| Utils.OffsetsAsWritten | src/utils.ts:101-106 | the search offsets as written, with the running start advanced by each found offset: one per needle, each -1 or an occurrence of its needle |
| Utils.AsWrittenRepeatsFirstFind | src/utils.ts:105-106 | as written, a needle repeated right after itself is found at the same offset both times |
| Utils.RepeatedCallCounterexample | src/utils.ts:105-106 | on `axios.get(` twice on two lines, the offsets as written are [0, 0] and the corrected ones are [0, 11] |
| Utils.OvershootAsWritten | src/utils.ts:105-106 | on an indented `axios.get(` followed by `b.put(` and `c.post(` on the next lines, the offsets as written are [10, 21, -1]: the running start 31 lies past the third call |
| Utils.OvershootCorrected | src/utils.ts:105-106 | on the same text the corrected offsets are [10, 21, 28] |
| Utils.ThirdCallOvershootCounterexample | src/utils.ts:105-108 | as written, the third call's offset is -1 and it is placed on line 0; corrected, it is on line 2, its own line |
| Utils.Offsets | src/utils.ts:101-106 | the corrected offsets, with each needle searched from the end of the previous occurrence: one per needle, each -1 or an occurrence of its needle |
| Utils.RangesFromTextAndMatchAsWritten | src/utils.ts:82-123 | `getRangeFromTextAndMatch` with the offsets as written: one range per needle, always present for whole lines |
| Utils.RangesFromTextAndMatch | src/utils.ts:82-123 | the corrected locator: one well-formed single-line range per needle, always present for whole lines |
| Utils.OffsetsFindMatches | src/utils.ts:104-106 | on the call texts the global match returns, the corrected offsets are exactly where those matches start |
| Utils.OffsetsFollow | src/utils.ts:104-106 | when each needle is first found after the previous one ends, the offsets are the match starts |
| Utils.FirstOccurrenceAfterGap | src/utils.ts:105 | a call text's first occurrence after a stretch with no call match is where its match starts |
| Utils.CallRangesAreCallLines | src/utils.ts:82-123 | the ranges of the detected calls are, in order, the whole-line spans of the lines where the calls start |
| Utils.OffsetLine | src/utils.ts:108 | the line of an offset is an existing line; `substr(0, -1)` is empty, so a missing needle is placed on line 0 |
| Utils.AsWrittenCallSpans | src/utils.ts:104-115 | one whole-line span per detected call, taken at the line of its offset as written |
| Utils.AsWrittenRangesAreOffsetLines | src/utils.ts:82-123 | as written, the ranges of the detected calls are the whole-line spans of the lines of the as-written offsets, a missing call counting as line 0 |
| Utils.FirstSpanAgrees | src/utils.ts:101-105 | the first search starts at 0 both as written and corrected, so the first detected call gets the same span either way |
| Utils.Containing | src/providers/insert-unmock.ts:15 | the filter keeps exactly the ranges that contain the target |
| Utils.ContainingNone | src/providers/insert-unmock.ts:15-16 | nothing is kept exactly when no range contains the target |
| Utils.ContainingOne | src/providers/insert-unmock.ts:15-16 | exactly one range is kept exactly when exactly one range contains the target |
| Utils.FindPositionInRanges | src/utils.ts:125-135 | the index of the first range holding the position, or -1 when none does, and that range is the first one the filter keeps |
| Patterns.UnmockCallTest | src/providers/insert-unmock.ts:107 | the `unmock(` test holds exactly when the text contains `unmock(` |
| Patterns.LibraryTest | src/providers/insert-unmock.ts:106 | the library test holds exactly when the text names one of the five client libraries |
| Patterns.CallTest | src/providers/insert-unmock.ts:105 | the call test holds exactly when some stretch of the text is a word, a dot, a request verb and `(` |
| Patterns.CallAtMeansCallText | src/providers/insert-unmock.ts:105 | the call pattern matches from one offset to another exactly when the text between them is such a call |
| Patterns.MatchAll | src/providers/insert-unmock.ts:108 | the global match returns matches in order, without overlap, with no match skipped between or around them |
| Patterns.MatchAllAgreesWithSearch | src/providers.ts:17 | the global match is non-empty exactly when the test holds, and starts where the first match does |
| Patterns.ImportAt | src/providers/insert-unmock.ts:118 | `^import [^;]+;` matches at a line start when `import ` is followed by at least one non-semicolon and then a semicolon, and ends at that first semicolon |
| Patterns.UnmockImportAt | src/providers/insert-unmock.ts:94 | `^import .*?"unmock".*?$` matches at a line start when `"unmock"` follows `import ` on the same line, and ends at the end of that line |
| InsertUnmock.LooksUnmockedMeans | src/providers/insert-unmock.ts:105-107 | the three tests mean: there is a call, a library is named, and `unmock(` is absent |
| InsertUnmock.MatchJSRequestWithoutUnmock | src/providers/insert-unmock.ts:101-111 | the detector fires exactly when the stripped text passes the three tests and the original text has a call; it then returns every call text of the original text, in order |
| InsertUnmock.DetectedCallsAreCallTexts | src/providers/insert-unmock.ts:108 | every detected call text is a call and occurs in the text |
| InsertUnmock.FindLastJSImport | src/providers/insert-unmock.ts:113-129 | column 0 on an existing line; line 0 without imports; otherwise the line of the last occurrence in the original text of the last stripped import |
| InsertUnmock.LastImportIsAtOrAbove | src/providers/insert-unmock.ts:127-128 | in a text without comment markers, the position is at or below the line of the last import |
| InsertUnmock.UnmockJSImportLocation | src/providers/insert-unmock.ts:93-99 | the empty range at the origin without an unmock import; otherwise the whole-line span of the first occurrence of the matched import line |
| InsertUnmock.UnmockImportRangeIsAtOrAbove | src/providers/insert-unmock.ts:94-98 | that span is a line span at or above the line of the matched import |
| InsertUnmock.BuildTypescriptUnmockActionObject | src/providers/insert-unmock.ts:85-91 | the action's language is `typescript`, one the command recognises, and it carries the two locations |
| InsertUnmock.DetectedRangesAsWritten | src/providers/insert-unmock.ts:14 | the providers' ranges are the line spans at the as-written offsets of the detected calls |
| InsertUnmock.DetectedRangesAreCallSpans | src/providers/insert-unmock.ts:14 | with the corrected locator, the ranges would be the line spans of the detected calls |
| InsertUnmock.Hover | src/providers/insert-unmock.ts:5-29 | a hover carries the action object built from the text |
| InsertUnmock.HoverFiresOnLoneCallLine | src/providers/insert-unmock.ts:9-18 | the hover fires exactly when the detector fires and exactly one located line span contains the position |
| InsertUnmock.HoverOnDetectedCalls | src/providers/insert-unmock.ts:14-18 | once the detector fires, the hover fires exactly when one located line span alone contains the position |
| InsertUnmock.IntendedHoverFiresOnLoneCallLine | src/providers/insert-unmock.ts:9-18 | with the corrected locator, the hover would fire exactly when the detector fires and exactly one call's line contains the position |
| InsertUnmock.IntendedHoverOnDetectedCalls | src/providers/insert-unmock.ts:14-18 | with the corrected locator, once the detector fires, the hover would fire exactly when one call's line alone contains the position |
| InsertUnmock.CodeAction | src/providers/insert-unmock.ts:31-61 | the quick fix carries the action object built from the text |
| InsertUnmock.CodeActionFiresOnLoneCallLine | src/providers/insert-unmock.ts:36-53 | the quick fix is offered exactly when the detector fires and exactly one located line span contains the selection; its diagnostic is that span |
| InsertUnmock.CodeActionOnDetectedCalls | src/providers/insert-unmock.ts:41-53 | once the detector fires, the quick fix is offered exactly when one located line span alone contains the selection |
| InsertUnmock.IntendedCodeActionFiresOnLoneCallLine | src/providers/insert-unmock.ts:36-53 | with the corrected locator, the quick fix would be offered exactly when the detector fires and exactly one call's line contains the selection; its diagnostic is on that line |
| InsertUnmock.IntendedCodeActionOnDetectedCalls | src/providers/insert-unmock.ts:41-53 | with the corrected locator, once the detector fires, the quick fix would be offered exactly when one call's line alone contains the selection |
| InsertUnmock.CodeLens | src/providers/insert-unmock.ts:63-80 | the lens is shown exactly when the detector fires, with the action object as its one argument |
| InsertUnmock.CodeLensOnFirstCallLine | src/providers/insert-unmock.ts:71 | the lens spans the line of the first detected call |
| InsertUnmock.AsWrittenRepeatedCallSilencesHover | src/utils.ts:106 | as written, when the first two detected calls are the same text, both get the first call's range, so on that line the hover finds two ranges and stays silent |
| GotoMock.GotoMockLens | src/providers.ts:8-36 | a lens without arguments, at column 0 on an existing line, running to the end of that line |
| GotoMock.GotoLensOnFirstCallLine | src/providers.ts:11-26 | the lens is shown exactly when the comment-deleted text passes the three tests and the text has a call; it spans the first call's whole line |
| GotoMock.GotoLensAgreesWithInsertLens | src/providers.ts:11-26 | without comment markers the two lens providers fire together, on the same line, and the older lens holds the newer one |
| InsertCommand.TemplateText | src/index.ts:20 | a template literal renders a missing value as `undefined` |
| InsertCommand.InsertUnmockToTest | src/index.ts:13-27 | no edit without an argument; otherwise the import and a line feed over the unmock import location, then the test calls between line feeds at column 0 two lines below the last import |
| InsertCommand.ProvidersActionInsertsSnippets | src/index.ts:13-27 | the action the providers attach always makes both edits: the import over its location and the test calls two lines below the last import |
| InsertCommand.GotoLensCommandMakesNoEdit | src/index.ts:15-17 | the older lens passes no argument, so its command makes no edit |
| InsertCommand.EditsOfRecognisedLanguage | src/index.ts:20-26 | making the two edits is inserting the test calls into the text that already has the import |
| InsertCommand.EditedText | src/index.ts:20-26 | the edited text is the text with the import, split at one offset with the test calls between |
| InsertCommand.InsertedTestCallsSilenceDetector | src/index.ts:20-26 | once the test calls are inserted at an offset the comment scan reaches, the detector no longer fires |
| InsertCommand.InsertedTestCallsSilenceDetectorWithoutSlashes | src/index.ts:20-26 | on a text without slashes, the command always silences the detector |
| Editor.MakeRange | src/utils.ts:115 | `new vscode.Range` yields a well-formed range with the two given positions, in order |
| Editor.InsertOver | src/index.ts:20-21 | the result keeps the text before the range's lower offset and after its higher one, with exactly the snippet between |
| Editor.InsertAtPointIsUndone | src/index.ts:20-21 | inserting at a position puts the snippet at that position's offset; removing it again gives back the text |
| MockExplorer.DirectoryIsKnownToContainJson | src/explorer.ts:93-99 | true exactly when some recorded location contains the directory as a substring |
| MockExplorer.KnownEdgeCases | src/explorer.ts:93-99 | nothing is known with no location recorded; the empty directory is known once any location is |
| MockExplorer.KnownParts | src/explorer.ts:96 | every part of a recorded location is known |
| MockExplorer.HardRefresh | src/explorer.ts:39-44 | the found paths are appended; the old locations are a prefix of the new ones |
| MockExplorer.RefreshKeepsKnown | src/explorer.ts:39-44 | a refresh keeps known directories known and makes every found path known |
| MockExplorer.TrailingSlash | src/explorer.ts:72 | the empty root stays empty; a root ending in `/` is kept; any other root gains one `/` |
| MockExplorer.TrailingSlashIdempotent | src/explorer.ts:72 | normalising twice is normalising once |
| MockExplorer.IsJsonFile | src/explorer.ts:85-91 | false without a path; fails without a stat; accepts exactly the `.json` regular files, and the directories when directories are allowed |
| MockExplorer.ListedIsAcceptedJson | src/explorer.ts:77-91 | a known child is listed exactly when `isJsonFile` accepts it with directories allowed, and the listing fails exactly where `isJsonFile` would |
| MockExplorer.FilterJsons | src/explorer.ts:77-82 | fails exactly when a known path has no stat; otherwise keeps exactly the known children that are JSON files or directories |
| MockExplorer.GetJsons | src/explorer.ts:65-83 | empty for an undefined root or an unknown directory; fails for an unlistable directory or a known child without a stat; otherwise lists exactly the known JSON-or-directory children |
| MockExplorer.TrimToFolderOrFileBeneath | src/explorer.ts:101-109 | the label has no slash; without a root, a label exists exactly when the path has a slash |
| MockExplorer.LabelOfEntryBeneath | src/explorer.ts:106-108 | the entry directly beneath a root given without its trailing slash is labelled with its own name |
| MockExplorer.NoLabelBeneathSlashedRoot | src/explorer.ts:106-108 | beneath a root given with its trailing slash, no slash remains, so the label is undefined |
| LinkTestsMocks.IncludesAll | src/providers/link-tests-mocks.ts:45 | the keyword fold holds exactly when the seed holds and every keyword occurs in the contents |
| LinkTestsMocks.HasKeywordsMeans | src/providers/link-tests-mocks.ts:67 | a snapshot is accepted exactly when it contains `"hash":`, `"host":`, `"method":` and `"path":` |
| LinkTestsMocks.Accepted | src/providers/link-tests-mocks.ts:43-49 | the accepted paths are exactly those of found files that hold the keywords |
| LinkTestsMocks.AcceptedAppend | src/providers/link-tests-mocks.ts:43-49 | accepting files one by one appends each accepted path at the end, so discovery order is kept |
| LinkTestsMocks.GetSnapFiles | src/providers/link-tests-mocks.ts:35-52 | with snapshots recorded nothing changes; otherwise the accepted paths of the found files are recorded, in order |
| LinkTestsMocks.BasenameWithout | src/providers/link-tests-mocks.ts:55 | `path.basename(p, ext)`: empty when the path is the extension, the last component otherwise; the extension is removed exactly when it is a proper suffix of that component, and a component equal to it is kept |
| LinkTestsMocks.SnapFile | src/providers/link-tests-mocks.ts:54-60 | the first recorded snapshot whose name without `.snap` is the document's name, and none exactly when no snapshot matches |
| LinkTestsMocks.SnapshotOfItsTest | src/providers/link-tests-mocks.ts:55 | `<dir>/<name>.snap` is the snapshot of any document named `<name>` |
| LinkTestsMocks.LookupFindsRecordedSnapshot | src/providers/link-tests-mocks.ts:54-60 | once such a snapshot is recorded, the lookup finds one |
| LinkTestsMocks.ProvideHover | src/providers/link-tests-mocks.ts:8-33 | the hover always says `:+1:`; the lookup sees only snapshots recorded before this hover; the scan runs only while none is recorded |

## Left out

- VS Code object construction is not modelled. This covers `Hover`, `MarkdownString`, `CodeAction`, `Diagnostic` and `CodeLens`, their titles and messages, and the command URI with its JSON and URI encoding. The model keeps only the decisions and the ranges.
- `getAccessToken`, `getJsonFileBody`, `getConfig`, `getRefreshToken` and `dynamicRequire` are left out. They are network, file, configuration and runtime plumbing.
- The document-filter globs and `providers.ts`'s `JestTestFileSelector` are left out. The host applies them before a provider runs.
- The extension's activation code is left out, and so is everything else in `src/index.ts` except `insertUnmockToTest`. That code is host registration, configuration and token handling.
- The tree-view plumbing of `src/explorer.ts` is left out: `getTreeItem`, `getChildren`, `populateChildren` and `MockTreeItem`. Its only logic is the labelling and the `isFile` stat. Both are modelled in `TrimToFolderOrFileBeneath` and `IsJsonFile`.
- `findFiles`, `readdirSync`, `statSync` and `readFileSync` are inputs, not calls. Their results arrive as parameters, so the asynchronous `findFiles` callbacks run when the model says.
- `getAssociatedSnapshot` in `src/providers/link-tests-mocks.ts` is not modelled. It is unfinished and returns nothing.
- `resolveCodeLens` in `src/providers.ts` is not modelled. It only throws.
- Utils.CountInString: treats the pattern as literal text. Regular-expression metacharacters in `substr` are not interpreted. The extension calls it only with `"\n"`.
- StringUtils.ToLower: lowers only ASCII letters. Unicode case mapping is not modelled. The language identifiers it is applied to are ASCII.
- InsertCommand.InsertUnmockToTest: the snippets are inserted as plain text. Snippet syntax (`$1`, `${…}`) and the editor's automatic indentation are not modelled. Neither snippet contains `$`.
- InsertCommand.InsertedTestCallsSilenceDetector: the two edits are applied in order to an LF-only document. The real `insertSnippet` calls are asynchronous and are not awaited.
- Editor.OffsetAt: clamps a position past the end of its line or of the document, as the host does. CRLF line ends are not modelled.
- MockExplorer.GetJsons: `path.join` is modelled as concatenation, which holds for a directory that ends in `/` and a plain entry name. Path normalisation of `.` and `..` is not modelled.
- MockExplorer.GetJsons: its contract states which children are listed, not that they keep the order of the directory listing. The order is kept, but no clause says so.
- LinkTestsMocks.BasenameWithout: models the POSIX `path.basename` for extensions without a slash. The Windows variant is not modelled.
- LinkTestsMocks.BasenameWithout: drops trailing slashes before taking the last component, also when an extension is given. Node's extension-aware scan keeps them when the last component is only a partial tail of the extension: `basename("snap/", ".snap")` is `snap/` there and `snap` here. Snapshot paths come from a file search and do not end in `/`.
- Utils.NeedleRange, StringUtils.IndentWidth, Editor.OffsetAt and the `Contains` tests on positions count characters as Dafny `char`s, which are Unicode scalar values. JavaScript and VS Code count UTF-16 code units. A character outside the Basic Multilingual Plane is one column here and two in the editor, so columns after one differ.
- InsertUnmock.DetectedRangesAreCallSpans, InsertUnmock.IntendedHoverFiresOnLoneCallLine, InsertUnmock.IntendedHoverOnDetectedCalls, InsertUnmock.IntendedCodeActionFiresOnLoneCallLine and InsertUnmock.IntendedCodeActionOnDetectedCalls: these are stated for the corrected locator (`Utils.RangesFromTextAndMatch`), through `InsertUnmock.IntendedHover` and `InsertUnmock.IntendedCodeAction`. The providers as written use `Utils.RangesFromTextAndMatchAsWritten`; their lemmas are the ones without `Intended`, stated over `Utils.AsWrittenCallSpans`.

## Findings

| source | as written | input that shows it | evidently intended | confidence | as-written member | corrected member |
|---|---|---|---|---|---|---|
| src/utils.ts:106 | `lastPosition += pos` adds the absolute offset just found to the running search start. A repeated needle is searched again from the same offset. Once the running start has grown past the later calls, they are not found at all: their offset is -1 and they are placed on line 0. | the text `axios.get(` newline `axios.get(` gives offsets [0, 0], so both calls get line 0 and the hover there sees two ranges and stays silent. The text of ten spaces and `axios.get(`, then `b.put(` and `c.post(` on the next two lines, gives offsets [10, 21, -1]: the running start is 31 and `c.post(` starts at 28, so the third call is placed on line 0. | search each needle after the previous occurrence, `lastPosition = pos + str.length`, giving offsets [0, 11] and [10, 21, 28], so every call is on its own line | not executed | Utils.OffsetsAsWritten, Utils.RangesFromTextAndMatchAsWritten, Utils.AsWrittenRepeatsFirstFind, Utils.RepeatedCallCounterexample, Utils.OvershootAsWritten, Utils.ThirdCallOvershootCounterexample, Utils.AsWrittenRangesAreOffsetLines, InsertUnmock.Hover, InsertUnmock.CodeAction, InsertUnmock.AsWrittenRepeatedCallSilencesHover | Utils.Offsets, Utils.RangesFromTextAndMatch, Utils.OffsetsFindMatches, Utils.CallRangesAreCallLines, InsertUnmock.IntendedHover, InsertUnmock.IntendedCodeAction, InsertUnmock.IntendedHoverOnDetectedCalls, InsertUnmock.IntendedCodeActionOnDetectedCalls |

The providers in this model use the locator as written, as the extension does. The corrected
providers, `InsertUnmock.IntendedHover` and `InsertUnmock.IntendedCodeAction`, use the
corrected locator, with which every detected call gets the range of its own line
(`Utils.CallRangesAreCallLines`).
