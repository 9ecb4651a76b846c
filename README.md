# vscode-fluent-design, modelled in Dafny

The extension patches VS Code's workbench HTML file with a block of styling
and removes it again. This project models the logic at the heart of that:

- **Patch** (`src/patch.ts`): per target file, install and uninstall.
  - Install checks that the target and the payload are not blank. It then
    replaces the block matched by `patchRegex` or appends
    `start marker + payload + end marker`.
  - Uninstall cuts from the first start marker to the end of the last end
    marker.
  - `patchRegex`, JavaScript's `String.prototype.trim`, `indexOf`,
    `lastIndexOf` and the `$`-substitution of `String.prototype.replace` are
    written out so that the results can be stated exactly.
- **Workbench** (`src/workbench.ts`): how the workbench file is located.
  - Path-like values become strings, and candidate paths are joined.
  - The six candidates are enumerated in order and each is classified from
    what `stat` reports.
  - The outcome is the one `Promise.any` gives over the candidates' promises,
    together with the error messages that the evidently intended
    classification shows along the way. As written, the classification throws
    before any message is shown (see "## Findings"); that reading is modelled
    beside it as `TestCandidateAsWritten` and `SettleAsWritten`.
- **Logging** (`src/logger.ts`): the `Logger` class.
  - Every logger has a prefix, and `prefix` derives a new logger.
  - Every logger writes to one shared output channel, modelled as an object
    holding the list of records written so far.

Modules:

- `Wrappers` (`wrappers.dfy`): `Option` and `Result`.
- `JsString` (`jsstring.dfy`): `indexOf` and `lastIndexOf`, JavaScript whitespace and `trim`, and `replace`'s substitution patterns.
- `Occurrences` (`occurrences.dfy`): where newline-terminated markers can and cannot occur in a text.
- `PatchPattern` (`patchpattern.dfy`): `patchRegex` as compiled (`MatchAt`, `FirstMatch`) with a declarative definition of its matches, and the literal-marker matcher of the corrected install.
- `Patch` (`patch.dfy`): `Install`, `Uninstall` and the corrected `InstallLiteral`, with their properties.
- `Workbench` (`workbench.dfy`): `PathLikeToString`, `JoinPathLike`, the candidates, `TestCandidatePath` and `LocateWorkbench`.
- `Logging` (`logger.dfy`): the classes `Logger` and `OutputChannel`.

How `patchRegex` is read: the pattern is built from the two marker strings
without escaping.

- In `/* Fluent Design Patch -- Start */\n`, the `/*` means "any number of
  slashes".
- The ` *` before the closing `/` means "any number of spaces".
- So one marker piece matches `"/"^k + " Fluent Design Patch -- Start" + " "^m + "/\n"`.
- A match is such a start piece, then the shortest body (`[\s\S]*?`), then an
  end piece. JavaScript reports the leftmost match.
- `FirstMatchIsLeftmostLazy` and `FirstMatchUnique` prove that the concrete
  search `FirstMatch` returns exactly that match.

## Model

| member | source | states |
|---|---|---|
| `JsString.IndexOf` | src/patch.ts:88 | `indexOf` is -1 exactly when the text does not occur; otherwise the marker occurs at the result and at no earlier position |
| `JsString.LastIndexOf` | src/patch.ts:89 | `lastIndexOf` is -1 exactly when the text does not occur; otherwise the marker occurs at the result and at no later position |
| `JsString.IndexFrom` | src/patch.ts:88 | the search from a position finds the first occurrence at or after it, or -1 when there is none |
| `JsString.LastFrom` | src/patch.ts:89 | the backward search finds the last occurrence at or before a position, or -1 when there is none |
| `JsString.SkipSpace` | src/patch.ts:37 | `trim`'s forward scan stops at the first non-whitespace character, or at the end |
| `JsString.SkipSpaceBack` | src/patch.ts:37 | `trim`'s backward scan stops after the last non-whitespace character, not before the forward scan's stop |
| `JsString.Trim` | src/patch.ts:37 | `trim` returns a slice of the text with only whitespace cut off around it, and the result neither starts nor ends with whitespace |
| `JsString.TrimmedSlice` | src/patch.ts:37 | a slice with only whitespace outside it and non-whitespace at both of its ends is the trimmed text |
| `JsString.BlankIffAllWhitespace` | src/patch.ts:37 | `s.trim()` is empty exactly when every character of `s` is JavaScript whitespace |
| `JsString.IsBlank` | src/patch.ts:37-40 | the blank check `!s.trim()`, made on the target and the payload, holds exactly when every character is JavaScript whitespace |
| `JsString.NotAllWhitespaceAppend` | src/patch.ts:37 | appending text to a text with a non-whitespace character keeps that character |
| `JsString.Substitute` | src/patch.ts:56 | a replacement string without `$` is inserted by `replace` as it is |
| `JsString.SubstituteLiteralHead` | src/patch.ts:56 | a `$`-free head of the replacement string is copied before the substituted rest |
| `JsString.SubstituteLiteralTail` | src/patch.ts:56 | a `$`-free tail that cannot complete a `$` pattern is copied after the substituted rest |
| `JsString.SubstituteWrapped` | src/patch.ts:50-56 | substituting a block substitutes only the payload between the two `$`-free markers |
| `Occurrences.NoStraddle` | src/patch.ts:18-19 | two occurrences of a marker that ends in its only newline cannot overlap |
| `Occurrences.FirstOccurrenceAt` | src/patch.ts:88 | an occurrence with none ending at or before it is the one the forward search finds |
| `Occurrences.NoOccurrenceInside` | src/patch.ts:88-89 | a text that does not contain a marker has no occurrence inside it after concatenation |
| `Occurrences.FirstAfterPrefix` | src/patch.ts:88 | in `w + start + p + end`, with no start marker in `w`, `indexOf` finds the start marker right after `w` |
| `Occurrences.FirstAfterMiddle` | src/patch.ts:88-89 | after the start marker, the first end marker is the one after the payload when the payload has none |
| `Occurrences.LastAtEnd` | src/patch.ts:89 | `lastIndexOf` finds a marker that ends the text at the end |
| `Occurrences.NotInsideOther` | src/patch.ts:18-19 | an end marker cannot start inside a start marker |
| `Occurrences.SpanBetween` | src/patch.ts:96 | a start marker followed by an end marker spans start marker, text between, end marker |
| `PatchPattern.Rep` | src/patch.ts:21 | a run of one character of a given length, which `/*` and ` *` match |
| `PatchPattern.RunLength` | src/patch.ts:21 | the greedy run at a position: all of one character, and stopped by a different one or the end |
| `PatchPattern.TagEndAt` | src/patch.ts:21 | the end of the marker piece starting at a position, when one starts there, lies after that position |
| `PatchPattern.TagTextAt` | src/patch.ts:21 | the character at each position of a marker piece instance: slashes, the marker text, spaces, `/`, newline |
| `PatchPattern.TagEndAtCorrect` | src/patch.ts:21 | the concrete marker-piece matcher ends at `e` exactly when `s[i..e]` is an instance of the piece |
| `PatchPattern.TagEndAtSound` | src/patch.ts:21 | what the piece matcher accepts is an instance of the piece |
| `PatchPattern.TagEndAtComplete` | src/patch.ts:21 | the piece matcher accepts every instance of the piece |
| `PatchPattern.TagFromParts` | src/patch.ts:21 | slashes, marker text, spaces and `/\n` in sequence form a piece instance |
| `PatchPattern.RunIsRep` | src/patch.ts:21 | a stretch of one repeated character is the run that `/*` or ` *` matches |
| `PatchPattern.TagEndAtFromParts` | src/patch.ts:21 | when the runs and the literal parts are found in sequence, the matcher ends after `/\n` |
| `PatchPattern.TagRunsAt` | src/patch.ts:21 | in a piece instance, the greedy runs of slashes and spaces have the instance's own lengths, because the marker text neither starts with `/` nor ends the run of spaces |
| `PatchPattern.TagLiteralAt` | src/patch.ts:21 | a piece instance holds the marker text after its slashes |
| `PatchPattern.TagCloseAt` | src/patch.ts:21 | a piece instance ends in `/\n` |
| `PatchPattern.RunLengthIs` | src/patch.ts:21 | a run of `n` characters followed by another character has greedy length `n` |
| `PatchPattern.FindTag` | src/patch.ts:21 | the lazy body: the first position at or after a point where an end piece starts, and no end piece starts before it |
| `PatchPattern.MatchAt` | src/patch.ts:21 | a match starting at a position is a start piece followed by the shortest body before an end piece; there is none exactly when either is missing |
| `PatchPattern.FirstSome` | src/patch.ts:54-56 | the scan for the first position holding a match returns one that does, and none before it does |
| `PatchPattern.FirstMatchOf` | src/patch.ts:54-56 | the reported match is the match at its own start position |
| `PatchPattern.FirstMatchOfSkipsNone` | src/patch.ts:54-56 | no match starts before the reported one |
| `PatchPattern.FirstMatch` | src/patch.ts:54-56 | the reported match lies within the text |
| `PatchPattern.FirstMatchOfIsLeftmostLazy` | src/patch.ts:21 | for any two marker texts of the right shape, the search finds nothing exactly when there is no match, and otherwise finds the leftmost match with the shortest body |
| `PatchPattern.FirstMatchOfUnique` | src/patch.ts:21 | the leftmost shortest match is the one the search finds |
| `PatchPattern.FirstMatchIsLeftmostLazy` | src/patch.ts:21 | `patchRegex.test` is false exactly when there is no match, and `exec` finds the leftmost match with the shortest body |
| `PatchPattern.FirstMatchUnique` | src/patch.ts:21 | the match JavaScript reports is the one `FirstMatch` finds |
| `PatchPattern.TextsArePieceTexts` | src/patch.ts:18-19 | both marker texts have the shape the matcher lemmas require: no leading `/`, no `*`, no newline |
| `PatchPattern.MarkerFacts` | src/patch.ts:18-19 | each marker ends in its only newline, and has `*` just before its closing `/` |
| `PatchPattern.MarkersEndWithNewline` | src/patch.ts:18-19 | each marker ends in its only newline |
| `PatchPattern.MarkersDollarFree` | src/patch.ts:18-19 | the markers contain no `$`, and the end marker cannot complete a `$` pattern |
| `PatchPattern.MarkersDisjoint` | src/patch.ts:18-19 | a start marker and an end marker cannot overlap in any text |
| `PatchPattern.TagInstanceShape` | src/patch.ts:21 | every piece instance ends in its only newline, with no `*` before its closing `/` |
| `PatchPattern.NoStartTagWithoutNewline` | src/patch.ts:21 | a text without a newline holds no start piece |
| `PatchPattern.NotShapedEndingInMarker` | src/patch.ts:18-21 | no piece instance ends inside or at the end of a literal marker, because the marker has `*` before its `/` |
| `PatchPattern.NotShapedAcrossNewline` | src/patch.ts:21 | no piece instance runs across a newline |
| `PatchPattern.NoTagAround` | src/patch.ts:18-21 | wrapping a text between two literal markers adds no piece instance |
| `PatchPattern.NoStartTagAroundBlock` | src/patch.ts:50-59 | appending a block whose payload has no start piece to a text with none adds none |
| `PatchPattern.LiteralFirstMatchOf` | src/patch.ts:21 | the match of an escaped pattern lies within the text |
| `PatchPattern.LiteralFirstMatch` | src/patch.ts:21 | the escaped `patchRegex`'s match lies within the text |
| `PatchPattern.LiteralFirstMatchOfIsLeftmostLazy` | src/patch.ts:21 | the escaped pattern's search finds nothing exactly when the literal markers never occur with start before end; otherwise it finds the leftmost start marker and the nearest end marker after it |
| `PatchPattern.LiteralFirstMatchIsLeftmostLazy` | src/patch.ts:21 | the same for the two actual markers |
| `PatchPattern.LiteralMatchAround` | src/patch.ts:21 | in `w + start + p + end`, with no start marker in `w` and no end marker in `p`, the escaped pattern matches exactly the appended block |
| `Patch.Install` | src/patch.ts:37-60 | install fails as empty target exactly when the target is blank. It fails as empty payload exactly when only the payload is blank, so the target check comes first. It succeeds exactly when neither is blank |
| `Patch.InstallLiteral` | src/patch.ts:37-60 | the corrected install has the same error cases as install |
| `Patch.Uninstall` | src/patch.ts:83-96 | uninstall fails as empty target exactly when the target is blank. It fails as not found exactly when a non-blank target lacks either marker. A result is never longer than twice the target less the markers |
| `Patch.Block` | src/patch.ts:50 | the block is the two markers and the payload, as long as the three together, and a `$`-free payload gives a `$`-free block |
| `Patch.ReplaceOrAppend` | src/patch.ts:52-60 | without a match the block is appended after the unchanged target; with a match the text before it and the text after it are kept unchanged around what replaces it |
| `Patch.SubstituteBlock` | src/patch.ts:50-56 | `replace` leaves the two markers of the block alone and substitutes only in the payload |
| `Patch.InstallAppendsWithoutMatch` | src/patch.ts:54-59 | without a match, install returns exactly `target + start + payload + end` |
| `Patch.InstallReplacesFirstMatch` | src/patch.ts:54-56 | with a match, only JavaScript's leftmost lazy match is replaced: the text before and after it is unchanged, and a `$`-free payload is inserted verbatim |
| `Patch.InstallWithMatch` | src/patch.ts:54-56 | the same, for the match the concrete search reports |
| `Patch.ReplaceWithBlock` | src/patch.ts:56 | `replace` on one match keeps both sides and inserts the substituted block |
| `Patch.ReplaceWithLiteralBlock` | src/patch.ts:56 | a `$`-free block is inserted as it is |
| `Patch.UninstallCutsFirstStartToLastEnd` | src/patch.ts:88-96 | uninstall cuts from the first start marker through the last end marker |
| `Patch.UninstallRemovesMarkedSpan` | src/patch.ts:96 | when the last end marker follows the first start marker, the cut span is exactly one block: start marker, the text between, end marker |
| `Patch.UninstallMisorderedDuplicates` | src/patch.ts:88-96 | when the last end marker starts before the first start marker, it also ends before it, and the text between them appears twice in the result |
| `Patch.KeepBothSides` | src/patch.ts:96 | keeping a prefix and an overlapping suffix repeats their overlap |
| `Patch.UninstallRemovesTrailingRegion` | src/patch.ts:88-96 | uninstall removes everything from an appended start marker to a final end marker |
| `Patch.UninstallRemovesBlock` | src/patch.ts:88-96 | uninstall removes an appended block, whatever the payload holds |
| `Patch.UninstallInvertsInstall` | src/patch.ts:50-96 | round trip: with no match and no start marker in a non-blank target, install appends the block and uninstall gives the target back |
| `Patch.NoMatchWithoutStartTag` | src/patch.ts:21 | without a start piece there is no match |
| `Patch.NoMatchAfterBlock` | src/patch.ts:21 | `patchRegex` does not match a text with an appended block, since the literal markers are not pattern pieces |
| `Patch.ReinstallAppendsSecondBlock` | src/patch.ts:21 | as written: installing onto an already patched text appends a second block instead of replacing the first |
| `Patch.ReinstallOnPageDuplicatesBlock` | src/patch.ts:21 | as written: a concrete page installed twice with the same payload holds the block twice |
| `Patch.UninstallRemovesBothBlocks` | src/patch.ts:88-96 | uninstall removes both blocks that a repeated install leaves |
| `Patch.LiteralMatchIsBlock` | src/patch.ts:21 | the escaped pattern matches exactly an appended block |
| `Patch.LiteralReinstallReplacesBlock` | src/patch.ts:21 | corrected: reinstalling replaces the block, so a `$`-free second payload leaves exactly one block, holding it |
| `Patch.LiteralReinstallIs` | src/patch.ts:54-56 | corrected: reinstalling replaces the whole appended block |
| `Patch.ReplaceWholeSuffix` | src/patch.ts:56 | replacing a match that runs to the end of the text keeps only the text before it |
| `Patch.InstallLiteralAppends` | src/patch.ts:59 | corrected: without a start marker, the corrected install appends the block |
| `Patch.UninstallInvertsInstallLiteral` | src/patch.ts:50-96 | corrected round trip: uninstall undoes the corrected install of any non-blank payload on a non-blank target without a start marker |
| `Workbench.PathLikeToString` | src/workbench.ts:10-24 | a string is returned unchanged and a buffer decoded. A `file:` URL gives its decoded pathname, failing when decoding fails. `TypeError` is raised exactly for another protocol or another kind of value |
| `Workbench.PathsToStrings` | src/workbench.ts:27 | the conversion succeeds exactly when every path converts, element by element; otherwise it fails with the first failing path's error |
| `Workbench.JoinPathLike` | src/workbench.ts:26-29 | joining succeeds exactly when every path converts, and is then `path.join` of the converted strings; otherwise it fails with the first failing path's error |
| `Workbench.JoinStringPaths` | src/workbench.ts:26-29 | on string paths, joining is `path.join` of the strings |
| `Workbench.Product` | src/workbench.ts:93-95 | the `flatMap` over directories and files has one entry per pair |
| `Workbench.ProductAt` | src/workbench.ts:93-95 | the entry at position `i` times the number of files plus `j` is the join for directory `i` and file `j`, so the order is directory-major |
| `Workbench.CandidatePath` | src/workbench.ts:94 | a candidate is `path.join` of the base path, a directory and a file name |
| `Workbench.CandidatePaths` | src/workbench.ts:79-95 | exactly six candidates: the three file names under `electron-sandbox/workbench`, then the same three under `electron-browser/workbench` |
| `Workbench.ProductTwoByThree` | src/workbench.ts:93-95 | two directories and three files give six entries in directory-major order |
| `Workbench.TestCandidatePath` | src/workbench.ts:43-69 | corrected: a candidate passes exactly when `stat` succeeds and it is not a directory. It fails as not found exactly on `ENOENT`, as a directory exactly for a directory, and with a stat error exactly on any other code |
| `Workbench.Settle` | src/workbench.ts:98-110 | corrected: a candidate's promise resolves to its path exactly when it passes, and rejects with its reason otherwise |
| `Workbench.CandidateShowsErrorIff` | src/workbench.ts:101-107 | corrected: an error message is shown for a candidate exactly when it is a directory or `stat` failed with a code other than `ENOENT` |
| `Workbench.FirstFulfilled` | src/workbench.ts:113 | the first promise to fulfil, in settling order: none exactly when all reject; otherwise every promise settled before it rejected |
| `Workbench.PromiseAny` | src/workbench.ts:112-113 | `Promise.any` resolves to the value of the first promise to fulfil in settling order, and rejects exactly when every promise rejects, with an `AggregateError` holding every rejection reason in candidate order |
| `Workbench.ShownMessages` | src/workbench.ts:101-105 | corrected: a reason is among the messages shown exactly when some candidate rejected with it and it is not `ENOENT`, and one message is shown per candidate that shows an error |
| `Workbench.Settlements` | src/workbench.ts:98-110 | corrected: each candidate settles as its classification says |
| `Workbench.AnyCandidatePasses` | src/workbench.ts:98-113 | corrected: for any candidate list, `Promise.any` over their promises resolves only to a candidate that exists and is not a directory. It rejects exactly when none passes, and then with every candidate's reason in candidate order |
| `Workbench.LocateWorkbench` | src/workbench.ts:78-115 | corrected: the search resolves only to a candidate that exists and is not a directory. It rejects exactly when no candidate passes, and then with every candidate's reason in order. It resolves to the first passing candidate in settling order. One message is shown per candidate that shows an error |
| `Workbench.ShownMessagesIff` | src/workbench.ts:101-105 | corrected: whatever the settling order, the messages shown are those of the rejections other than not found |
| `Workbench.LocateShowsNonMissingFailures` | src/workbench.ts:78-115 | corrected: the search shows a message for a reason exactly when some candidate failed with it and it is not `ENOENT` |
| `Workbench.AnyCandidateShows` | src/workbench.ts:98-110 | corrected: for any candidate list, a message is shown for a reason exactly when some candidate failed with it and it is not `ENOENT` |
| `Workbench.Others` | src/workbench.ts:113 | the other candidates' indices, each once, as a settling order |
| `Workbench.LocateCanResolveToAnyPassing` | src/workbench.ts:113 | any passing candidate can be the result, when it settles first |
| `Workbench.AnyPassingCanWin` | src/workbench.ts:113 | for any candidate list, a passing candidate settling first is what `Promise.any` resolves to |
| `Workbench.CatchAsWritten` | src/workbench.ts:56-68 | as written: the `catch` block returns a score only for `ENOENT`, and for any other error throws reading `workbenchPathFailedStat` of the undefined `messages.errors` |
| `Workbench.TestCandidateAsWritten` | src/workbench.ts:43-69 | as written: `testCandidatePath` returns only for a file that exists or for `ENOENT`, and throws for a directory or any other stat error |
| `Workbench.SettleAsWritten` | src/workbench.ts:98-110 | as written: a promise resolves exactly when the test returns a passing score. It rejects with a message exactly when the test returns a failing score whose reason is not `ENOENT`, and silently when the test throws or the reason is `ENOENT` |
| `Workbench.AsWrittenShowsNoMessage` | src/workbench.ts:52-63 | as written: no candidate ever shows an error message, and the candidates that pass are the intended ones |
| `Workbench.DirectoryMessageLost` | src/workbench.ts:52 | as written, a directory candidate rejects silently, where the intended reading shows a message |
| `Logging.Extend` | src/logger.ts:30 | the new prefix holds the old prefix, then `" -> "`, then the new name |
| `Logging.Line` | src/logger.ts:44 | a logged line is `[`, the prefix, `] ` and then the message unchanged |
| `Logging.ChainFrom` | src/logger.ts:29-34 | every chained prefix starts with the prefix it was chained from |
| `Logging.ArrowsSnoc` | src/logger.ts:30 | one more chained name goes at the end of the flat form |
| `Logging.ChainIsFlat` | src/logger.ts:29-34 | chaining names onto a prefix gives that prefix followed by `" -> " + name` for every name, first to last |
| `Logging.ChainComposes` | src/logger.ts:29-34 | chaining composes left to right: chaining two lists in turn equals chaining their concatenation |
| `Logging.LineDeterminesMessage` | src/logger.ts:44 | under one prefix, the line written determines the message |
| `Logging.OutputChannel.constructor` | src/logger.ts:16-18 | a new output channel holds no records |
| `Logging.OutputChannel.Append` | src/logger.ts:44 | writing to the channel appends exactly one record at that level |
| `Logging.Logger.constructor` | src/logger.ts:20-21 | a fresh logger has prefix `"GLOBAL"` and writes to the shared channel |
| `Logging.Logger.Prefix` | src/logger.ts:29-34 | `prefix` returns a fresh logger whose prefix is the old prefix, `" -> "` and the new name, on the same channel; the receiver is not changed |
| `Logging.Logger.Log` | src/logger.ts:43-45 | a log call appends exactly one record, `[prefix] message` at the given level, and changes nothing else |
| `Logging.Logger.Trace` | src/logger.ts:53-55 | logs the message unchanged at level trace |
| `Logging.Logger.Debug` | src/logger.ts:63-65 | logs the message unchanged at level debug |
| `Logging.Logger.Info` | src/logger.ts:73-75 | logs the message unchanged at level info |
| `Logging.Logger.Warn` | src/logger.ts:83-85 | logs the message unchanged at level warn |
| `Logging.Logger.Error` | src/logger.ts:93-95 | logs the message unchanged at level error |
| `Logging.ChainedLogger` | src/logger.ts:29-34 | `new Logger().prefix(a).prefix(b)` has prefix `"GLOBAL -> " + a + " -> " + b`, which is the chain of `[a, b]` |

## Left out

- Reading and writing files is not modelled. `Patch.Install` and `Patch.Uninstall` take the target and payload contents and return the new contents or an error. Also not modelled:
  - `locateFile`;
  - the payload URL;
  - the `Promise.allSettled` fan-out over `patchMapping`.

  `./mapping` is not part of this model.
- The thrown `Error`s become the tags of `PatchError`. Their message text is not modelled.
- The log calls inside `installPatch` and `uninstallPatch` (src/patch.ts:38, 46, 55, 58, 64, 84, 92, 100) are not modelled. The `Logger` they call is modelled on its own in `Logging`.
- The `m` flag of `patchRegex` changes nothing here, because the pattern has no `^` or `$`.
- JavaScript strings are sequences of UTF-16 code units, and the model's strings are sequences of characters. The two differ only in index values for text outside the Basic Multilingual Plane. The markers and the whitespace set are all in that plane.
- The whitespace set of `trim` is written out as in ECMAScript: WhiteSpace and LineTerminator, with the space separators of the Unicode standard.
- The host's `path.join`, `Buffer.toString`, `decodeURIComponent` and `env.appRoot` are fields of `Workbench.Host`. Their results are not interpreted. `decodeURIComponent` may fail, which gives `UriError`.
- `stat` is a function from path to outcome. A successful `stat` is reduced to whether the entry is a directory.
- `window.showErrorMessage` is modelled as the list of reasons shown. The text of each message is not modelled.
- `Promise.any` is modelled as a settling order chosen from outside. The race itself is not modelled.
- `Workbench.LocateWorkbench` uses the evidently intended classification `TestCandidatePath`, not `TestCandidateAsWritten`. Its contract, and those of `Settle`, `Settlements`, `ShownMessages` and the lemmas over them, describe the corrected program. The program as written never shows a message (`Workbench.AsWrittenShowsNoMessage`).
- `Workbench.ShownMessages` lists the shown messages in settling order. The real order also depends on timing.
- The message text in src/messages.ts is not modelled. Failure reasons are the tags `NotFound`, `IsDirectory` and `StatError`.
- `showLogChannel` and `disposeLogChannel` (src/logger.ts:103-114) are not modelled. They only call the host's user interface.
- The channel's display name (src/logger.ts:16) is not modelled.
- `OutputChannel` keeps the records in the order written. How the host renders them is not modelled.
- src/file.ts, src/backups.ts and src/extension.ts are not part of this model. They are thin wrappers over `glob`, `copyFile`/`unlink` and the VS Code command API.
- The build and tooling scripts are not part of this model.
- `Patch.Uninstall`: its own contract states only the error cases and a length bound. `Patch.UninstallCutsFirstStartToLastEnd` states the exact result.

## Findings

| source | as written | input that shows it | evidently intended | confidence | as-written member | corrected member |
|---|---|---|---|---|---|---|
| src/patch.ts:21 | The pattern is built from the marker strings without escaping. `/*` matches a run of slashes, and ` *` a run of spaces. The pattern therefore never matches the literal markers that install writes, and a repeated install appends a second block | the page `<html><head></head></html>` installed twice with the payload `<style>x</style>` | Installing onto patched text replaces the existing block | high; not executed | `Patch.ReinstallOnPageDuplicatesBlock` | `Patch.LiteralReinstallReplacesBlock` |
| src/workbench.ts:52 | `messages.errors.isDirectoryNotFile` (line 52) and `messages.errors.workbenchPathFailedStat` (line 63) read a key that src/messages.ts:3-24 does not define. The `TypeError` from line 52 reaches the `catch` block and is raised again at line 63. For a directory, or for any stat error other than `ENOENT`, the candidate rejects without a message | a candidate path that is a directory | A message is shown exactly for a directory and for stat errors other than `ENOENT` | high; not executed | `Workbench.DirectoryMessageLost` | `Workbench.CandidateShowsErrorIff` |
