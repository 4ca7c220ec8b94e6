# git-members blame report, modelled in Dafny

The extension runs `git blame` on the active file and opens a plain-text
report beside it: one line per document line, holding the author name padded
to 20 columns, ` | `, and the line's text. The author names come from the
blame output's `author ` header lines. They are numbered 0, 1, 2, ... in
output order, and row `i` of the report uses name `i`.

Two revisions of the same file are modelled:

- `out/extension.js` asks for `git blame --line-porcelain`. `parseBlameOutput`
  fills an array with the names. `showBlameResults` renders the report from
  that array. `getBlameForFile` parses the output only when git closes with
  code 0.
- `src/extension.ts` asks for `git blame --porcelain`. A single
  `showBlameResults` fills a number-keyed object with the names and then
  renders the report. The command handler renders nothing when git's stdout
  is empty.

Layout:

- `js_strings.dfy` (module `JsStrings`): the JavaScript string operations
  used, as functions on `seq<char>`. It covers `split('\n')` with its inverse
  `join`, `startsWith`, `indexOf`, `replace` with a string pattern and a
  replacement without `$` patterns, and `padEnd`. It also has `Terminated`, the text a `content += row + "\n"` loop
  builds.
- `blame_spec.dfy` (module `BlameSpec`): the pure specification both
  revisions share. `ParsedAuthors` is the author list of an output and
  `Report` is the report text. It also holds the lemmas that characterise
  them.
- `blame_js.dfy` (module `BlameJs`) and `blame_ts.dfy` (module `BlameTs`):
  the imperative code of each revision. Each loop is proved equal to the
  specification functions.
- `blame_examples.dfy` (module `BlameExamples`): concrete outputs and
  documents.
- `wrappers.dfy` (module `Wrappers`): `Option` and `Result`.

The renderers return the `content` string that the source hands to
`openTextDocument`. The command handlers take the active editor's document
(`None` when there is no editor) and the settled outcome of the blame run as
parameters. They return what ends up on screen: an error notification, the
opened report, or nothing.

A behaviour of the `--porcelain` revision: git writes a commit's `author `
header only the first time the commit appears in the output. So the
number of names need not equal the number of lines, and name `i` need not
belong to line `i`. The parser does not correct for this.
`BlameExamples.PorcelainRepeatedCommitReport` shows a two-line file from one
commit whose second row reads "Unknown". The `--line-porcelain` revision
repeats the header for every line. The model follows the code: it never
assumes one name per document line.

The padded author field is never truncated. A name longer than 20 characters
pushes the separator right, to column `max(20, |name|)`.

## Model

| member | source | states |
|---|---|---|
| `BlameJs.ParseBlameOutput` | out/extension.js:94-106 | the array the loop fills equals `ParsedAuthors` of the output (its contents are characterised by `ParsedAuthorsAt`) |
| `BlameJs.ShowBlameResults` | out/extension.js:108-114 | the content the loop accumulates equals `Report` of the author array and the document lines |
| `BlameJs.OnClose` | out/extension.js:82-90 | the result is a success exactly when the close code is 0, and then holds the parsed authors; any other code, `null` included, is an error carrying that code |
| `BlameJs.ShowGitBlame` | out/extension.js:50-69 | no editor shows the no-editor error; a rejected blame shows "Failed to run git blame: " followed by the message, or "Unknown error occurred" when the message is empty; a resolved blame always opens the report, even for an empty array |
| `BlameJs.Digits` | out/extension.js:88 | the decimal text of a non-negative number: one or more digits spelling the number, with no leading zero (so 0 is "0") |
| `BlameJs.LeadingDigitPositive` | out/extension.js:88 | digits that start with a non-zero digit spell a positive number |
| `BlameJs.DecimalUnique` | out/extension.js:88 | a number has exactly one decimal text without a leading zero, so `Digits` gives the text `${n}` writes |
| `BlameJs.CodeText` | out/extension.js:88 | `${code}`: "null" for a signal-ended process, the decimal text (digits, no leading zero) of a non-negative code, a minus sign then the decimal text of the magnitude for a negative code |
| `BlameJs.ErrorMessage` | out/extension.js:79-89 | the rejection message is the error stream's text, or "git blame process exited with code " followed by the code text, which is never empty |
| `BlameTs.ShowBlameResults` | src/extension.ts:63-84 | the content equals the report rendered from `blameInfo`, the object with keys 0..k-1 holding the parsed authors, and so equals the report the JavaScript revision renders |
| `BlameTs.ShowGitBlame` | src/extension.ts:24-43 | no editor shows the no-editor error; an exec error shows "Failed to run git blame: " followed by its message; non-empty stdout opens the report of its parsed authors; nothing is shown exactly when stdout is empty |
| `BlameSpec.StripAuthor` | out/extension.js:100 | `replace('author ', '')` never lengthens the line (on an author line it removes exactly the prefix, see `StripAuthorLine`) |
| `BlameSpec.ParsedAuthors` | out/extension.js:94-106 | the parsed list has at most one name per line of the output (what each name is, is stated by `ParsedAuthorsAt`) |
| `BlameSpec.AuthorLines` | out/extension.js:95 | the filter keeps no more lines than it is given, and every kept line starts with `author ` |
| `BlameSpec.MatchIndices` | out/extension.js:95 | the indices of the kept lines are in range and strictly increasing, and an index is among them exactly when its line starts with `author ` |
| `BlameSpec.AuthorLinesAtMatches` | out/extension.js:95 | the filtered lines are the input lines at `MatchIndices`, in input order |
| `BlameSpec.ParsedAuthorsAt` | out/extension.js:95-104 | the parser returns one entry per line starting with `author `; entry k is the k-th such line without its 7-character prefix, with nothing trimmed |
| `BlameSpec.StripAllSnoc` | out/extension.js:98-104 | one loop step over the filtered lines adds exactly the stripped current line at the end |
| `BlameSpec.IndexMapSnoc` | src/extension.ts:73-74 | storing the next author under key `lineNumber`, the number stored so far, gives the object of the longer author list |
| `BlameSpec.ParsedAuthorsOfLines` | src/extension.ts:65-76 | for output made of newline-free lines, the parsed authors are the stripped `author ` lines among them |
| `BlameSpec.StripAuthorLine` | src/extension.ts:73 | `replace('author ', '')` on an `author ` line removes exactly the leading prefix |
| `BlameSpec.ParsedAuthorsEmpty` | src/extension.ts:65-76 | the parser yields no entry if and only if no line of the output starts with `author ` |
| `BlameSpec.ParsedAuthorsNewlineFree` | out/extension.js:95-104 | no parsed author name contains a newline |
| `BlameSpec.IndexMap` | src/extension.ts:67-76 | the object built from an author list has exactly the keys 0..k-1, and key i holds author i |
| `BlameSpec.Row` | out/extension.js:113 | a row is as long as the padded author column, max(20, length of the author), plus the separator and the line text |
| `BlameSpec.FieldAt` | out/extension.js:112 | `blameOutput[i] or 'Unknown'`: the author at index i when it exists and is non-empty, otherwise "Unknown"; never empty |
| `BlameSpec.FieldAtKey` | src/extension.ts:82 | `blameInfo[i] or 'Unknown'`: the value under key i when the key exists and the value is non-empty, otherwise "Unknown"; never empty |
| `BlameSpec.Report` | out/extension.js:109-114 | the report is empty exactly when the document has no lines (its rows are stated by `ReportLines`) |
| `BlameSpec.ReportByKey` | src/extension.ts:79-84 | the report rendered from the number-keyed object is empty exactly when the document has no lines (`ReportByKeyAgrees` equates it with `Report`) |
| `BlameSpec.RowLayout` | out/extension.js:113 | a row is the author, spaces up to column max(20, length of the author), the separator (space, bar, space) there, then the line text verbatim; there is no truncation |
| `BlameSpec.AppendRow` | src/extension.ts:81-83 | one loop step appends row i, written as the template literal writes it, and a newline to the content of rows 0..i-1 |
| `BlameSpec.ReportLines` | out/extension.js:109-114 | the report splits into exactly one line per document line plus an empty piece after the final newline; line i is the author at index i, or "Unknown" when that entry is missing or empty, padded, with the separator and line i's text |
| `BlameSpec.ReportIgnoresExtraEntries` | out/extension.js:110-112 | author entries at indices at or past the document's line count do not change the report |
| `BlameSpec.ReportByKeyAgrees` | src/extension.ts:80-84 | rendering from the number-keyed object gives the same report as rendering from the array it was built from |
| `JsStrings.Split` | out/extension.js:95 | `split('\n')` yields at least one piece, and no piece contains a newline |
| `JsStrings.JoinSplit` | out/extension.js:95 | joining the pieces of a split with newlines gives back the original text |
| `JsStrings.SplitJoin` | out/extension.js:95 | splitting newline-free lines joined with newlines gives back those lines |
| `JsStrings.SplitAround` | out/extension.js:95 | splitting text around a newline splits each side separately |
| `JsStrings.SplitNoNewline` | out/extension.js:95 | text without a newline splits into itself alone |
| `JsStrings.TerminatedSnoc` | out/extension.js:113 | appending a row and a newline to the content extends the row list by that row |
| `JsStrings.TerminatedExtend` | src/extension.ts:83 | one loop step appends row i and a newline to the content of rows 0..i-1 |
| `JsStrings.SplitTerminated` | out/extension.js:109-114 | newline-terminated rows split into exactly those rows and one trailing empty piece |
| `JsStrings.PadEnd` | out/extension.js:113 | `padEnd(width)` has length max(width, length of s), starts with `s` and is spaces after it |
| `JsStrings.IndexOf` | out/extension.js:100 | the result is -1 when the pattern does not occur, else the first occurrence at or after the start position |
| `JsStrings.ReplaceFirstAtStart` | out/extension.js:100 | on a string that starts with the pattern, `replace` swaps exactly that prefix and keeps later occurrences |
| `JsStrings.ReplaceFirst` | src/extension.ts:73 | `replace` with a string pattern returns the text unchanged when the pattern does not occur anywhere; when it occurs, the length changes by the replacement's length minus the pattern's (which occurrence is replaced is stated by `ReplaceFirstAtOccurrence`) |
| `JsStrings.ReplaceFirstAtOccurrence` | src/extension.ts:73 | `replace` swaps exactly the first occurrence of the pattern, wherever it is, keeping the text before and after it |
| `JsStrings.StartsWith` | out/extension.js:99 | `startsWith(prefix)` holds exactly when the prefix occurs at index 0, and then the text is the prefix followed by the rest |
| `BlameExamples.TwoBlocksFilter` | out/extension.js:95 | of two `--line-porcelain` blocks the filter keeps only the two `author ` lines, dropping `author-mail`, `author-time` and tab-prefixed content |
| `BlameExamples.TwoBlocks` | out/extension.js:94-106 | two blocks with `author-mail`, `author-time` and tab-prefixed content lines parse to ["Alice", "Bob"] |
| `BlameExamples.EmptyOutput` | out/extension.js:95-105 | empty output parses to no authors |
| `BlameExamples.StripNames` | out/extension.js:100 | lines made of `author ` and a name strip to exactly those names |
| `BlameExamples.UntrimmedFilter` | src/extension.ts:65 | the filter keeps a line ending in a carriage return and a line whose name holds `author ` |
| `BlameExamples.NoTrimming` | src/extension.ts:73 | a CRLF carriage return stays in the name, and a name holding `author ` keeps it |
| `BlameExamples.ShortSnapshot` | out/extension.js:112 | a row whose index is past the author list, or whose entry is empty, starts with "Unknown" |
| `BlameExamples.PorcelainRepeatedCommitFilter` | src/extension.ts:65 | `--porcelain` output for two lines of one commit holds a single `author ` line |
| `BlameExamples.PorcelainRepeatedCommit` | src/extension.ts:65-76 | that output parses to one author |
| `BlameExamples.PorcelainRepeatedCommitReport` | src/extension.ts:79-84 | the report of that output gives the second line "Unknown" |

## Left out

- Process spawning and stream handling are not modelled. This covers `spawn` and `exec`, stdout buffering, and the `stderr` handler whose `reject` races the `close` handler (out/extension.js:72-81, src/extension.ts:49-60). They are I/O and event ordering. Only the close-code rule is modelled (`BlameJs.OnClose`). The handlers take the settled outcome as a parameter.
- The git arguments (`--line-porcelain` in out/extension.js:74, `--porcelain` in src/extension.ts:50) are not modelled. They are command-line text passed to a foreign process. Their effect on the parsed list is shown by `BlameExamples.PorcelainRepeatedCommit`.
- VS Code host calls are not modelled: `registerCommand`, `showErrorMessage`, `openTextDocument`/`showTextDocument`, `activate`/`deactivate`, and the `gitmembers.ikun` command. They are foreign API glue. The document is its list of line texts, and the outcome on screen is a `CommandResult` value.
- `delay` (out/extension.js:34-36) is not modelled. It is an unused timer promise.
- Live highlighting, debounced selection tracking, the toggle state machine and hover tooltips have no code in these files, so nothing of them is modelled.
- `padEnd` counts UTF-16 code units. Here a string is a sequence of chars, one char per code unit, which holds for text without surrogate pairs. Surrogate pairs and normalisation are not modelled.
- BlameTs.ShowGitBlame: the exec error's message is taken as a string. The `undefined` a message-less error would print is not modelled.
