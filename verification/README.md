# PythonLinter, modelled in Dafny

PythonLinter is an editor plugin for Python files. When a `.py` file is saved
or opened, the plugin pipes the file's text through `python3 -m py_compile -`.
It reads a line number and a message out of the compiler's standard error
text. It marks that line in the editor and shows a popup with a fix hint
chosen by keyword. The plugin keeps one mark per file in its `errorMarks`
table. When a check finishes, the plugin clears the file's old mark before
it may add a new one; if reading or checking fails, the old mark stays. It
clears all marks on `destroy`.

The model has five modules:

- `Options` (`options.dfy`): the optional value that stands for the
  source's `null`.
- `Text` (`text.dfy`): the JavaScript string operations the plugin relies
  on.
  - `trim`, with the full ECMAScript whitespace set.
  - `split('\n')` and its inverse `Join`.
  - `startsWith`, `endsWith` and `includes`.
  - `toLowerCase` on ASCII letters.
  - Decimal digits and `parseInt`.
- `Diagnostics` (`diagnostics.dfy`): `parseError`.
  - The line number is the greedy digit run after the leftmost `line <digit>`.
  - The message is the trim of the first line that is not blank once
    trimmed and does not start with `  File`.
  - If either is missing there is no diagnostic.
- `Suggestions` (`suggestions.dfy`): `suggestFix`. It holds the table of
  four keywords, tried in order on the lowered message, plus the fallback
  hint.
- `Linter` (`linter.dfy`): the plugin state and its events.
  - The state is the `errorMarks` table. Alongside it sits the set of mark
    handles the editor still shows, and the counter from which `markText`
    hands out fresh handles.
  - The events are `save` and `open` with the `.py` filter.
  - The operations are `lintFile`, with the outcome of reading and running
    the compiler as an input, then `clearMarks`, the insertion
    `displayError` makes, and `destroy`.
  - `Valid` is the invariant that the table and the editor agree.

## Model

| member | source | states |
|---|---|---|
| Diagnostics.ParseError | main.js:74-81 | Whenever a diagnostic is returned, its message is one non-empty line with no whitespace at either end. |
| Diagnostics.ParseErrorNoneIff | main.js:77-79 | `parseError` returns nothing exactly when the text has no `line <digit>` anywhere, or when no line passes the message test (non-blank after trim and not starting with `  File`). |
| Diagnostics.ParseErrorUsesFirstMatches | main.js:77-80 | A diagnostic's line is the decimal value of the digits captured at the leftmost match of `/line (\d+)/`. Its message is the trim of the first line the `find` test accepts. |
| Diagnostics.ParseRecoversLine | main.js:77-80 | If the first `line <digits>` in the text spells the number n, and some line is a message line, the diagnostic reports exactly n. This is the regex capture and `parseInt` read back as a round trip. |
| Diagnostics.MessageAfterLocation | main.js:78-80 | In a two-line text that parses, whose first line is a `  File` location line and whose second line is already trimmed, non-empty and not a location line, the message is the second line. |
| Diagnostics.MessageOnFirstLine | main.js:78-80 | In a two-line text that parses, whose first line is already trimmed, non-empty and not a location line, that first line is the message. |
| Diagnostics.IndentedTracebackExample | main.js:75-80 | The example in the source comment, with Python's two-space indent before `File`, parses to line 4 with the message `SyntaxError: invalid syntax`. |
| Diagnostics.UnindentedLocationIsMessage | main.js:75-80 | The example exactly as the comment spells it, with no indent, parses to line 4 with the location line itself as the message. The `startsWith('  File')` test needs the two spaces. |
| Diagnostics.NoLineNumberNoDiagnostic | main.js:77-79 | Text with no `line <digit>` anywhere never yields a diagnostic, whatever its lines. |
| Diagnostics.NoLetterLNoDiagnostic | main.js:77-79 | In particular, text with no letter `l` never yields a diagnostic. |
| Diagnostics.LineZeroIsReported | main.js:77-80 | No lower bound is enforced: `line 0` on a line of its own, followed by any line, gives a diagnostic for line 0 whose message is `line 0` itself. `Linter.LintFileNewMark` then puts its mark on line -1. |
| Diagnostics.FindLineToken | main.js:77 | The leftmost position from `from` onward where `line ` is followed by a digit, or none. |
| Diagnostics.FindMessageLine | main.js:78 | The index of the first line passing the `find` test; none exactly when no line passes. |
| Text.Trim | main.js:78 | `trim` removes the whitespace runs at both ends. The result is the middle of the input with whitespace on either side, it has none at its own ends, and it is empty exactly when the input is all whitespace. |
| Text.TrimOfPadded | main.js:78 | A trimmed core padded with any whitespace on both sides trims back to exactly that core. |
| Text.JoinSplit | main.js:78 | `split('\n')` loses nothing: joining its pieces with the separator gives back the text. |
| Text.SplitJoin | main.js:78 | Splitting a join of separator-free pieces gives back the pieces. |
| Text.Split | main.js:78 | `split` returns at least one piece, and no piece contains the separator. |
| Text.ContainsIff | main.js:85-88 | `includes` holds exactly when the keyword occurs at some position of the text. |
| Text.DecimalRoundTrip | main.js:80 | `parseInt` of the decimal spelling of n is n. |
| Text.Lower | main.js:84 | `toLowerCase` leaves no capital ASCII letter, and its result differs from the input only in letter case. |
| Text.LowerIgnoresCase | main.js:84 | Texts that differ only in the case of ASCII letters lower to the same text. |
| Text.LowerIdempotent | main.js:84 | Lowering twice is lowering once. |
| Suggestions.SuggestFix | main.js:83-90 | The hint is always one of the five hints. The hint of keyword i is returned exactly when keyword i is the first (in the source's order) that the lowered message contains. The fallback is returned exactly when none is contained. |
| Suggestions.FirstRule | main.js:85-88 | The table lookup: the first rule whose keyword the text contains, or none exactly when no keyword is contained. |
| Suggestions.SuggestFixIsTableLookup | main.js:83-90 | The chain of `if`s equals the first-match lookup of the keyword table. |
| Suggestions.SuggestFixIgnoresCase | main.js:84 | The hint depends only on the lowered message. |
| Suggestions.SyntaxErrorExample | main.js:84-85 | The running example's message `SyntaxError: invalid syntax` gets the hint about `:` and brackets. |
| Suggestions.HintsDistinct | main.js:85-89 | The five hints differ pairwise, so the hint shown identifies the rule that fired. |
| Linter.Init | main.js:22 | `init` starts with an empty table and no mark shown, and the two agree. |
| Linter.ClearMarks | main.js:92-98 | The file's entry is removed and its mark cleared. Every other entry and every other shown mark is unchanged, and the agreement invariant is kept. |
| Linter.LintFile | main.js:25-37 | A failed read or check is caught before `clearMarks`, so the state is unchanged and the error is logged. Otherwise the file has a mark afterwards exactly when the error text is non-empty and parses, and a popup is shown exactly then. |
| Linter.LintFileKeepsValid | main.js:25-37 | Linting any file with any outcome keeps the table and the editor in agreement. |
| Linter.LintFileNewMark | main.js:47-71 | From an agreeing state, a new mark has a fresh handle that no shown mark uses, and spans line `line - 1` from column 0 to column 999, with the message as its title. The popup shows the line, the message and `suggestFix(message)`. |
| Linter.LintFileClearsOldMark | main.js:31-33 | A finished check clears the file's previous mark and shows at most one new one; no other shown mark changes. |
| Linter.LintFileKeepsOtherFiles | main.js:31-62 | Linting a file leaves every other file's entry as it was. |
| Linter.HandleEvent | main.js:13-20 | `save` with no file does nothing. `open` with no file throws before anything happens. A URI not ending in `.py` is ignored. A `.py` file is linted. |
| Linter.Destroy | main.js:100-103 | The table is emptied and every mark it held is cleared. From an agreeing state, no mark is left shown. |
| Linter.RunKeepsValid | main.js:13-22 | Any sequence of `save`/`open` events from an agreeing state keeps the agreement, so `destroy` afterwards leaves nothing shown. |
| Linter.OneShownMarkPerFile | main.js:62 | In an agreeing state the editor shows exactly as many marks as the table has files. |
| Linter.RelintReplacesMark | main.js:31-62 | Linting a file twice, the second check finishing, leaves one entry for it when the second check's error text is non-empty and parses, and none otherwise. Marks shown still equal entries. |

## Left out

- The CSS injected into the page, `registerPlugin`, and the `exec`
  wrapper's promise plumbing are not modelled. Reading the file and running
  the compiler are one input, `CheckOutcome`: either it failed (thrown) or it
  finished with the standard error text.
- The editor calls `markText`, `mark.clear()` and `acode.alert` are modelled
  only by their effect on the state: a fresh handle, the set of shown
  handles, and the popup content. The HTML of the popup is not modelled.
  These calls are assumed not to throw.
- If `acode.exec` never calls back, the promise in `exec` never settles
  (there is no time-out). `lintFile` then never reaches `clearMarks` and
  logs nothing. No `CheckOutcome` stands for this case; the model treats
  every check as ending.
- `displayError` marks `editorManager.editor`, the editor active at that
  moment, which need not show the linted file. The model keys the mark by
  the linted file's URI, as the table does, and does not track which editor
  draws it.
- Asynchrony is not modelled. Each event is handled to completion before
  the next, so interleavings of two `lintFile` calls are out of scope.
- `parseInt` is read into an unbounded natural. The loss of precision past
  2^53 is not modelled.
- `toLowerCase` lowers ASCII letters only. Outside ASCII, only U+0130 and
  U+212A lower to text holding ASCII letters. U+0130 becomes `i` followed by
  U+0307, and no keyword ends in `i`. U+212A becomes `k`, which no keyword
  contains. So the keyword tests come out the same as with full lowering.
- JavaScript strings are UTF-16 code units; the model's strings are
  sequences of Unicode scalar values. Surrogate pairs are not modelled.
- `Linter.HandleEvent`: an `open` event without a file makes the source
  throw a TypeError, because it reads `file.uri` with no null check. The
  model returns the `Escaped` effect rather than modelling the exception.
- `Linter.Destroy`: the event handlers stay subscribed after `destroy`; the
  model keeps the plugin usable rather than modelling unsubscription.
- The comment in `parseError` shows the location line without Python's
  two-space indent. With the code as written, such a line is itself taken
  as the message (`Diagnostics.UnindentedLocationIsMessage`). The model
  follows the code.
