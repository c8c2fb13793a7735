# Wrap Markdown: the line-reflow loop, modelled in Dafny

This project models the "wrap selected lines" command of the VS Code extension
vscode-wrap-markdown. The command reads the first editor ruler as the wrap width
`W`. For each line of an inclusive range it repeats one step while the rest of
the line is longer than `W`:

- it looks up the run of non-white-space characters at column
  `columnOffset + W`;
- it cuts the text before that run, or at `W` when no run is found there;
- it pushes the cut piece with its trailing white space removed;
- it goes on from the cut.

The loop gives up when the run found starts exactly at the current column,
which means one word fills the whole width. A line from which at least one
piece was cut gets a replacement record. The record holds the range of the
whole line and the new text `outputLines.join('\n') + text`.

Modules, in dependency order:

- `Strings` (strings.dfy)
  - JavaScript white space. The `\s` class and `trimEnd` agree on it, and both
    are modelled by `IsSpace`.
  - `trimEnd`, `Array.prototype.join`, and the split of a text into document
    lines at line feeds.
- `WordRange` (word_range.dfy)
  - `getWordRangeAtPosition(position, /\S+/)`, reduced to the start column of
    the run at a position.
- `Reflow` (reflow.dfy)
  - The per-line loop as an imperative method, `WrapLine`.
  - Its reference definitions:
    - `WrapFrom`, the loop as a recursive function;
    - `CutPoints`, the list of columns where the loop cuts;
    - `Cuts` and `Remainder`, the untrimmed pieces and the final text.
  - The properties of those definitions.
- `Wrap` (wrap_range.dfy)
  - The loop over the line range, as the method `WrapRange`.
  - The list of records it builds, as the function `Changes`.
- `Findings` (findings.dfy)
  - The replacement text as written, and a line whose words it fuses.
  - The evidently intended record, and its proved property.

The document is a `seq<string>`, one string per line, with no line feeds inside a
line. Columns are indices into these strings.

## Model

| member | source | states |
|---|---|---|
| WordRange.RunStartSpec | src/extension.ts:58-60 | Walking left from a non-white-space character finds the start of its run. That start is at the line start or after white space, and the run covers the character. |
| WordRange.WordStartAtSpec | src/extension.ts:58-60 | A run is found at column p exactly when the character at p is non-white-space. With `endInclusive`, a run that ends just before p also counts. The column found starts a run that reaches p. |
| Strings.TrimEndSpec | src/extension.ts:72 | `trimEnd` keeps a prefix of its argument that does not end in white space. Everything it drops is white space. |
| Strings.LinesOfJoin | src/extension.ts:82 | Joining newline-free texts with "\n" and splitting the result at line feeds gives back the same texts. |
| Reflow.WordStartNotBehind | src/extension.ts:58-61 | When the loop stands at a column that does not split a word, the run found at the probe column starts at or after that column. So `translate(0, -columnOffset)` never gives a negative column. |
| Reflow.BreakColumnSpec | src/extension.ts:58-63 | The break column c is between 0 and W. If c is positive, the cut does not split a word. If c < W, the column starts the word that reaches the probe column. If c == W, either no run was found or one starts exactly at the probe. |
| Reflow.CutPointsAdvance | src/extension.ts:56-75 | Every cut advances `columnOffset` by at least 1 and at most W columns. Every cut lies on the line and does not split a word. |
| Reflow.CutPointsStop | src/extension.ts:56-69 | The loop stops at a column where the rest fits in W, or where the break column is 0. |
| Reflow.SegmentsConcat | src/extension.ts:72-73 | The untrimmed pieces between consecutive cuts, written one after the other, are the line up to the last cut. |
| Reflow.Reconstruct | src/extension.ts:72-75 | The untrimmed pieces followed by the remainder are exactly the line. Each untrimmed piece is 1 to W characters long. |
| Reflow.PiecesFit | src/extension.ts:72 | Every pushed piece is at most W characters long and does not end in white space. |
| Reflow.ShortLineUncut | src/extension.ts:56 | A line of at most W characters is not cut, and its remainder is the whole line. |
| Reflow.GiantWordLeftWhole | src/extension.ts:65-69 | When the loop stops at a remainder longer than W, the first W characters of that remainder are non-white-space: one word fills the width, so it is left whole. |
| Reflow.WrapFromCuts | src/extension.ts:56-76 | Run from any column it can stand at, the loop pushes the trimmed pieces between its cuts after the pieces it already has. It leaves the line from the last cut on. |
| Reflow.WrappedCuts | src/extension.ts:51-76 | Run on a whole line, the loop's outcome is the trimmed `Cuts` and the `Remainder`. |
| Reflow.WrapLine | src/extension.ts:51-76 | The imperative loop ends with `outputLines` equal to the trimmed cuts and `text` equal to the remainder, as the reference definitions give them. It keeps the invariant `text == line[columnOffset..]`. |
| Wrap.WrapLineAt | src/extension.ts:49-84 | One turn of the range loop gives exactly the record that `ChangeAt` defines for the line, or none. |
| Wrap.ChangeAtSpec | src/extension.ts:56-84 | A line gets a record if and only if it is longer than W and its first break column is positive. The record's range is the whole line, and its text is the trimmed pieces joined with "\n", followed by the remainder. |
| Wrap.WrapRange | src/extension.ts:46-85 | The list the range loop builds is `Changes` over the lines from `first` to `last`. |
| Wrap.ChangesStep | src/extension.ts:48-84 | One more line adds its record, if it gets one, after the records of the lines before it. |
| Wrap.ChangesSound | src/extension.ts:48-84 | Every record in the list belongs to a line of the range, and it is that line's own record. |
| Wrap.ChangesComplete | src/extension.ts:48-84 | Every line of the range that gets a record has that record in the list. |
| Wrap.ChangesOrdered | src/extension.ts:48-84 | The records are in strictly ascending line order, so no line has two. |
| Findings.NewContentLines | src/extension.ts:82 | As written, the new text, split into document lines, is the pieces with the remainder glued onto the last piece. |
| Findings.GluedWords | src/extension.ts:82 | The record of "aaaa bbbb cccc" at W = 10 has the text "aaaa bbbbcccc". |
| Findings.CorrectedContentLines | src/extension.ts:82 | The corrected text, split into document lines, is the pieces followed by the remainder. |
| Findings.CutsNoNewline | src/extension.ts:72-73 | No pushed piece and no remainder of a document line contains a line feed. |
| Findings.CorrectedChangeLines | src/extension.ts:78-84 | A corrected record splits into exactly the trimmed pieces followed by the remainder, each on its own line. |
| Findings.WordsKept | src/extension.ts:82 | The corrected record of "aaaa bbbb cccc" at W = 10 has the text "aaaa bbbb\ncccc". |

## Left out

- `activate` and `deactivate` (src/extension.ts:3-26). They only register
  commands. The line range they pass is a parameter here.
- Reading the ruler and the error message when no ruler is set
  (src/extension.ts:30-37). The width is a parameter.
- The width is a `nat`. A negative or fractional ruler value is not modelled.
- The check for an active editor (src/extension.ts:39-44). The document is a
  sequence of lines, and `lineAt` is indexing (src/extension.ts:50).
- The final `editor.edit` (src/extension.ts:87-89). The model ends with the
  list of records that it would apply.
- The editor's word lookup itself is not part of this model.
  - It may or may not count a run that ends exactly at the probe column. The
    parameter `endInclusive` covers both cases.
  - Every result is proved for both values.
- Columns are indices into `seq<char>`. VS Code counts UTF-16 code units, so
  characters outside the Basic Multilingual Plane are not modelled.
- Markdown prefixes are not modelled, because the code at
  src/extension.ts:28-90 has no prefix handling. The extension's own
  description promises prefixes: block quotes, list markers and indentation.
- Partial progress follows the code. The extension's description says a line
  that hits a word wider than W stays unchanged. The code keeps the pieces it has already
  cut and records them.
- Records follow the code as written: `Wrap.ChangeAt` and `Wrap.WrapRange` use
  `join('\n') + text`. The corrected record, `Findings.CorrectedChangeAt`, is
  modelled beside them and is not used by `Wrap.WrapRange`.

## Findings

| source | as written | input that shows it | evidently intended | confidence | as-written member | corrected member |
|---|---|---|---|---|---|---|
| src/extension.ts:82 | `outputLines.join('\n') + text` puts no line feed between the last piece and the remainder, so the last word of the cut text and the first word of the remainder are fused. | the line "aaaa bbbb cccc" with ruler 10: the text becomes "aaaa bbbbcccc" | `[...outputLines, text].join('\n')`: the remainder on a line of its own, here "aaaa bbbb\ncccc" | not executed | Findings.GluedWords | Findings.CorrectedChangeLines |
