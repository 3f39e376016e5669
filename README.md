# bitcolor: a verified model of the grid, color table and quiz logic

The program is a single-page tool for learning a 2-bit-to-color code. The four
codes `00`, `01`, `10` and `11` stand for black, blue, yellow and gray. It has
two activities:

- a 16x16 pixel grid that is painted one cell at a time with the selected code;
- a multiple-choice quiz. It shows a random 3x3 to 5x5 pattern and asks for its
  bit codes or its color names. Four distinct options are offered, one of them
  right, and a running score is kept.

The color of each code can be edited, and the edits are kept in the browser's
storage. This project models the logic under the page's DOM and canvas code and
proves what that logic promises.

Modules (one per file):

- `Wrappers` (`wrappers.dfy`): `Option`.
- `Codes` (`codes.dfy`): the `Code` datatype and the key text of each code. It
  also holds `KeyOrder`, the order in which the table's keys are enumerated.
  JavaScript lists integer-like property names first, so that order is
  `10, 11, 00, 01`. A random draw `d` in 0..3 picks `KeyOrder[d]`.
- `ColorTable` (`color_table.dfy`): the color table as the class `CodeTable`,
  whose `entries` map is updated in place. The module also holds the
  `#RRGGBB` check and its regular-expression reading. The stored colors are
  a `map<string, string>`, with `Overlay` applying them on load and
  `SaveBlob` producing them on save.
- `Drawing` (`grid.dfy`): the canvas as the class `Grid`. Its cells are an
  `array2<Code>` written in place, together with the selected palette code
  and the pointer-down flag.
- `Answers` (`answers.dfy`): the answer text. Cells are joined by `' '` and
  rows by `'\n'`, with the cell renderer as a parameter. The module proves
  that split undoes join, so two patterns get the same answer text exactly
  when they are equal.
- `Shuffling` (`shuffle.dfy`): the in-place Fisher-Yates shuffle on an array.
  It is proved equal to a sequence function, and that function is proved to
  be a permutation. The module also proves that a permutation keeps a list
  free of repeats.
- `Quiz` (`quiz.dfy`): pattern generation, the option loop, the accuracy
  formula, and the class `QuizSession`. That class holds the counters, the
  current answer, the answered flag and the options on screen.

Every `Math.random()` draw is a parameter, bounded by a `requires`:

- the size draw is in 0..2, and the size is that draw plus 3;
- each cell draw is in 0..3;
- the question type is a `bool`;
- each shuffle draw at step `i` is in `[0, i]`.

The option loop has no cap in the program. Here it runs over a supplied list
of candidate patterns. The two quiz generators differ only in how a cell is
written, so they are one routine with a cell-rendering parameter: `Bits` for
codes, or `ColorTable.Names(entries)` for color names.

## Model

| member | source | states |
|---|---|---|
| `Codes.ParseKey` | script.js:45-47 | A stored key names a code exactly when it is one of the four key texts. Such a key names the code whose text it is. |
| `Codes.Bits` | script.js:2-7 | The key text of each code, which is also its cell in a bit-code answer. `Codes.ParseKey` inverts it, and `Answers.BitsRendererIsFaithful` proves it a faithful renderer. |
| `Codes.CodeOf` | script.js:340-345 | The code a draw in 0..3 picks by indexing `KeyOrder`, the enumeration order `10, 11, 00, 01` of the table's keys. `Codes.KeyOrderIsBijection` proves that each code is picked by exactly one draw. |
| `Codes.KeyOrderIsBijection` | script.js:340-345 | The key list indexed by a draw in 0..3 holds each of the four codes exactly once, so a uniform draw picks a uniform code. |
| `ColorTable.Defaults` | script.js:2-7 | The initial table has an entry for each of the four codes, and each entry holds the program's name for its code. |
| `ColorTable.DefaultsAreWellFormed` | script.js:2-7 | Every default color is a valid `#RRGGBB` color. The default names work as a cell renderer: each is non-empty, free of spaces and newlines, and different for different codes. |
| `ColorTable.Names` | script.js:425-427 | A table holding the program's names gives a faithful cell renderer: the names are non-empty, free of spaces and newlines, and different for different codes. Every live table holds those names, since loading and committing change only colors. So the color-name answer of a running table splits back into its pattern, by `Answers.RenderInjective`. |
| `ColorTable.IsHexColor` | script.js:140 | The accepted input: `#` and then six hex digits, seven characters in all. `ColorTable.HexColorRegexAccepts` proves that this is exactly what the regular expression accepts. |
| `ColorTable.MatchesWholeIsPositionwise` | script.js:125 | An anchored match of single-character classes holds exactly when the lengths agree and every character is admitted by its class. |
| `ColorTable.HexColorRegexAccepts` | script.js:140 | `^#[0-9A-Fa-f]{6}$` accepts exactly `#` followed by six hex digits, nothing before or after. |
| `ColorTable.SaveBlob` | script.js:57-63 | The object saved for a table: one member per code, keyed by its key text. `ColorTable.SaveBlobContents` states its members and values. |
| `ColorTable.Overlay` | script.js:45-50 | Stored colors applied to a table: each stored key that names a code replaces that code's color, and other keys are ignored. Its contract is stated by `ColorTable.OverlayKeepsShape`, `ColorTable.OverlayIgnoresUnknownKeys`, `ColorTable.OverlayStep` and `ColorTable.SaveThenLoadRestores`. |
| `ColorTable.SaveBlobContents` | script.js:57-63 | The saved object has exactly the four key texts as members, and each member holds that key's current color. |
| `ColorTable.OverlayKeepsShape` | script.js:45-50 | Loading stored colors never adds or removes a key and never changes a name. |
| `ColorTable.OverlayIgnoresUnknownKeys` | script.js:45-50 | Stored members whose key is not one of the four codes have no effect on the table. |
| `ColorTable.SaveThenLoadRestores` | script.js:40-63 | Loading what was saved into a table with the same keys and names gives back exactly the saved colors. |
| `ColorTable.OverlayStep` | script.js:45-49 | Processing one more stored key changes only the entry of the code it names, if any, to that stored color. |
| `ColorTable.CodeTable.constructor` | script.js:2-7 | The table starts from the defaults, with no edit form open. |
| `ColorTable.CodeTable.LoadCustomColors` | script.js:40-55 | Absent or unreadable storage leaves the table as it was. Otherwise, visiting the stored keys in any order leaves the overlay of the stored colors, with keys and names unchanged. |
| `ColorTable.CodeTable.SaveCustomColors` | script.js:57-63 | The loop over the table's keys writes out exactly the saved object of the current table. |
| `ColorTable.CodeTable.OpenColorModal` | script.js:154-155 | Opening the edit form records the key being edited. |
| `ColorTable.CodeTable.CloseColorModal` | script.js:172-176 | Closing the form clears the key being edited. |
| `ColorTable.CodeTable.SaveColor` | script.js:139-146 | A color is committed exactly when a key is being edited and the input is `#RRGGBB`. Then only that key's color changes, the full table is written out and the form closes. Otherwise nothing changes. |
| `Drawing.Grid.constructor` | script.js:14-18 | The grid starts 16x16 with every cell `00`, the palette on `00` and the pointer up. |
| `Drawing.Grid.SelectColor` | script.js:229-233 | A palette button sets the code used by later painting. |
| `Drawing.Grid.Draw` | script.js:259-275 | With the pointer down and an in-range `(row, col)`, exactly that cell becomes the current code. Every other cell is unchanged. Out-of-range coordinates and pointer-up moves change nothing. The touch handler at script.js:287-305 does the same. |
| `Drawing.Grid.StartDrawing` | script.js:254-257 | Pointer down sets the drawing flag and paints the cell under the pointer, with the same exactness as `Draw`. |
| `Drawing.Grid.StopDrawing` | script.js:277-279 | Pointer up clears the drawing flag. |
| `Drawing.Grid.Clear` | script.js:307-311 | Clear replaces the grid with a new 16x16 grid whose every cell is `00`, whatever the grid held before. |
| `Drawing.PaintCornerExample` | script.js:270-274 | On a new grid, painting `(0, 0)` with `11` leaves `11` there and `00` in every other cell. |
| `Answers.Join` | script.js:379 | Array join: the parts with one separator between neighbours, and `""` for no parts. `Answers.SplitJoin` proves that split undoes it. |
| `Answers.RenderRow` | script.js:379 | A row's answer line: its cell texts joined by spaces. `Answers.RowRoundTrip` and `Answers.RowRenderInjective` state its contract. |
| `Answers.Render` | script.js:379 | A pattern's answer text: the row lines joined by newlines. `Answers.RenderInjective` proves that it tells patterns apart under a faithful renderer. The color-name answer at script.js:425-427 is the same function with `ColorTable.Names`. |
| `Answers.SplitJoin` | script.js:379 | Splitting a join on its separator gives back the parts, provided no part contains the separator. |
| `Answers.RowRoundTrip` | script.js:379 | A rendered row has no newline, and splitting it on spaces gives back its cell texts. |
| `Answers.RowRenderInjective` | script.js:379 | Two non-empty rows render alike exactly when they are equal. |
| `Answers.RenderInjective` | script.js:425-427 | With a faithful cell renderer, two patterns render to the same answer text exactly when they are the same pattern. So comparing answer strings compares patterns. |
| `Answers.BitsRendererIsFaithful` | script.js:379 | The bit-code renderer is faithful. |
| `Shuffling.FisherYates` | script.js:525-530 | The shuffle as a function of the draws: swap index `i` with draw `j`, from the last index down to 1. `Shuffling.FisherYatesPermutes` proves it a permutation, and `Shuffling.ShuffleArray` is proved equal to it. |
| `Shuffling.FisherYatesPermutes` | script.js:525-530 | The shuffle keeps the length and the multiset of elements: it is a permutation. |
| `Shuffling.ShuffleArray` | script.js:525-530 | Swapping index `i` with draw `j` in `[0, i]`, for `i` from last down to 1, leaves the array equal to the shuffle function of its old contents. It is therefore a permutation of them. |
| `Shuffling.DistinctIffSingleOccurrences` | script.js:389 | A list has no repeats exactly when every element occurs at most once in its multiset. |
| `Shuffling.PermutationKeepsDistinct` | script.js:394 | Shuffling a list without repeats gives a list without repeats. |
| `Quiz.PatternOf` | script.js:341-348 | The pattern picked by the cell draws: cell `(i, j)` is `Codes.CodeOf` of draw `(i, j)`. `Quiz.GeneratePattern` is proved to build it. |
| `Quiz.GeneratePattern` | script.js:338-348 | The pattern is `size` by `size` with size in 3..5. Cell `(i, j)` is the code that draw `(i, j)` picks from the key list. |
| `Quiz.Collect` | script.js:383-392 | The options as a function of the candidate texts: each text not yet an option is appended, in order, until there are four. `Quiz.CollectOptions` is proved to build it and states what it holds. |
| `Quiz.CollectOptions` | script.js:383-392 | The loop builds exactly `Quiz.Collect` of the answer and the candidates' texts: the answer first, then each new text in draw order, stopping at four. The options have no repeats and number at most 4. Every other option renders a consumed candidate, and every consumed candidate's rendering is an option. Fewer than 4 options happen only when all candidates were consumed. |
| `Quiz.OfferOptions` | script.js:383-395 | Once shown, the options are exactly the collected four, shuffled by the swap draws. They have no repeats, hold the answer exactly once, and every other option renders a candidate. They are left unshown only when the answer and every candidate's text lie among fewer than four strings. |
| `Quiz.Accuracy` | script.js:496-497 | The accuracy is 0 with no answers, and 0 with no correct answer. It is 100 with no wrong answer and at least one correct, and never above 100. |
| `Quiz.AccuracyIsRoundedPercentage` | script.js:497 | For a non-zero total, `(200c + t) / (2t)` equals `Math.round(c / t * 100)` in exact arithmetic, taking rounding as half up. |
| `Quiz.AccuracyExample` | script.js:496-497 | 3 correct and 1 wrong show 75; no answers show 0. |
| `Quiz.ShuffledOptions` | script.js:394 | After the shuffle the four options still have no repeats and hold the answer exactly once. Every other option still renders a candidate. |
| `Quiz.QuizSession.constructor` | script.js:21-24 | The counters start at 0, with no answer and the answered flag off. |
| `Quiz.QuizSession.GenerateQuiz` | script.js:333-358 | A new question turns the answered flag off and keeps the counters. The answer is the pattern rendered in the drawn mode. Once shown, the options are the first three new candidate texts after the answer, in draw order, shuffled by the swap draws. The four have no repeats and contain the answer exactly once, and every other option renders a drawn candidate. The question is left unshown only when the answer and every candidate's text lie among fewer than four strings, so four distinct options cannot be formed from them. |
| `Quiz.QuizSession.CheckAnswer` | script.js:461-490 | The first answer after a question sets the flag and adds 1 to exactly one counter: the right one if the selection equals the answer, the wrong one otherwise. Every later answer changes neither counter. |

## Left out

- Canvas drawing, the bit overlay, the reference legend, CSS variables, the
  edit modal's display, the palette and mode buttons, and all event wiring
  are display side effects. The model has no rendering projections.
- Turning pointer pixels into cells (`clientX - rect.left`, then division by
  the cell size) uses browser geometry. `Draw` takes integer `row` and `col`.
- The browser storage and JSON are not modelled. The stored object is a
  `map<string, string>`, and `None` stands for storage that is absent or
  unreadable. The failure log on line 52 is not modelled. Stored values that
  are not strings are not modelled either.
- The program itself writes only `#RRGGBB` colors: the defaults and checked
  commits. Loading does not check what it reads, and the model follows the
  code: stored colors are applied as they are, so the table's colors are not
  always `#RRGGBB`.
  Likewise, no error path exists for an unknown key on commit, because the
  key being edited is always one of the four codes.
- Property names such as `toString` pass the `BIT_COLORS[bit]` guard through
  the prototype chain. They write into shared objects and never into the four
  entries, so the table model is unaffected, and that shared-object write is
  not modelled.
- `Math.random()` is not modelled; each draw is a bounded parameter. Whether
  the draws are uniform is not modelled either. `Codes.KeyOrderIsBijection` is
  the only fact stated about it.
- `Quiz.CollectOptions`: termination of the option loop is not stated. It
  holds only with probability 1. The loop runs over a finite list of supplied
  candidates, and it may stop with fewer than four options when they run out.
  `Quiz.QuizSession.GenerateQuiz` then reports `shown == false`, where the
  program would keep drawing.
- `Quiz.Accuracy`: uses exact arithmetic, not IEEE-754 doubles. The program
  computes `Math.round((c / t) * 100)` in floating point, and double rounding
  can land just below a half. For 23 correct of 40 the program shows 57 and
  the model 58; for 29 of 200 the program shows 14 and the model 15.
- `Quiz.AccuracyIsRoundedPercentage`: states the exact-arithmetic rounding,
  so it differs from the program on the pairs above.
- `Drawing.Grid` stores the canvas as one `array2` instead of an array of row
  arrays. Aliasing between rows is not modelled; the program never shares a
  row.
- The option buttons are not disabled after an answer, and the right and
  wrong answers are not marked on screen.
