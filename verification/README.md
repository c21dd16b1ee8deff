# Portfolio page script: a Dafny model of its logic

The portfolio page is driven by one browser script, `script.js`. Most of it
attaches event listeners to page elements. This project models the parts of
it that are logic and proves properties about them:

- **Theme** (`theme.dfy`). The initial light/dark theme comes from the stored
  `theme` key, or from the system colour-scheme preference when the key does
  not hold "light" or "dark". The toggle button flips the root `data-theme`
  attribute and persists it. The button carries the `light-active` marker
  exactly when the attribute is "light". Storage is an `Option<string>`. The
  colour-scheme query is an `Option<bool>`, where `None` means the query is
  unavailable.
- **Typewriter** (`typewriter.dfy`). Each tick is one step of the state
  (text index, character cursor, direction) and shows a JavaScript
  `slice(0, cursor)` of the current text. Each text is typed and then
  erased, and then the effect moves on to the next text cyclically. The
  forward run overshoots the text's length by ten. So the whole text stays
  on screen for 23 consecutive ticks: the last 11 forward ticks and the
  first 12 backward ones.
- **Mini puzzle** (`mini_puzzle.dfy`). The board has sixteen input cells,
  read row-major. Cell `r*4 + c` is row `r`, column `c`. There is a
  per-keystroke sanitiser, a check against the fixed solution grid that marks
  every cell and picks one of three status messages, and a reset. A cell is
  its input string. A well-formed board has every cell empty or one
  character from '1' to '4', and only the sanitiser and reset write cells.
- **Scroll** (`scroll.dfy`). The reveal registry is fed by the viewport
  intersection callback. Each target's delay is its index times 60 ms. An
  intersecting entry starts a reveal timer and unobserves its target. The
  scroll-to-top button shows exactly when the vertical offset exceeds 400.

Two details of the script are easy to misread:

- The typewriter cursor runs over [-1, length + 11], not [0, length + 10].
  The post-increment hands the old cursor value to `slice`, and the flags
  flip only after the cursor has moved. So a forward state can hold -1 (right
  after the wrap), and a backward state can hold length + 11 (right after the
  turn). The model follows the code.
- `Check` requires a well-formed board because `Number(cell.value)` is
  modelled only on the strings the sanitiser and reset can leave in a cell.
  `MiniPuzzle.InputsKeepWellFormed` and `MiniPuzzle.Reset` show that no
  keystroke or reset leaves a cell in any other form.

## Model

| member | source | states |
|---|---|---|
| Theme.Parse | script.js:14 | only the exact strings "light" and "dark" are recognised as themes, and each reads back as its own name |
| Theme.Resolve | script.js:13-20 | a stored "light" or "dark" wins; otherwise the theme is dark exactly when the system reports a dark preference, and an unavailable query counts as light |
| Theme.SyncToggleButton | script.js:22-29 | the button carries `light-active` exactly when the attribute is "light"; the attribute and storage are untouched |
| Theme.Load | script.js:13-30 | after start-up the attribute parses to the resolved theme, storage is unchanged, and the marker agrees with the attribute |
| Theme.Toggle | script.js:32-38 | a click always changes the attribute to a valid theme: "light" becomes "dark" and any other value becomes "light"; it persists exactly the value it sets and leaves the marker consistent |
| Theme.ToggleTwiceRestores | script.js:32-37 | two clicks from either valid theme restore the attribute, store it, and restore the marker on a consistent page |
| Theme.ReloadAfterToggle | script.js:13-36 | whatever a click persists is what the next page load resolves, for any system preference |
| Typewriter.Slice | script.js:55 | JavaScript `slice(0, end)` gives a prefix of the text; a negative end counts back from the length and stops at the empty prefix, and a large end stops at the length |
| Typewriter.Step | script.js:51-65 | a tick shows the current text sliced at the cursor's value before it moves, and keeps the state valid; forward adds one to the cursor and turns backward exactly when the cursor passes length + 10; backward subtracts one and turns forward exactly when the cursor drops below 0; the text index changes only on that turn, to the next index mod 3 |
| Typewriter.StartIsValid | script.js:47-49 | the load-time state (text 0, cursor 0, forward) is within the valid bounds |
| Typewriter.WrapShowsAllButLast | script.js:55-63 | the first forward tick after a wrap slices with end -1 and shows the new text without its last character |
| Typewriter.ForwardDisplayShrinksAsWritten | script.js:55-63 | as written, the tick after the wrap to text 1 shows all but one character of it, and the forward tick after that shows nothing |
| Typewriter.AsWrittenDiffersOnlyAtWrap | script.js:55-63 | the as-written display equals the intended one at every cursor of 0 or more, and differs from it only at cursor -1 right after a wrap |
| Typewriter.FullTextShown | script.js:54-60 | a tick shows the whole text exactly when the cursor is at or past the text's length, in either direction |
| Typewriter.FullTextHold | script.js:54-64 | once the whole text appears it stays on screen for 23 consecutive ticks (11 forward, 12 backward), and the next tick shows less |
| Typewriter.ShownIntended | script.js:55 | the intended display is a prefix of the text: empty for a cursor at or below 0, as many characters as the cursor up to the text's length, and the whole text for any cursor at or past it |
| Typewriter.IntendedDisplayMonotone | script.js:54-64 | with the intended display, consecutive forward ticks only extend what is shown and consecutive backward ticks only cut it |
| Typewriter.Run | script.js:51-69 | any number of ticks from a valid state stays valid: text index in [0, 3), forward cursor in [-1, length + 10], backward cursor in [0, length + 11] |
| Typewriter.ForwardPhase | script.js:54-58 | forward ticks keep the text, move the cursor up by one per tick, and turn backward at cursor length + 11 after exactly length + 11 - cursor ticks |
| Typewriter.BackwardPhase | script.js:59-64 | backward ticks keep the text and move the cursor down by one per tick for cursor + 1 ticks, then wrap to the next text at cursor -1 going forward |
| Typewriter.Cycle | script.js:54-64 | from the wrap to text i, every tick of its 2·length + 24 tick cycle stays on text i, and the cycle ends at the wrap to text i+1 mod 3 |
| Typewriter.Rotation | script.js:61-63 | after the cycles of texts i, i+1 and i+2 (mod 3) the effect is back at text i, so every text is shown before any repeats |
| Typewriter.FirstCycle | script.js:47-64 | from page load the effect reaches the wrap to text 1 after one tick fewer than a full cycle of text 0 |
| MiniPuzzle.SolutionIsLatinSquare | script.js:142-148 | every row and every column of the solution grid holds each of 1..4 exactly once |
| MiniPuzzle.KeepDigits | script.js:161 | the regular-expression replace keeps every character 1..4 as often as it occurs and nothing else, is empty exactly when the input has none, and starts with the first such character |
| MiniPuzzle.Sanitize | script.js:160-162 | the cell's text after a keystroke becomes empty or one character 1..4; it is empty exactly when that text has no 1..4, and otherwise it is the first such character in it |
| MiniPuzzle.FirstDigitWins | script.js:161-162 | typing after a filled cell's digit leaves that digit in place: the first digit in the cell's text wins |
| MiniPuzzle.Value | script.js:178-180 | `Number` of a sanitised cell is 0 (falsy) exactly for the empty cell and otherwise the digit it shows |
| MiniPuzzle.SolvedCells | script.js:143-148 | the board holding the solution is well formed and every cell matches its answer |
| MiniPuzzle.Input | script.js:160-165 | a keystroke sets its cell to the sanitised text of that cell after the keystroke, unmarks it and clears the status, keeps the board well formed, and changes no other cell or mark |
| MiniPuzzle.InputsKeepWellFormed | script.js:159-166 | no sequence of keystrokes leaves any cell other than empty or one character 1..4 |
| MiniPuzzle.Check | script.js:168-202 | earlier marks never survive; a cell is unmarked exactly when empty and marked correct exactly when it holds its answer, so any other filled cell is marked error; the status is "fill all" exactly when some cell is empty, "solved" exactly when every cell holds its answer, and "some wrong" otherwise |
| MiniPuzzle.StatusText | script.js:195-209 | only the cleared status line is empty, and each of the three check messages ends its sentence |
| MiniPuzzle.StatusTextsDistinct | script.js:195-209 | the four status lines (cleared, fill all, solved, some wrong) show four different texts |
| MiniPuzzle.Reset | script.js:204-210 | after a reset every cell is empty and unmarked and the status is cleared, whatever the board held before |
| MiniPuzzle.OnlySolution | script.js:174-200 | a well-formed board holds every answer exactly when it is the solution grid |
| MiniPuzzle.CheckAfterReset | script.js:180-210 | the board a reset leaves is well formed, has an empty cell, and matches no answer |
| MiniPuzzle.ResetThenCheck | script.js:168-210 | reset followed by check shows "Fill all cells with numbers 1–4." and leaves every cell empty and unmarked |
| MiniPuzzle.CheckSolution | script.js:168-200 | checking the solution grid shows "Nice! You solved the mini puzzle." and marks every cell correct, whatever marks it carried before |
| Scroll.Delay | script.js:100-101 | the delay of target i is a multiple of 60 ms and divides back to i |
| Scroll.Observe | script.js:100-103 | after start-up exactly the targets 0 .. n-1 are observed |
| Scroll.Callback | script.js:77-93 | one batch unobserves exactly its intersecting targets, starts a timer for each of them with that target's delay, and starts none for any other target |
| Scroll.CallbackOncePerTarget | script.js:78-92 | within a batch the host can deliver, each timer's target was observed and is now unobserved, and no two timers share a target |
| Scroll.RevealAtMostOnce | script.js:76-103 | across any run of batches the host can deliver, every target gets at most one reveal timer, and only targets observed at start-up get one |
| Scroll.OnScroll | script.js:108-114 | after a scroll event the button shows exactly when the offset, a real number, is strictly greater than 400, whatever it showed before |
| Scroll.OnScrollMonotone | script.js:109 | scrolling further down never hides the button |
| Scroll.ScrollTopBoundary | script.js:108-114 | the button is hidden at offsets 399 and 400 and shown at 401 |

## Findings

| source | as written | input that shows it | evidently intended | confidence | as-written member | corrected member |
|---|---|---|---|---|---|---|
| script.js:55 | after the wrap the cursor is -1, and `slice(0, -1)` shows the new text without its last character for one tick before the display drops to empty | state (text 1, cursor -1, forward): the tick shows "I love minimal design" and the next tick shows "" | a forward run starts from the empty text and only grows | high, not executed | Typewriter.ForwardDisplayShrinksAsWritten | Typewriter.IntendedDisplayMonotone |

## Left out

- The DOM is replaced by explicit values: element lookups, class-list edits and attribute writes.
- The mobile navigation toggle at script.js:5-7 is a single class flip.
- The smooth `scrollTo` at script.js:117 is a single host call.
- The live clock at script.js:121-139 only formats the host's current date and time for the locale. It has no logic of its own.
- Timer scheduling and timing belong to the host: the 90 ms typewriter timeout, the 1000 ms clock interval and the reveal timeouts. Ticks and callback batches are modelled as ordered sequences with no time attached. A reveal is represented by the `Timer` the callback starts. Adding the `animate-in` class when that timer fires is not modelled.
- The skill bar width write at script.js:84-88 copies an attribute into a style string, so it is not modelled.
- `localStorage` and `matchMedia` are inputs: an optional stored string and an optional preference.
- Scroll.RevealAtMostOnce: assumes that the host delivers entries only for observed targets, with at most one entry per target in a batch. If a batch holds two intersecting entries for one target, the callback as written starts two timers for it.
- MiniPuzzle.Check: `Number` is modelled only on sanitised cell strings. Markup-supplied initial values are not part of this model, and neither is what `Number` does with other strings.
