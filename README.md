# Jeopardy board model

A Dafny model of the game logic of a browser Jeopardy board (`jeopardy/jeopardy.js`).
The game asks a trivia service for a list of categories, keeps those with more than six
clues, draws six different category ids at random, builds one category of five sampled
clues per id, lays the categories out as a 6 x 5 table whose cells carry the id
`` `${t}-${c}` ``, and advances a clue's `show` field when its cell is clicked.

Modules:

- `CellIds` (`cell_ids.dfy`): the cell id `` `${t}-${c}` `` and its decoding with
  `Number(id.split('')[0])` and `Number(id.split('')[2])`.
- `Board` (`board.dfy`): clues, categories, the click transition on `show`, the
  projection loop of `getCategory`, the contract of lodash's `_.sampleSize`, and the
  shape `fillTable` indexes into.
- `Selection` (`selection.dfy`): the `clues_count > 6` filter, `Math.floor(Math.random() * n)`,
  and a function `Select` that specifies the `while` loop of `getCategoryIds` on the
  indices the loop draws, with the lemmas about it.
- `Jeopardy` (`game.dfy`): class `Game`, whose fields are the two global arrays
  `categories` and `categoryIds`, with the methods that change them: `GetCategoryIds`,
  `HandleClick`, `SetupAndStart` and the loop of `SetupAndStart`.

The network answers, the values of `Math.random()` and the positions lodash samples are
inputs: `response` (the categories request), `catalog` (the answer of the category request
per id; an id missing from it is a failed request), `draws` (the random values, one per
round of the loop) and `picks` (per id, the positions `_.sampleSize` took).

## How the code behaves where a reader might expect otherwise

- The doc comment of `handleClick` (lines 152-158) says that a click on a clue showing its
  question stores `"answer"` and that later clicks are ignored. The code (lines 179-185)
  only changes what is visible and never writes `show`, so `show` stays `"question"` and
  every later click shows the answer again. The model follows the code: `Board.Click`
  never stores `"answer"`, and `Board.RepeatedClicks` gives the effects of any number of
  clicks.
- With an empty pool, the first round of the loop of `getCategoryIds` reads
  `categClue[0].id` and throws a TypeError (`Outcome.NoCategory`). With one to five
  different eligible ids, the loop never ends: no run of draws lets it exit
  (`Selection.SmallPoolNeverSelects`). With six or more, some run of draws does
  (`Selection.NewGameCanFinish`). The code reports no error in either case.
- `_.sampleSize` returns fewer than five clues when a category has fewer. Nothing checks
  this; `fillTable` then throws when it reads a missing clue (`Board.FillTable` returns
  `RenderTypeError`). `fillTable` is not awaited, so `setupAndStart` still completes.
- When a category request fails, the categories built before it stay in `categories`
  (`Jeopardy.Game.SetupAndStart`, `FetchFailed`).
- Cell ids are decoded by character position, so the round trip holds only for
  single-digit indices (`CellIds.RoundTripIffSingleDigits`). The board only uses indices
  below 6 and 5, where it holds (`CellIds.BoardCellsRoundTrip`).

## Model

| member | source | states |
|---|---|---|
| `CellIds.DecimalString` | jeopardy/jeopardy.js:128 | the text of `${n}` is made of digits only, has one character exactly when n < 10, and its first digit is n itself for n < 10 and a digit 1..9 at most n otherwise |
| `CellIds.DecimalStringSpellsValue` | jeopardy/jeopardy.js:128 | reading the decimal text of n back gives n |
| `CellIds.NumberOfChar` | jeopardy/jeopardy.js:163-165 | `Number` of one character is a number exactly for a digit or a JavaScript space; a digit gives its value and a JavaScript space gives 0; every number it gives is below 10 |
| `CellIds.NumberAt` | jeopardy/jeopardy.js:163-165 | a position past the end of the id gives NaN; any number read is below 10 |
| `CellIds.EncodeCellId` | jeopardy/jeopardy.js:128 | a cell id has at least three characters, each a digit or `-` |
| `CellIds.DecodeCellId` | jeopardy/jeopardy.js:160-165 | both decoded indices are NaN or single digits; an id shorter than three characters gives NaN for the clue index |
| `CellIds.RoundTripIffSingleDigits` | jeopardy/jeopardy.js:163-165 | decoding the id of line 128 gives back (t, c) if and only if t < 10 and c < 10 |
| `CellIds.BoardCellsRoundTrip` | jeopardy/jeopardy.js:122-128 | every cell of the 6 x 5 table decodes to its own (t, c) |
| `CellIds.TwoDigitCategoryMisread` | jeopardy/jeopardy.js:163-165 | the id "10-3" decodes to category 1 and clue NaN |
| `Board.Click` | jeopardy/jeopardy.js:169-187 | a click stores "question" exactly when `show` is falsy and otherwise leaves it unchanged, so it never stores "answer"; the question is shown exactly when `show` is falsy and the answer exactly when it is "question" |
| `Board.ReplayFromQuestion` | jeopardy/jeopardy.js:179-185 | any number of clicks on a clue showing its question keep `show` at "question" and show the answer each time |
| `Board.RepeatedClicks` | jeopardy/jeopardy.js:152-187 | n >= 1 clicks on an unrevealed clue show the question once, then the answer on every later click, and leave `show` at "question", against the doc comment's "ignore click" |
| `Board.ProjectClues` | jeopardy/jeopardy.js:72-78 | the projection keeps the length and order, copies question and answer unchanged and sets `show` to null in every entry |
| `Board.PickDistinctIsSubMultiset` | jeopardy/jeopardy.js:81 | taking pairwise different positions takes no element more often than it occurs |
| `Board.SampleSize` | jeopardy/jeopardy.js:81 | the sample has min(5, length) elements, each the element at a position lodash took, and is a sub-multiset of the input |
| `Board.GetCategory` | jeopardy/jeopardy.js:67-84 | the category's title is the response's title and its clues are min(5, clue count) unrevealed copies of the response's clues at the sampled positions |
| `Board.BuiltFromResponse` | jeopardy/jeopardy.js:72-83 | a built category has min(5, clue count) clues, all unrevealed, forming a sub-multiset of the projected clues |
| `Board.FillTable` | jeopardy/jeopardy.js:101-144 | the table is laid out if and only if there are at least 6 categories of at least 5 clues (else TypeError); it then has 6 header titles in category order and 5 rows of 6 cells |
| `Board.RenderedCellsAddressTheirClue` | jeopardy/jeopardy.js:122-131 | the cell in row c and column t holds the question and answer of clue c of category t, and its id decodes to (t, c) |
| `Selection.Eligible` | jeopardy/jeopardy.js:37 | an entry is kept if and only if its clue count exceeds 6, and kept as often as it occurs |
| `Selection.RandomIndex` | jeopardy/jeopardy.js:42 | the drawn index is a position of a non-empty pool, and 0 for an empty one |
| `Selection.EveryIndexDrawable` | jeopardy/jeopardy.js:42 | every position of the pool is drawn by some value of `Math.random()` |
| `Selection.Indices` | jeopardy/jeopardy.js:41-42 | one index per round of the loop, each a position of a non-empty pool (0 for an empty one) |
| `Selection.EveryIndexSequenceDrawable` | jeopardy/jeopardy.js:41-42 | every sequence of positions of a non-empty pool is the sequence of indices of some run of `Math.random()` values |
| `Selection.Select` | jeopardy/jeopardy.js:41-47 | the loop keeps the ids chosen so far as a prefix and exits exactly when 6 are chosen; the lemmas below characterise it fully |
| `Selection.NewSelection` | jeopardy/jeopardy.js:32-48 | the loop of a new game on the filtered answer and the indices of the `Math.random()` values: its ids are pairwise different, at most 6, exactly 6 when it exits, and each belongs to a category with more than 6 clues |
| `Selection.SelectAppendsNewPoolIds` | jeopardy/jeopardy.js:41-47 | the loop keeps the ids chosen so far as a prefix and appends only ids of the pool that were not chosen yet |
| `Selection.SelectKeepsDistinct` | jeopardy/jeopardy.js:43-45 | pairwise different ids stay pairwise different |
| `Selection.SelectOutcome` | jeopardy/jeopardy.js:41-48 | the loop never grows the ids past 6, exits exactly when 6 are chosen, throws only while fewer than 6 are chosen, and, on indices `Math.floor(Math.random() * n)` can give, throws exactly when it draws from an empty pool |
| `Selection.SmallPoolNeverSelects` | jeopardy/jeopardy.js:41-48 | with fewer than 6 different eligible ids the loop never exits, whatever the indices drawn |
| `Selection.LargePoolCanSelect` | jeopardy/jeopardy.js:41-48 | with at least 6 different eligible ids some drawable indices make the loop exit |
| `Selection.NewGameCanFinish` | jeopardy/jeopardy.js:32-48 | when the answer has at least 6 different ids of categories with more than 6 clues, some values of `Math.random()` make a new game's loop exit |
| `Selection.SixEligibleAllChosen` | jeopardy/jeopardy.js:37-48 | with at most 6 different eligible ids, a new game that leaves the loop has chosen every one of them |
| `Selection.NewGameIds` | jeopardy/jeopardy.js:32-49 | starting from no ids, the ids are pairwise different, at most 6, exactly 6 when the loop exits, and each the id of a category with more than 6 clues |
| `Jeopardy.BuiltBoardShape` | jeopardy/jeopardy.js:106-131 | six built categories have the shape fillTable reads exactly when each category answer has at least 5 clues |
| `Jeopardy.BuiltAreHidden` | jeopardy/jeopardy.js:76 | every clue of a built board has `show` null |
| `Jeopardy.Game.constructor` | jeopardy/jeopardy.js:21-22 | both globals start empty |
| `Jeopardy.Game.GetCategoryIds` | jeopardy/jeopardy.js:32-49 | the new `categoryIds` and the outcome are those of `Select`; the old ids are a prefix; each appended id is new and belongs to a category with more than 6 clues; distinctness is kept; the length stays at most 6; the loop exits exactly when 6 ids are chosen and throws exactly for an empty pool |
| `Jeopardy.Game.HandleClick` | jeopardy/jeopardy.js:160-189 | an id that names no clue throws and changes nothing; otherwise the effect and the new `show` are those of `Click`, no other clue, title or length changes, and a board storing no "answer" still stores none |
| `Jeopardy.Game.FetchCategories` | jeopardy/jeopardy.js:231-235 | `categories[i]` is built from the answer for `categoryIds[i]`, in order, all unrevealed; on a failed request it holds the categories before the failing id |
| `Jeopardy.Game.SetupAndStart` | jeopardy/jeopardy.js:224-240 | after the reset, `categoryIds` is what a new selection chooses; selection failure leaves no categories; otherwise `categories[i]` is built from `categoryIds[i]`, all unrevealed; when all requests succeed there are 6 of each and the table is laid out exactly when every answer has at least 5 clues |

## Left out

- The two `axios.get` requests (lines 33 and 68) are network I/O: their answers are the
  inputs `response` and `catalog`; the `count=30` of the request (`numCateg`, line 23)
  only shapes the request and is not modelled. The categories request (line 33) is
  assumed to answer: if it rejects, `setupAndStart` rejects right after the reset with
  both globals empty, which the model does not express. A failed category request
  (line 68) is an id missing from `catalog`.
- `Math.random()` (line 42) is the input `draws`. Its endless stream is cut to a finite
  sequence: `Outcome.StillDrawing` means the loop is still running when the given draws
  run out.
- Selection.RandomIndex: the draws are exact reals and `r * n` is computed exactly, while
  JavaScript multiplies doubles, whose product can round up to the next integer; a given
  double may therefore map to a different index than in the browser. The model relies only
  on the range of the index (a position of a non-empty pool, 0 for an empty one), which
  holds for doubles too, and on every position being reachable.
- Selection.Select: stands for the non-terminating loop only through finite index
  sequences; it says nothing about the probability of finishing.
- Board.SampleSize: lodash's shuffle is foreign code; only its result is modelled, as the
  positions `picks` it takes (required to be in range, pairwise different and min(5, n)
  many), not its uniform distribution.
- All jQuery and DOM work: hiding and showing the `?`, question and answer paragraphs,
  the cell colours, the table HTML, `showLoadingView` and `hideLoadingView` (button text,
  board visibility), `$gameBoard.empty()`. `Board.Effect` records which of the two
  visible changes a click makes.
- The event wiring at lines 243 and 247 and the `console.log` calls.
- The async/await sequencing: two overlapping runs of `setupAndStart` (restart clicked
  while loading) are not modelled; each run is sequential.
- Clue objects are modelled as values: each board position holds its own object in the
  code, so no update through one position can be seen at another.
- Raw clue fields other than question and answer are dropped; question and answer are
  strings.
- CellIds.DecodeCellId: positions in an id are Unicode code points (Dafny characters),
  whereas `id.split('')` splits into UTF-16 code units. The two agree on every id
  `fillTable` writes, which is ASCII (`CellIds.EncodeCellId`), but an id holding a
  character outside the Basic Multilingual Plane before position 2 would be decoded
  differently (where JavaScript reads half a surrogate pair, NaN, the model reads a later
  character). `Jeopardy.Game.HandleClick` states its contract for such ids through this
  decoding.
- `CellIds.IsJsSpace` lists all the white-space and line-terminator characters that
  `Number` skips (ECMAScript's WhiteSpace and LineTerminator: TAB, VT, FF, ZWNBSP, LF,
  CR, LS, PS and every Zs character of current Unicode); characters a later Unicode
  version adds to Zs are not tracked.
