# Innovation Accounting Board in Dafny

This project models the two boards of the Friendsta "Innovation Accounting
Board". Each board is a grid of tiles, and each tile carries a circle, a
triangle and a square slot that hold a digit or nothing.

- **The React board (`index.jsx`).** Its rules are pure functions in module
  `BoardRules` (`board_rules.dfy`):
  - the eleven-value slot cycle;
  - the clamping of the grid size to 1..20;
  - the red/yellow/green ring band of a tile;
  - validation of a typed entry;
  - arrow-key focus movement;
  - the shape of the exported and imported JSON payload.

  Its component state (`rows`, `cols`, `tiles`, `focusKey`) is the class
  `BoardComponent.Board` (`board_component.dfy`). The event handlers are
  methods of that class, and each method states the whole new state.
- **The fixed 7x7 page (`script.js`).** It is module `PopupBoard`
  (`popup_board.dfy`):
  - the ring colour of each button's border, with the loop that builds the
    buttons;
  - the rule for which saved values are displayed;
  - the popup state `savedValues` / `activeIndex` / `pendingValues` as the
    class `PopupBoard.Page`, with its open, choose, save, cancel and
    clear-all transitions.

`Wrappers` (`wrappers.dfy`) holds the `Option` type. It stands for:

- a prompt that may be cancelled;
- payload fields that may be missing;
- a focus that may be absent.

Two behaviours of the code are easy to misread:

- **Up from the top row.** `Math.max(0, idx - cols)` clamps the index, not
  the row, so Up from any tile of the top row goes to tile 0
  (`BoardRules.MoveFocusVertical`).
- **Import checks.** `!data.rows || !data.cols` refuses only a missing or
  zero dimension, so a negative dimension gets through. The written check
  is `BoardRules.ImportedAsWritten`. `BoardComponent.Board.Import` uses the
  corrected check, `BoardRules.Accepts`, which also refuses a negative
  dimension (see Findings).

## Model

| member | source | states |
|---|---|---|
| BoardRules.With | index.jsx:60 | `{ ...tile, [key]: value }` gives slot `key` the new value and keeps the other two slots |
| BoardRules.UpdateSlot | index.jsx:57-63 | `setShape` keeps the length of `tiles`, sets slot `key` of tile `idx`, keeps the other two slots of that tile and every other tile |
| BoardRules.EmptyTiles | index.jsx:22-23 | `makeEmpty` yields `n` tiles, each `{c:"",t:"",s:""}` |
| BoardRules.IndexOf | index.jsx:51 | `indexOf` is -1 exactly when the value is absent; otherwise it gives the first position holding the value |
| BoardRules.PositionIsIndexOf | index.jsx:50-52 | the starting position of `cycle` is the `indexOf` of the value, with -1 read as 0 |
| BoardRules.InCycleIsMember | index.jsx:50 | the cycle's values are exactly "" and the ten one-digit strings |
| BoardRules.ValueAtIndexes | index.jsx:50-54 | `seq[k]` is "" at 0 and digit `k - 1` after it |
| BoardRules.CycleIndexesValues | index.jsx:49-55 | `cycle(v, dir)` reads `seq[(i + dir + 11) % 11]`, where `i` is the `indexOf` of `v` with -1 read as 0 |
| BoardRules.Cycle | index.jsx:49-55 | `cycle(v, dir)` always yields one of the eleven cycle values, and its position is that of `v` moved by `dir` modulo 11 |
| BoardRules.CycleStep | index.jsx:49-55 | one step moves the position by `dir` modulo 11 and always lands on a cycle value |
| BoardRules.CycleInValues | index.jsx:49-55 | the result of `cycle` is always an element of the eleven-value array |
| BoardRules.CycleForwardEnds | index.jsx:49-55 | forward, "" goes to "0" and "9" wraps to "" |
| BoardRules.CycleBackwardEnds | index.jsx:49-55 | backward, "" wraps to "9" and "0" goes to "" |
| BoardRules.CycleDigitNext | index.jsx:49-55 | forward takes digit k to k+1, and backward takes k+1 back to k |
| BoardRules.CycleUnknown | index.jsx:51-52 | a value outside the cycle steps as "" does |
| BoardRules.CycleInverse | index.jsx:49-55 | `cycle(cycle(v, dir), -dir) == v` for every cycle value `v` |
| BoardRules.CycleNAt | index.jsx:49-55 | after `n` steps the position is the start moved by `dir * n` modulo 11 |
| BoardRules.CyclePeriod | index.jsx:49-55 | eleven steps in one direction return a cycle value to itself, and any other value to "" |
| BoardRules.ClickDirection | index.jsx:67 | the direction is -1 exactly for a context-menu event, +1 otherwise |
| BoardRules.ClampDim | index.jsx:30-31 | the clamped dimension lies in 1..20: an input already in range is kept, one below 1 (including 0 for not-a-number) becomes 1, one above 20 becomes 20 |
| BoardRules.BandOf | index.jsx:44-46 | red iff `100*D <= 34*M`, yellow iff `34*M < 100*D <= 67*M` (doubled distance `D`, doubled radius `M`) |
| BoardRules.RatioAtMost | index.jsx:43-45 | for `M > 0`, `D/M <= k` iff `D <= k*M` |
| BoardRules.BandFor | index.jsx:38-47 | `bandClassFor` in exact rationals equals the integer form `BandOf` on every board of at least one tile; a 1x1 board is green |
| BoardRules.BandMonotone | index.jsx:38-47 | the band never gets warmer as the Chebyshev distance from the centre grows |
| BoardRules.BandMirror | index.jsx:38-47 | the band is unchanged by `r -> rows-1-r` and by `c -> cols-1-c` |
| BoardRules.BandTranspose | index.jsx:38-47 | on a square board the band is unchanged by swapping row and column |
| BoardRules.BandNineByNine | index.jsx:38-47 | on 9x9, distances 0-1 are red, 2 is yellow and 3-4 are green |
| BoardRules.LeadingSpaces | index.jsx:75 | counts exactly the whitespace that opens the string |
| BoardRules.TrailingSpaces | index.jsx:75 | counts exactly the whitespace that closes the string |
| BoardRules.Trim | index.jsx:75 | `trim()` is a middle stretch `s[i..j]` of the input with only whitespace before `i` and after `j`; it is empty exactly for blank input, and otherwise its first and last characters are not whitespace |
| BoardRules.TypedEntry | index.jsx:72-78 | the typed entry works as follows: a cancelled prompt writes nothing; blank input writes ""; exactly one digit after trimming writes that digit; anything else writes nothing; what is written is always a cycle value |
| BoardRules.TypedEntryRejectsLetter | index.jsx:77 | "x" is refused |
| BoardRules.TypedEntryTrimsDigit | index.jsx:75-77 | " 7 " writes "7" |
| BoardRules.ArrowOf | index.jsx:88-95 | each arrow is recognised exactly by its `e.key` name |
| BoardRules.MoveFocus | index.jsx:88-95 | from a tile of the grid every arrow lands on a tile of the grid |
| BoardRules.MoveFocusVertical | index.jsx:88-91 | Up and Down keep the column and change the row by one; on the top row Up goes to tile 0, and on the bottom row Down goes to the last tile |
| BoardRules.MoveFocusHorizontal | index.jsx:92-95 | Left and Right step by one in reading order and stop at the first and last tile |
| BoardRules.Fit | index.jsx:114-116 | the fitted list has length `n`: the first tiles of the payload, then empty tiles |
| BoardRules.FitExact | index.jsx:114-117 | a tile list that already has the expected length is kept unchanged |
| BoardRules.FitTiles | index.jsx:113-118 | the slice-then-push loop computes exactly `Fit(tiles, expected)` |
| BoardRules.Imported | index.jsx:105-122 | an import is accepted exactly when the checks pass; the installed board is consistent, has the payload's dimensions, and holds its tiles cut or padded to `rows*cols` |
| BoardRules.ImportExport | index.jsx:99-122 | importing the export of a consistent board reproduces it |
| BoardRules.ImportPadsEmpty | index.jsx:113-117 | a 3x3 payload with no tiles gets nine empty tiles |
| BoardRules.AcceptsAsWritten | index.jsx:110 | the written check needs both dimensions and `tiles`; it accepts whatever the corrected check accepts, and also a negative row count |
| BoardRules.ImportedAsWritten | index.jsx:110-117 | the written import accepts exactly when neither dimension is missing or 0 and `tiles` is an array |
| BoardRules.JsSlice | index.jsx:115 | `slice(0, end)` is a prefix of the list, of length `end` clipped to the list, or `max(0, len + end)` for a negative `end` |
| BoardRules.NegativeRowsAccepted | index.jsx:110-117 | `rows: -1` passes the written check and installs an inconsistent board; the corrected check refuses it |
| BoardRules.ImportAgreesOnPositive | index.jsx:110-117 | where the corrected check accepts, the written import installs the same board |
| BoardComponent.Refocus | index.jsx:26-35 | after a rebuild the focus names a tile of the new grid; a focus already inside is kept |
| BoardComponent.FocusAfterResizeAsWritten | index.jsx:29-35 | the written `resize` never drops a focus, and agrees with `Refocus` whenever the focus lies inside the new grid |
| BoardComponent.StaleFocusAfterResize | index.jsx:26-35 | the focus left by the written `resize` can name a tile past the end of the new grid |
| BoardComponent.Board.constructor | index.jsx:17-26 | the initial board is 9x9 with 81 empty tiles and no focus |
| BoardComponent.Board.SetShape | index.jsx:57-63 | `tiles` becomes `UpdateSlot(old tiles, idx, key, value)`; dimensions and focus are kept |
| BoardComponent.Board.ShapeClick | index.jsx:65-70 | the slot is cycled forward on a click and backward on a context-menu click, and the slot takes the focus |
| BoardComponent.Board.FocusShape | index.jsx:141 | focusing a shape sets the focus and changes nothing else |
| BoardComponent.Board.ShapeDouble | index.jsx:72-78 | the slot takes the typed entry when one is written; otherwise the tiles are unchanged |
| BoardComponent.Board.KeyDown | index.jsx:80-97 | with no focus nothing changes. A digit sets the focused slot. Backspace or Delete clears it. An arrow moves the focus and keeps its shape. Any other key changes nothing. The focus stays in the grid |
| BoardComponent.Board.Resize | index.jsx:29-35 | both dimensions are clamped; the tiles become `rows*cols` empty tiles; a focus outside the new grid is dropped |
| BoardComponent.Board.Reset | index.jsx:210 | the tiles become `rows*cols` empty tiles and nothing else changes |
| BoardComponent.Board.Export | index.jsx:99-103 | the payload is `{ rows, cols, tiles }` of the current board, and importing it restores exactly those rows, cols and tiles |
| BoardComponent.Board.Import | index.jsx:105-122 | an import succeeds exactly when a payload is present and accepted. A refused one leaves the state unchanged. An accepted one installs `Imported(payload)`, and the board stays consistent |
| PopupBoard.RingColour | script.js:30-33 | on the board, each ring inward is one step warmer: green at 3 up to red at 0 |
| PopupBoard.ColourOf | script.js:24-33 | of the 49 buttons only button 24 is red, and the green ones are exactly those in the first or last row or column |
| PopupBoard.Distance | script.js:28 | the ring distance of a board tile lies in 0..3 and is 0 only at the centre (3,3) |
| PopupBoard.ColourMonotone | script.js:28-33 | a tile further from the centre is never given a warmer border |
| PopupBoard.ColourSymmetric | script.js:26-33 | the colour is unchanged by reflection about row 3, about column 3 and about the diagonal |
| PopupBoard.IndexOfCell | script.js:26-27 | button `row*7 + col` has `row = floor(i/7)` and `col = i % 7` |
| PopupBoard.ButtonOfCell | script.js:24-33 | button `row*7 + col` gets the border of the ring of tile (row, col) |
| PopupBoard.CentreAndCorner | script.js:24-33 | button 24 is red and button 0 is green |
| PopupBoard.RingOfColour | script.js:30-33 | on the board, green is exactly ring 3, yellow ring 2, orange ring 1 and red ring 0 |
| PopupBoard.RingSize | script.js:24-28 | ring 0 has one tile and ring `d` for `d` in 1..3 has `8*d` tiles |
| PopupBoard.ColourCensus | script.js:24-33 | of the 7x7 tiles (row, col), one is red, 8 are orange, 16 yellow and 24 green |
| PopupBoard.ButtonCensus | script.js:24-33 | of the 49 buttons `0 .. 48`, coloured by `ColourOf`, one is red, 8 orange, 16 yellow and 24 green |
| PopupBoard.BuildBorders | script.js:24-33 | the creation loop gives each of the 49 buttons the border of its ring |
| PopupBoard.WithVal | script.js:111 | choosing a number changes only that shape's pending value |
| PopupBoard.Shown | script.js:57-68 | the placeholder "-" and the empty value are never shown as chosen; every one-digit value is |
| PopupBoard.LoadedLabel | script.js:50-68 | at load, a slot is active exactly when its saved value is non-empty and not "-"; it then shows the value, otherwise the "-" placeholder |
| PopupBoard.SavedLabel | script.js:127-136 | after a save, a slot is active exactly when its value is non-empty and not "-"; it then shows the value, otherwise "" |
| PopupBoard.LabelsAgree | script.js:50-136 | saving and reloading agree on which slots are active and what they show; they differ only in the text of an inactive slot |
| PopupBoard.TileLabel | script.js:43-68 | a button with nothing saved shows "-" in every slot; a slot is active exactly when a shown value is saved for it |
| PopupBoard.SaveThenReload | script.js:50-136 | what a save displays in a slot is what a reload of the saved map displays there |
| PopupBoard.Opened | script.js:90 | the popup starts from the saved values of the tile, or from "0"s when nothing is saved |
| PopupBoard.SaveUntouchedShowsZeros | script.js:86-139 | opening an unsaved tile and saving at once stores and shows "0" in each slot |
| PopupBoard.Page.constructor | script.js:16-78 | the page starts from the stored map, or `{}`, with no tile open and "-" pending values |
| PopupBoard.Page.Open | script.js:86-91 | `openPopup(i)` makes `i` active and sets the pending values to `Opened(saved, i)`; the saved map is unchanged |
| PopupBoard.Page.Choose | script.js:105-114 | only `pendingValues[shape]` changes |
| PopupBoard.Page.Save | script.js:117-139 | with no tile open nothing changes. Otherwise the pending values are stored under the active index, every other entry is kept, and the popup closes |
| PopupBoard.Page.Cancel | script.js:142 | the popup closes and the saved map is unchanged |
| PopupBoard.Page.Close | script.js:144-148 | no tile is active any more; the saved and pending values are unchanged |
| PopupBoard.Page.ConfirmClearAll | script.js:164-168 | after the reload the saved map is empty, no tile is open and the pending values are the "-" placeholders |

## Left out

- JSX rendering is not modelled: the `Tile` markup, the SVG shapes, `useMemo`, the CSS and the coordinate labels toggle. They are presentation only.
- The clipboard, `alert` and `window.prompt` are not modelled. A prompt's answer is an `Option<string>` parameter (`None` for a cancelled prompt), and import's prompt-and-parse step is an `Option<Payload>`.
- `JSON.parse` and `JSON.stringify` are not modelled. The payload is an already-parsed record.
  - The model does not cover a payload dimension that is a string, a fraction or `true`.
  - It does not cover a tile that is not a `{c,t,s}` record.
- `localStorage`, DOM queries, `classList` toggling, event-listener wiring and `window.location.reload` are not modelled. Only the state transitions they cause are kept.
  - The labels of `script.js` are modelled as functions of the values, not as DOM state held by the page.
- BoardRules.ClampDim: models integer inputs only. A non-numeric input reaches it as 0, as `Number(x) || 1` turns it into 1. Fractional inputs are not modelled.
- BoardRules.BandFor: uses exact rationals instead of IEEE doubles. The two agree on every board the UI allows, since no ratio there falls on a threshold. The 0/0 of a 1x1 board, NaN in the source, is the explicit green case.
- BoardRules.Cycle: takes the direction as +1 or -1, the only values its callers pass.
- `String(val)` coercion in `cycle` is not modelled. Slots are strings in the model; an imported slot holding a number or null, which `String(val)` would convert, is not modelled.
- BoardComponent.Board: `rows`, `cols`, `tiles` and `focusKey` change at once after each handler. React's batching of the setter calls is not modelled.
  - `focusKey` is the `Focus` record and not the `"idx:shape"` string it is built from and split back into.
- BoardComponent.Board.Resize: drops a focus outside the new grid, where the source keeps it (see Findings).
- BoardComponent.Board.Import: drops a focus outside the new grid, where the source keeps it (see Findings).
- BoardComponent.Board.Import: refuses a negative dimension, which the source's `!data.rows`/`!data.cols` test accepts (see Findings).
- PopupBoard.Page: `activeBtn` and `activeIndex` are always set and cleared together, so they are one optional index.
- PopupBoard.SavedLabel: is applied per shape. `Object.values(pendingValues)[i]` lists circle, triangle and square in that order for every object the page itself builds, and the model assumes that order.
- The "clear all" confirmation dialog's own open and cancel steps are not modelled. They only show and hide a DOM element.
- The `stored` argument of the `Page` constructor stands for the parsed `localStorage` entry. A missing entry, or one that parses to a falsy value, is `None`. An entry that is not JSON, such as `""`, makes the page throw at load and is not modelled.

## Findings

| source | as written | input that shows it | evidently intended | confidence | as-written member | corrected member |
|---|---|---|---|---|---|---|
| index.jsx:110-117 | the `!data.rows` and `!data.cols` tests refuse only a missing or zero dimension | payload `{rows: -1, cols: 2, tiles: [{}]}` installs a board with -1 rows and no tiles | a dimension must be a positive count | not executed | BoardRules.NegativeRowsAccepted | BoardRules.Imported |
| index.jsx:26-35 | `resize` (and `importJSON`) rebuild `tiles` but leave `focusKey` as it was | focus tile 80 of the 9x9 board, then resize to 1x1: the focus names tile 80 of a one-tile grid, and the next digit key writes past the end of `tiles` | the focus should name a tile of the new grid or be cleared | not executed | BoardComponent.StaleFocusAfterResize | BoardComponent.Board.Resize |
