/**
 * The fixed 7x7 board of script.js: the ring colour of each button's border
 * and the popup that edits a tile's three values, with the saved values kept
 * in a map from tile index.
 */
module PopupBoard {
  import opened Wrappers

  const Size := 7
  const Centre := 3

  // ---------------------------------------------------------------------
  // Ring colours
  // ---------------------------------------------------------------------

  datatype Colour = Green | Yellow | Orange | Red

  /** How close to the centre a colour is: green 0 up to red 3. */
  function Warmth(c: Colour): nat {
    match c
    case Green => 0
    case Yellow => 1
    case Orange => 2
    case Red => 3
  }

  function Abs(x: int): nat {
    if x < 0 then -x else x
  }

  function Max(a: int, b: int): int {
    if a < b then b else a
  }

  /** `Math.max(Math.abs(row - 3), Math.abs(col - 3))` */
  function Distance(row: int, col: int): (d: nat)
    ensures 0 <= row < Size && 0 <= col < Size ==> d <= Centre
    ensures d == 0 <==> row == Centre && col == Centre
  {
    Max(Abs(row - Centre), Abs(col - Centre))
  }

  /** The border colour of a ring at distance `d`: 3 green, 2 yellow, 1 orange, otherwise red. */
  function RingColour(d: int): (c: Colour)
    ensures 0 <= d <= Centre ==> Warmth(c) == Centre - d
    ensures d <= 0 ==> c == Red
  {
    if d == 3 then Green
    else if d == 2 then Yellow
    else if d == 1 then Orange
    else Red
  }

  /**
   * The border colour of button `i`, at row `i / 7` and column `i % 7`: of
   * the 49 buttons only the centre one, 24, is red, and the green ones are
   * exactly those on the outer frame.
   */
  function ColourOf(i: nat): (c: Colour)
    ensures i < Size * Size ==> (c == Red <==> i == Centre * Size + Centre)
    ensures i < Size * Size ==> (c == Green <==> i / Size in {0, Size - 1} || i % Size in {0, Size - 1})
  {
    RingColour(Distance(i / Size, i % Size))
  }

  /** Within the board, a tile further from the centre is never warmer. */
  lemma ColourMonotone(r1: int, c1: int, r2: int, c2: int)
    requires 0 <= r1 < Size && 0 <= c1 < Size && 0 <= r2 < Size && 0 <= c2 < Size
    requires Distance(r1, c1) <= Distance(r2, c2)
    ensures Warmth(RingColour(Distance(r2, c2))) <= Warmth(RingColour(Distance(r1, c1)))
  {
  }

  /** The colour is unchanged by reflection about row 3, about column 3 and about the diagonal. */
  lemma ColourSymmetric(row: int, col: int)
    ensures RingColour(Distance(Size - 1 - row, col)) == RingColour(Distance(row, col))
    ensures RingColour(Distance(row, Size - 1 - col)) == RingColour(Distance(row, col))
    ensures RingColour(Distance(col, row)) == RingColour(Distance(row, col))
  {
  }

  /** Button `row * 7 + col` is the tile at (row, col). */
  lemma IndexOfCell(row: nat, col: nat)
    requires col < Size
    ensures (row * Size + col) / Size == row && (row * Size + col) % Size == col
  {
  }

  /** The centre button 24 is red and the corner button 0 is green. */
  lemma CentreAndCorner()
    ensures ColourOf(24) == Red && ColourOf(0) == Green
  {
    IndexOfCell(3, 3);
  }

  /** Button `row * 7 + col` gets the border of the ring of tile (row, col). */
  lemma ButtonOfCell(row: nat, col: nat)
    requires col < Size
    ensures ColourOf(row * Size + col) == RingColour(Distance(row, col))
  {
    IndexOfCell(row, col);
  }

  /** The ring a colour is given to: red 0, orange 1, yellow 2, green 3. */
  function RingOf(c: Colour): nat {
    match c
    case Green => 3
    case Yellow => 2
    case Orange => 1
    case Red => 0
  }

  /** On the board each colour belongs to exactly one ring. */
  lemma RingOfColour(c: Colour, d: int)
    requires 0 <= d <= Centre
    ensures RingColour(d) == c <==> d == RingOf(c)
  {
  }

  // Counting the rings. A "line" is a row or a column; its offset from the
  // centre line is `Abs(line - Centre)`.

  /** Lines among `0 .. n - 1` at offset exactly `d`. */
  function LinesAt(d: int, n: nat): nat {
    if n == 0 then 0 else LinesAt(d, n - 1) + (if Abs(n - 1 - Centre) == d then 1 else 0)
  }

  /** Lines among `0 .. n - 1` at offset at most `d`. */
  function LinesWithin(d: int, n: nat): nat {
    if n == 0 then 0 else LinesWithin(d, n - 1) + (if Abs(n - 1 - Centre) <= d then 1 else 0)
  }

  /** Tiles of row `row`, columns `0 .. n - 1`, at distance exactly `d`. */
  function RowRing(d: int, row: int, n: nat): nat {
    if n == 0 then 0 else RowRing(d, row, n - 1) + (if Distance(row, n - 1) == d then 1 else 0)
  }

  /** Tiles of rows `0 .. rows - 1` at distance exactly `d`. */
  function RingCount(d: int, rows: nat): nat {
    if rows == 0 then 0 else RingCount(d, rows - 1) + RowRing(d, rows - 1, Size)
  }

  lemma {:induction false} LinesAtOnBoard(d: int, n: nat)
    requires 1 <= d <= Centre && n <= Size
    ensures LinesAt(d, n) == (if n > Centre - d then 1 else 0) + (if n > Centre + d then 1 else 0)
  {
    if n > 0 {
      LinesAtOnBoard(d, n - 1);
    }
  }

  lemma {:induction false} LinesWithinOnBoard(d: int, n: nat)
    requires 0 <= d <= Centre && n <= Size
    ensures LinesWithin(d, n) ==
      if n <= Centre - d then 0
      else if n >= Centre + d + 1 then 2 * d + 1
      else n - (Centre - d)
  {
    if n > 0 {
      LinesWithinOnBoard(d, n - 1);
    }
  }

  /**
   * A row at offset `d` meets ring `d` along its whole middle stretch, a row
   * inside the ring meets it in its two side columns, and a row outside
   * does not meet it.
   */
  lemma {:induction false} RowRingSplit(d: int, row: int, n: nat)
    requires 0 <= d
    ensures RowRing(d, row, n) ==
      if Abs(row - Centre) > d then 0
      else if Abs(row - Centre) == d then LinesWithin(d, n)
      else LinesAt(d, n)
  {
    if n > 0 {
      RowRingSplit(d, row, n - 1);
    }
  }

  lemma BoardRow(d: int, row: int)
    requires 1 <= d <= Centre
    ensures RowRing(d, row, Size) ==
      if Abs(row - Centre) > d then 0 else if Abs(row - Centre) == d then 2 * d + 1 else 2
  {
    RowRingSplit(d, row, Size);
    LinesAtOnBoard(d, Size);
    LinesWithinOnBoard(d, Size);
  }

  /** Ring `d` among the first `rows` rows, in closed form. */
  function RingPrefix(d: int, rows: int): int {
    if rows <= Centre - d then 0
    else if rows <= Centre + d then 2 * d + 1 + 2 * (rows - 1 - (Centre - d))
    else 8 * d
  }

  lemma RingRowsStep(d: int, rows: nat)
    requires 1 <= d <= Centre && 0 < rows <= Size
    requires RingCount(d, rows - 1) == RingPrefix(d, rows - 1)
    requires RowRing(d, rows - 1, Size) ==
      if Abs(rows - 1 - Centre) > d then 0 else if Abs(rows - 1 - Centre) == d then 2 * d + 1 else 2
    ensures RingCount(d, rows) == RingPrefix(d, rows)
  {
  }

  lemma {:induction false} RingRows(d: int, rows: nat)
    requires 1 <= d <= Centre && rows <= Size
    ensures RingCount(d, rows) == RingPrefix(d, rows)
  {
    if rows > 0 {
      BoardRow(d, rows - 1);
      RingRows(d, rows - 1);
      RingRowsStep(d, rows);
    }
  }

  lemma {:induction false} CentreRows(rows: nat)
    ensures RingCount(0, rows) == LinesAt(0, rows)
  {
    if rows > 0 {
      CentreRows(rows - 1);
      RowRingSplit(0, rows - 1, Size);
    }
  }

  /** The centre ring is the one centre tile; ring `d` for `d` in 1..3 has `8 * d` tiles. */
  lemma RingSize(d: int)
    requires 0 <= d <= Centre
    ensures RingCount(d, Size) == if d == 0 then 1 else 8 * d
  {
    if d == 0 {
      CentreRows(Size);
    } else {
      RingRows(d, Size);
    }
  }

  /** Tiles of row `row`, columns `0 .. n - 1`, whose border is `c`. */
  function RowColour(c: Colour, row: int, n: nat): nat {
    if n == 0 then 0 else RowColour(c, row, n - 1) + (if RingColour(Distance(row, n - 1)) == c then 1 else 0)
  }

  /** Tiles of rows `0 .. rows - 1` whose border is `c`. */
  function CountColour(c: Colour, rows: nat): nat {
    if rows == 0 then 0 else CountColour(c, rows - 1) + RowColour(c, rows - 1, Size)
  }

  lemma {:induction false} RowColourRing(c: Colour, row: int, n: nat)
    requires 0 <= row < Size && n <= Size
    ensures RowColour(c, row, n) == RowRing(RingOf(c), row, n)
  {
    if n > 0 {
      RowColourRing(c, row, n - 1);
      RingOfColour(c, Distance(row, n - 1));
    }
  }

  lemma CountColourStep(c: Colour, d: nat, rows: nat)
    requires 0 < rows <= Size && d == RingOf(c)
    requires CountColour(c, rows - 1) == RingCount(d, rows - 1)
    requires RowColour(c, rows - 1, Size) == RowRing(d, rows - 1, Size)
    ensures CountColour(c, rows) == RingCount(d, rows)
  {
  }

  lemma {:induction false} ColourRing(c: Colour, d: nat, rows: nat)
    requires rows <= Size && d == RingOf(c)
    ensures CountColour(c, rows) == RingCount(d, rows)
  {
    if rows > 0 {
      RowColourRing(c, rows - 1, Size);
      ColourRing(c, d, rows - 1);
      CountColourStep(c, d, rows);
    }
  }

  /**
   * Of the 49 tiles one is red and, for the rings 1, 2 and 3, 8 are orange,
   * 16 yellow and 24 green.
   */
  lemma ColourCensus(c: Colour)
    ensures CountColour(c, Size) == if c == Red then 1 else 8 * RingOf(c)
  {
    ColourRing(c, RingOf(c), Size);
    RingSize(RingOf(c));
  }

  /** Buttons `0 .. n - 1` whose border, as `border` gives it, is `c`. */
  function CountButtons(border: nat -> Colour, c: Colour, n: nat): nat {
    if n == 0 then 0 else CountButtons(border, c, n - 1) + (if border(n - 1) == c then 1 else 0)
  }

  /** Button `row * 7 + col` has the border of tile (row, col). */
  predicate CellBorder(border: nat -> Colour, row: nat, col: nat) {
    border(row * Size + col) == RingColour(Distance(row, col))
  }

  /** `border` colours every button of the board as its tile. */
  predicate LaysOut(border: nat -> Colour) {
    forall row: nat, col: nat :: row < Size && col < Size ==> CellBorder(border, row, col)
  }

  lemma ButtonStep(border: nat -> Colour, c: Colour, row: nat, first: nat, n: nat)
    requires LaysOut(border) && row < Size && 0 < n <= Size && first == row * Size
    requires CountButtons(border, c, first + (n - 1)) == CountButtons(border, c, first) + RowColour(c, row, n - 1)
    ensures CountButtons(border, c, first + n) == CountButtons(border, c, first) + RowColour(c, row, n)
  {
    assert CellBorder(border, row, n - 1);
  }

  /**
   * The first `n` buttons of row `row`, from button `first = row * 7` on,
   * are counted as the first `n` tiles of that row.
   */
  lemma {:induction false} ButtonsInRow(border: nat -> Colour, c: Colour, row: nat, first: nat, n: nat)
    requires LaysOut(border) && row < Size && n <= Size && first == row * Size
    ensures CountButtons(border, c, first + n) == CountButtons(border, c, first) + RowColour(c, row, n)
  {
    if n > 0 {
      ButtonsInRow(border, c, row, first, n - 1);
      ButtonStep(border, c, row, first, n);
    }
  }

  lemma ButtonRowsStep(border: nat -> Colour, c: Colour, rows: nat, first: nat, width: nat)
    requires 0 < rows <= Size && width == Size
    requires CountButtons(border, c, first) == CountColour(c, rows - 1)
    requires CountButtons(border, c, first + width) == CountButtons(border, c, first) + RowColour(c, rows - 1, width)
    ensures CountButtons(border, c, first + width) == CountColour(c, rows)
  {
  }

  /** The buttons of the first `rows` rows, up to button `last = rows * 7`, are counted as the tiles of those rows. */
  lemma {:induction false} ButtonsByRows(border: nat -> Colour, c: Colour, rows: nat, last: nat)
    requires LaysOut(border) && rows <= Size && last == rows * Size
    ensures CountButtons(border, c, last) == CountColour(c, rows)
  {
    if rows > 0 {
      var first, width := last - Size, Size;
      ButtonsByRows(border, c, rows - 1, first);
      ButtonsInRow(border, c, rows - 1, first, width);
      ButtonRowsStep(border, c, rows, first, width);
    }
  }

  /** Of the 49 buttons the loop builds, one is red, 8 orange, 16 yellow and 24 green. */
  lemma ButtonCensus(c: Colour)
    ensures CountButtons(ColourOf, c, Size * Size) == if c == Red then 1 else 8 * RingOf(c)
  {
    forall row: nat, col: nat | row < Size && col < Size
      ensures CellBorder(ColourOf, row, col)
    {
      ButtonOfCell(row, col);
    }
    ButtonsByRows(ColourOf, c, Size, Size * Size);
    ColourCensus(c);
  }

  /**
   * The tile-creation loop: button `i` gets the border of its ring, for
   * every `i` in `0 .. 48`.
   */
  method BuildBorders() returns (borders: seq<Colour>)
    ensures |borders| == Size * Size
    ensures forall i :: 0 <= i < |borders| ==> borders[i] == ColourOf(i)
  {
    borders := [];
    var i := 0;
    while i < Size * Size
      invariant 0 <= i <= Size * Size && |borders| == i
      invariant forall j :: 0 <= j < i ==> borders[j] == ColourOf(j)
    {
      var row := i / Size;
      var col := i % Size;
      var d := Max(Abs(row - 3), Abs(col - 3));
      var colour;
      if d == 3 {
        colour := Green;
      } else if d == 2 {
        colour := Yellow;
      } else if d == 1 {
        colour := Orange;
      } else {
        colour := Red;
      }
      assert colour == ColourOf(i);
      borders := borders + [colour];
      i := i + 1;
    }
  }

  // ---------------------------------------------------------------------
  // Values and their display
  // ---------------------------------------------------------------------

  datatype Shape = Circle | Triangle | Square

  /** A tile's `{ circle, triangle, square }` values. */
  datatype Vals = Vals(circle: string, triangle: string, square: string)

  /** `pendingValues` before any popup is opened. */
  const Placeholder := Vals("-", "-", "-")

  /** What the popup starts from for a tile with nothing saved. */
  const Unsaved := Vals("0", "0", "0")

  function GetVal(v: Vals, shape: Shape): string {
    match shape
    case Circle => v.circle
    case Triangle => v.triangle
    case Square => v.square
  }

  /** `pendingValues[shape] = text`: only that shape's value changes. */
  function WithVal(v: Vals, shape: Shape, text: string): (r: Vals)
    ensures GetVal(r, shape) == text
    ensures forall other :: other != shape ==> GetVal(r, other) == GetVal(v, other)
  {
    match shape
    case Circle => v.(circle := text)
    case Triangle => v.(triangle := text)
    case Square => v.(square := text)
  }

  /** A value is shown as chosen when it is non-empty and not the placeholder "-". */
  predicate Shown(v: string): (b: bool)
    ensures v == "" || v == "-" ==> !b
    ensures |v| == 1 && '0' <= v[0] <= '9' ==> b
  {
    v != "" && v != "-"
  }

  /** A value's label: its text and whether it carries the `active` class. */
  datatype Label = Label(text: string, active: bool)

  /** The label a saved value gets when the page builds the board; an unshown one keeps the "-" placeholder. */
  function LoadedLabel(v: string): (l: Label)
    ensures l.active <==> Shown(v)
    ensures l.active ==> l.text == v
    ensures !l.active ==> l == Label("-", false)
  {
    if Shown(v) then Label(v, true) else Label("-", false)
  }

  /** The label a value gets when the popup saves it; an unshown one is emptied. */
  function SavedLabel(v: string): (l: Label)
    ensures l.active <==> Shown(v)
    ensures l.active ==> l.text == v
    ensures !l.active ==> l == Label("", false)
  {
    if Shown(v) then Label(v, true) else Label("", false)
  }

  /**
   * Saving and reloading agree on which values are shown and on their text;
   * they differ only in the text of an unshown value ("" after a save, "-"
   * after a reload).
   */
  lemma LabelsAgree(v: string)
    ensures SavedLabel(v).active == LoadedLabel(v).active
    ensures Shown(v) ==> SavedLabel(v) == LoadedLabel(v)
    ensures !Shown(v) ==> SavedLabel(v).text == "" && LoadedLabel(v).text == "-"
  {
  }

  /** `savedValues[index] || { circle: "0", triangle: "0", square: "0" }` */
  function Opened(saved: map<nat, Vals>, index: nat): (v: Vals)
    ensures index in saved ==> v == saved[index]
    ensures index !in saved ==> v == Unsaved
  {
    if index in saved then saved[index] else Unsaved
  }

  /** The label slot `shape` of button `i` gets when the page builds the board from `saved`. */
  function TileLabel(saved: map<nat, Vals>, i: nat, shape: Shape): (l: Label)
    ensures i !in saved ==> l == Label("-", false)
    ensures l.active <==> i in saved && Shown(GetVal(saved[i], shape))
  {
    if i in saved then LoadedLabel(GetVal(saved[i], shape)) else Label("-", false)
  }

  /**
   * After a save of `pending` under `i`, a reload shows in each slot of
   * button `i` what the save displayed: the same active flag and, for a
   * shown value, the same text.
   */
  lemma SaveThenReload(saved: map<nat, Vals>, i: nat, pending: Vals, shape: Shape)
    ensures TileLabel(saved[i := pending], i, shape).active == SavedLabel(GetVal(pending, shape)).active
    ensures SavedLabel(GetVal(pending, shape)).active ==>
      TileLabel(saved[i := pending], i, shape) == SavedLabel(GetVal(pending, shape))
  {
    LabelsAgree(GetVal(pending, shape));
  }

  /** Opening a tile with nothing saved and saving at once stores "0" in all three slots, each shown. */
  lemma SaveUntouchedShowsZeros(saved: map<nat, Vals>, i: nat, shape: Shape)
    requires i !in saved
    ensures Opened(saved, i) == Unsaved
    ensures SavedLabel(GetVal(Opened(saved, i), shape)) == Label("0", true)
  {
  }

  // ---------------------------------------------------------------------
  // The popup state
  // ---------------------------------------------------------------------

  /**
   * The page's module-level state: `savedValues`, the open popup's tile
   * (`activeIndex`, set and cleared together with `activeBtn`) and
   * `pendingValues`.
   */
  class Page {
    var saved: map<nat, Vals>
    var active: Option<nat>
    var pending: Vals

    /** Loading the page: the stored map, or `{}` when nothing is stored. */
    constructor (stored: Option<map<nat, Vals>>)
      ensures saved == stored.GetOr(map[])
      ensures active == None && pending == Placeholder
    {
      saved := stored.GetOr(map[]);
      active := None;
      pending := Placeholder;
    }

    /** `openPopup(index)`: the popup edits a copy of the tile's saved values, or of "0"s. */
    method Open(index: nat)
      modifies this
      ensures active == Some(index)
      ensures pending == Opened(saved, index)
      ensures saved == old(saved)
    {
      active := Some(index);
      pending := Opened(saved, index);
    }

    /** A number button in a shape's row: only that shape's pending value changes. */
    method Choose(shape: Shape, text: string)
      modifies this
      ensures pending == WithVal(old(pending), shape, text)
      ensures saved == old(saved) && active == old(active)
    {
      pending := WithVal(pending, shape, text);
    }

    /**
     * The Save button: with a tile open, its pending values are stored under
     * its index, every other entry is kept and the popup closes; with no tile
     * open nothing happens.
     */
    method Save()
      modifies this
      ensures old(active).None? ==> saved == old(saved) && active == None
      ensures old(active).Some? ==> saved == old(saved)[old(active).value := old(pending)]
      ensures active == None && pending == old(pending)
    {
      if active.None? {
        return;
      }
      saved := saved[active.value := pending];
      Close();
    }

    /** The Cancel button: `closePopup()`. */
    method Cancel()
      modifies this
      ensures saved == old(saved) && pending == old(pending)
      ensures active == None
    {
      Close();
    }

    /** `closePopup()`: no tile is open any more; the saved values are untouched. */
    method Close()
      modifies this
      ensures saved == old(saved) && pending == old(pending)
      ensures active == None
    {
      active := None;
    }

    /**
     * Confirming "clear all": the stored board is removed and the page
     * reloads, so it starts again from an empty map.
     */
    method ConfirmClearAll()
      modifies this
      ensures saved == map[] && active == None && pending == Placeholder
    {
      saved := map[];
      active := None;
      pending := Placeholder;
    }
  }
}
