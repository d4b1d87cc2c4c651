/**
 * The state of the React board component (index.jsx) and its event
 * handlers: `rows`, `cols`, `tiles` and `focusKey`, replaced by the
 * handlers through their setters.
 */
module BoardComponent {
  import opened Wrappers
  import opened BoardRules

  const DefaultDim := 9

  /**
   * The focus after the grid is rebuilt with `total` tiles. index.jsx keeps
   * `focusKey` as it was; this model drops a focus that falls outside the
   * new grid (see StaleFocusAfterResize).
   */
  function Refocus(f: Option<Focus>, total: int): (r: Option<Focus>)
    ensures FocusInGrid(r, total)
    ensures FocusInGrid(f, total) ==> r == f
    ensures r.Some? ==> r == f
  {
    if FocusInGrid(f, total) then f else None
  }

  /** The focus after `resize` as written: `focusKey` is left untouched. */
  function FocusAfterResizeAsWritten(f: Option<Focus>, r: int, c: int): (g: Option<Focus>)
    ensures FocusInGrid(f, r * c) ==> g == Refocus(f, r * c)
    ensures f.Some? ==> g.Some?
  {
    f
  }

  /**
   * After focusing the last tile of the 9x9 board and shrinking it to 1x1,
   * the written focus names tile 80 of a one-tile grid, so the next digit
   * key would write past the end of `tiles`; Refocus drops that focus.
   */
  lemma StaleFocusAfterResize()
    ensures var f := Some(Focus(80, Circle));
      var total := ClampDim(1) * ClampDim(1);
      FocusInGrid(f, DefaultDim * DefaultDim)
      && FocusAfterResizeAsWritten(f, 1, 1) == f
      && !FocusInGrid(FocusAfterResizeAsWritten(f, 1, 1), total)
      && Refocus(f, total) == None
  {
  }

  class Board {
    var rows: int
    var cols: int
    var tiles: seq<Tile>
    var focus: Option<Focus>

    /** The tile list matches the dimensions and the focus names a tile of the grid. */
    ghost predicate Valid()
      reads this
    {
      Consistent(Snapshot(rows, cols, tiles)) && FocusInGrid(focus, rows * cols)
    }

    /** The initial state: an empty 9x9 board and no focus. */
    constructor ()
      ensures Valid()
      ensures rows == DefaultDim && cols == DefaultDim
      ensures tiles == EmptyTiles(DefaultDim * DefaultDim) && focus == None
    {
      rows := DefaultDim;
      cols := DefaultDim;
      tiles := EmptyTiles(DefaultDim * DefaultDim);
      focus := None;
    }

    /** `setShape(idx, key, value)`: one slot of one tile changes. */
    method SetShape(idx: nat, key: Shape, value: string)
      requires Valid() && idx < |tiles|
      modifies this
      ensures Valid()
      ensures tiles == UpdateSlot(old(tiles), idx, key, value)
      ensures rows == old(rows) && cols == old(cols) && focus == old(focus)
    {
      var next := tiles;
      next := next[idx := With(next[idx], key, value)];
      tiles := next;
    }

    /**
     * `onShapeClick`: a click cycles the slot forward, a context-menu click
     * backward, and the slot takes the focus.
     */
    method ShapeClick(idx: nat, key: Shape, contextMenu: bool)
      requires Valid() && idx < |tiles|
      modifies this
      ensures Valid()
      ensures tiles == UpdateSlot(old(tiles), idx, key, Cycle(Get(old(tiles)[idx], key), ClickDirection(contextMenu)))
      ensures focus == Some(Focus(idx, key))
      ensures rows == old(rows) && cols == old(cols)
    {
      var dir := ClickDirection(contextMenu);
      SetShape(idx, key, Cycle(Get(tiles[idx], key), dir));
      focus := Some(Focus(idx, key));
    }

    /** The `onFocus` handler of a shape: it takes the keyboard focus. */
    method FocusShape(idx: nat, key: Shape)
      requires Valid() && idx < |tiles|
      modifies this
      ensures Valid()
      ensures focus == Some(Focus(idx, key))
      ensures rows == old(rows) && cols == old(cols) && tiles == old(tiles)
    {
      focus := Some(Focus(idx, key));
    }

    /**
     * `onShapeDouble`: the prompt's answer (`None` when cancelled) clears the
     * slot when blank, sets it when it is one digit, and is otherwise ignored.
     */
    method ShapeDouble(idx: nat, key: Shape, input: Option<string>)
      requires Valid() && idx < |tiles|
      modifies this
      ensures Valid()
      ensures var w := TypedEntry(input);
        tiles == if w.Some? then UpdateSlot(old(tiles), idx, key, w.value) else old(tiles)
      ensures rows == old(rows) && cols == old(cols) && focus == old(focus)
    {
      var w := TypedEntry(input);
      if w.Some? {
        SetShape(idx, key, w.value);
      }
    }

    /**
     * `onKeyDown`: without a focus nothing happens; a digit sets the focused
     * slot, Backspace or Delete clears it, an arrow moves the focus (keeping
     * the shape) and any other key is ignored.
     */
    method KeyDown(key: string)
      requires Valid()
      modifies this
      ensures Valid()
      ensures rows == old(rows) && cols == old(cols)
      ensures old(focus).None? ==> tiles == old(tiles) && focus == None
      ensures old(focus).Some? ==>
        var f := old(focus).value;
        if IsDigitString(key) then
          tiles == UpdateSlot(old(tiles), f.idx, f.shape, key) && focus == old(focus)
        else if key == "Backspace" || key == "Delete" then
          tiles == UpdateSlot(old(tiles), f.idx, f.shape, "") && focus == old(focus)
        else
          tiles == old(tiles) &&
          focus == match ArrowOf(key)
            case Some(a) => Some(Focus(MoveFocus(f.idx, a, rows, cols), f.shape))
            case None => old(focus)
    {
      if focus.None? {
        return;
      }
      var idx := focus.value.idx;
      var shape := focus.value.shape;
      if IsDigitString(key) {
        SetShape(idx, shape, key);
      } else if key == "Backspace" || key == "Delete" {
        SetShape(idx, shape, "");
      } else {
        match ArrowOf(key)
        case Some(a) =>
          focus := Some(Focus(MoveFocus(idx, a, rows, cols), shape));
        case None =>
      }
    }

    /**
     * `resize(r, c)`: both dimensions are clamped to 1..20 and the board is
     * rebuilt empty; a focus outside the new grid is dropped.
     */
    method Resize(r: int, c: int)
      requires Valid()
      modifies this
      ensures Valid()
      ensures rows == ClampDim(r) && cols == ClampDim(c)
      ensures tiles == EmptyTiles(rows * cols)
      ensures focus == Refocus(old(focus), rows * cols)
    {
      var nr := ClampDim(r);
      var nc := ClampDim(c);
      rows := nr;
      cols := nc;
      tiles := EmptyTiles(nr * nc);
      focus := Refocus(focus, nr * nc);
    }

    /** The Reset button: every slot of every tile is emptied. */
    method Reset()
      requires Valid()
      modifies this
      ensures Valid()
      ensures tiles == EmptyTiles(rows * cols)
      ensures rows == old(rows) && cols == old(cols) && focus == old(focus)
    {
      tiles := EmptyTiles(rows * cols);
    }

    /** `exportJSON`'s payload `{ rows, cols, tiles }`; importing it restores this board. */
    function Export(): (p: Payload)
      reads this
      requires Valid()
      ensures p == Exported(Snapshot(rows, cols, tiles))
      ensures Imported(p) == Some(Snapshot(rows, cols, tiles))
    {
      ImportExport(Snapshot(rows, cols, tiles));
      Exported(Snapshot(rows, cols, tiles))
    }

    /**
     * `importJSON`: `None` is a cancelled or empty prompt or text that does
     * not parse. A refused payload changes nothing; an accepted one installs
     * its dimensions and its tiles cut or padded to `rows * cols`.
     */
    method Import(payload: Option<Payload>) returns (ok: bool)
      requires Valid()
      modifies this
      ensures Valid()
      ensures ok <==> payload.Some? && Accepts(payload.value)
      ensures !ok ==> rows == old(rows) && cols == old(cols) && tiles == old(tiles) && focus == old(focus)
      ensures ok ==> Some(Snapshot(rows, cols, tiles)) == Imported(payload.value)
      ensures ok ==> focus == Refocus(old(focus), rows * cols)
    {
      if payload.None? || !Accepts(payload.value) {
        return false;
      }
      var data := payload.value;
      var expected := data.rows.value * data.cols.value;
      var src := FitTiles(data.tiles.value, expected);
      rows := data.rows.value;
      cols := data.cols.value;
      tiles := src;
      focus := Refocus(focus, expected);
      ok := true;
    }
  }
}
