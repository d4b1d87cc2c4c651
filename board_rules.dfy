/**
 * The pure rules behind the React board component (index.jsx): the value
 * cycle of a slot, dimension clamping, the ring band of a tile, typed-entry
 * validation, focus movement and the shape of the export/import payload.
 */
module BoardRules {
  import opened Wrappers

  // ---------------------------------------------------------------------
  // Tiles and slots
  // ---------------------------------------------------------------------

  /** A tile's circle, triangle and square slots; "" is an empty slot. */
  datatype Tile = Tile(c: string, t: string, s: string)

  /** The slot keys "c", "t" and "s". */
  datatype Shape = Circle | Triangle | Square

  const EmptyTile := Tile("", "", "")

  /** `tile[key]` */
  function Get(tile: Tile, key: Shape): string {
    match key
    case Circle => tile.c
    case Triangle => tile.t
    case Square => tile.s
  }

  /** `{ ...tile, [key]: value }`: only slot `key` takes the new value. */
  function With(tile: Tile, key: Shape, value: string): (r: Tile)
    ensures Get(r, key) == value
    ensures forall other :: other != key ==> Get(r, other) == Get(tile, other)
  {
    match key
    case Circle => tile.(c := value)
    case Triangle => tile.(t := value)
    case Square => tile.(s := value)
  }

  /** The `setShape` update: a copy of `tiles` whose tile `idx` has `value` in slot `key`. */
  function UpdateSlot(tiles: seq<Tile>, idx: nat, key: Shape, value: string): (r: seq<Tile>)
    requires idx < |tiles|
    ensures |r| == |tiles|
    ensures Get(r[idx], key) == value
    ensures forall other :: other != key ==> Get(r[idx], other) == Get(tiles[idx], other)
    ensures forall j :: 0 <= j < |tiles| && j != idx ==> r[j] == tiles[j]
  {
    tiles[idx := With(tiles[idx], key, value)]
  }

  /** `Array.from({ length: n }, () => ({ ...emptyTile }))` */
  function EmptyTiles(n: nat): (r: seq<Tile>)
    ensures |r| == n
    ensures forall i :: 0 <= i < n ==> r[i] == EmptyTile
  {
    seq(n, _ => EmptyTile)
  }

  // ---------------------------------------------------------------------
  // The value cycle
  // ---------------------------------------------------------------------

  /** The eleven slot values in cycling order. */
  const Values: seq<string> := ["", "0", "1", "2", "3", "4", "5", "6", "7", "8", "9"]

  /** `Array.prototype.indexOf`: the first position of `x` in `s`, or -1. */
  function IndexOf<T(==)>(s: seq<T>, x: T): (i: int)
    ensures -1 <= i < |s|
    ensures i == -1 <==> x !in s
    ensures 0 <= i ==> s[i] == x && forall j :: 0 <= j < i ==> s[j] != x
  {
    if |s| == 0 then -1
    else if s[0] == x then 0
    else
      var k := IndexOf(s[1..], x);
      if k == -1 then -1 else k + 1
  }

  /** `/^[0-9]$/.test(s)`: exactly one decimal digit. */
  predicate IsDigitString(s: string) {
    |s| == 1 && '0' <= s[0] <= '9'
  }

  /** One of the eleven cycle values: "" or a single digit. */
  predicate InCycle(v: string) {
    v == "" || IsDigitString(v)
  }

  lemma ValuesShape(i: nat)
    requires i < |Values|
    ensures i == 0 ==> Values[i] == ""
    ensures i > 0 ==> IsDigitString(Values[i]) && Values[i][0] as int - '0' as int == i - 1
  {
  }

  /**
   * Where `cycle` starts: the position of `v` in the cycle, or that of ""
   * for a value outside it (PositionIsIndexOf ties it to `indexOf`).
   */
  function Position(v: string): (i: nat)
    ensures i < |Values|
  {
    if IsDigitString(v) then v[0] as int - '0' as int + 1 else 0
  }

  lemma PositionOf(k: nat)
    requires k < |Values|
    ensures Position(Values[k]) == k && InCycle(Values[k])
  {
    ValuesShape(k);
  }

  lemma PositionRecovers(v: string)
    requires InCycle(v)
    ensures Values[Position(v)] == v
  {
    var j := Position(v);
    ValuesShape(j);
    if v != "" {
      assert v == [v[0]];
      assert Values[j] == [Values[j][0]];
    }
  }

  /** The values of the cycle are exactly "" and the ten single digits. */
  lemma InCycleIsMember(v: string)
    ensures InCycle(v) <==> v in Values
  {
    if InCycle(v) {
      PositionRecovers(v);
    } else if v in Values {
      var k :| 0 <= k < |Values| && Values[k] == v;
      PositionOf(k);
    }
  }

  /** `let i = seq.indexOf(String(val)); if (i === -1) i = 0;` computes Position. */
  lemma PositionIsIndexOf(v: string)
    ensures Position(v) == if IndexOf(Values, v) == -1 then 0 else IndexOf(Values, v)
  {
    var k := IndexOf(Values, v);
    if k >= 0 {
      PositionOf(k);
    } else if IsDigitString(v) {
      PositionRecovers(v);
    }
  }

  /** A cycling direction: +1 for a click, -1 for a context-menu click. */
  predicate IsDirection(dir: int) {
    dir == 1 || dir == -1
  }

  /** The one-digit string of digit `k`. */
  function Digit(k: int): string
    requires 0 <= k <= 9
  {
    [('0' as int + k) as char]
  }

  /** `seq[k]`, spelled out: "" at 0 and the digit `k - 1` after it (ValueAtIndexes). */
  function ValueAt(k: int): string
    requires 0 <= k < 11
  {
    if k == 0 then "" else Digit(k - 1)
  }

  lemma ValueAtIndexes(k: nat)
    requires k < |Values|
    ensures ValueAt(k) == Values[k]
  {
    ValuesShape(k);
    if k > 0 {
      assert Values[k] == [Values[k][0]];
    }
  }

  lemma ValueAtPosition(k: int)
    requires 0 <= k < 11
    ensures Position(ValueAt(k)) == k && InCycle(ValueAt(k))
  {
  }

  lemma ValueAtRecovers(v: string)
    requires InCycle(v)
    ensures ValueAt(Position(v)) == v
  {
    if v != "" {
      assert v == [v[0]];
    }
  }

  /**
   * `cycle(val, dir)`. The source computes `(i + dir + 11) % 11`, whose
   * operand is never negative for dir = +1 or -1, so JavaScript's truncating
   * remainder and Dafny's Euclidean one agree.
   */
  function Cycle(v: string, dir: int): (r: string)
    requires IsDirection(dir)
    ensures InCycle(r)
    ensures Position(r) == (Position(v) + dir) % 11
  {
    var i := Position(v);
    var k := (i + dir + |Values|) % |Values|;
    assert k == (i + dir) % 11;
    ValueAtPosition(k);
    ValueAt(k)
  }

  /**
   * One step moves one place along the cycle, wrapping at both ends, and
   * always lands on one of its eleven values.
   */
  lemma CycleStep(v: string, dir: int)
    requires IsDirection(dir)
    ensures Cycle(v, dir) == ValueAt((Position(v) + dir) % 11)
    ensures Position(Cycle(v, dir)) == (Position(v) + dir) % 11
    ensures InCycle(Cycle(v, dir))
  {
    var j := (Position(v) + dir) % 11;
    assert (Position(v) + dir + |Values|) % |Values| == j;
    ValueAtPosition(j);
  }

  /**
   * The step as the source writes it: the index of the value in the cycle
   * (`indexOf`, with -1 read as 0), moved by `dir` modulo 11, read back from
   * the cycle.
   */
  lemma CycleIndexesValues(v: string, dir: int)
    requires IsDirection(dir)
    ensures var i := if IndexOf(Values, v) == -1 then 0 else IndexOf(Values, v);
      Cycle(v, dir) == Values[(i + dir + |Values|) % |Values|]
  {
    PositionIsIndexOf(v);
    ValueAtIndexes((Position(v) + dir + |Values|) % |Values|);
  }

  /** Forward, "" steps to "0" and "9" wraps round to "". */
  lemma CycleForwardEnds()
    ensures Cycle("", 1) == "0" && Cycle("9", 1) == ""
  {
    CycleStep("", 1);
    CycleStep("9", 1);
  }

  /** Backward, "" wraps round to "9" and "0" steps to "". */
  lemma CycleBackwardEnds()
    ensures Cycle("", -1) == "9" && Cycle("0", -1) == ""
  {
    CycleStep("", -1);
    CycleStep("0", -1);
  }

  /** Between the ends, forward takes digit k to k + 1 and backward takes k + 1 to k. */
  lemma CycleDigitNext(k: int)
    requires 0 <= k < 9
    ensures Cycle(Digit(k), 1) == Digit(k + 1)
    ensures Cycle(Digit(k + 1), -1) == Digit(k)
  {
    assert Position(Digit(k)) == k + 1 && Position(Digit(k + 1)) == k + 2;
    SamePosition(Cycle(Digit(k), 1), Digit(k + 1));
    SamePosition(Cycle(Digit(k + 1), -1), Digit(k));
  }

  /** Every step lands on an element of the `VALUES` array. */
  lemma CycleInValues(v: string, dir: int)
    requires IsDirection(dir)
    ensures Cycle(v, dir) in Values
  {
    CycleStep(v, dir);
    InCycleIsMember(Cycle(v, dir));
  }

  /** A value outside the cycle is treated as "" before stepping. */
  lemma CycleUnknown(v: string, dir: int)
    requires IsDirection(dir) && !InCycle(v)
    ensures Cycle(v, dir) == Cycle("", dir)
  {
  }

  lemma ModStep(a: int, b: int)
    ensures (a % 11 + b) % 11 == (a + b) % 11
  {
    var q := a / 11;
    assert a == 11 * q + a % 11;
    assert a + b == (a % 11 + b) + 11 * q;
  }

  lemma StepBack(p: int, dir: int)
    requires 0 <= p < 11 && IsDirection(dir)
    ensures ((p + dir) % 11 - dir) % 11 == p
  {
  }

  lemma FullTurn(p: int, dir: int)
    requires 0 <= p < 11 && IsDirection(dir)
    ensures (p + dir * 11) % 11 == p
  {
    if dir == 1 {
      assert p + dir * 11 == p + 11;
    } else {
      assert p + dir * 11 == p - 11;
    }
  }

  /** A backward step undoes a forward step and vice versa. */
  lemma CycleInverse(v: string, dir: int)
    requires InCycle(v) && IsDirection(dir)
    ensures Cycle(Cycle(v, dir), -dir) == v
  {
    var w := Cycle(v, dir);
    CycleStep(v, dir);
    CycleStep(w, -dir);
    StepBack(Position(v), dir);
    ValueAtRecovers(v);
  }

  /** `n` successive `cycle` calls in one direction. */
  function CycleN(v: string, dir: int, n: nat): string
    requires IsDirection(dir)
  {
    if n == 0 then v else Cycle(CycleN(v, dir, n - 1), dir)
  }

  lemma WalkStep(p: int, q: int, dir: int, n: nat)
    requires IsDirection(dir) && n > 0
    requires q == (p + dir * (n - 1)) % 11
    ensures (q + dir) % 11 == (p + dir * n) % 11
  {
    ModStep(p + dir * (n - 1), dir);
    assert p + dir * (n - 1) + dir == p + dir * n;
  }

  lemma CycleNStep(v: string, dir: int, n: nat)
    requires IsDirection(dir) && n > 0
    ensures Position(CycleN(v, dir, n)) == (Position(CycleN(v, dir, n - 1)) + dir) % 11
    ensures InCycle(CycleN(v, dir, n))
  {
    CycleStep(CycleN(v, dir, n - 1), dir);
  }

  lemma CycleNAtStep(v: string, dir: int, n: nat)
    requires IsDirection(dir) && n > 1
    requires Position(CycleN(v, dir, n - 1)) == (Position(v) + dir * (n - 1)) % 11
    ensures Position(CycleN(v, dir, n)) == (Position(v) + dir * n) % 11
  {
    CycleNStep(v, dir, n);
    WalkStep(Position(v), Position(CycleN(v, dir, n - 1)), dir, n);
  }

  lemma {:induction false} CycleNAt(v: string, dir: int, n: nat)
    requires IsDirection(dir) && n > 0
    ensures Position(CycleN(v, dir, n)) == (Position(v) + dir * n) % 11
    ensures InCycle(CycleN(v, dir, n))
  {
    if n > 1 {
      CycleNAt(v, dir, n - 1);
      CycleNAtStep(v, dir, n);
    } else {
      assert CycleN(v, dir, n - 1) == v;
    }
  }

  /**
   * The cycle has period 11: eleven steps in either direction return any
   * value of the cycle to itself, and a value outside it to "".
   */
  lemma CyclePeriod(v: string, dir: int)
    requires IsDirection(dir)
    ensures CycleN(v, dir, 11) == if InCycle(v) then v else ""
  {
    var last := CycleN(v, dir, 11);
    CycleNAt(v, dir, 11);
    FullTurn(Position(v), dir);
    if InCycle(v) {
      SamePosition(last, v);
    } else {
      SamePosition(last, "");
    }
  }

  /** Position tells the cycle values apart. */
  lemma SamePosition(a: string, b: string)
    requires InCycle(a) && InCycle(b) && Position(a) == Position(b)
    ensures a == b
  {
    ValueAtRecovers(a);
    ValueAtRecovers(b);
  }

  /** `e.type === "contextmenu" ? -1 : 1` */
  function ClickDirection(contextMenu: bool): (dir: int)
    ensures IsDirection(dir)
    ensures dir == -1 <==> contextMenu
  {
    if contextMenu then -1 else 1
  }

  // ---------------------------------------------------------------------
  // Dimensions
  // ---------------------------------------------------------------------

  const MaxDim := 20

  /**
   * `Math.max(1, Math.min(20, Number(x) || 1))` for an integer input; an
   * input that is not a number reaches this function as 0.
   */
  function ClampDim(x: int): (r: int)
    ensures 1 <= r <= MaxDim
    ensures 1 <= x <= MaxDim ==> r == x
    ensures x < 1 ==> r == 1
    ensures x > MaxDim ==> r == MaxDim
  {
    var n := if x == 0 then 1 else x;
    var low := if n < MaxDim then n else MaxDim;
    if low < 1 then 1 else low
  }

  // ---------------------------------------------------------------------
  // Ring bands
  // ---------------------------------------------------------------------

  datatype Band = Red | Yellow | Green

  /** How close to the centre a band is: red 2, yellow 1, green 0. */
  function Warmth(b: Band): nat {
    match b
    case Red => 2
    case Yellow => 1
    case Green => 0
  }

  function AbsR(x: real): real {
    if x < 0.0 then -x else x
  }

  function MaxR(a: real, b: real): real {
    if a < b then b else a
  }

  /**
   * `bandClassFor(r, c)` in exact rational arithmetic. On a 1x1 board the
   * source divides 0 by 0; NaN fails both comparisons and the tile is green.
   * On every board of at least one tile the band is the integer one of
   * BandOf, over doubled distance and doubled radius.
   */
  function BandFor(rows: int, cols: int, r: int, c: int): (b: Band)
    ensures rows == 1 && cols == 1 ==> b == Green
    ensures 1 <= rows && 1 <= cols ==>
      b == BandOf(DoubledDistance(rows, cols, r, c), Max(rows - 1, cols - 1))
  {
    var cr := (rows - 1) as real / 2.0;
    var cc := (cols - 1) as real / 2.0;
    var dist := MaxR(AbsR(r as real - cr), AbsR(c as real - cc));
    var maxd := MaxR(cr, cc);
    assert AbsR(r as real - cr) == Abs(2 * r - (rows - 1)) as real / 2.0;
    assert AbsR(c as real - cc) == Abs(2 * c - (cols - 1)) as real / 2.0;
    assert dist == DoubledDistance(rows, cols, r, c) as real / 2.0;
    assert maxd == Max(rows - 1, cols - 1) as real / 2.0;
    if maxd == 0.0 then Green
    else
      RatioAtMost(dist, maxd, 0.34);
      RatioAtMost(dist, maxd, 0.67);
      if dist / maxd <= 0.34 then Red
      else if dist / maxd <= 0.67 then Yellow
      else Green
  }

  function Abs(x: int): nat {
    if x < 0 then -x else x
  }

  function Max(a: int, b: int): int {
    if a < b then b else a
  }

  /** Twice the Chebyshev distance from (r, c) to the board centre. */
  function DoubledDistance(rows: int, cols: int, r: int, c: int): nat {
    Max(Abs(2 * r - (rows - 1)), Abs(2 * c - (cols - 1)))
  }

  /** The band as a function of doubled distance `d` and doubled radius `m`, in integers. */
  function BandOf(d: int, m: int): (b: Band)
    requires 0 <= m
    ensures m > 0 ==> (b == Red <==> 100 * d <= 34 * m)
    ensures m > 0 ==> (b == Yellow <==> 34 * m < 100 * d <= 67 * m)
  {
    if m == 0 then Green
    else if 100 * d <= 34 * m then Red
    else if 100 * d <= 67 * m then Yellow
    else Green
  }

  lemma RatioAtMost(d: real, m: real, k: real)
    ensures m > 0.0 ==> (d / m <= k <==> d <= k * m)
  {
    if m > 0.0 {
      var q := d / m;
      assert q * m == d;
      if q <= k {
        assert q * m <= k * m;
      } else {
        assert q * m > k * m;
      }
    }
  }

  /** A tile never gets warmer as its distance from the centre grows. */
  lemma BandMonotone(rows: int, cols: int, r1: int, c1: int, r2: int, c2: int)
    requires 1 <= rows && 1 <= cols
    requires DoubledDistance(rows, cols, r1, c1) <= DoubledDistance(rows, cols, r2, c2)
    ensures Warmth(BandFor(rows, cols, r2, c2)) <= Warmth(BandFor(rows, cols, r1, c1))
  {
  }

  /** The band is unchanged by reflecting the board top-to-bottom or left-to-right. */
  lemma BandMirror(rows: int, cols: int, r: int, c: int)
    requires 1 <= rows && 1 <= cols
    ensures BandFor(rows, cols, rows - 1 - r, c) == BandFor(rows, cols, r, c)
    ensures BandFor(rows, cols, r, cols - 1 - c) == BandFor(rows, cols, r, c)
  {
  }

  /** On a square board the band is unchanged by transposing the tile. */
  lemma BandTranspose(n: int, r: int, c: int)
    requires 1 <= n
    ensures BandFor(n, n, c, r) == BandFor(n, n, r, c)
  {
  }

  /** On the default 9x9 board: distance 0-1 is red, 2 yellow, 3-4 green. */
  lemma BandNineByNine(r: int, c: int)
    requires 0 <= r < 9 && 0 <= c < 9
    ensures var d := Max(Abs(r - 4), Abs(c - 4));
      BandFor(9, 9, r, c) == if d <= 1 then Red else if d == 2 then Yellow else Green
  {
  }

  // ---------------------------------------------------------------------
  // Typed entry
  // ---------------------------------------------------------------------

  /** What `String.prototype.trim` removes: ECMAScript WhiteSpace and LineTerminator characters. */
  predicate IsJsSpace(ch: char) {
    ch == '\t' || ch == '\n' || ch == '\U{000B}' || ch == '\U{000C}' || ch == '\r' || ch == ' '
    || ch == '\U{00A0}' || ch == '\U{1680}' || ('\U{2000}' <= ch <= '\U{200A}')
    || ch == '\U{2028}' || ch == '\U{2029}' || ch == '\U{202F}' || ch == '\U{205F}'
    || ch == '\U{3000}' || ch == '\U{FEFF}'
  }

  predicate IsBlank(s: string) {
    forall i :: 0 <= i < |s| ==> IsJsSpace(s[i])
  }

  /** The number of whitespace characters that open `s`. */
  function LeadingSpaces(s: string): (n: nat)
    ensures n <= |s|
    ensures forall i :: 0 <= i < n ==> IsJsSpace(s[i])
    ensures n < |s| ==> !IsJsSpace(s[n])
  {
    if |s| > 0 && IsJsSpace(s[0]) then 1 + LeadingSpaces(s[1..]) else 0
  }

  /** The number of whitespace characters that close `s`. */
  function TrailingSpaces(s: string): (n: nat)
    ensures n <= |s|
    ensures forall i :: |s| - n <= i < |s| ==> IsJsSpace(s[i])
    ensures n < |s| ==> !IsJsSpace(s[|s| - 1 - n])
  {
    if |s| > 0 && IsJsSpace(s[|s| - 1]) then 1 + TrailingSpaces(s[..|s| - 1]) else 0
  }

  /**
   * `s.trim()`: the middle of `s` with only the whitespace around it cut
   * away, so empty exactly for blank input and otherwise framed by
   * non-space characters.
   */
  function Trim(s: string): (r: string)
    ensures exists i, j :: 0 <= i <= j <= |s| && r == s[i..j] && IsBlank(s[..i]) && IsBlank(s[j..])
    ensures r == "" <==> IsBlank(s)
    ensures r != "" ==> !IsJsSpace(r[0]) && !IsJsSpace(r[|r| - 1])
  {
    var i := LeadingSpaces(s);
    var j := |s| - TrailingSpaces(s[i..]);
    TrimFrame(s, i, j);
    s[i..j]
  }

  /** What Trim cuts from the front is blank. */
  lemma LeadingBlank(s: string)
    ensures IsBlank(s[..LeadingSpaces(s)])
  {
    var n := LeadingSpaces(s);
    forall k | 0 <= k < n
      ensures IsJsSpace(s[..n][k])
    {
      assert s[..n][k] == s[k];
    }
  }

  /** What Trim cuts from the back is blank. */
  lemma TrailingBlank(s: string, i: nat, j: nat)
    requires i <= |s| && j == |s| - TrailingSpaces(s[i..])
    ensures i <= j && IsBlank(s[j..])
  {
    var a := s[i..];
    var m := |a| - TrailingSpaces(a);
    forall k | 0 <= k < |s| - j
      ensures IsJsSpace(s[j..][k])
    {
      assert s[j..][k] == a[m + k];
    }
  }

  /** The cut Trim makes: blank on both sides, non-space at both ends of what is kept. */
  lemma TrimFrame(s: string, i: nat, j: int)
    requires i == LeadingSpaces(s) && j == |s| - TrailingSpaces(s[i..])
    ensures i <= j <= |s| && IsBlank(s[..i]) && IsBlank(s[j..])
    ensures i < j ==> !IsJsSpace(s[i]) && !IsJsSpace(s[j - 1])
    ensures i == j <==> IsBlank(s)
  {
    LeadingBlank(s);
    TrailingBlank(s, i, j);
    TrimEnds(s, i, s[i..], TrailingSpaces(s[i..]));
  }

  /** What Trim keeps starts and ends with non-space, and is empty exactly for blank input. */
  lemma TrimEnds(s: string, i: nat, a: string, t: nat)
    requires i == LeadingSpaces(s) && a == s[i..] && t == TrailingSpaces(a)
    ensures t < |a| ==> !IsJsSpace(s[i]) && !IsJsSpace(s[i + |a| - t - 1])
    ensures t == |a| <==> IsBlank(s)
  {
    if |a| > 0 {
      assert a[0] == s[i];
    }
    if t < |a| {
      assert s[i + |a| - t - 1] == a[|a| - 1 - t];
    } else {
      assert s[..i] == s;
    }
  }

  /**
   * What a double-click prompt writes into the slot (`None` leaves the tile
   * unchanged): nothing for a cancelled prompt, "" for blank input, the digit
   * for one digit after trimming, and nothing for anything else.
   */
  function TypedEntry(input: Option<string>): (w: Option<string>)
    ensures input.None? ==> w.None?
    ensures w == Some("") <==> input.Some? && IsBlank(input.value)
    ensures w.Some? ==> InCycle(w.value)
    ensures w.Some? && w.value != "" ==> IsDigitString(w.value) && w.value == Trim(input.value)
    ensures input.Some? && IsDigitString(Trim(input.value)) ==> w == Some(Trim(input.value))
  {
    match input
    case None => None
    case Some(v) =>
      var cleaned := Trim(v);
      if cleaned == "" then Some("")
      else if IsDigitString(cleaned) then Some(cleaned)
      else None
  }

  /** A letter is refused and leaves the slot unchanged. */
  lemma TypedEntryRejectsLetter()
    ensures TypedEntry(Some("x")) == None
  {
    assert Trim("x") == "x";
  }

  /** Spaces around a single digit are trimmed away. */
  lemma TypedEntryTrimsDigit()
    ensures TypedEntry(Some(" 7 ")) == Some("7")
  {
    assert IsJsSpace(' ') && !IsJsSpace('7');
    assert LeadingSpaces(" 7 ") == 1;
    assert " 7 "[1..] == "7 ";
    assert TrailingSpaces("7 ") == 1;
    assert "7 "[..1] == "7";
    assert Trim(" 7 ") == "7";
  }

  // ---------------------------------------------------------------------
  // Keyboard focus
  // ---------------------------------------------------------------------

  /** The focused slot: `focusKey` = `${idx}:${shape}`. */
  datatype Focus = Focus(idx: int, shape: Shape)

  predicate FocusInGrid(f: Option<Focus>, total: int) {
    f.None? || 0 <= f.value.idx < total
  }

  /** The four arrow keys. */
  datatype Arrow = Up | Down | Left | Right

  /** `e.key` names an arrow key, or not. */
  function ArrowOf(key: string): (a: Option<Arrow>)
    ensures a == Some(Up) <==> key == "ArrowUp"
    ensures a == Some(Down) <==> key == "ArrowDown"
    ensures a == Some(Left) <==> key == "ArrowLeft"
    ensures a == Some(Right) <==> key == "ArrowRight"
  {
    if key == "ArrowUp" then Some(Up)
    else if key == "ArrowDown" then Some(Down)
    else if key == "ArrowLeft" then Some(Left)
    else if key == "ArrowRight" then Some(Right)
    else None
  }

  /**
   * The focus index after an arrow key on a `rows` x `cols` board: Up and
   * Down move by `cols`, Left and Right by one, clamped to `[0, total - 1]`.
   */
  function MoveFocus(idx: int, arrow: Arrow, rows: int, cols: int): (r: int)
    ensures 1 <= cols && 0 <= idx < rows * cols ==> 0 <= r < rows * cols
  {
    var total := rows * cols;
    match arrow
    case Up => Max(0, idx - cols)
    case Down => if total - 1 < idx + cols then total - 1 else idx + cols
    case Left => Max(0, idx - 1)
    case Right => if total - 1 < idx + 1 then total - 1 else idx + 1
  }

  lemma MulLe(a: int, b: int, c: int)
    requires a <= b && 0 <= c
    ensures a * c <= b * c
  {
  }

  /** Tile (row, col) of a `rows` x `cols` board sits at `row * cols + col`, inside the grid. */
  lemma CellIndex(rows: int, cols: int, row: int, col: int)
    requires 1 <= cols && 0 <= row < rows && 0 <= col < cols
    ensures 0 <= row * cols <= row * cols + col < (row + 1) * cols <= rows * cols
    ensures (row + 1) * cols == row * cols + cols
  {
    MulLe(0, row, cols);
    MulLe(row + 1, rows, cols);
  }

  /**
   * Up and Down keep the column and change the row by one, except on the
   * top row, where Up goes to tile 0, and on the bottom row, where Down goes
   * to the last tile.
   */
  lemma MoveFocusVertical(rows: int, cols: int, row: int, col: int)
    requires 1 <= cols && 0 <= row < rows && 0 <= col < cols
    ensures MoveFocus(row * cols + col, Up, rows, cols) == if row > 0 then (row - 1) * cols + col else 0
    ensures MoveFocus(row * cols + col, Down, rows, cols) == if row < rows - 1 then (row + 1) * cols + col else rows * cols - 1
  {
    CellIndex(rows, cols, row, col);
    if row > 0 {
      CellIndex(rows, cols, row - 1, col);
    }
    if row < rows - 1 {
      CellIndex(rows, cols, row + 1, col);
    }
  }

  /** Left and Right step through the tiles in reading order and stop at the first and last tile. */
  lemma MoveFocusHorizontal(idx: int, rows: int, cols: int)
    requires 1 <= rows && 1 <= cols && 0 <= idx < rows * cols
    ensures MoveFocus(idx, Left, rows, cols) == (if idx == 0 then 0 else idx - 1)
    ensures MoveFocus(idx, Right, rows, cols) == (if idx == rows * cols - 1 then idx else idx + 1)
  {
  }

  // ---------------------------------------------------------------------
  // Export and import payload
  // ---------------------------------------------------------------------

  /** A board as `exportJSON` writes it. */
  datatype Snapshot = Snapshot(rows: int, cols: int, tiles: seq<Tile>)

  /** A parsed import payload; `None` is a missing field, or `tiles` that is not an array. */
  datatype Payload = Payload(rows: Option<int>, cols: Option<int>, tiles: Option<seq<Tile>>)

  /** A board whose tile list matches its dimensions. */
  predicate Consistent(s: Snapshot) {
    1 <= s.rows && 1 <= s.cols && |s.tiles| == s.rows * s.cols
  }

  /** `{ rows, cols, tiles }` */
  function Exported(s: Snapshot): Payload {
    Payload(Some(s.rows), Some(s.cols), Some(s.tiles))
  }

  /** The first `n` tiles of `src`, padded with empty tiles up to `n`. */
  function Fit(src: seq<Tile>, n: nat): (r: seq<Tile>)
    ensures |r| == n
    ensures forall i :: 0 <= i < n ==> r[i] == if i < |src| then src[i] else EmptyTile
  {
    if n <= |src| then src[..n] else src + EmptyTiles(n - |src|)
  }

  /** A tile list that already has the expected length is kept as it is. */
  lemma FitExact(src: seq<Tile>)
    ensures Fit(src, |src|) == src
  {
  }

  /**
   * `data.tiles.slice(0, expected)` followed by
   * `while (src.length < expected) src.push({ ...emptyTile })`.
   */
  method FitTiles(tiles: seq<Tile>, expected: nat) returns (src: seq<Tile>)
    ensures src == Fit(tiles, expected)
  {
    src := if expected <= |tiles| then tiles[..expected] else tiles;
    while |src| < expected
      invariant |src| <= expected
      invariant src == Fit(tiles, |src|)
      decreases expected - |src|
    {
      src := src + [EmptyTile];
    }
  }

  /** The import test: both dimensions present and positive, and `tiles` an array. */
  predicate Accepts(p: Payload) {
    p.rows.Some? && p.rows.value > 0 && p.cols.Some? && p.cols.value > 0 && p.tiles.Some?
  }

  /** The board an import installs, or `None` when the payload is refused and nothing changes. */
  function Imported(p: Payload): (r: Option<Snapshot>)
    ensures r.Some? <==> Accepts(p)
    ensures r.Some? ==> Consistent(r.value) && r.value.rows == p.rows.value && r.value.cols == p.cols.value
    ensures r.Some? ==> r.value.tiles == Fit(p.tiles.value, p.rows.value * p.cols.value)
  {
    if Accepts(p) then
      var expected := p.rows.value * p.cols.value;
      Some(Snapshot(p.rows.value, p.cols.value, Fit(p.tiles.value, expected)))
    else None
  }

  /** Importing the export of a consistent board reproduces it. */
  lemma ImportExport(s: Snapshot)
    requires Consistent(s)
    ensures Imported(Exported(s)) == Some(s)
  {
    FitExact(s.tiles);
  }

  /** A 3x3 payload with an empty tile list is padded to nine empty tiles. */
  lemma ImportPadsEmpty()
    ensures Imported(Payload(Some(3), Some(3), Some([]))) == Some(Snapshot(3, 3, EmptyTiles(9)))
  {
    assert Fit([], 9) == EmptyTiles(9);
  }

  // ---------------------------------------------------------------------
  // Import as written
  // ---------------------------------------------------------------------

  /** `!data.rows || !data.cols || !Array.isArray(data.tiles)` as written: only 0 or a missing field is refused. */
  predicate AcceptsAsWritten(p: Payload): (b: bool)
    ensures b ==> p.rows.Some? && p.cols.Some? && p.tiles.Some?
    ensures Accepts(p) ==> b
    ensures p.rows.Some? && p.rows.value < 0 && p.cols.Some? && p.cols.value != 0 && p.tiles.Some? ==> b && !Accepts(p)
  {
    p.rows.Some? && p.rows.value != 0 && p.cols.Some? && p.cols.value != 0 && p.tiles.Some?
  }

  /**
   * `Array.prototype.slice(0, end)`: a negative `end` counts from the end of
   * the array.
   */
  function JsSlice(s: seq<Tile>, end: int): (r: seq<Tile>)
    ensures r <= s
    ensures |r| == if end < 0 then Max(0, |s| + end) else if end <= |s| then end else |s|
  {
    if end < 0 then (if |s| + end <= 0 then [] else s[..|s| + end])
    else if end <= |s| then s[..end] else s
  }

  /** The pad loop as written: it stops at once when `expected` is negative. */
  function PadAsWritten(src: seq<Tile>, expected: int): seq<Tile> {
    if |src| < expected then src + EmptyTiles(expected - |src|) else src
  }

  /** `importJSON` as written, including payloads with a negative dimension. */
  function ImportedAsWritten(p: Payload): (r: Option<Snapshot>)
    ensures r.Some? <==> AcceptsAsWritten(p)
  {
    if AcceptsAsWritten(p) then
      var expected := p.rows.value * p.cols.value;
      Some(Snapshot(p.rows.value, p.cols.value, PadAsWritten(JsSlice(p.tiles.value, expected), expected)))
    else None
  }

  /**
   * With `rows: -1` the written test lets the payload through and installs a
   * board with a negative row count, which the corrected test refuses.
   */
  lemma NegativeRowsAccepted()
    ensures var p := Payload(Some(-1), Some(2), Some([EmptyTile]));
      ImportedAsWritten(p) == Some(Snapshot(-1, 2, [])) && !Consistent(ImportedAsWritten(p).value) && Imported(p) == None
  {
    var p := Payload(Some(-1), Some(2), Some([EmptyTile]));
    assert JsSlice([EmptyTile], -2) == [];
  }

  /** Wherever the written test and the corrected one both accept, they install the same board. */
  lemma ImportAgreesOnPositive(p: Payload)
    requires Accepts(p)
    ensures ImportedAsWritten(p) == Imported(p)
  {
    var expected := p.rows.value * p.cols.value;
    assert expected >= 0;
    var src := JsSlice(p.tiles.value, expected);
    assert PadAsWritten(src, expected) == Fit(p.tiles.value, expected);
  }
}
