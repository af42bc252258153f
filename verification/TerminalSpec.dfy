/** What a text terminal does with the characters written to it. */
module TerminalSpec {
  import opened Words
  import opened Arithmetic
  import opened Ring
  import opened Grid

  const BACKSPACE: char := '\U{08}'

  datatype Cell = Cell(ch: char, fg: nat, bg: nat)

  type Line = seq<Cell>

  /** A terminal: the history above the screen, the flat screen buffer and the cursor. */
  datatype Term = Term(w: nat, h: nat, max: nat, history: seq<Line>, cells: seq<Cell>, x: int, y: int, fg: nat, bg: nat)

  predicate Shaped(t: Term) {
    && |t.cells| == t.h * t.w
    && (forall i :: 0 <= i < |t.history| ==> |t.history[i]| == t.w)
    && (t.max > 0 ==> |t.history| <= t.max)
  }

  function Screen(t: Term): seq<Line> { Rows(t.cells, t.w, t.h) }

  function Blank(t: Term): Cell { Cell(' ', t.fg, t.bg) }

  // ----- scrolling the content -----

  function Scroll(t: Term, up: nat): Term
    requires Shaped(t)
  {
    var k := if up > t.h then t.h else up;
    t.(history := PushAll(t.history, t.max, Screen(t)[..k]), cells := Shifted(t.cells, Area(k, t.w), Blank(t)))
  }

  /** The cells moved to the front by `d`, and blanks behind them. */
  function Shifted(cells: seq<Cell>, d: nat, blank: Cell): seq<Cell> {
    if d <= |cells| then cells[d..] + Repeat(blank, d) else cells
  }

  lemma ScrollParts(t: Term, up: nat)
    requires Shaped(t) && up <= t.h
    ensures Scroll(t, up).history == Newest(t.history + Screen(t)[..up], t.max)
    ensures Screen(Scroll(t, up)) == Screen(t)[up..] + Repeat(Repeat(Blank(t), t.w), up)
    ensures Shaped(Scroll(t, up))
  {
    PushAllIsNewest(t.history, t.max, Screen(t)[..up]);
    RowsScroll(t.cells, t.w, t.h, up, Blank(t));
    RowWidths(t);
    NewestWidths(t.history + Screen(t)[..up], t.max, t.w);
  }

  lemma RowWidths(t: Term)
    requires Shaped(t)
    ensures forall y :: 0 <= y < t.h ==> |Screen(t)[y]| == t.w
  {
    forall y | 0 <= y < t.h ensures |Screen(t)[y]| == t.w { RowFits(t.w, y, t.h); }
  }

  lemma NewestWidths(lines: seq<Line>, max: nat, w: nat)
    requires forall i :: 0 <= i < |lines| ==> |lines[i]| == w
    ensures forall i :: 0 <= i < |Newest(lines, max)| ==> |Newest(lines, max)[i]| == w
  {
  }

  /**
   Scrolling by `up` turns history and screen into history, screen and `up` blank rows; only the oldest
   lines beyond the maximum are dropped.
   */
  lemma ScrollKeepsText(t: Term, up: nat)
    requires Shaped(t) && up <= t.h
    ensures |Scroll(t, up).history| <= |t.history| + up
    ensures t.max == 0 || |t.history| + up <= t.max ==> |Scroll(t, up).history| == |t.history| + up
    ensures Scroll(t, up).history + Screen(Scroll(t, up))
         == (t.history + Screen(t) + Repeat(Repeat(Blank(t), t.w), up))[|t.history| + up - |Scroll(t, up).history|..]
  {
    ScrollParts(t, up);
    var screen, blanks := Screen(t), Repeat(Repeat(Blank(t), t.w), up);
    NewestSuffix(t.history, screen, blanks, up, t.max);
  }

  lemma NewestSuffix<T>(history: seq<T>, screen: seq<T>, blanks: seq<T>, k: nat, max: nat)
    requires k <= |screen|
    ensures var kept := Newest(history + screen[..k], max);
            && |kept| <= |history| + k
            && kept + (screen[k..] + blanks) == (history + screen + blanks)[|history| + k - |kept|..]
  {
    var text := history + screen[..k];
    assert history + screen + blanks == text + (screen[k..] + blanks);
  }

  // ----- one character -----

  /** The sum of two 32-bit numbers, reduced to 32 bits. */
  function Add32(i: int, d: nat): (r: int)
    requires Int32(i) && d <= INT_MAX
    ensures Int32(r)
  {
    if i + d <= INT_MAX then i + d else i + d - 0x1_0000_0000
  }

  /** A 32-bit coordinate as the machine's unsigned word. */
  function ToSize(i: int): nat
    requires Int32(i)
  {
    if i < 0 then i + WORD else i
  }

  predicate Printable(c: char) { ' ' <= c <= '~' }

  function Shown(c: char): char { if Printable(c) || c == '\n' || c == '\r' || c == '\t' then c else ' ' }

  lemma CellIndex(w: nat, h: nat, x: nat, y: nat)
    requires x < w && y < h
    ensures y * w + x < h * w
  {
    MulGap(y, h, w);
  }

  /** Writing one cell of a grid, or nothing outside it. */
  function SetCell(cells: seq<Cell>, w: nat, h: nat, x: nat, y: nat, cell: Cell): (r: seq<Cell>)
    requires |cells| == h * w
    ensures |r| == |cells|
  {
    if x >= w || y >= h then cells else
      CellIndex(w, h, x, y);
      cells[y * w + x := cell]
  }

  /** A column beyond the 32-bit limit is outside the grid, and so is what it wraps to. */
  lemma BeyondLimit(cells: seq<Cell>, w: nat, h: nat, x: nat, d: nat, y: nat, cell: Cell)
    requires |cells| == h * w && w <= INT_MAX && x <= INT_MAX && d <= INT_MAX
    ensures SetCell(cells, w, h, ToSize(Add32(x, d)), y, cell) == SetCell(cells, w, h, x + d, y, cell)
  {
  }

  /** Writing a cell `n` times to the right of `x`. */
  function SetCells(cells: seq<Cell>, w: nat, h: nat, x: nat, y: nat, cell: Cell, n: nat): (r: seq<Cell>)
    requires |cells| == h * w
    ensures |r| == |cells|
    decreases n
  {
    if n == 0 then cells else SetCell(SetCells(cells, w, h, x, y, cell, n - 1), w, h, x + n - 1, y, cell)
  }

  /** The grid is not empty, and its size and the cursor are 32-bit numbers. */
  predicate CoordinatesValid(t: Term) { 0 < t.w <= INT_MAX && 0 < t.h <= INT_MAX && Int32(t.x) && Int32(t.y) }

  /** One step left, or to the end of the line above, and never left of or above the grid. */
  function Back(w: nat, x: int, y: int): (r: (nat, nat))
    requires w > 0
  {
    if x > 0 then (x - 1, if y < 0 then 0 else y)
    else if y > 0 then (w - 1, y - 1)
    else (0, 0)
  }

  function TabWidth(x: nat): nat { 4 - x % 4 }

  /** The cursor before it is brought back into the grid. */
  function Moved(w: nat, x: int, y: int, c: char): (r: (int, int))
    requires 0 < w <= INT_MAX && Int32(x) && Int32(y)
    ensures Int32(r.0) && Int32(r.1)
  {
    if c == '\n' then (0, Add32(y, 1))
    else if c == '\r' then (0, y)
    else if c == '\t' then (if x < 0 then (TabWidth(0), y) else (Add32(x, TabWidth(x)), y))
    else if c == BACKSPACE then Back(w, x, y)
    else (Add32(x, 1), y)
  }

  /** The screen with the character drawn. */
  function Drawn(t: Term, c: char): (cells: seq<Cell>)
    requires Shaped(t) && CoordinatesValid(t)
    ensures |cells| == |t.cells|
  {
    if c == '\n' || c == '\r' then t.cells
    else if c == '\t' then
      var x := if t.x < 0 then 0 else t.x;
      SetCells(t.cells, t.w, t.h, x, ToSize(t.y), Blank(t), TabWidth(x))
    else if c == BACKSPACE then
      var at := Back(t.w, t.x, t.y);
      SetCell(t.cells, t.w, t.h, at.0, at.1, Blank(t))
    else SetCell(t.cells, t.w, t.h, ToSize(t.x), ToSize(t.y), Cell(Shown(c), t.fg, t.bg))
  }

  /** A cursor beyond the right edge, or left of the grid, goes to the start of the next line. */
  function Wrapped(w: nat, x: int, y: int): (r: (int, int))
    requires Int32(x) && Int32(y)
    ensures Int32(r.0) && Int32(r.1)
  {
    if ToSize(x) >= w then (0, Add32(y, 1)) else (x, y)
  }

  /** The cursor put at a position, which is first brought into the grid, scrolling if need be. */
  function Placed(t: Term, x: int, y: int): Term
    requires Shaped(t) && Int32(x) && Int32(y)
  {
    var at := Wrapped(t.w, x, y);
    var u := t.(x := at.0, y := at.1);
    if ToSize(at.1) >= t.h then Scroll(u, 1).(y := t.h - 1) else u
  }

  function PutChar(t: Term, c: char): Term
    requires Shaped(t) && CoordinatesValid(t)
  {
    var moved := Moved(t.w, t.x, t.y, c);
    Placed(t.(cells := Drawn(t, c)), moved.0, moved.1)
  }

  predicate CursorInside(t: Term) { 0 <= t.x < t.w && 0 <= t.y < t.h }

  /** Whatever the cursor was before, after a character it is inside the grid. */
  lemma PutCharInside(t: Term, c: char)
    requires Shaped(t) && CoordinatesValid(t)
    ensures CursorInside(PutChar(t, c)) && Shaped(PutChar(t, c)) && CoordinatesValid(PutChar(t, c))
    ensures var r := PutChar(t, c); r.w == t.w && r.h == t.h && r.max == t.max && r.fg == t.fg && r.bg == t.bg
  {
    var moved := Moved(t.w, t.x, t.y, c);
    var at := Wrapped(t.w, moved.0, moved.1);
    var drawn := t.(cells := Drawn(t, c), x := at.0, y := at.1);
    if ToSize(at.1) >= t.h { ScrollParts(drawn, 1); }
  }

  function Write(t: Term, text: string): (r: Term)
    requires Shaped(t) && CoordinatesValid(t)
    ensures Shaped(r) && CoordinatesValid(r)
    decreases |text|
  {
    if text == "" then t else
      PutCharInside(t, text[0]);
      Write(PutChar(t, text[0]), text[1..])
  }

  /** After every non-empty write the cursor is inside the grid and the history within its maximum. */
  lemma {:induction false} WriteInside(t: Term, text: string)
    requires Shaped(t) && CoordinatesValid(t) && (text != "" || CursorInside(t))
    ensures CursorInside(Write(t, text)) && Write(t, text).max == t.max
    ensures t.max > 0 ==> |Write(t, text).history| <= t.max
    decreases |text|
  {
    if text != "" {
      PutCharInside(t, text[0]);
      WriteInside(PutChar(t, text[0]), text[1..]);
    }
  }

  // ----- the viewport -----

  function Clip(draw: nat, count: nat): nat { if draw > count then count else draw }

  /** The lines a redraw shows: `h` consecutive lines of the history and the screen. */
  function Window(t: Term, draw: nat): seq<Line> { WindowFrom(t, |t.history| - Clip(draw, |t.history|)) }

  /** A line counted from the oldest of the history down to the last of the screen. */
  function Logical(t: Term, i: nat): Line
    requires i < |t.history| + t.h
  {
    (t.history + Screen(t))[i]
  }

  function WindowFrom(t: Term, start: nat): seq<Line>
    requires start <= |t.history|
  {
    (t.history + Screen(t))[start..start + t.h]
  }

  function ViewAfter(draw: nat, count: nat, lines: int): nat {
    if lines < 0 then Clip(draw + -lines, count) else if draw > lines then draw - lines else 0
  }

  /** Looking back by some lines and forward by the same number returns to the view exactly when the history is that long. */
  lemma ViewRoundTrip(draw: nat, count: nat, k: int)
    requires draw <= count && k >= 0
    ensures ViewAfter(ViewAfter(draw, count, -k), count, k) == draw <==> k == 0 || draw == 0 || draw + k <= count
  {
  }
}
