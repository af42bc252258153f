/** The text terminal: a flat grid of cells, a cursor and the scrollback above it. */
module Terminal {
  import opened Words
  import opened Ring
  import opened Grid
  import opened TerminalSpec
  import opened Scrollback

  /** Pushing one more line. */
  lemma {:induction false} PushAllSnoc<T>(history: seq<T>, max: nat, lines: seq<T>, x: T)
    ensures PushAll(history, max, lines + [x]) == Push(PushAll(history, max, lines), max, x)
    decreases |lines|
  {
    if lines == [] {
      assert lines + [x] == [x];
      assert PushAll(Push(history, max, x), max, []) == Push(history, max, x);
    } else {
      assert (lines + [x])[1..] == lines[1..] + [x];
      PushAllSnoc(Push(history, max, lines[0]), max, lines[1..], x);
    }
  }

  lemma PushAllTake<T>(history: seq<T>, max: nat, lines: seq<T>, i: nat)
    requires i < |lines|
    ensures PushAll(history, max, lines[..i + 1]) == Push(PushAll(history, max, lines[..i]), max, lines[i])
  {
    assert lines[..i + 1] == lines[..i] + [lines[i]];
    PushAllSnoc(history, max, lines[..i], lines[i]);
  }

  lemma SliceSnoc<T>(s: seq<T>, a: nat, b: nat)
    requires a <= b < |s|
    ensures s[a..b] + [s[b]] == s[a..b + 1]
  {
  }

  /** Moves the cells from `d` on to the front. */
  method MoveFront(cells: array<Cell>, d: nat)
    requires d <= cells.Length
    modifies cells
    ensures cells[..cells.Length - d] == old(cells[d..])
  {
    ghost var before := cells[..];
    var keep := cells.Length - d;
    var i := 0;
    while i < keep
      invariant i <= keep
      invariant forall j {:trigger cells[j]} :: 0 <= j < i ==> cells[j] == before[j + d]
      invariant forall j {:trigger cells[j]} :: i <= j < cells.Length ==> cells[j] == before[j]
    {
      cells[i] := cells[i + d];
      i := i + 1;
    }
    assert cells[..keep] == before[d..];
  }

  /** Fills the cells from `from` on. */
  method FillTail(cells: array<Cell>, from: nat, blank: Cell)
    requires from <= cells.Length
    modifies cells
    ensures cells[..] == old(cells[..from]) + Repeat(blank, cells.Length - from)
  {
    var i := from;
    while i < cells.Length
      invariant from <= i <= cells.Length
      invariant cells[..from] == old(cells[..from])
      invariant forall j :: from <= j < i ==> cells[j] == blank
    {
      cells[i] := blank;
      i := i + 1;
    }
  }

  /** Moves the cells up by `d` and clears the ones at the end. */
  method ShiftCells(cells: array<Cell>, d: nat, blank: Cell)
    modifies cells
    ensures cells[..] == Shifted(old(cells[..]), d, blank)
  {
    if d > cells.Length { return; }
    MoveFront(cells, d);
    FillTail(cells, cells.Length - d, blank);
  }

  lemma WriteStep(t: Term, text: string, i: nat)
    requires Shaped(t) && CoordinatesValid(t) && i < |text|
    ensures CoordinatesValid(TerminalSpec.PutChar(t, text[i])) && Shaped(TerminalSpec.PutChar(t, text[i]))
    ensures TerminalSpec.Write(t, text[i..]) == TerminalSpec.Write(TerminalSpec.PutChar(t, text[i]), text[i + 1..])
  {
    PutCharInside(t, text[i]);
    assert text[i..][1..] == text[i + 1..];
  }

  lemma ScrollNone(t: Term)
    requires Shaped(t)
    ensures Scroll(t, 0) == t
  {
    assert t.cells[0..] + Repeat(Blank(t), 0) == t.cells;
    assert Screen(t)[..0] == [];
  }

  class TextTerminal {
    const w: nat
    const h: nat
    const buffer: array<Cell>
    const back: LineStore
    var x: int
    var y: int
    var fg: nat
    var bg: nat
    var drawLineIndex: nat

    ghost predicate Valid()
      reads this, buffer, back, back.Repr
    {
      && 0 < w <= INT_MAX && 0 < h <= INT_MAX
      && buffer.Length == h * w && back.w == w && back.Valid() && back.max % BLOCK == 0
      && buffer !in back.Repr && this !in back.Repr && back !in back.Repr
    }

    ghost function Abs(): (t: Term)
      requires Valid()
      reads this, buffer, back, back.Repr
      ensures Shaped(t)
    {
      Term(w, h, back.max, back.Lines(), buffer[..], x, y, fg, bg)
    }

    constructor (width: nat, height: nat, maxLines: nat, fore: nat, under: nat)
      requires 0 < width <= INT_MAX && 0 < height <= INT_MAX && maxLines % BLOCK == 0
      ensures Valid() && fresh(buffer) && fresh(back) && back.Repr == {}
      ensures var cells := Repeat(Cell(' ', fore, under), Area(height, width));
              Abs() == Term(width, height, maxLines, [], cells, 0, 0, fore, under)
    {
      w, h := width, height;
      buffer := new Cell[height * width](_ => Cell(' ', fore, under));
      back := new LineStore(width, maxLines);
      x, y, fg, bg, drawLineIndex := 0, 0, fore, under, 0;
      new;
      assert buffer[..] == Repeat(Cell(' ', fore, under), height * width);
    }

    method PushRow(row: nat)
      requires Valid() && row < h
      modifies back, back.Repr
      ensures Valid() && back.Lines() == Push(old(back.Lines()), back.max, Screen(old(Abs()))[row])
      ensures fresh(back.Repr - old(back.Repr))
    {
      RowFits(w, row, h);
      var line := buffer[row * w..row * w + w];
      assert line == Screen(Abs())[row];
      var _ := back.PushLine(line);
    }

    /** Saves the top rows to the history before they are overwritten. */
    method PushTopRows(rows: nat)
      requires Valid() && rows <= h
      modifies back, back.Repr
      ensures Valid() && back.Lines() == PushAll(old(back.Lines()), back.max, Screen(old(Abs()))[..rows])
      ensures fresh(back.Repr - old(back.Repr))
    {
      ghost var screen, history := Screen(Abs()), back.Lines();
      var i := 0;
      while i < rows
        invariant i <= rows && Valid()
        invariant fresh(back.Repr - old(back.Repr))
        invariant back.Lines() == PushAll(history, back.max, screen[..i])
      {
        PushAllTake(history, back.max, screen, i);
        PushRow(i);
        i := i + 1;
      }
    }

    /** Scrolls the content up: the top rows go to the history and blank rows appear below. */
    method ScrollContent(up: nat)
      requires Valid()
      modifies buffer, back, back.Repr
      ensures Valid() && Abs() == Scroll(old(Abs()), up)
      ensures fresh(back.Repr - old(back.Repr))
    {
      if up == 0 {
        ScrollNone(Abs());
        return;
      }
      var k := if up > h then h else up;
      PushTopRows(k);
      ShiftCells(buffer, Area(k, w), Cell(' ', fg, bg));
    }

    /** Writes a cell inside the grid; characters that cannot be shown become blanks. */
    method SetChar(col: nat, row: nat, c: char)
      requires Valid()
      modifies buffer
      ensures Valid() && buffer[..] == SetCell(old(buffer[..]), w, h, col, row, Cell(Shown(c), fg, bg))
    {
      if col >= w || row >= h { return; }
      CellIndex(w, h, col, row);
      var shown := c;
      if !Printable(c) && c != '\n' && c != '\r' && c != '\t' { shown := ' '; }
      buffer[row * w + col] := Cell(shown, fg, bg);
    }

    /** Writes blanks up to the next tab stop. */
    method Tab(col: nat, row: nat)
      requires Valid() && col <= INT_MAX
      modifies buffer
      ensures Valid()
      ensures buffer[..] == SetCells(old(buffer[..]), w, h, col, row, Cell(' ', fg, bg), TabWidth(col))
    {
      var tab := 4 - col % 4;
      var i := 0;
      while i < tab
        invariant i <= tab && Valid()
        invariant buffer[..] == SetCells(old(buffer[..]), w, h, col, row, Cell(' ', fg, bg), i)
      {
        BeyondLimit(buffer[..], w, h, col, i, row, Cell(' ', fg, bg));
        SetChar(ToSize(Add32(col, i)), row, ' ');
        i := i + 1;
      }
    }

    /** Draws the character and steps the cursor, which may leave the grid. */
    method Type(c: char) returns (curx: int, cury: int)
      requires Valid() && CoordinatesValid(Abs())
      modifies buffer
      ensures Valid() && buffer[..] == Drawn(old(Abs()), c) && (curx, cury) == Moved(w, x, y, c)
    {
      curx, cury := x, y;
      if c == '\n' {
        curx := 0;
        cury := Add32(cury, 1);
      } else if c == '\r' {
        curx := 0;
      } else if c == '\t' {
        if curx < 0 { curx := 0; }
        Tab(curx, ToSize(cury));
        curx := Add32(curx, 4 - curx % 4);
      } else if c == BACKSPACE {
        if curx > 0 {
          curx := curx - 1;
        } else if cury > 0 {
          cury := cury - 1;
          curx := w - 1;
        }
        if curx < 0 { curx := 0; }
        if cury < 0 { cury := 0; }
        SetChar(curx, cury, ' ');
      } else {
        SetChar(ToSize(curx), ToSize(cury), c);
        curx := Add32(curx, 1);
      }
    }

    /** Writes one character: the cursor ends inside the grid wherever it was. */
    method PutChar(c: char)
      requires Valid() && CoordinatesValid(Abs())
      modifies this`x, this`y, buffer, back, back.Repr
      ensures Valid() && Abs() == TerminalSpec.PutChar(old(Abs()), c) && CursorInside(Abs())
      ensures fresh(back.Repr - old(back.Repr))
    {
      PutCharInside(Abs(), c);
      var curx, cury := Type(c);
      Place(curx, cury);
    }

    /** Puts the cursor at a position, wrapping at the edge and scrolling at the bottom. */
    method Place(col: int, row: int)
      requires Valid() && Int32(col) && Int32(row)
      modifies this`x, this`y, buffer, back, back.Repr
      ensures Valid() && Abs() == Placed(old(Abs()), col, row)
      ensures fresh(back.Repr - old(back.Repr))
    {
      x, y := col, row;
      if ToSize(col) >= w {
        x := 0;
        y := Add32(row, 1);
      }
      if ToSize(y) >= h { NewLine(); }
    }

    /** Scrolls by one line and puts the cursor on the last. */
    method NewLine()
      requires Valid()
      modifies this`y, buffer, back, back.Repr
      ensures Valid() && Abs() == Scroll(old(Abs()), 1).(y := h - 1)
      ensures fresh(back.Repr - old(back.Repr))
    {
      ScrollContent(1);
      y := h - 1;
    }

    method Write(text: string)
      requires Valid() && CoordinatesValid(Abs())
      modifies this`x, this`y, buffer, back, back.Repr
      ensures Valid() && Abs() == TerminalSpec.Write(old(Abs()), text)
    {
      var i := 0;
      assert text[0..] == text;
      while i < |text|
        invariant i <= |text| && Valid() && CoordinatesValid(Abs())
        invariant fresh(back.Repr - old(back.Repr))
        invariant TerminalSpec.Write(Abs(), text[i..]) == TerminalSpec.Write(old(Abs()), text)
      {
        WriteStep(Abs(), text, i);
        PutChar(text[i]);
        i := i + 1;
      }
    }

    /** Moves the viewport into the history or back towards the live end. */
    method ScrollView(lines: int)
      requires Valid() && lines > -0x8000_0000
      modifies this`drawLineIndex
      ensures Valid() && drawLineIndex == ViewAfter(old(drawLineIndex), back.count, lines)
    {
      if lines == 0 { return; }
      var maxOffset := back.count;
      if lines < 0 {
        var newIndex := drawLineIndex + -lines;
        if newIndex > maxOffset { newIndex := maxOffset; }
        drawLineIndex := newIndex;
      } else {
        if drawLineIndex > lines { drawLineIndex := drawLineIndex - lines; } else { drawLineIndex := 0; }
      }
    }

    /** A line counted from the oldest of the history down to the last of the screen. */
    method LogicalLine(i: nat) returns (line: Line)
      requires Valid() && i < back.count + h
      ensures line == Logical(Abs(), i)
    {
      if i < back.count {
        line := back.LineAt(i);
      } else {
        var row := i - back.count;
        RowFits(w, row, h);
        var at := Area(row, w);
        line := buffer[at..at + w];
        assert line == Screen(Abs())[row];
      }
    }

    /** The lines drawn: a contiguous window of the history and the screen. */
    method Redraw() returns (shown: seq<Line>)
      requires Valid()
      modifies this`drawLineIndex
      ensures Valid() && drawLineIndex == Clip(old(drawLineIndex), back.count)
      ensures shown == Window(Abs(), drawLineIndex)
    {
      var total := back.count + h;
      var maxOffset := if total > h then total - h else 0;
      if drawLineIndex > maxOffset { drawLineIndex := maxOffset; }
      var startLine := if total > h then total - h - drawLineIndex else 0;
      shown := ShowFrom(startLine);
    }

    method ShowFrom(startLine: nat) returns (shown: seq<Line>)
      requires Valid() && startLine <= back.count
      ensures shown == WindowFrom(Abs(), startLine)
    {
      ghost var t := Abs();
      ghost var lines := t.history + Screen(t);
      shown := [];
      var row := 0;
      while row < h
        invariant row <= h && shown == lines[startLine..startLine + row]
      {
        var line := LogicalLine(startLine + row);
        SliceSnoc(lines, startLine, startLine + row);
        shown := shown + [line];
        row := row + 1;
      }
    }
  }
}
