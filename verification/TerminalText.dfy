/**
 Writing plain text: the history and the screen together are the text written so far, in order and
 without a gap, except for whole lines dropped from its start.
 */
module TerminalText {
  import opened Words
  import opened Arithmetic
  import opened Ring
  import opened Grid
  import opened TerminalSpec

  function Transcript(t: Term): seq<Cell> { Join(t.history) + t.cells }

  function Padded(text: seq<Cell>, blank: Cell, n: nat): seq<Cell> { text + Repeat(blank, n) }

  /** The cells from the cursor to the end of the screen. */
  function Room(t: Term): (n: int)
    requires CursorInside(t)
  {
    (t.h - t.y) * t.w - t.x
  }

  lemma RoomPositive(t: Term)
    requires CursorInside(t)
    ensures Room(t) > 0
  {
    MulMono(1, t.h - t.y, t.w);
  }

  /** The terminal holds `text` followed by blanks, less the first `d` lines; the cursor is at its end. */
  ghost predicate Shows(t: Term, text: seq<Cell>, d: nat) {
    && Shaped(t) && CoordinatesValid(t) && CursorInside(t)
    && |text| == (d + |t.history| + t.y) * t.w + t.x
    && Room(t) > 0 && Area(d, t.w) <= |text|
    && Transcript(t) == Padded(text, Blank(t), Room(t))[Area(d, t.w)..]
  }

  lemma PadStep(text: seq<Cell>, blank: Cell, n: nat, cell: Cell, off: nat)
    requires n > 0 && off <= |text|
    ensures Padded(text, blank, n)[off..][|text| - off := cell] == Padded(text + [cell], blank, n - 1)[off..]
  {
  }

  lemma PadMore(text: seq<Cell>, blank: Cell, n: nat, m: nat, off: nat)
    requires off <= |text|
    ensures Padded(text, blank, n)[off..] + Repeat(blank, m) == Padded(text, blank, n + m)[off..]
  {
  }

  lemma PadDrop(text: seq<Cell>, blank: Cell, n: nat, off: nat, w: nat)
    requires off + w <= |text| + n
    ensures Padded(text, blank, n)[off..][w..] == Padded(text, blank, n)[off + w..]
  {
  }

  /** The cursor's cell in the transcript. */
  lemma CursorAt(t: Term, text: seq<Cell>, d: nat)
    requires Shows(t, text, d)
    ensures |Join(t.history)| == |t.history| * t.w
    ensures |Join(t.history)| + t.y * t.w + t.x == |text| - Area(d, t.w)
    ensures t.y * t.w + t.x < |t.cells|
  {
    JoinLength(t.history, t.w);
    assert (d + |t.history| + t.y) * t.w == Area(d, t.w) + |t.history| * t.w + t.y * t.w;
    CellIndex(t.w, t.h, t.x, t.y);
  }

  lemma UpdateRight<T>(a: seq<T>, b: seq<T>, i: nat, x: T)
    requires i < |b|
    ensures a + b[i := x] == (a + b)[|a| + i := x]
  {
  }

  lemma DrawnPlain(t: Term, c: char)
    requires Shaped(t) && CoordinatesValid(t) && CursorInside(t) && Printable(c)
    ensures 0 <= t.y * t.w + t.x < |t.cells|
    ensures Drawn(t, c) == t.cells[t.y * t.w + t.x := Cell(c, t.fg, t.bg)]
  {
    CellIndex(t.w, t.h, t.x, t.y);
  }

  /** Drawing a printable character at the cursor adds it to the text. */
  lemma DrawText(t: Term, text: seq<Cell>, d: nat, c: char)
    requires Shows(t, text, d) && Printable(c)
    ensures Join(t.history) + Drawn(t, c)
         == Padded(text + [Cell(c, t.fg, t.bg)], Blank(t), Room(t) - 1)[Area(d, t.w)..]
  {
    CursorAt(t, text, d);
    DrawnPlain(t, c);
    DrawSequence(Join(t.history), t.cells, text, Blank(t), Room(t), Area(d, t.w), t.y * t.w + t.x, Cell(c, t.fg, t.bg));
  }

  lemma DrawSequence(above: seq<Cell>, cells: seq<Cell>, text: seq<Cell>, blank: Cell, n: nat, off: nat, i: nat, cell: Cell)
    requires off <= |text| && n > 0 && i < |cells| && |above| + i == |text| - off
    requires above + cells == Padded(text, blank, n)[off..]
    ensures above + cells[i := cell] == Padded(text + [cell], blank, n - 1)[off..]
  {
    UpdateRight(above, cells, i, cell);
    PadStep(text, blank, n, cell, off);
  }

  /** Moving the top row from the screen to the history leaves the text as it is. */
  lemma ScrollText(history: seq<Line>, cells: seq<Cell>, w: nat, blank: Cell)
    requires w <= |cells|
    ensures Join(history + [cells[..w]]) + (cells[w..] + Repeat(blank, w)) == Join(history) + cells + Repeat(blank, w)
  {
    JoinAppend(history, cells[..w]);
    assert cells == cells[..w] + cells[w..];
  }

  /** Dropping the oldest line drops the first cells of the text. */
  lemma DropText(history: seq<Line>, rest: seq<Cell>, w: nat)
    requires history != [] && |history[0]| == w
    ensures Join(history[1..]) + rest == (Join(history) + rest)[w..]
  {
    assert Join(history) == history[0] + Join(history[1..]);
  }

  function DroppedBy(t: Term): nat { if t.max > 0 && |t.history| >= t.max then 1 else 0 }

  /** A scroll by one, on the text: a blank line is added and at most one line dropped. */
  lemma ScrollTranscript(t: Term)
    requires Shaped(t) && t.h > 0 && t.w > 0
    ensures Area(DroppedBy(t), t.w) <= |Transcript(t)| + t.w
    ensures Transcript(Scroll(t, 1)) == (Transcript(t) + Repeat(Blank(t), t.w))[Area(DroppedBy(t), t.w)..]
    ensures |Scroll(t, 1).history| == |t.history| + 1 - DroppedBy(t)
  {
    MulMono(1, t.h, t.w);
    ScrollParts(t, 1);
    var row := t.cells[..t.w];
    TopRow(t);
    ScrollText(t.history, t.cells, t.w, Blank(t));
    if DroppedBy(t) == 1 {
      var longer := t.history + [row];
      DropText(longer, t.cells[t.w..] + Repeat(Blank(t), t.w), t.w);
    }
  }

  lemma TopRow(t: Term)
    requires Shaped(t) && t.h > 0 && t.w > 0 && t.w <= |t.cells|
    ensures Screen(t)[..1] == [t.cells[..t.w]]
    ensures Scroll(t, 1).cells == t.cells[t.w..] + Repeat(Blank(t), t.w)
  {
    assert Screen(t)[0] == RowAt(t.cells, t.w, 0);
  }

  /** The cursor after a printable character written inside the grid. */
  lemma PlainCursor(t: Term, c: char)
    requires Shaped(t) && CoordinatesValid(t) && CursorInside(t) && Printable(c)
    ensures var at := if t.x + 1 < t.w then (t.x + 1, t.y) else (0, t.y + 1);
            var drawn := t.(cells := Drawn(t, c), x := at.0, y := at.1);
            PutChar(t, c) == if at.1 < t.h then drawn else Scroll(drawn, 1).(y := t.h - 1)
  {
  }

  lemma PlainStep(t: Term, text: seq<Cell>, d: nat, c: char) returns (d': nat)
    requires Shows(t, text, d) && Printable(c)
    ensures Shows(PutChar(t, c), text + [Cell(c, t.fg, t.bg)], d')
  {
    var next := text + [Cell(c, t.fg, t.bg)];
    PutCharInside(t, c);
    RoomPositive(PutChar(t, c));
    DrawText(t, text, d, c);
    PlainCursor(t, c);
    d' := d;
    if t.x + 1 < t.w {
    } else if t.y + 1 < t.h {
      NextLine(t, d);
    } else {
      d' := PlainScroll(t, text, d, c);
    }
  }

  lemma NextLine(t: Term, d: nat)
    requires CursorInside(t) && t.x + 1 == t.w
    ensures (d + |t.history| + t.y) * t.w + t.x + 1 == (d + |t.history| + t.y + 1) * t.w
    ensures Room(t) - 1 == (t.h - (t.y + 1)) * t.w
  {
    assert (d + |t.history| + t.y + 1) * t.w == (d + |t.history| + t.y) * t.w + t.w;
    assert (t.h - t.y) * t.w == (t.h - (t.y + 1)) * t.w + t.w;
  }

  lemma ScrolledText(u: Term, text: seq<Cell>, d: nat)
    requires Shaped(u) && u.w > 0 && u.h > 0
    requires Area(d, u.w) <= |text| && Transcript(u) == text[Area(d, u.w)..]
    requires Area(d + DroppedBy(u), u.w) <= |text|
    ensures Transcript(Scroll(u, 1)) == Padded(text, Blank(u), u.w)[Area(d + DroppedBy(u), u.w)..]
  {
    ScrollTranscript(u);
    var k, off := DroppedBy(u), Area(d, u.w);
    DropSum(d, k, u.w, 1);
    assert text == Padded(text, Blank(u), 0);
    PadMore(text, Blank(u), 0, u.w, off);
    PadDrop(text, Blank(u), u.w, off, Area(k, u.w));
  }

  /** Below the last line a scroll makes the room for the next. */
  lemma ScrollShows(u: Term, text: seq<Cell>, d: nat)
    requires Shaped(u) && CoordinatesValid(u) && u.x == 0 && u.y == u.h
    requires |text| == (d + |u.history| + u.h) * u.w && Area(d, u.w) <= |text|
    requires Transcript(u) == text[Area(d, u.w)..]
    ensures Shows(Scroll(u, 1).(y := u.h - 1), text, d + DroppedBy(u))
  {
    ScrollParts(u, 1);
    ScrollTranscript(u);
    DropSum(d, DroppedBy(u), u.w, |u.history| + u.h);
    ScrolledText(u, text, d);
    LastLine(Scroll(u, 1).(y := u.h - 1), text, d + DroppedBy(u), |u.history| + u.h + d);
  }

  lemma LastLine(r: Term, text: seq<Cell>, d: nat, rows: nat)
    requires Shaped(r) && CoordinatesValid(r) && r.x == 0 && r.y == r.h - 1
    requires |text| == rows * r.w && d + |r.history| + r.h - 1 == rows && Area(d, r.w) <= |text|
    requires Transcript(r) == Padded(text, Blank(r), r.w)[Area(d, r.w)..]
    ensures Shows(r, text, d)
  {
    assert Room(r) == r.w by { assert r.h - r.y == 1; }
  }

  lemma DropSum(d: nat, k: nat, w: nat, n: nat)
    requires k <= 1 <= n
    ensures (d + k) * w == d * w + k * w && k * w <= w && (d + k) * w <= (d + n) * w
  {
    MulMono(d + k, d + n, w);
    MulMono(k, 1, w);
  }

  lemma PlainScroll(t: Term, text: seq<Cell>, d: nat, c: char) returns (d': nat)
    requires Shows(t, text, d) && Printable(c) && t.x + 1 == t.w && t.y + 1 == t.h
    ensures Shows(PutChar(t, c), text + [Cell(c, t.fg, t.bg)], d')
  {
    var next := text + [Cell(c, t.fg, t.bg)];
    var drawn := t.(cells := Drawn(t, c), x := 0, y := t.h);
    PlainCursor(t, c);
    DrawText(t, text, d, c);
    NextLine(t, d);
    assert next == Padded(next, Blank(t), 0);
    ScrollShows(drawn, next, d);
    d' := d + DroppedBy(drawn);
  }

  function CellsOf(s: string, fg: nat, bg: nat): (r: seq<Cell>)
    ensures |r| == |s|
  {
    seq(|s|, i requires 0 <= i < |s| => Cell(s[i], fg, bg))
  }

  /** Every plain text, of any length and from any point of a text: nothing but whole oldest lines is lost. */
  lemma {:induction false} PlainText(t: Term, text: seq<Cell>, d: nat, s: string) returns (d': nat)
    requires Shows(t, text, d) && forall i :: 0 <= i < |s| ==> Printable(s[i])
    ensures Shows(Write(t, s), text + CellsOf(s, t.fg, t.bg), d')
    decreases |s|
  {
    if s == "" {
      assert text + CellsOf(s, t.fg, t.bg) == text;
      d' := d;
    } else {
      var d1 := PlainStep(t, text, d, s[0]);
      PutCharInside(t, s[0]);
      var cell := Cell(s[0], t.fg, t.bg);
      d' := PlainText(PutChar(t, s[0]), text + [cell], d1, s[1..]);
      assert text + [cell] + CellsOf(s[1..], t.fg, t.bg) == text + CellsOf(s, t.fg, t.bg);
    }
  }

  /** A blank terminal with the cursor at its first cell holds the empty text. */
  lemma BlankShows(w: nat, h: nat, max: nat, fg: nat, bg: nat)
    requires 0 < w <= INT_MAX && 0 < h <= INT_MAX
    ensures Shows(Term(w, h, max, [], Repeat(Cell(' ', fg, bg), h * w), 0, 0, fg, bg), [], 0)
  {
    var t := Term(w, h, max, [], Repeat(Cell(' ', fg, bg), h * w), 0, 0, fg, bg);
    RoomPositive(t);
  }
}
