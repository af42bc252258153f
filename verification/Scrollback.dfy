/** The scrollback of a terminal: a ring of lines kept in blocks of flat cell memory. */
module Scrollback {
  import opened Ring
  import opened Grid
  import opened TerminalSpec

  /** The line at a ring position: the row of its block. */
  function SlotLine(contents: seq<seq<Cell>>, w: nat, j: nat): Line
    requires j < BLOCK * |contents|
  {
    RowAt(contents[j / BLOCK], w, j % BLOCK)
  }

  function Slots(contents: seq<seq<Cell>>, w: nat): (s: seq<Line>)
    ensures |s| == BLOCK * |contents| && forall j :: 0 <= j < |s| ==> s[j] == SlotLine(contents, w, j)
  {
    seq(BLOCK * |contents|, j requires 0 <= j < BLOCK * |contents| => SlotLine(contents, w, j))
  }

  predicate BlocksSized(contents: seq<seq<Cell>>, w: nat) {
    forall i :: 0 <= i < |contents| ==> |contents[i]| == BLOCK * w
  }

  lemma SlotsSized(contents: seq<seq<Cell>>, w: nat)
    requires BlocksSized(contents, w)
    ensures forall j :: 0 <= j < |Slots(contents, w)| ==> |Slots(contents, w)[j]| == w
  {
    forall j | 0 <= j < BLOCK * |contents| ensures |SlotLine(contents, w, j)| == w { RowFits(w, j % BLOCK, BLOCK); }
  }

  /** Writing a row of one block stores a line at one ring position. */
  lemma SlotsStore(contents: seq<seq<Cell>>, w: nat, r: nat, line: Line)
    requires BlocksSized(contents, w) && r < BLOCK * |contents| && |line| == w
    ensures Area(r % BLOCK, w) + w <= BLOCK * w
    ensures Slots(contents[r / BLOCK := Overwrite(contents[r / BLOCK], Area(r % BLOCK, w), line)], w)
         == Slots(contents, w)[r := line]
  {
    RowFits(w, r % BLOCK, BLOCK);
    var b := r / BLOCK;
    var next := contents[b := Overwrite(contents[b], Area(r % BLOCK, w), line)];
    forall j | 0 <= j < BLOCK * |contents| ensures SlotLine(next, w, j) == Slots(contents, w)[r := line][j] {
      RowOverwrite(contents[b], w, r % BLOCK, line, j % BLOCK);
    }
  }

  lemma SlotsAppend(contents: seq<seq<Cell>>, block: seq<Cell>, w: nat)
    ensures Slots(contents + [block], w) == Slots(contents, w) + Rows(block, w, BLOCK)
  {
    var next := contents + [block];
    forall j | 0 <= j < BLOCK * |next|
      ensures SlotLine(next, w, j) == (Slots(contents, w) + Rows(block, w, BLOCK))[j]
    {
    }
  }

  lemma HistorySized(r: Ring<Line>, w: nat)
    requires Inv(r) && forall j :: 0 <= j < |r.slots| ==> |r.slots[j]| == w
    ensures forall i :: 0 <= i < r.count ==> |History(r)[i]| == w
  {
  }

  lemma AfterStore(before: Ring<Line>, after: Ring<Line>, line: Line)
    requires Inv(before) && !NeedsBlock(before) && after == Store(before, line)
    ensures Inv(after) && after.max == before.max
    ensures before.max % BLOCK == 0 ==> History(after) == Push(History(before), before.max, line)
  {
    StoreHistory(before, line);
    if AtMax(before) { WholeBlocks(before); }
  }

  /** The position around the ring, by division as the code takes it. */
  method RingIndex(i: nat, cap: nat) returns (r: nat)
    requires i < 2 * cap
    ensures r == Around(i, cap)
  {
    AroundIsMod(i, cap);
    r := i % cap;
  }

  ghost function ContentsOf(blocks: seq<array<Cell>>): (c: seq<seq<Cell>>)
    reads blocks
    ensures |c| == |blocks| && forall i :: 0 <= i < |c| ==> c[i] == blocks[i][..]
  {
    seq(|blocks|, i requires 0 <= i < |blocks| reads blocks => blocks[i][..])
  }

  class LineStore {
    const w: nat
    const max: nat
    var blocks: seq<array<Cell>>
    var start: nat
    var count: nat
    ghost var Repr: set<object>

    ghost function Contents(): (c: seq<seq<Cell>>)
      reads this`blocks, blocks
      ensures |c| == |blocks| && forall i :: 0 <= i < |c| ==> c[i] == blocks[i][..]
    {
      ContentsOf(blocks)
    }

    ghost function Abs(): Ring<Line>
      reads this, blocks
    {
      Ring(Slots(Contents(), w), start, count, max)
    }

    /** The blocks are different buffers of the right size. */
    ghost predicate Separate()
      reads this
    {
      && (forall i :: 0 <= i < |blocks| ==> blocks[i] in Repr)
      && (forall i :: 0 <= i < |blocks| ==> blocks[i].Length == BLOCK * w)
      && (forall i, j :: 0 <= i < j < |blocks| ==> blocks[i] != blocks[j])
    }

    ghost predicate Valid()
      reads this, Repr
    {
      Separate() && Inv(Abs())
    }

    /** The stored lines, oldest first. */
    ghost function Lines(): (h: seq<Line>)
      requires Valid()
      reads this, Repr
      ensures forall i :: 0 <= i < |h| ==> |h[i]| == w
      ensures |h| == count && (max > 0 ==> |h| <= max)
    {
      SlotsSized(Contents(), w);
      HistorySized(Abs(), w);
      History(Abs())
    }

    constructor (width: nat, maxLines: nat)
      ensures Valid() && w == width && max == maxLines && Lines() == [] && Repr == {}
    {
      w, max := width, maxLines;
      blocks, start, count, Repr := [], 0, 0, {};
    }

    /** Adds a block of unspecified lines. */
    method AllocBlock() returns (ghost junk: seq<Line>)
      requires Separate()
      modifies this`blocks, this`Repr
      ensures Separate() && |blocks| == |old(blocks)| + 1 && fresh(Repr - old(Repr))
      ensures |junk| == BLOCK && Abs() == Grow(old(Abs()), junk)
    {
      var block := new Cell[BLOCK * w];
      ghost var before := Contents();
      junk := Rows(block[..], w, BLOCK);
      blocks, Repr := blocks + [block], Repr + {block};
      assert Contents() == before + [block[..]];
      SlotsAppend(before, block[..], w);
    }

    /** Writes a line into one block. */
    method WriteBlock(b: nat, at: nat, line: Line)
      requires Separate()
      requires b < |blocks| && at + |line| <= blocks[b].Length
      modifies blocks[b]
      ensures Contents() == old(Contents())[b := Overwrite(old(Contents())[b], at, line)]
    {
      CopyInto(blocks[b], at, line);
      forall j | 0 <= j < |blocks| && j != b ensures blocks[j][..] == old(blocks[j][..]) {
        assert blocks[j] != blocks[b];
      }
    }

    /** Stores a line at a ring position. */
    method StoreLine(index: nat, line: Line)
      requires Separate()
      requires index < BLOCK * |blocks| && |line| == w
      modifies blocks
      ensures Abs() == old(Abs()).(slots := old(Abs()).slots[index := line])
    {
      SlotsStore(Contents(), w, index, line);
      WriteBlock(index / BLOCK, Area(index % BLOCK, w), line);
    }

    /** Room for one more line, if the ring has none. */
    method MakeRoom() returns (ghost junk: seq<Line>)
      requires Valid() && NeedsBlock(Abs())
      modifies this`blocks, this`Repr
      ensures Valid() && !NeedsBlock(Abs()) && Lines() == old(Lines())
      ensures |junk| == BLOCK && Abs() == Grow(old(Abs()), junk)
      ensures |blocks| > 0 && fresh(Repr - old(Repr))
    {
      ghost var before := Abs();
      junk := AllocBlock();
      GrowKeeps(before, junk);
    }

    /**
     Adds a line, for any maximum: the push of the ring, with what a new block held. When the maximum
     fills whole blocks the stored lines become the newest of all lines pushed.
     */
    method PushLine(line: Line) returns (ghost junk: seq<Line>)
      requires Valid() && |line| == w
      modifies this, Repr
      ensures Valid() && |junk| == BLOCK && Abs() == Pushed(old(Abs()), line, junk)
      ensures max % BLOCK == 0 ==> Lines() == Push(old(Lines()), max, line)
      ensures fresh(Repr - old(Repr))
    {
      junk := seq(BLOCK, _ => line);
      if |blocks| * BLOCK == 0 { junk := MakeRoom(); }
      if count >= |blocks| * BLOCK && !(max > 0 && count >= max) { junk := MakeRoom(); }
      ghost var before := Abs();
      if max > 0 && count >= max {
        ReplaceOldest(line);
      } else {
        Append(line);
      }
      AfterStore(before, Abs(), line);
    }

    /** At the maximum the oldest line is overwritten. */
    method ReplaceOldest(line: Line)
      requires Valid() && |line| == w && !NeedsBlock(Abs()) && AtMax(Abs())
      modifies this`start, blocks
      ensures Abs() == Store(old(Abs()), line)
    {
      var next := RingIndex(start + 1, |blocks| * BLOCK);
      StoreLine(start, line);
      start := next;
    }

    /** Below the maximum the line goes after the newest. */
    method Append(line: Line)
      requires Valid() && |line| == w && !NeedsBlock(Abs()) && !AtMax(Abs())
      modifies this`count, blocks
      ensures Abs() == Store(old(Abs()), line)
    {
      var index := RingIndex(start + count, |blocks| * BLOCK);
      StoreLine(index, line);
      count := count + 1;
    }

    /** The line a given number after the oldest. */
    method LineAt(i: nat) returns (line: Line)
      requires Valid() && i < count
      ensures line == Lines()[i]
    {
      var index := RingIndex(start + i, |blocks| * BLOCK);
      RowFits(w, index % BLOCK, BLOCK);
      var at := Area(index % BLOCK, w);
      line := blocks[index / BLOCK][at..at + w];
      assert line == SlotLine(Contents(), w, index);
    }
  }
}
