/** A flat cell buffer read as rows of a fixed width. */
module Grid {
  import opened Arithmetic

  /** The number of cells of `n` rows. */
  function Area(n: nat, w: nat): nat { n * w }

  function RowAt<T>(cells: seq<T>, w: nat, y: nat): seq<T> {
    if y * w + w <= |cells| then cells[y * w..y * w + w] else []
  }

  function Rows<T>(cells: seq<T>, w: nat, n: nat): (rows: seq<seq<T>>)
    ensures |rows| == n && forall y :: 0 <= y < n ==> rows[y] == RowAt(cells, w, y)
  {
    seq(n, y requires 0 <= y < n => RowAt(cells, w, y))
  }

  function Overwrite<T>(cells: seq<T>, at: nat, line: seq<T>): (r: seq<T>)
    requires at + |line| <= |cells|
    ensures |r| == |cells|
  {
    cells[..at] + line + cells[at + |line|..]
  }

  /** Copies a stretch into a buffer. */
  method CopyInto<T>(target: array<T>, at: nat, data: seq<T>)
    requires at + |data| <= target.Length
    modifies target
    ensures target[..] == Overwrite(old(target[..]), at, data)
  {
    var i := 0;
    while i < |data|
      invariant i <= |data|
      invariant forall j :: 0 <= j < target.Length ==>
        target[j] == if at <= j < at + i then data[j - at] else old(target[j])
    {
      target[at + i] := data[i];
      i := i + 1;
    }
  }

  /** A row lies inside a buffer of at least that many rows. */
  lemma RowFits(w: nat, y: nat, n: nat)
    requires y < n
    ensures y * w + w <= n * w
  {
    MulGap(y, n, w);
  }

  /** Two different rows do not overlap. */
  lemma RowsApart(w: nat, y: nat, z: nat)
    requires y != z
    ensures y * w + w <= z * w || z * w + w <= y * w
  {
    if y < z { MulGap(y, z, w); } else { MulGap(z, y, w); }
  }

  /** Overwriting a row changes that row and no other. */
  lemma RowOverwrite<T>(cells: seq<T>, w: nat, y: nat, line: seq<T>, z: nat)
    requires |line| == w && y * w + w <= |cells|
    ensures RowAt(Overwrite(cells, y * w, line), w, z) == if z == y then line else RowAt(cells, w, z)
  {
    if z != y { RowsApart(w, y, z); }
    var a, b := y * w, z * w;
    if b + w <= |cells| { SliceOverwrite(cells, a, line, b, w); }
  }

  lemma SliceOverwrite<T>(cells: seq<T>, a: nat, line: seq<T>, b: nat, w: nat)
    requires |line| == w && a + w <= |cells| && b + w <= |cells|
    requires a == b || a + w <= b || b + w <= a
    ensures Overwrite(cells, a, line)[b..b + w] == if a == b then line else cells[b..b + w]
  {
  }

  /** Dropping the first `k` rows. */
  lemma RowsDrop<T>(cells: seq<T>, w: nat, k: nat, rest: seq<T>, y: nat)
    requires k * w <= |cells| && y * w + w <= |cells| - k * w
    ensures RowAt(cells[k * w..] + rest, w, y) == RowAt(cells, w, k + y)
  {
    assert (k + y) * w == k * w + y * w;
    SliceDrop(cells, k * w, rest, y * w, w);
  }

  lemma SliceDrop<T>(cells: seq<T>, d: nat, rest: seq<T>, b: nat, w: nat)
    requires d + b + w <= |cells|
    ensures (cells[d..] + rest)[b..b + w] == cells[d + b..d + b + w]
  {
  }

  function Repeat<T>(x: T, n: nat): (r: seq<T>)
    ensures |r| == n && forall i :: 0 <= i < n ==> r[i] == x
  {
    seq(n, _ => x)
  }

  /** A row inside a stretch of equal cells. */
  lemma RowsBlank<T>(kept: seq<T>, x: T, w: nat, k: nat, y: nat, n: nat)
    requires |kept| == n * w && n <= y < n + k
    ensures RowAt(kept + Repeat(x, k * w), w, y) == Repeat(x, w)
  {
    RowFits(w, y, n + k);
    assert (n + k) * w == n * w + k * w;
    MulMono(n, y, w);
    SliceBlank(kept, x, k * w, y * w, w);
  }

  lemma SliceBlank<T>(kept: seq<T>, x: T, m: nat, b: nat, w: nat)
    requires |kept| <= b && b + w <= |kept| + m
    ensures (kept + Repeat(x, m))[b..b + w] == Repeat(x, w)
  {
  }

  /** Scrolling a grid of `h` rows up by `k`: the rows move up and `k` blank rows appear. */
  lemma RowsScroll<T>(cells: seq<T>, w: nat, h: nat, k: nat, x: T)
    requires |cells| == h * w && k <= h
    ensures k * w <= |cells|
    ensures Rows(cells[k * w..] + Repeat(x, k * w), w, h) == Rows(cells, w, h)[k..] + Repeat(Repeat(x, w), k)
  {
    MulMono(k, h, w);
    assert (h - k) * w == h * w - k * w;
    var next := cells[k * w..] + Repeat(x, k * w);
    forall y | 0 <= y < h
      ensures RowAt(next, w, y) == (Rows(cells, w, h)[k..] + Repeat(Repeat(x, w), k))[y]
    {
      if y < h - k {
        RowFits(w, y, h - k);
        RowsDrop(cells, w, k, Repeat(x, k * w), y);
      } else {
        RowsBlank(cells[k * w..], x, w, k, y, h - k);
      }
    }
  }

  // ----- rows joined back into one text -----

  function Join<T>(lines: seq<seq<T>>): seq<T> { if lines == [] then [] else lines[0] + Join(lines[1..]) }

  lemma {:induction false} JoinAppend<T>(lines: seq<seq<T>>, line: seq<T>)
    ensures Join(lines + [line]) == Join(lines) + line
    decreases |lines|
  {
    if lines == [] {
      assert lines + [line] == [line];
      assert Join([line]) == line + Join([]);
    } else {
      assert (lines + [line])[1..] == lines[1..] + [line];
      JoinAppend(lines[1..], line);
    }
  }

  lemma {:induction false} JoinLength<T>(lines: seq<seq<T>>, w: nat)
    requires forall i :: 0 <= i < |lines| ==> |lines[i]| == w
    ensures |Join(lines)| == |lines| * w
    decreases |lines|
  {
    if lines != [] { JoinLength(lines[1..], w); }
  }
}
