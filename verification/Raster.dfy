/** Lines and circles drawn with integer steps; the plotted points are recorded instead of written to a buffer. */
module Raster {
  import opened Words
  import opened Arithmetic

  datatype Point = Point(x: int, y: int)

  function Abs(x: int): (r: int)
    ensures r >= 0
  {
    if x < 0 then -x else x
  }

  function Max(a: int, b: int): int { if a < b then b else a }

  function Sign(a: int, b: int): int { if a < b then 1 else -1 }

  // ----- lines -----

  /** The longest axis for which three times its length is a 32-bit number. */
  const LONGEST: int := 715827882

  predicate Drawable(x1: int, y1: int, x2: int, y2: int) {
    Int32(x1) && Int32(y1) && Int32(x2) && Int32(y2) && Abs(x2 - x1) <= LONGEST && Abs(y2 - y1) <= LONGEST
  }

  /** How far `i` steps along x and `j` steps along y lead off the line, scaled by the longer axis. */
  function Deviation(i: int, j: int, dx: int, dy: int): int { i * dy - j * dx }

  /** What the loop knows: on which axis it steps every time, and how far it is from the line. */
  ghost predicate Following(k: nat, i: nat, j: nat, dx: int, dy: int) {
    && 0 <= dx && 0 <= dy
    && (dx >= dy ==> i == k && (dx > 0 ==> -dx < 2 * Deviation(i, j, dx, dy) <= dx) && (dx == dy ==> i == j))
    && (dx < dy ==> j == k && -dy <= 2 * Deviation(i, j, dx, dy) < dy)
  }

  /** The decision of the loop, and what it does to the deviation. */
  lemma DeviationStep(i: int, j: int, dx: int, dy: int)
    ensures Deviation(i + 1, j, dx, dy) == Deviation(i, j, dx, dy) + dy
    ensures Deviation(i, j + 1, dx, dy) == Deviation(i, j, dx, dy) - dx
    ensures Deviation(i + 1, j + 1, dx, dy) == Deviation(i, j, dx, dy) + dy - dx
    ensures i == j && dx == dy ==> Deviation(i, j, dx, dy) == 0
  {
  }

  function NextX(i: nat, err: int, dy: int): nat { if 2 * err > -dy then i + 1 else i }

  function NextY(j: nat, err: int, dx: int): nat { if 2 * err < dx then j + 1 else j }

  /** One step of the loop keeps following the line. */
  lemma FollowStep(k: nat, i: nat, j: nat, dx: int, dy: int)
    requires Following(k, i, j, dx, dy) && (dx > 0 || dy > 0)
    ensures var err := dx - dy - Deviation(i, j, dx, dy);
            Following(k + 1, NextX(i, err, dy), NextY(j, err, dx), dx, dy)
  {
    DeviationStep(i, j, dx, dy);
  }

  /** The end is reached exactly when the longer axis is used up. */
  lemma FollowEnd(k: nat, i: nat, j: nat, dx: int, dy: int)
    requires Following(k, i, j, dx, dy)
    ensures i == dx && j == dy <==> k == Max(dx, dy)
  {
    if dx >= dy {
      if k == dx && dx > 0 {
        assert Deviation(dx, j, dx, dy) == (dy - j) * dx;
        Between(dy - j, dx);
      }
    } else if k == dy {
      assert Deviation(i, dy, dx, dy) == (i - dx) * dy;
      Between(i - dx, dy);
    }
  }

  /** Neither axis is left before its end. */
  lemma FollowWithin(k: nat, i: nat, j: nat, dx: int, dy: int)
    requires Following(k, i, j, dx, dy) && k <= Max(dx, dy)
    ensures i <= dx && j <= dy
  {
    if dx >= dy {
      if j > dy { Beyond(i, dx, j, dy); }
    } else if i > dx {
      Beyond(j, dy, i, dx);
    }
  }

  /** One step too many on the shorter axis is more than half a unit off. */
  lemma Beyond(i: int, dx: int, j: int, dy: int)
    requires 0 <= i <= dx && 0 <= dy < j
    ensures 2 * (i * dy - j * dx) <= -2 * dx
  {
    MulMono(i, dx, dy);
    MulMono(dy + 1, j, dx);
  }

  /** A multiple within half the unit of zero is zero. */
  lemma Between(q: int, d: int)
    requires d > 0 && -d <= 2 * (q * d) <= d
    ensures q == 0
  {
    if q > 0 { MulMono(1, q, d); }
    if q < 0 { MulMono(q, -1, d); }
  }

  /** A recorded point is `k` steps along the longer axis and within half a pixel of the line on the other. */
  ghost predicate OnLine(p: Point, k: nat, x1: int, y1: int, x2: int, y2: int) {
    var dx, dy := Abs(x2 - x1), Abs(y2 - y1);
    && (if dx >= dy then p.x - x1 == Sign(x1, x2) * k else p.y - y1 == Sign(y1, y2) * k)
    && -Max(dx, dy) <= 2 * Deviation(p.x - x1, p.y - y1, x2 - x1, y2 - y1) <= Max(dx, dy)
  }

  lemma Signed(i: nat, j: nat, x1: int, y1: int, x2: int, y2: int, k: nat)
    requires Following(k, i, j, Abs(x2 - x1), Abs(y2 - y1))
    ensures OnLine(Point(x1 + Sign(x1, x2) * i, y1 + Sign(y1, y2) * j), k, x1, y1, x2, y2)
  {
    var dx, dy := Abs(x2 - x1), Abs(y2 - y1);
    CrossProduct(i, j, dx, dy, Sign(x1, x2), Sign(y1, y2));
    assert x2 - x1 == Sign(x1, x2) * dx && y2 - y1 == Sign(y1, y2) * dy;
  }

  lemma CrossProduct(i: int, j: int, dx: int, dy: int, sx: int, sy: int)
    requires (sx == 1 || sx == -1) && (sy == 1 || sy == -1)
    ensures Abs(Deviation(sx * i, sy * j, sx * dx, sy * dy)) == Abs(Deviation(i, j, dx, dy))
  {
    if sx == sy {
      assert sx * i * (sy * dy) == i * dy && sy * j * (sx * dx) == j * dx;
    } else {
      assert sx * i * (sy * dy) == -(i * dy) && sy * j * (sx * dx) == -(j * dx);
    }
  }

  /** The variables of the loop before the point number `k` is drawn. */
  ghost predicate Drawing(k: nat, i: nat, j: nat, x: int, y: int, err: int, x1: int, y1: int, x2: int, y2: int) {
    var dx, dy := Abs(x2 - x1), Abs(y2 - y1);
    && Following(k, i, j, dx, dy) && k <= Max(dx, dy)
    && x == x1 + Sign(x1, x2) * i && y == y1 + Sign(y1, y2) * j && err == dx - dy - Deviation(i, j, dx, dy)
  }

  lemma DrawingPoint(k: nat, i: nat, j: nat, x: int, y: int, err: int, x1: int, y1: int, x2: int, y2: int)
    requires Drawing(k, i, j, x, y, err, x1, y1, x2, y2)
    ensures OnLine(Point(x, y), k, x1, y1, x2, y2)
    ensures x == x2 && y == y2 <==> k == Max(Abs(x2 - x1), Abs(y2 - y1))
  {
    Signed(i, j, x1, y1, x2, y2, k);
    FollowEnd(k, i, j, Abs(x2 - x1), Abs(y2 - y1));
    Steps(i, x1, x2);
    Steps(j, y1, y2);
  }

  /** Every value the loop computes on the way to the next point is a 32-bit number. */
  lemma DrawingBounds(k: nat, i: nat, j: nat, x: int, y: int, err: int, x1: int, y1: int, x2: int, y2: int)
    requires Drawing(k, i, j, x, y, err, x1, y1, x2, y2) && Drawable(x1, y1, x2, y2)
    ensures var dx, dy := Abs(x2 - x1), Abs(y2 - y1);
            && Int32(x) && Int32(y) && Int32(err) && Int32(2 * err)
            && Int32(err - dy) && Int32(err + dx) && Int32(err - dy + dx)
  {
    var dx, dy := Abs(x2 - x1), Abs(y2 - y1);
    FollowWithin(k, i, j, dx, dy);
    Walked(i, x1, x2);
    Walked(j, y1, y2);
    assert -Max(dx, dy) <= 2 * Deviation(i, j, dx, dy) <= Max(dx, dy);
  }

  lemma Walked(i: nat, a: int, b: int)
    requires i <= Abs(b - a) && Int32(a) && Int32(b)
    ensures Int32(a + Sign(a, b) * i)
  {
  }

  lemma DrawingStep(k: nat, i: nat, j: nat, x: int, y: int, err: int, x1: int, y1: int, x2: int, y2: int)
    requires Drawing(k, i, j, x, y, err, x1, y1, x2, y2) && k < Max(Abs(x2 - x1), Abs(y2 - y1))
    ensures var dx, dy := Abs(x2 - x1), Abs(y2 - y1);
            Drawing(k + 1, NextX(i, err, dy), NextY(j, err, dx),
                    if 2 * err > -dy then x + Sign(x1, x2) else x,
                    if 2 * err < dx then y + Sign(y1, y2) else y,
                    err - (if 2 * err > -dy then dy else 0) + (if 2 * err < dx then dx else 0),
                    x1, y1, x2, y2)
  {
    var dx, dy := Abs(x2 - x1), Abs(y2 - y1);
    FollowStep(k, i, j, dx, dy);
    DeviationStep(i, j, dx, dy);
    Steps(i, x1, x2);
    Steps(j, y1, y2);
  }

  /** A coordinate is at its end exactly when all its steps are taken. */
  lemma Steps(i: nat, a: int, b: int)
    ensures a + Sign(a, b) * i == b <==> i == Abs(b - a)
    ensures Sign(a, b) * (i + 1) == Sign(a, b) * i + Sign(a, b)
  {
  }

  /**
   Draws a line: it ends at its end point after exactly as many steps as the longer axis has, and every
   point is within half a pixel of the ideal line on the shorter axis.
   */
  method DrawLine(x1: int, y1: int, x2: int, y2: int) returns (points: seq<Point>)
    requires Drawable(x1, y1, x2, y2)
    ensures |points| == Max(Abs(x2 - x1), Abs(y2 - y1)) + 1
    ensures points[0] == Point(x1, y1) && points[|points| - 1] == Point(x2, y2)
    ensures forall k :: 0 <= k < |points| ==> OnLine(points[k], k, x1, y1, x2, y2)
  {
    var dx, dy := Abs(x2 - x1), Abs(y2 - y1);
    var sx, sy := Sign(x1, x2), Sign(y1, y2);
    assert Int32(x2 - x1) && Int32(y2 - y1) && Int32(dx - dy);
    var err := dx - dy;
    var x, y := x1, y1;
    ghost var i: nat, j: nat := 0, 0;
    points := [];
    while true
      invariant Drawing(|points|, i, j, x, y, err, x1, y1, x2, y2)
      invariant if points == [] then x == x1 && y == y1 else points[0] == Point(x1, y1)
      invariant forall k :: 0 <= k < |points| ==> OnLine(points[k], k, x1, y1, x2, y2)
      decreases Max(dx, dy) - |points|
    {
      DrawingPoint(|points|, i, j, x, y, err, x1, y1, x2, y2);
      ghost var k := |points|;
      points := points + [Point(x, y)];
      if x == x2 && y == y2 { break; }
      x, y, err, i, j := Advance(x, y, err, dx, dy, sx, sy, k, i, j, x1, y1, x2, y2);
    }
  }

  /** The step from one point to the next, without a sum that overflows. */
  method Advance(x: int, y: int, err: int, dx: int, dy: int, sx: int, sy: int,
                 ghost k: nat, ghost i: nat, ghost j: nat, ghost x1: int, ghost y1: int, ghost x2: int, ghost y2: int)
    returns (x': int, y': int, err': int, ghost i': nat, ghost j': nat)
    requires Drawing(k, i, j, x, y, err, x1, y1, x2, y2) && Drawable(x1, y1, x2, y2) && k < Max(dx, dy)
    requires dx == Abs(x2 - x1) && dy == Abs(y2 - y1) && sx == Sign(x1, x2) && sy == Sign(y1, y2)
    ensures Drawing(k + 1, i', j', x', y', err', x1, y1, x2, y2)
  {
    DrawingStep(k, i, j, x, y, err, x1, y1, x2, y2);
    DrawingBounds(k, i, j, x, y, err, x1, y1, x2, y2);
    i', j' := NextX(i, err, dy), NextY(j, err, dx);
    x', y', err' := x, y, err;
    var err2 := err * 2;
    assert Int32(err2) && Int32(-dy) && Int32(err - dy) && Int32(err + dx) && Int32(err - dy + dx);
    if err2 > -dy {
      err' := err' - dy;
      x' := x' + sx;
    }
    if err2 < dx {
      err' := err' + dx;
      y' := y' + sy;
    }
    DrawingBounds(k + 1, i', j', x', y', err', x1, y1, x2, y2);
    assert Int32(x') && Int32(y') && Int32(err');
  }

  // ----- circles -----

  function Square(x: int): int { x * x }

  /** How far a point is from the circle of radius `r`. */
  function Off(x: int, y: int, r: int): int { Square(x) + Square(y) - Square(r) }

  /** The row of an octant column is within half a pixel of the circle, strictly so before the diagonal. */
  predicate OnCircle(x: int, y: int, r: int) { -y <= Off(x, y, r) <= y && (x < y ==> Off(x, y, r) < y) }

  lemma SquareStep(x: int)
    ensures Square(x + 1) == Square(x) + 2 * x + 1
    ensures Square(x - 1) == Square(x) - 2 * x + 1
  {
  }

  /** What the loop knows of its point and of its decision variable. */
  ghost predicate Tracking(x: int, y: int, r: int, f: int) {
    && 0 <= x <= r && 0 <= y <= r && x <= y + 1
    && OnCircle(x, y, r)
    && f == Off(x, y, r) + 2 * x + 1 - y
  }

  lemma TrackStep(x: int, y: int, r: int, f: int)
    requires Tracking(x, y, r, f) && x < y
    ensures if f >= 0 then Tracking(x + 1, y - 1, r, f - 2 * (y - 1) + 2 * (x + 1) + 1)
            else Tracking(x + 1, y, r, f + 2 * (x + 1) + 1)
  {
    SquareStep(x);
    SquareStep(y);
  }

  /** A circle all of whose pixels have 32-bit coordinates, and whose diameter is a 32-bit number. */
  predicate Round(x: int, y: int, r: int) {
    && Int32(x) && Int32(y) && Int32(r) && r <= 0x3FFF_FFFE
    && (r > 0 ==> Int32(x + r) && Int32(x - r) && Int32(y + r) && Int32(y - r))
  }

  /** Every value the loop computes on the way to the next octant point is a 32-bit number. */
  lemma TrackBounds(x: int, y: int, a: int, b: int, r: int, f: int)
    requires Round(x, y, r) && Tracking(a, b, r, f) && a < b
    ensures Int32(-2 * b + 2) && Int32(2 * (a + 1) + 1)
    ensures f >= 0 ==> Int32(f - 2 * (b - 1)) && Int32(f - 2 * (b - 1) + 2 * (a + 1) + 1)
    ensures f < 0 ==> Int32(f + 2 * (a + 1) + 1)
    ensures Int32(x + a + 1) && Int32(x - (a + 1)) && Int32(y + a + 1) && Int32(y - (a + 1))
    ensures Int32(x + b) && Int32(x - b) && Int32(y + b) && Int32(y - b)
  {
  }

  /** Before the diagonal the row is the only one whose half-pixel band holds the circle. */
  lemma NearestRow(x: int, y: int, z: int, r: int)
    requires 0 <= x < y && x < z && OnCircle(x, y, r) && OnCircle(x, z, r)
    ensures y == z
  {
    if y < z { RowsBands(y, z); }
    if z < y { RowsBands(z, y); }
  }

  lemma RowsBands(y: int, z: int)
    requires 0 <= y < z
    ensures Square(y) + y <= Square(z) - z
  {
    assert Square(z) - z - (Square(y) + y) == (z + y) * (z - y - 1);
    assert (z + y) * (z - y - 1) >= 0;
  }

  function Cardinal(x: int, y: int, r: int): seq<Point> {
    [Point(x, y + r), Point(x, y - r), Point(x + r, y), Point(x - r, y)]
  }

  function Eight(x: int, y: int, a: int, b: int): seq<Point> {
    [Point(x + a, y + b), Point(x - a, y + b), Point(x + a, y - b), Point(x - a, y - b),
     Point(x + b, y + a), Point(x - b, y + a), Point(x + b, y - a), Point(x - b, y - a)]
  }

  /** The points plotted for a list of octant points. */
  function Plot(x: int, y: int, r: int, octant: seq<Point>): seq<Point> {
    if octant == [] then Cardinal(x, y, r)
    else Plot(x, y, r, octant[..|octant| - 1]) + Eight(x, y, octant[|octant| - 1].x, octant[|octant| - 1].y)
  }

  /** A column of the octant: near the circle, at most one row down from the last, which was above the diagonal. */
  ghost predicate Column(octant: seq<Point>, k: nat, r: int)
    requires k < |octant|
  {
    && octant[k].x == k + 1 && OnCircle(octant[k].x, octant[k].y, r)
    && (if k == 0 then r - 1 <= octant[0].y <= r
        else octant[k - 1].x < octant[k - 1].y && octant[k - 1].y - 1 <= octant[k].y <= octant[k - 1].y)
  }

  /** One point for each column from 1 on. */
  ghost predicate Octant(octant: seq<Point>, r: int) { forall k :: 0 <= k < |octant| ==> Column(octant, k, r) }

  /** A pixel is within half a pixel of the circle along one of the axes. */
  predicate NearCircle(dx: int, dy: int, r: int) {
    -Max(Abs(dx), Abs(dy)) <= Off(dx, dy, r) <= Max(Abs(dx), Abs(dy))
  }

  /** Every plotted pixel is near the circle. */
  lemma {:induction false} PlotNear(x: int, y: int, r: int, octant: seq<Point>, p: Point)
    requires r > 0 && Octant(octant, r) && p in Plot(x, y, r, octant)
    ensures NearCircle(p.x - x, p.y - y, r)
    decreases |octant|
  {
    if octant == [] {
      CardinalNear(x, y, r, p);
    } else {
      var front, last := octant[..|octant| - 1], octant[|octant| - 1];
      if p in Plot(x, y, r, front) {
        forall k | 0 <= k < |front| ensures Column(front, k, r) { assert Column(octant, k, r); }
        PlotNear(x, y, r, front, p);
      } else {
        assert Column(octant, |octant| - 1, r);
        EightNear(x, y, last.x, last.y, r, p);
      }
    }
  }

  lemma CardinalNear(x: int, y: int, r: int, p: Point)
    requires r > 0 && p in Cardinal(x, y, r)
    ensures NearCircle(p.x - x, p.y - y, r)
  {
    SquareNegated(r);
  }

  lemma SquareNegated(x: int)
    ensures Square(-x) == Square(x)
  {
  }

  /** The eight reflections are as near as the octant point. */
  lemma EightNear(x: int, y: int, a: int, b: int, r: int, p: Point)
    requires p in Eight(x, y, a, b) && a >= 0 && OnCircle(a, b, r)
    ensures NearCircle(p.x - x, p.y - y, r)
  {
    SquareNegated(a);
    SquareNegated(b);
  }

  /** Draws a circle: the four cardinal points and the eight reflections of every octant point. */
  method DrawCircle(x: int, y: int, radius: int) returns (points: seq<Point>, octant: seq<Point>)
    requires Round(x, y, radius)
    ensures radius <= 0 ==> points == [] && octant == []
    ensures radius > 0 ==> points == Plot(x, y, radius, octant) && Octant(octant, radius)
    ensures radius > 0 ==> octant != [] && octant[|octant| - 1].x >= octant[|octant| - 1].y
  {
    points, octant := [], [];
    if radius <= 0 { return; }
    var f, ddFx, ddFy := 1 - radius, 1, -2 * radius;
    var x1, y1 := 0, radius;
    points := Cardinal(x, y, radius);
    while x1 < y1
      invariant Tracking(x1, y1, radius, f) && ddFx == 2 * x1 + 1 && ddFy == -2 * y1
      invariant points == Plot(x, y, radius, octant) && Octant(octant, radius) && |octant| == x1
      invariant octant != [] ==> octant[|octant| - 1] == Point(x1, y1)
      invariant octant == [] ==> y1 == radius
      decreases y1 - x1
    {
      TrackStep(x1, y1, radius, f);
      TrackBounds(x, y, x1, y1, radius, f);
      if f >= 0 {
        y1 := y1 - 1;
        ddFy := ddFy + 2;
        f := f + ddFy;
      }
      x1 := x1 + 1;
      ddFx := ddFx + 2;
      f := f + ddFx;
      points := points + Eight(x, y, x1, y1);
      OctantStep(octant, x1, y1, radius);
      octant := octant + [Point(x1, y1)];
    }
  }

  lemma OctantStep(octant: seq<Point>, x: int, y: int, r: int)
    requires Octant(octant, r)
    requires Column(octant + [Point(x, y)], |octant|, r)
    ensures Octant(octant + [Point(x, y)], r)
    ensures (octant + [Point(x, y)])[..|octant|] == octant
  {
    var longer := octant + [Point(x, y)];
    forall k | 0 <= k < |longer| ensures Column(longer, k, r) {
      if k < |octant| { assert Column(octant, k, r); }
    }
  }
}
