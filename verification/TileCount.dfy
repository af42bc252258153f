/** How many chunks the greedy tiling of a page-aligned range can have. */
module TileCount {
  import opened Arithmetic
  import opened Tiling

  function Count(cs: seq<Chunk>, size: nat): nat {
    if cs == [] then 0 else (if cs[0].size == size then 1 else 0) + Count(cs[1..], size)
  }

  /** One greedy step on a page-aligned range takes whole pages. */
  lemma Step(c: nat, r: nat, p: nat)
    requires r > 0 && Aligned(c, p) && Aligned(r, p)
    ensures var k := Choice(c, r);
            && k >= p && Pow2(k) <= r && Aligned(c, k)
            && Aligned(c + Pow2(k), p) && Aligned(r - Pow2(k), p)
            && Aligned(c + Pow2(k), k)
            && Tile(c, r) == [Chunk(c, Pow2(k))] + Tile(c + Pow2(k), r - Pow2(k))
  {
    AlignedZero(p);
    NextMultiple(0, r, p);
    ChoiceMaximal(c, r, p);
    var k := Choice(c, r);
    AlignedPower(k, k);
    AlignedPower(k, p);
    AlignedAdd(c, Pow2(k), k);
    AlignedAdd(c, Pow2(k), p);
    AlignedAdd(r, Pow2(k), p);
  }

  lemma Pow2Less(j: nat, k: nat)
    requires Pow2(j) < Pow2(k)
    ensures j < k
  {
    if k < j { Pow2Mono(k, j); }
  }

  lemma CountCons(c: Chunk, cs: seq<Chunk>, size: nat)
    ensures Count([c] + cs, size) == (if c.size == size then 1 else 0) + Count(cs, size)
  {
    assert ([c] + cs)[1..] == cs;
  }

  lemma Pow2Differ(j: nat, k: nat)
    ensures Pow2(j) == Pow2(k) <==> j == k
  {
    if j < k { Pow2Mono(j, k); }
    if k < j { Pow2Mono(k, j); }
  }

  /** One more chunk in front adds one to the count of its own size. */
  lemma CountFirst(c: nat, k: nat, cs: seq<Chunk>, e: nat)
    ensures Count([Chunk(c, Pow2(k))] + cs, Pow2(e)) == (if k == e then 1 else 0) + Count(cs, Pow2(e))
  {
    CountCons(Chunk(c, Pow2(k)), cs, Pow2(e));
    Pow2Differ(k, e);
  }

  /** At most one chunk for each exponent from the page size up to `j`, and none of another size. */
  predicate Shrunk(cs: seq<Chunk>, j: nat, e: nat, p: nat) {
    j >= p && |cs| <= j - p && Count(cs, Pow2(e)) <= if e < j then 1 else 0
  }

  lemma ShrunkCons(c: nat, k: nat, cs: seq<Chunk>, j: nat, e: nat, p: nat)
    requires Shrunk(cs, k, e, p) && k < j
    ensures Shrunk([Chunk(c, Pow2(k))] + cs, j, e, p)
  {
    CountFirst(c, k, cs, e);
  }

  lemma HalfLeft(r: nat, k: nat)
    requires Pow2(k) <= r < Pow2(k + 1)
    ensures r - Pow2(k) < Pow2(k)
  {
  }

  /** From a base aligned beyond the length, what is left after a chunk is less than the chunk. */
  lemma ShrinkStep(c: nat, r: nat, j: nat, p: nat)
    requires 0 < r < Pow2(j) && Aligned(c, j) && j >= p && Aligned(r, p)
    ensures Aligned(c, p) && Choice(c, r) < j && r < Pow2(Choice(c, r) + 1)
  {
    AlignedDown(c, j, p);
    Step(c, r, p);
    var k := Choice(c, r);
    Pow2Less(k, j);
    AlignedDown(c, j, k + 1);
    ChoiceLimit(c, r);
  }

  /**
   From a base aligned beyond the length the chunks shrink strictly: no size occurs twice, and there
   is at most one chunk for each exponent from the page size up.
   */
  lemma {:induction false} Shrinking(c: nat, r: nat, j: nat, e: nat, p: nat)
    requires Aligned(c, j) && r < Pow2(j) && j >= p && Aligned(r, p)
    ensures Shrunk(Tile(c, r), j, e, p)
    decreases r, 1
  {
    if r > 0 {
      ShrinkStep(c, r, j, p);
      LastPhase(c, r, j, e, p);
    }
  }

  /** A step whose chunk is limited by the length starts the shrinking phase. */
  lemma {:induction false} LastPhase(c: nat, r: nat, j: nat, e: nat, p: nat)
    requires r > 0 && Aligned(c, p) && Aligned(r, p)
    requires Choice(c, r) < j && r < Pow2(Choice(c, r) + 1)
    ensures Shrunk(Tile(c, r), j, e, p)
    decreases r, 0
  {
    Step(c, r, p);
    var k := Choice(c, r);
    HalfLeft(r, k);
    Shrinking(c + Pow2(k), r - Pow2(k), k, e, p);
    ShrunkCons(c, k, Tile(c + Pow2(k), r - Pow2(k)), j, e, p);
  }

  /** A step limited by the base leaves a base aligned to twice its chunk. */
  lemma GrowStep(c: nat, r: nat, j: nat, p: nat)
    requires r > 0 && Aligned(c, j) && j >= p && Aligned(r, p) && r >= Pow2(Choice(c, r) + 1)
    ensures Aligned(c, p) && Choice(c, r) >= j && Aligned(c + Pow2(Choice(c, r)), Choice(c, r) + 1)
  {
    AlignedDown(c, j, p);
    var k := Choice(c, r);
    Step(c, r, p);
    ChoiceLimit(c, r);
    if k < j { AlignedDown(c, j, k + 1); }
    AlignedUp(c, k);
  }

  /** Sizes below exponent `j` occur at most once, the others at most twice. */
  predicate Twice(cs: seq<Chunk>, j: nat, e: nat) { Count(cs, Pow2(e)) <= if e < j then 1 else 2 }

  lemma TwiceCons(c: nat, k: nat, cs: seq<Chunk>, j: nat, e: nat)
    requires Twice(cs, k + 1, e) && j <= k
    ensures Twice([Chunk(c, Pow2(k))] + cs, j, e)
  {
    CountFirst(c, k, cs, e);
  }

  /** Before that, the chunks grow strictly; so no size occurs more than twice. */
  lemma {:induction false} AtMostTwice(c: nat, r: nat, j: nat, e: nat, p: nat)
    requires j >= p && Aligned(c, j) && Aligned(r, p)
    ensures Twice(Tile(c, r), j, e)
    decreases r
  {
    if r > 0 {
      var k := Choice(c, r);
      if r < Pow2(k + 1) {
        AlignedDown(c, j, p);
        LastPhase(c, r, k + 1, e, p);
      } else {
        GrowStep(c, r, j, p);
        Step(c, r, p);
        AtMostTwice(c + Pow2(k), r - Pow2(k), k + 1, e, p);
        TwiceCons(c, k, Tile(c + Pow2(k), r - Pow2(k)), j, e);
      }
    }
  }

  /** The number of chunks left, from a base aligned to `j` in a space of `b` address bits. */
  lemma {:induction false} GrowingCount(c: nat, r: nat, j: nat, b: nat, p: nat)
    requires p <= j < b && 0 < c && Aligned(c, j) && Aligned(r, p) && c + r <= Pow2(b)
    requires b >= p + 2
    ensures |Tile(c, r)| <= (b - 1 - j) + (b - 1 - p)
    decreases r
  {
    if r > 0 {
      var k := Choice(c, r);
      if r < Pow2(k + 1) {
        ShrinkingCount(c, r, j, b, p);
      } else {
        GrowStep(c, r, j, p);
        Step(c, r, p);
        Pow2Less(k + 1, b);
        GrowingCount(c + Pow2(k), r - Pow2(k), k + 1, b, p);
      }
    }
  }

  lemma ShrinkingCount(c: nat, r: nat, j: nat, b: nat, p: nat)
    requires p <= j < b && 0 < c && Aligned(c, j) && Aligned(r, p) && c + r <= Pow2(b)
    requires b >= p + 2 && 0 < r < Pow2(Choice(c, r) + 1)
    ensures |Tile(c, r)| <= (b - 1 - j) + (b - 1 - p)
  {
    AlignedDown(c, j, p);
    var k := Choice(c, r);
    Step(c, r, p);
    LastPhase(c, r, k + 1, 0, p);
    Pow2Less(k, b);
    if j == b - 1 && k == b - 1 { TopHalf(c, r, b, p); }
  }

  /** The upper half of the address space, when it is the whole range, is one chunk. */
  lemma TopHalf(c: nat, r: nat, b: nat, p: nat)
    requires b >= p + 2 && 0 < c && c + r <= Pow2(b) && r > 0
    requires Aligned(c, b - 1) && Aligned(r, p)
    requires Choice(c, r) == b - 1
    ensures |Tile(c, r)| == 1
  {
    AlignedDown(c, b - 1, p);
    Step(c, r, p);
    AlignedZero(b - 1);
    NextMultiple(0, c, b - 1);
  }

  /** A page-aligned range of a `b`-bit address space has at most `2(b - 1 - p)` chunks. */
  lemma TileBound(c: nat, r: nat, b: nat, p: nat)
    requires b >= p + 2 && Aligned(c, p) && Aligned(r, p) && c + r <= Pow2(b)
    ensures |Tile(c, r)| <= 2 * (b - 1 - p)
  {
    if c > 0 {
      GrowingCount(c, r, p, b, p);
    } else if r == Pow2(b) {
      AlignedZero(b);
      FirstChunk(c, r, b);
    } else {
      AlignedZero(b);
      Shrinking(c, r, b, 0, p);
    }
  }

  // ----- the bound is reached -----

  /** All but the last page of an aligned block takes one chunk per exponent. */
  lemma {:induction false} WorstDown(c: nat, k: nat, x: nat, p: nat, u: nat)
    requires k >= p && Aligned(c, k) && x == Pow2(k) && u == Pow2(p)
    ensures u <= x && |Tile(c, x - u)| == k - p
    decreases k
  {
    if k > p {
      var h := Pow2(k - 1);
      HalfAligned(c, k - 1);
      if p < k - 1 { Pow2Mono(p, k - 1); }
      WorstChunk(c, k - 1, h, u);
      WorstDown(c + h, k - 1, h, p, u);
    }
  }

  /** The first chunk of an aligned block short of `u` is half of the block. */
  lemma WorstChunk(c: nat, k: nat, h: nat, u: nat)
    requires Aligned(c, k) && h == Pow2(k) && 0 < u <= h
    ensures |Tile(c, 2 * h - u)| == 1 + |Tile(c + h, h - u)|
  {
    FirstChunk(c, 2 * h - u, k);
  }

  lemma HalfAligned(c: nat, h: nat)
    requires Aligned(c, h + 1)
    ensures Aligned(c, h) && Aligned(c + Pow2(h), h)
  {
    AlignedDown(c, h + 1, h);
    AlignedPower(h, h);
    AlignedAdd(c, Pow2(h), h);
  }

  /** The first chunk is the aligned power of two that fits and cannot be doubled. */
  lemma FirstChunk(c: nat, r: nat, k: nat)
    requires Aligned(c, k) && Pow2(k) <= r
    requires r < Pow2(k + 1) || !Aligned(c, k + 1)
    ensures Tile(c, r) == [Chunk(c, Pow2(k))] + Tile(c + Pow2(k), r - Pow2(k))
  {
    ChoiceMaximal(c, r, k);
    var h := Choice(c, r);
    if k < h {
      AlignedDown(c, h, k + 1);
      Pow2Mono(k, h);
    }
  }

  /** From a power of two up to all but the last page of the address space. */
  lemma {:induction false} WorstUp(j: nat, x: nat, b: nat, end: nat, p: nat)
    requires p <= j < b && x == Pow2(j) && end + Pow2(p) == Pow2(b)
    ensures x <= end && |Tile(x, end - x)| == (b - 1 - j) + (b - 1 - p)
    decreases b - j
  {
    UpTo(j, x, b, end, p);
    if j == b - 1 {
      AlignedPower(j, j);
      WorstDown(x, j, x, p, Pow2(p));
    } else {
      PowerChunk(j, x, end);
      WorstUp(j + 1, 2 * x, b, end, p);
    }
  }

  lemma UpTo(j: nat, x: nat, b: nat, end: nat, p: nat)
    requires p <= j < b && x == Pow2(j) && end + Pow2(p) == Pow2(b)
    ensures x <= end && (j < b - 1 ==> 2 * x <= end) && (j == b - 1 ==> end - x == x - Pow2(p))
  {
    if p < j { Pow2Mono(p, j); }
    if j < b - 1 { Pow2Mono(j + 1, b); }
  }

  /** The first chunk of a range from a power of two is that power again. */
  lemma PowerChunk(j: nat, x: nat, end: nat)
    requires x == Pow2(j) && 2 * x <= end
    ensures |Tile(x, end - x)| == 1 + |Tile(2 * x, end - 2 * x)|
  {
    AlignedPower(j, j);
    NotAligned(j, j + 1);
    FirstChunk(x, end - x, j);
  }

  lemma {:induction false} NotAligned(j: nat, k: nat)
    requires j < k
    ensures !Aligned(Pow2(j), k)
    decreases j
  {
    if j > 0 { NotAligned(j - 1, k - 1); }
  }

  /** From the second page to the last but one: a range with as many chunks as the bound allows. */
  lemma WorstRange(b: nat, p: nat) returns (c: nat, r: nat)
    requires b >= p + 2
    ensures Aligned(c, p) && Aligned(r, p) && c + r <= Pow2(b)
    ensures |Tile(c, r)| == 2 * (b - 1 - p)
  {
    Pow2Mono(p, b);
    WorstUp(p, Pow2(p), b, Pow2(b) - Pow2(p), p);
    c, r := Pow2(p), Pow2(b) - Pow2(p) - Pow2(p);
    AlignedPower(b, p);
    AlignedPower(p, p);
    AlignedAdd(Pow2(b), Pow2(p), p);
    AlignedAdd(Pow2(b) - Pow2(p), Pow2(p), p);
  }

  /** The exponent of the page size. */
  const PAGE_BITS: nat := 12

  /** Every page-aligned range of a `b`-bit space needs at most `limit` chunks. */
  ghost predicate AlwaysFits(b: nat, limit: nat) {
    forall c: nat, r: nat {:trigger Tile(c, r)} ::
      Aligned(c, PAGE_BITS) && Aligned(r, PAGE_BITS) && c + r <= Pow2(b) ==> |Tile(c, r)| <= limit
  }

  /** A table of 64 chunks suffices for every range exactly up to 45 physical address bits. */
  lemma TableSuffices(b: nat)
    requires b >= 14
    ensures AlwaysFits(b, 64) <==> b <= 45
  {
    if b <= 45 {
      forall c: nat, r: nat | Aligned(c, PAGE_BITS) && Aligned(r, PAGE_BITS) && c + r <= Pow2(b)
        ensures |Tile(c, r)| <= 64
      {
        TileBound(c, r, b, PAGE_BITS);
      }
    } else {
      var c, r := WorstRange(b, PAGE_BITS);
      assert |Tile(c, r)| > 64;
    }
  }
}
