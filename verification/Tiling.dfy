/**
 Cutting an address range into power-of-two chunks, each aligned to its own size, largest first
 choice: the loop of `arch_mtrr_set_range`.
 */
module Tiling {
  import opened Arithmetic

  /** `x` ends in at least `k` zero bits. */
  predicate Aligned(x: nat, k: nat) { k == 0 || (x % 2 == 0 && Aligned(x / 2, k - 1)) }

  // ----- multiples of powers of two -----

  /** The lowest bit of a remainder by an even number, and the remainder of the other bits. */
  lemma RemainderBits(x: nat, d: nat)
    requires d > 0
    ensures x % (2 * d) == 2 * (x / 2 % d) + x % 2
    ensures x / (2 * d) == x / 2 / d
  {
    var q, m := x / 2 / d, x / 2 % d;
    assert q * (2 * d) == 2 * (q * d);
    DivModUnique(x, 2 * d, q, 2 * m + x % 2);
  }

  /** Ending in `k` zero bits is being a multiple of the `k`-th power of two. */
  lemma {:induction false} AlignedMeans(x: nat, k: nat)
    ensures Aligned(x, k) <==> x % Pow2(k) == 0
  {
    if k > 0 {
      AlignedMeans(x / 2, k - 1);
      RemainderBits(x, Pow2(k - 1));
    }
  }

  lemma {:induction false} AlignedAdd(x: nat, y: nat, k: nat)
    requires Aligned(x, k) && Aligned(y, k)
    ensures Aligned(x + y, k)
    ensures x >= y ==> Aligned(x - y, k)
    decreases k
  {
    if k > 0 {
      AlignedAdd(x / 2, y / 2, k - 1);
      assert (x + y) / 2 == x / 2 + y / 2;
      if x >= y { assert (x - y) / 2 == x / 2 - y / 2; }
    }
  }

  lemma {:induction false} AlignedDown(x: nat, k: nat, j: nat)
    requires Aligned(x, k) && j <= k
    ensures Aligned(x, j)
    decreases k
  {
    if j > 0 { AlignedDown(x / 2, k - 1, j - 1); }
  }

  lemma {:induction false} AlignedPower(k: nat, j: nat)
    requires j <= k
    ensures Aligned(Pow2(k), j)
    decreases k
  {
    if j > 0 { AlignedPower(k - 1, j - 1); }
  }

  /** An odd multiple plus the power is an even multiple. */
  lemma {:induction false} AlignedUp(x: nat, k: nat)
    requires Aligned(x, k) && !Aligned(x, k + 1)
    ensures Aligned(x + Pow2(k), k + 1) && x >= Pow2(k)
    decreases k
  {
    if k > 0 {
      AlignedUp(x / 2, k - 1);
      assert (x + Pow2(k)) / 2 == x / 2 + Pow2(k - 1);
    }
  }

  /** Two different multiples are at least the power apart. */
  lemma {:induction false} NextMultiple(x: nat, y: nat, k: nat)
    requires Aligned(x, k) && Aligned(y, k) && x < y
    ensures x + Pow2(k) <= y
    decreases k
  {
    if k > 0 { NextMultiple(x / 2, y / 2, k - 1); }
  }

  lemma {:induction false} AlignedZero(k: nat)
    ensures Aligned(0, k)
  {
    if k > 0 { AlignedZero(k - 1); }
  }

  lemma {:induction false} Pow2Mono(j: nat, k: nat)
    requires j < k
    ensures 2 * Pow2(j) <= Pow2(k)
    decreases k
  {
    if j < k - 1 { Pow2Mono(j, k - 1); }
  }

  // ----- the greedy choice -----

  /** The position of the highest set bit, which the source takes from a leading-zero count. */
  function HighBit(length: nat): (k: nat)
    requires length > 0
    ensures Pow2(k) <= length < Pow2(k + 1)
  {
    if length == 1 then 0 else HighBit(length / 2) + 1
  }

  /** The largest exponent up to `k` that `base` is aligned to. */
  function Fit(base: nat, k: nat): (j: nat)
    ensures j <= k && Aligned(base, j)
    ensures j == k || !Aligned(base, j + 1)
  {
    if k == 0 || Aligned(base, k) then k else Fit(base, k - 1)
  }

  function Choice(base: nat, length: nat): (k: nat)
    requires length > 0
  {
    Fit(base, HighBit(length))
  }

  /** The choice is the largest power of two that divides `base` and does not exceed `length`. */
  lemma ChoiceMaximal(base: nat, length: nat, j: nat)
    requires length > 0
    ensures Aligned(base, Choice(base, length)) && Pow2(Choice(base, length)) <= length
    ensures Aligned(base, j) && Pow2(j) <= length ==> j <= Choice(base, length)
  {
    var h, k := HighBit(length), Choice(base, length);
    if k < h { Pow2Mono(k, h); }
    if Aligned(base, j) && Pow2(j) <= length {
      if h < j { if h + 1 < j { Pow2Mono(h + 1, j); } }
      if k < j { AlignedDown(base, j, k + 1); }
    }
  }

  /** Either the choice is limited by the length, or by the alignment of the base. */
  lemma ChoiceLimit(base: nat, length: nat)
    requires length > 0
    ensures length < Pow2(Choice(base, length) + 1) || !Aligned(base, Choice(base, length) + 1)
  {
  }

  datatype Chunk = Chunk(base: nat, size: nat)

  ghost predicate Dyadic(c: Chunk) {
    exists k: nat :: c.size == Pow2(k) && Aligned(c.base, k)
  }

  /** The chunks lie end to end from `lo` to `hi`. */
  predicate Tiles(cs: seq<Chunk>, lo: nat, hi: nat) {
    if cs == [] then lo == hi else cs[0].base == lo && cs[0].size > 0 && Tiles(cs[1..], lo + cs[0].size, hi)
  }

  function Tile(cursor: nat, remaining: nat): seq<Chunk>
    decreases remaining
  {
    if remaining == 0 then [] else
      ChoiceMaximal(cursor, remaining, 0);
      var size := Pow2(Choice(cursor, remaining));
      [Chunk(cursor, size)] + Tile(cursor + size, remaining - size)
  }

  // ----- what the chunks cover -----

  /** The greedy chunks tile the range, and each is a power of two aligned to its own size. */
  lemma {:induction false} TileExact(c: nat, r: nat)
    ensures Tiles(Tile(c, r), c, c + r)
    ensures forall x :: x in Tile(c, r) ==> Dyadic(x)
    decreases r
  {
    if r > 0 {
      ChoiceMaximal(c, r, 0);
      var k := Choice(c, r);
      var size := Pow2(k);
      assert Dyadic(Chunk(c, size));
      TileExact(c + size, r - size);
      assert Tile(c, r)[1..] == Tile(c + size, r - size);
    }
  }

  predicate Inside(c: Chunk, a: nat) { c.base <= a < c.base + c.size }

  lemma {:induction false} TilesBounds(cs: seq<Chunk>, lo: nat, hi: nat, i: nat)
    requires Tiles(cs, lo, hi) && i < |cs|
    ensures lo <= cs[i].base && cs[i].size > 0 && cs[i].base + cs[i].size <= hi
    ensures i > 0 ==> lo + cs[0].size <= cs[i].base
    decreases |cs|
  {
    TilesOrder(cs[1..], lo + cs[0].size, hi);
    if i > 0 { TilesBounds(cs[1..], lo + cs[0].size, hi, i - 1); }
  }

  lemma {:induction false} TilesOrder(cs: seq<Chunk>, lo: nat, hi: nat)
    requires Tiles(cs, lo, hi)
    ensures lo <= hi && (lo == hi <==> cs == [])
    decreases |cs|
  {
    if cs != [] { TilesOrder(cs[1..], lo + cs[0].size, hi); }
  }

  /** Tiling chunks are pairwise disjoint. */
  lemma {:induction false} TilesApart(cs: seq<Chunk>, lo: nat, hi: nat, i: nat, j: nat)
    requires Tiles(cs, lo, hi) && i < j < |cs|
    ensures cs[i].base + cs[i].size <= cs[j].base
    decreases |cs|
  {
    if i == 0 { TilesBounds(cs, lo, hi, j); } else { TilesApart(cs[1..], lo + cs[0].size, hi, i - 1, j - 1); }
  }

  /** The address belongs to a chunk exactly when it belongs to the range. */
  lemma {:induction false} TilesCover(cs: seq<Chunk>, lo: nat, hi: nat, a: nat)
    requires Tiles(cs, lo, hi)
    ensures lo <= a < hi <==> exists c :: c in cs && Inside(c, a)
    decreases |cs|
  {
    if cs != [] {
      TilesOrder(cs[1..], lo + cs[0].size, hi);
      TilesCover(cs[1..], lo + cs[0].size, hi, a);
      assert cs[0] in cs;
      if lo + cs[0].size <= a < hi {
        var c :| c in cs[1..] && Inside(c, a);
        assert c in cs;
      }
      forall c | c in cs && Inside(c, a) ensures lo <= a < hi {
        if c != cs[0] { assert c in cs[1..]; }
      }
    }
  }

  // ----- no tiling has fewer chunks -----

  /** An aligned power of two that starts strictly inside another one is smaller. */
  lemma Smaller(base: nat, k: nat, start: nat, j: nat)
    requires Aligned(base, k) && Aligned(start, j)
    requires base < start < base + Pow2(k)
    ensures j < k
  {
    if k <= j {
      AlignedDown(start, j, k);
      NextMultiple(base, start, k);
    }
  }

  /** An aligned power of two that starts inside a larger one ends inside it. */
  lemma Nested(base: nat, k: nat, start: nat, j: nat)
    requires Aligned(base, k) && Aligned(start, j) && j <= k
    requires base <= start < base + Pow2(k)
    ensures start + Pow2(j) <= base + Pow2(k)
  {
    AlignedDown(base, k, j);
    AlignedPower(k, j);
    AlignedAdd(base, Pow2(k), j);
    NextMultiple(start, base + Pow2(k), j);
  }

  /** A tiling by aligned powers of two that starts inside such a block has a chunk boundary at the block's end. */
  lemma {:induction false} Boundary(cs: seq<Chunk>, lo: nat, hi: nat, base: nat, k: nat) returns (i: nat)
    requires Tiles(cs, lo, hi) && (forall x :: x in cs ==> Dyadic(x))
    requires Aligned(base, k) && base <= lo < base + Pow2(k) <= hi
    requires lo == base ==> cs != [] && cs[0].size <= Pow2(k)
    ensures 0 < i <= |cs| && Tiles(cs[i..], base + Pow2(k), hi)
    decreases |cs|
  {
    TilesOrder(cs, lo, hi);
    assert Dyadic(cs[0]);
    var j: nat :| cs[0].size == Pow2(j) && Aligned(cs[0].base, j);
    if base < lo { Smaller(base, k, lo, j); } else if k < j { Pow2Mono(k, j); }
    Nested(base, k, lo, j);
    if lo + cs[0].size == base + Pow2(k) {
      i := 1;
    } else {
      var i' := Boundary(cs[1..], lo + cs[0].size, hi, base, k);
      i := i' + 1;
      assert cs[1..][i'..] == cs[i..];
    }
  }

  /** The first chunk of any such tiling is no larger than the greedy choice, and ends inside it. */
  lemma GreedyBoundary(c: nat, r: nat, cs: seq<Chunk>) returns (i: nat)
    requires r > 0 && Tiles(cs, c, c + r) && (forall x :: x in cs ==> Dyadic(x))
    ensures Pow2(Choice(c, r)) <= r
    ensures 0 < i <= |cs| && Tiles(cs[i..], c + Pow2(Choice(c, r)), c + r)
  {
    TilesOrder(cs, c, c + r);
    var k := Choice(c, r);
    assert Dyadic(cs[0]);
    var j: nat :| cs[0].size == Pow2(j) && Aligned(cs[0].base, j);
    TilesBounds(cs, c, c + r, 0);
    ChoiceMaximal(c, r, j);
    if j < k { Pow2Mono(j, k); }
    i := Boundary(cs, c, c + r, c, k);
  }

  /** The greedy tiling is a shortest one among all tilings by aligned powers of two. */
  lemma {:induction false} TileShortest(c: nat, r: nat, cs: seq<Chunk>)
    requires Tiles(cs, c, c + r) && (forall x :: x in cs ==> Dyadic(x))
    ensures |Tile(c, r)| <= |cs|
    decreases r
  {
    if r > 0 {
      var i := GreedyBoundary(c, r, cs);
      var size := Pow2(Choice(c, r));
      TileShortest(c + size, r - size, cs[i..]);
    }
  }
}
