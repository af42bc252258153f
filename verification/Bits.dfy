/** Bitwise operations on unsigned words, as functions of natural numbers. */
module Bits {
  import opened Arithmetic
  import opened Tiling

  function And(a: nat, b: nat): nat
    decreases a
  {
    if a == 0 || b == 0 then 0 else (if a % 2 == 1 && b % 2 == 1 then 1 else 0) + 2 * And(a / 2, b / 2)
  }

  function Or(a: nat, b: nat): nat
    decreases a
  {
    if a == 0 then b else if b == 0 then a else
      (if a % 2 == 1 || b % 2 == 1 then 1 else 0) + 2 * Or(a / 2, b / 2)
  }

  predicate Bit(x: nat, i: nat) { if i == 0 then x % 2 == 1 else Bit(x / 2, i - 1) }

  function PopCount(x: nat): nat { if x == 0 then 0 else x % 2 + PopCount(x / 2) }

  /** The lowest `k` bits cleared. */
  function Floor(x: nat, k: nat): nat { if k == 0 then x else 2 * Floor(x / 2, k - 1) }

  // ----- low bits -----

  /** Masking with one less than a power of two gives zero exactly on its multiples. */
  lemma {:induction false} AndBelow(x: nat, k: nat)
    ensures And(x, Pow2(k) - 1) == 0 <==> Aligned(x, k)
    decreases k
  {
    if x == 0 {
      AlignedZero(k);
    } else if k > 0 {
      AndBelow(x / 2, k - 1);
      assert (Pow2(k) - 1) / 2 == Pow2(k - 1) - 1;
    }
  }

  /** Masking with one less than a power of two is the remainder. */
  lemma {:induction false} AndMod(x: nat, k: nat)
    ensures And(x, Pow2(k) - 1) == x % Pow2(k)
    decreases k
  {
    if k > 0 {
      AndMod(x / 2, k - 1);
      RemainderBits(x, Pow2(k - 1));
      assert (Pow2(k) - 1) / 2 == Pow2(k - 1) - 1;
    }
  }

  lemma {:induction false} AndSelf(x: nat)
    ensures And(x, x) == x
  {
    if x > 0 { AndSelf(x / 2); }
  }

  lemma {:induction false} AndCommutes(a: nat, b: nat)
    ensures And(a, b) == And(b, a)
    decreases a
  {
    if a > 0 && b > 0 { AndCommutes(a / 2, b / 2); }
  }

  /** Masking with the bits from `k` up to `m` clears the low `k` bits of a value of `m` bits. */
  lemma {:induction false} AndBand(x: nat, m: nat, k: nat)
    requires x < Pow2(m) && k <= m
    ensures Pow2(k) <= Pow2(m) && And(x, Pow2(m) - Pow2(k)) == Floor(x, k)
    decreases m
  {
    if m == 0 {
    } else if k == 0 {
      AndBand(x / 2, m - 1, 0);
      assert x > 0 ==> (Pow2(m) - 1) / 2 == Pow2(m - 1) - 1;
    } else {
      AndBand(x / 2, m - 1, k - 1);
      assert Pow2(m) - Pow2(k) == 2 * (Pow2(m - 1) - Pow2(k - 1));
      FloorZero(k);
    }
  }

  lemma {:induction false} FloorZero(k: nat)
    ensures Floor(0, k) == 0
  {
    if k > 0 { FloorZero(k - 1); }
  }

  lemma {:induction false} FloorAligned(x: nat, k: nat)
    requires Aligned(x, k)
    ensures Floor(x, k) == x
    decreases k
  {
    if k > 0 { FloorAligned(x / 2, k - 1); }
  }

  /** Clearing the low bits identifies exactly the addresses of one aligned block. */
  lemma {:induction false} FloorSame(base: nat, x: nat, k: nat)
    requires Aligned(base, k)
    ensures Floor(x, k) == base <==> base <= x < base + Pow2(k)
    decreases k
  {
    if k > 0 { FloorSame(base / 2, x / 2, k - 1); }
  }

  /** Low bits added to an aligned value are an `or`, and are cleared again by `Floor`. */
  lemma {:induction false} OrLow(x: nat, t: nat, k: nat)
    requires Aligned(x, k) && t < Pow2(k)
    ensures Or(x, t) == x + t
    ensures Floor(x + t, k) == x
    decreases k
  {
    if k > 0 {
      OrLow(x / 2, t / 2, k - 1);
      assert (x + t) / 2 == x / 2 + t / 2;
    }
  }

  /** An aligned value below a power of two leaves room for the whole block. */
  lemma AlignedRoom(x: nat, k: nat, m: nat)
    requires Aligned(x, k) && k <= m && x < Pow2(m)
    ensures x + Pow2(k) <= Pow2(m)
  {
    AlignedPower(m, k);
    NextMultiple(x, Pow2(m), k);
  }

  // ----- single bits -----

  lemma {:induction false} AndBit(x: nat, i: nat)
    ensures And(x, Pow2(i)) == 0 <==> !Bit(x, i)
    decreases i
  {
    if i == 0 {
    } else if x == 0 {
      BitZero(i);
    } else {
      AndBit(x / 2, i - 1);
      assert Pow2(i) / 2 == Pow2(i - 1);
    }
  }

  lemma {:induction false} BitZero(i: nat)
    ensures !Bit(0, i)
  {
    if i > 0 { BitZero(i - 1); }
  }

  lemma {:induction false} BitPower(i: nat, j: nat)
    ensures Bit(Pow2(i), j) <==> i == j
    decreases i
  {
    if i == 0 {
      if j > 0 { BitZero(j - 1); }
    } else if j > 0 {
      assert Pow2(i) / 2 == Pow2(i - 1);
      BitPower(i - 1, j - 1);
    }
  }

  lemma {:induction false} BitOr(a: nat, b: nat, j: nat)
    ensures Bit(Or(a, b), j) <==> Bit(a, j) || Bit(b, j)
    decreases j
  {
    if a == 0 || b == 0 { BitZero(j); } else if j > 0 { BitOr(a / 2, b / 2, j - 1); }
  }

  lemma {:induction false} BitAnd(a: nat, b: nat, j: nat)
    ensures Bit(And(a, b), j) <==> Bit(a, j) && Bit(b, j)
    decreases j
  {
    if a == 0 || b == 0 { BitZero(j); } else if j > 0 { BitAnd(a / 2, b / 2, j - 1); }
  }

  /** The bits of the complement of a `w`-bit word. */
  lemma {:induction false} BitNot(x: nat, w: nat, j: nat)
    requires x < Pow2(w)
    ensures Bit(Pow2(w) - 1 - x, j) <==> j < w && !Bit(x, j)
    decreases w
  {
    if w == 0 {
      BitZero(j);
    } else if j > 0 {
      assert (Pow2(w) - 1 - x) / 2 == Pow2(w - 1) - 1 - x / 2;
      BitNot(x / 2, w - 1, j - 1);
    }
  }

  /** Setting a clear bit counts one more and stays within the width. */
  lemma {:induction false} OrCount(x: nat, i: nat, w: nat)
    requires !Bit(x, i) && i < w && x < Pow2(w)
    ensures PopCount(Or(x, Pow2(i))) == PopCount(x) + 1
    ensures Or(x, Pow2(i)) < Pow2(w)
    decreases i
  {
    if x == 0 {
      PowerCount(i);
      Pow2Mono(i, w);
    } else if i > 0 {
      OrCount(x / 2, i - 1, w - 1);
      assert Pow2(i) / 2 == Pow2(i - 1);
    } else {
      assert Or(x, 1) == 1 + 2 * Or(x / 2, 0);
    }
  }

  lemma {:induction false} PowerCount(i: nat)
    ensures PopCount(Pow2(i)) == 1
  {
    if i > 0 { PowerCount(i - 1); }
  }

  /** If the low `v` bits are all set, at least `v` bits are. */
  lemma {:induction false} AllSet(x: nat, v: nat)
    requires forall i :: 0 <= i < v ==> Bit(x, i)
    ensures PopCount(x) >= v
    decreases v
  {
    if v > 0 {
      assert Bit(x, 0);
      forall i | 0 <= i < v - 1 ensures Bit(x / 2, i) {
        assert Bit(x, i + 1);
      }
      AllSet(x / 2, v - 1);
    }
  }

  /** Clearing the lowest set bit. */
  lemma {:induction false} DropLowest(x: nat)
    requires x > 0
    ensures And(x, x - 1) < x
    ensures PopCount(And(x, x - 1)) == PopCount(x) - 1
  {
    if x % 2 == 1 {
      AndSelf(x / 2);
      assert (x - 1) / 2 == x / 2;
    } else {
      DropLowest(x / 2);
      assert (x - 1) / 2 == x / 2 - 1;
    }
  }

  /** Counts the set bits by clearing the lowest one until none is left. */
  method BitCount(word: nat) returns (count: nat)
    ensures count == PopCount(word)
  {
    var value := word;
    count := 0;
    while value != 0
      invariant count + PopCount(value) == PopCount(word)
    {
      DropLowest(value);
      value := And(value, value - 1);
      count := count + 1;
    }
  }
}
