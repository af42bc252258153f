/**
 One heap region as the list of its blocks: a header of `HEADER` bytes and a payload each, laid end to
 end up to the region's end header. First-fit allocation with splitting, release with merging.
 */
module HeapChain {
  /** `sizeof(HeapNode)` and `HEAP_NODE_MIN_SIZE` on a 64-bit machine. */
  const HEADER: nat := 16
  const MIN_SIZE: nat := 16

  /** A block: payload size, and whether it is free. Its address follows from its position. */
  datatype Block = Block(size: nat, free: bool)

  function Span(bs: seq<Block>): nat { if bs == [] then 0 else HEADER + bs[0].size + Span(bs[1..]) }

  /** Address of block `i` of a chain that starts at `a`; for the length, the end header's. */
  function Addr(a: nat, bs: seq<Block>, i: nat): nat
    requires i <= |bs|
  {
    a + Span(bs[..i])
  }

  /** Payload address and size of every block in use. */
  ghost function Used(a: nat, bs: seq<Block>): map<nat, nat>
    decreases |bs|
  {
    if bs == [] then map[]
    else
      var rest := Used(a + HEADER + bs[0].size, bs[1..]);
      if bs[0].free then rest else rest[a + HEADER := bs[0].size]
  }

  predicate BothFree(x: Block, y: Block) { x.free && y.free }

  /** No two neighbours are both free. */
  ghost predicate Merged(bs: seq<Block>) { forall i | 0 <= i < |bs| - 1 :: !BothFree(bs[i], bs[i + 1]) }

  function Splice(bs: seq<Block>, i: nat, j: nat, mid: seq<Block>): seq<Block>
    requires i <= j <= |bs|
  {
    bs[..i] + mid + bs[j..]
  }

  lemma SpliceAt(bs: seq<Block>, i: nat, j: nat, mid: seq<Block>, k: nat)
    requires i <= j <= |bs| && k < |Splice(bs, i, j, mid)|
    ensures Splice(bs, i, j, mid)[k] ==
      if k < i then bs[k] else if k < i + |mid| then mid[k - i] else bs[k - i - |mid| + j]
  {}

  // ----- allocation -----

  predicate Fits(b: Block, n: nat) { b.free && b.size >= n }

  function FirstFit(bs: seq<Block>, n: nat): (i: nat)
    ensures i <= |bs| && (i < |bs| ==> Fits(bs[i], n)) && forall j | 0 <= j < i :: !Fits(bs[j], n)
  {
    if bs == [] || Fits(bs[0], n) then 0 else 1 + FirstFit(bs[1..], n)
  }

  /** A free block turned into one in use, followed by the rest of it when that is worth a header. */
  function Cut(b: Block, n: nat): seq<Block>
    requires b.size >= n
  {
    if b.size - n >= MIN_SIZE + HEADER then [Block(n, false), Block(b.size - n - HEADER, true)] else [Block(b.size, false)]
  }

  function Allocate(bs: seq<Block>, n: nat): seq<Block> {
    var i := FirstFit(bs, n);
    if i == |bs| then bs else Splice(bs, i, i + 1, Cut(bs[i], n))
  }

  // ----- release -----

  /** The block strictly inside which `ptr` points, or the number of blocks. */
  function Owner(a: nat, bs: seq<Block>, ptr: nat): (i: nat)
    ensures i <= |bs|
    decreases |bs|
  {
    if bs == [] || a < ptr < a + HEADER + bs[0].size then 0 else 1 + Owner(a + HEADER + bs[0].size, bs[1..], ptr)
  }

  function Joined(x: Block, y: Block): Block { Block(x.size + HEADER + y.size, true) }

  /** Block `i` freed and merged with its free neighbours. */
  function Release(bs: seq<Block>, i: nat): seq<Block>
    requires i < |bs|
  {
    var right := i + 1 < |bs| && bs[i + 1].free;
    var left := i > 0 && bs[i - 1].free;
    var b := if right then Joined(bs[i], bs[i + 1]) else Block(bs[i].size, true);
    var j := if right then i + 2 else i + 1;
    if left then Splice(bs, i - 1, j, [Joined(bs[i - 1], b)]) else Splice(bs, i, j, [b])
  }

  // ----- concatenation -----

  lemma {:induction false} SpanConcat(xs: seq<Block>, ys: seq<Block>)
    ensures Span(xs + ys) == Span(xs) + Span(ys)
  {
    if xs == [] {
      assert xs + ys == ys;
    } else {
      assert (xs + ys)[1..] == xs[1..] + ys;
      SpanConcat(xs[1..], ys);
    }
  }

  lemma {:induction false} UsedBounds(a: nat, bs: seq<Block>)
    ensures forall p | p in Used(a, bs) :: a + HEADER <= p && p + Used(a, bs)[p] <= a + Span(bs)
    decreases |bs|
  {
    if bs != [] { UsedBounds(a + HEADER + bs[0].size, bs[1..]); }
  }

  lemma {:induction false} UsedConcat(a: nat, xs: seq<Block>, ys: seq<Block>)
    ensures Used(a, xs + ys) == Used(a, xs) + Used(a + Span(xs), ys)
    ensures Used(a, xs).Keys !! Used(a + Span(xs), ys).Keys
    decreases |xs|
  {
    UsedBounds(a, xs);
    UsedBounds(a + Span(xs), ys);
    if xs == [] {
      assert xs + ys == ys;
    } else {
      assert (xs + ys)[1..] == xs[1..] + ys;
      UsedConcat(a + HEADER + xs[0].size, xs[1..], ys);
    }
  }

  /** Payloads in use never overlap: between two of them lies at least a header. */
  lemma {:induction false} UsedApart(a: nat, bs: seq<Block>, p: nat, q: nat)
    requires p in Used(a, bs) && q in Used(a, bs) && p < q
    ensures p + Used(a, bs)[p] + HEADER <= q
    decreases |bs|
  {
    var next := a + HEADER + bs[0].size;
    UsedBounds(next, bs[1..]);
    if p in Used(next, bs[1..]) && q in Used(next, bs[1..]) { UsedApart(next, bs[1..], p, q); }
  }

  /** Replacing blocks by others of the same extent changes only what lies between. */
  lemma SpliceUsed(a: nat, bs: seq<Block>, i: nat, j: nat, mid: seq<Block>)
    requires i <= j <= |bs| && Span(mid) == Span(bs[i..j])
    ensures var out := Splice(bs, i, j, mid);
      && Span(out) == Span(bs)
      && Used(a, bs) == Used(a, bs[..i]) + Used(Addr(a, bs, i), bs[i..j]) + Used(Addr(a, bs, j), bs[j..])
      && Used(a, out) == Used(a, bs[..i]) + Used(Addr(a, bs, i), mid) + Used(Addr(a, bs, j), bs[j..])
      && Addr(a, bs, j) == Addr(a, bs, i) + Span(mid)
  {
    var pre, was, post := bs[..i], bs[i..j], bs[j..];
    assert bs == (pre + was) + post && bs[..j] == pre + was;
    SpanConcat(pre, was);
    SpanConcat(pre + was, post);
    SpanConcat(pre, mid);
    SpanConcat(pre + mid, post);
    UsedConcat(a, pre, was);
    UsedConcat(a, pre + was, post);
    UsedConcat(a, pre, mid);
    UsedConcat(a, pre + mid, post);
  }

  // ----- what allocation does -----

  /** Used payloads outside `[lo, hi)` of the address range of a spliced middle. */
  lemma OutsideMiddle(a: nat, bs: seq<Block>, i: nat, j: nat)
    requires i <= j <= |bs|
    ensures var lo, hi := Addr(a, bs, i), Addr(a, bs, j);
      && (forall p | p in Used(a, bs[..i]) :: p <= lo)
      && (forall p | p in Used(hi, bs[j..]) :: p >= hi + HEADER)
      && lo <= hi
  {
    UsedBounds(a, bs[..i]);
    UsedBounds(Addr(a, bs, j), bs[j..]);
    assert bs[..j] == bs[..i] + bs[i..j];
    SpanConcat(bs[..i], bs[i..j]);
  }

  lemma CutUsed(a: nat, b: Block, n: nat)
    requires Fits(b, n)
    ensures Span(Cut(b, n)) == Span([b]) && Used(a, [b]) == map[]
    ensures Used(a, Cut(b, n)) == map[a + HEADER := Cut(b, n)[0].size]
    ensures n <= Cut(b, n)[0].size < n + MIN_SIZE + HEADER
  {
    var c := Cut(b, n);
    var next := a + HEADER + c[0].size;
    if |c| == 2 {
      assert c[1..] == [c[1]];
      assert Used(next, c[1..]) == map[];
    } else {
      assert c[1..] == [];
    }
  }

  /** First fit hands out one new payload of at least `n` and less than `n + 32` bytes and disturbs no other. */
  lemma AllocateUsed(a: nat, bs: seq<Block>, n: nat)
    requires FirstFit(bs, n) < |bs|
    ensures var p := Addr(a, bs, FirstFit(bs, n)) + HEADER;
      && p !in Used(a, bs)
      && Span(Allocate(bs, n)) == Span(bs)
      && p in Used(a, Allocate(bs, n)) && n <= Used(a, Allocate(bs, n))[p] < n + MIN_SIZE + HEADER
      && Used(a, Allocate(bs, n)) - {p} == Used(a, bs)
  {
    var i := FirstFit(bs, n);
    var at := Addr(a, bs, i);
    CutUsed(at, bs[i], n);
    assert bs[i..i + 1] == [bs[i]];
    SpliceUsed(a, bs, i, i + 1, Cut(bs[i], n));
    OutsideMiddle(a, bs, i, i + 1);
  }

  /** The payload address of the first block is in use exactly when that block is. */
  lemma FirstUsed(a: nat, bs: seq<Block>)
    requires bs != []
    ensures a + HEADER in Used(a, bs) <==> !bs[0].free
    ensures !bs[0].free ==> Used(a, bs)[a + HEADER] == bs[0].size
  {
    UsedBounds(a + HEADER + bs[0].size, bs[1..]);
  }

  lemma AllocateMerged(bs: seq<Block>, n: nat)
    requires Merged(bs)
    ensures Merged(Allocate(bs, n))
  {
    var i := FirstFit(bs, n);
    if i < |bs| {
      var c := Cut(bs[i], n);
      var out := Splice(bs, i, i + 1, c);
      forall k | 0 <= k < |out| - 1 ensures !BothFree(out[k], out[k + 1]) {
        SpliceAt(bs, i, i + 1, c, k);
        SpliceAt(bs, i, i + 1, c, k + 1);
        if k + 1 < i {
          assert !BothFree(bs[k], bs[k + 1]);
        } else if k >= i + |c| {
          var m := k - |c| + 1;
          assert out[k] == bs[m] && out[k + 1] == bs[m + 1] && !BothFree(bs[m], bs[m + 1]);
        } else if k == i + |c| - 1 {
          assert out[k] == c[|c| - 1] && out[k + 1] == bs[i + 1] && !BothFree(bs[i], bs[i + 1]);
        }
      }
    }
  }

  // ----- what release does -----

  /** The owner of an address is the block whose header or payload it points into. */
  lemma {:induction false} OwnerFound(a: nat, bs: seq<Block>, ptr: nat)
    ensures var i := Owner(a, bs, ptr);
      && (i < |bs| ==> Addr(a, bs, i) < ptr < Addr(a, bs, i + 1))
      && (forall k | 0 <= k < i :: !(Addr(a, bs, k) < ptr < Addr(a, bs, k + 1)))
    decreases |bs|
  {
    if bs != [] {
      var next, i := a + HEADER + bs[0].size, Owner(a, bs, ptr);
      OwnerFound(next, bs[1..], ptr);
      forall k | 0 <= k < |bs| ensures Addr(a, bs, k + 1) == Addr(next, bs[1..], k) { AddrCons(a, bs, k); }
      assert Addr(a, bs, 0) == a && Addr(a, bs, 0 + 1) == Addr(next, bs[1..], 0) == next;
      forall k | 0 <= k < i ensures !(Addr(a, bs, k) < ptr < Addr(a, bs, k + 1)) {
        if k > 0 {
          assert Addr(a, bs, k - 1 + 1) == Addr(next, bs[1..], k - 1);
          assert !(Addr(next, bs[1..], k - 1) < ptr < Addr(next, bs[1..], k - 1 + 1));
        }
      }
      if 0 < i < |bs| { assert Addr(a, bs, i) == Addr(next, bs[1..], i - 1); }
    }
  }

  lemma AddrCons(a: nat, bs: seq<Block>, k: nat)
    requires k < |bs|
    ensures Addr(a, bs, k + 1) == Addr(a + HEADER + bs[0].size, bs[1..], k)
  {
    assert bs[..k + 1][1..] == bs[1..][..k];
  }

  lemma AddrStep(a: nat, bs: seq<Block>, i: nat)
    requires i < |bs|
    ensures Addr(a, bs, i + 1) == Addr(a, bs, i) + HEADER + bs[i].size
  {
    assert bs[..i + 1] == bs[..i] + [bs[i]];
    SpanConcat(bs[..i], [bs[i]]);
  }

  /** Any address inside a payload in use belongs to that payload's block. */
  lemma {:induction false} UsedOwner(a: nat, bs: seq<Block>, p: nat, q: nat)
    requires p in Used(a, bs) && p <= q < p + Used(a, bs)[p]
    ensures var i := Owner(a, bs, q);
      i < |bs| && !bs[i].free && Addr(a, bs, i) + HEADER == p && bs[i].size == Used(a, bs)[p]
    decreases |bs|
  {
    var next := a + HEADER + bs[0].size;
    UsedBounds(next, bs[1..]);
    if p in Used(next, bs[1..]) {
      UsedOwner(next, bs[1..], p, q);
      var k := Owner(next, bs[1..], q);
      AddrCons(a, bs, k);
    } else {
      assert bs[..0] == [];
    }
  }

  lemma UsedFree(a: nat, b: Block)
    requires b.free
    ensures Used(a, [b]) == map[]
  {}

  lemma UsedPair(a: nat, x: Block, y: Block)
    ensures Used(a, [x, y]) == Used(a, [x]) + Used(a + HEADER + x.size, [y])
    ensures Span([x, y]) == Span([x]) + Span([y])
  {
    assert [x, y] == [x] + [y];
    UsedConcat(a, [x], [y]);
    SpanConcat([x], [y]);
  }

  /** The range of blocks that releasing block `i` turns into one. */
  function Lo(bs: seq<Block>, i: nat): nat
    requires i < |bs|
  {
    if i > 0 && bs[i - 1].free then i - 1 else i
  }

  function Hi(bs: seq<Block>, i: nat): nat
    requires i < |bs|
  {
    if i + 1 < |bs| && bs[i + 1].free then i + 2 else i + 1
  }

  /** Blocks around `i` that a release replaces by one free block of the same extent. */
  lemma ReleaseShape(bs: seq<Block>, i: nat)
    requires i < |bs|
    ensures var lo := Lo(bs, i);
      var hi := Hi(bs, i);
      exists b: Block :: b.free && Span([b]) == Span(bs[lo..hi]) && Release(bs, i) == Splice(bs, lo, hi, [b])
  {
    var right := i + 1 < |bs| && bs[i + 1].free;
    var left := i > 0 && bs[i - 1].free;
    var b := if right then Joined(bs[i], bs[i + 1]) else Block(bs[i].size, true);
    var lo, hi := if left then i - 1 else i, if right then i + 2 else i + 1;
    assert Span(bs[i..hi]) == Span([b]) by {
      if right {
        assert bs[i..hi] == [bs[i], bs[i + 1]];
        UsedPair(0, bs[i], bs[i + 1]);
      } else {
        assert bs[i..hi] == [bs[i]];
      }
    }
    if left {
      assert bs[lo..hi] == [bs[i - 1]] + bs[i..hi];
      SpanConcat([bs[i - 1]], bs[i..hi]);
      assert Span([Joined(bs[i - 1], b)]) == Span(bs[lo..hi]);
    }
  }

  /** The payloads in use among the blocks that a release replaces: the released one. */
  lemma ReleasedUsed(a: nat, bs: seq<Block>, i: nat)
    requires i < |bs| && !bs[i].free
    ensures var lo := Lo(bs, i);
      var hi := Hi(bs, i);
      Used(Addr(a, bs, lo), bs[lo..hi]) == map[Addr(a, bs, i) + HEADER := bs[i].size]
  {
    var lo := Lo(bs, i);
    var hi := Hi(bs, i);
    var at := Addr(a, bs, i);
    var me := map[at + HEADER := bs[i].size];
    assert Used(at, [bs[i]]) == me;
    assert Used(at, bs[i..hi]) == me by {
      if hi == i + 2 {
        assert bs[i..hi] == [bs[i], bs[i + 1]];
        UsedPair(at, bs[i], bs[i + 1]);
        UsedFree(at + HEADER + bs[i].size, bs[i + 1]);
      } else {
        assert bs[i..hi] == [bs[i]];
      }
    }
    if lo == i - 1 {
      AddrStep(a, bs, i - 1);
      assert bs[lo..hi] == [bs[i - 1]] + bs[i..hi];
      UsedConcat(Addr(a, bs, lo), [bs[i - 1]], bs[i..hi]);
      UsedFree(Addr(a, bs, lo), bs[i - 1]);
    }
  }

  /** Releasing a block takes exactly its payload out of use. */
  lemma ReleaseUsed(a: nat, bs: seq<Block>, i: nat)
    requires i < |bs| && !bs[i].free
    ensures var p := Addr(a, bs, i) + HEADER;
      && Span(Release(bs, i)) == Span(bs)
      && p in Used(a, bs)
      && Used(a, Release(bs, i)) == Used(a, bs) - {p}
  {
    var lo := Lo(bs, i);
    var hi := Hi(bs, i);
    ReleaseShape(bs, i);
    var b: Block :| b.free && Span([b]) == Span(bs[lo..hi]) && Release(bs, i) == Splice(bs, lo, hi, [b]);
    SpliceUsed(a, bs, lo, hi, [b]);
    UsedFree(Addr(a, bs, lo), b);
    ReleasedUsed(a, bs, i);
    ReleaseOutside(a, bs, i);
    DropMiddle(Used(a, bs[..lo]), Addr(a, bs, i) + HEADER, bs[i].size, Used(Addr(a, bs, hi), bs[hi..]));
  }

  lemma ReleaseOutside(a: nat, bs: seq<Block>, i: nat)
    requires i < |bs|
    ensures var p := Addr(a, bs, i) + HEADER;
      p !in Used(a, bs[..Lo(bs, i)]) && p !in Used(Addr(a, bs, Hi(bs, i)), bs[Hi(bs, i)..])
  {
    OutsideMiddle(a, bs, Lo(bs, i), i);
    OutsideMiddle(a, bs, i + 1, Hi(bs, i));
    AddrStep(a, bs, i);
  }

  lemma DropMiddle(A: map<nat, nat>, p: nat, n: nat, C: map<nat, nat>)
    requires p !in A && p !in C
    ensures p in A + map[p := n] + C && (A + map[p := n] + C) - {p} == A + map[] + C
  {}

  /** Release leaves no two free neighbours. */
  lemma ReleaseMerged(bs: seq<Block>, i: nat)
    requires i < |bs| && Merged(bs)
    ensures Merged(Release(bs, i)) && Release(bs, i) != []
  {
    var lo := Lo(bs, i);
    var hi := Hi(bs, i);
    ReleaseShape(bs, i);
    var b: Block :| b.free && Span([b]) == Span(bs[lo..hi]) && Release(bs, i) == Splice(bs, lo, hi, [b]);
    var out := Splice(bs, lo, hi, [b]);
    if lo > 0 && lo < i { assert !BothFree(bs[lo - 1], bs[lo - 1 + 1]); }
    if hi < |bs| && hi == i + 2 { assert !BothFree(bs[i + 1], bs[i + 1 + 1]); }
    forall k | 0 <= k < |out| - 1 ensures !BothFree(out[k], out[k + 1]) {
      SpliceAt(bs, lo, hi, [b], k);
      SpliceAt(bs, lo, hi, [b], k + 1);
      if k + 1 < lo {
        assert !BothFree(bs[k], bs[k + 1]);
      } else if k > lo {
        var m := k - 1 - lo + hi;
        assert out[k] == bs[m] && out[k + 1] == bs[m + 1] && !BothFree(bs[m], bs[m + 1]);
      }
    }
  }

  /** With nothing in use a merged region is one free block. */
  lemma AllFree(a: nat, bs: seq<Block>)
    requires Merged(bs) && bs != [] && Used(a, bs) == map[]
    ensures bs == [Block(Span(bs) - HEADER, true)]
  {
    NothingUsed(a, bs);
    TwoFree(bs);
    assert bs == [bs[0]];
  }

  lemma TwoFree(bs: seq<Block>)
    ensures |bs| >= 2 && (forall i | 0 <= i < |bs| :: bs[i].free) ==> !Merged(bs)
  {
    if |bs| >= 2 && (forall i | 0 <= i < |bs| :: bs[i].free) { assert BothFree(bs[0], bs[0 + 1]); }
  }

  lemma {:induction false} NothingUsed(a: nat, bs: seq<Block>)
    requires Used(a, bs) == map[]
    ensures forall i | 0 <= i < |bs| :: bs[i].free
    decreases |bs|
  {
    if bs != [] {
      assert !bs[0].free ==> a + HEADER in Used(a, bs);
      NothingUsed(a + HEADER + bs[0].size, bs[1..]);
    }
  }
}
