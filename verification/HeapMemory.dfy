/**
 The in-band headers of the heap: which headers memory must hold for a region to be its block list,
 and which writes keep that so.
 */
module HeapMemory {
  import opened Words
  import opened HeapChain
  import opened HeapRuns

  const MAGIC: nat := 0xDEADBEEF

  datatype Header = Header(magic: nat, free: bool, next: nat)

  /** The headers that can be read, by address. */
  type Memory = map<nat, Header>

  /** Two ranges of `HEADER` bytes do not overlap. */
  predicate Clear(a: nat, b: nat) { a + HEADER <= b || b + HEADER <= a }

  /** Writing a header destroys the headers it overlaps. */
  function Store(mem: Memory, a: nat, h: Header): Memory {
    (map b | b in mem && Clear(a, b) :: mem[b])[a := h]
  }

  ghost predicate LinkAt(mem: Memory, a: nat, bs: seq<Block>, i: nat)
    requires i < |bs|
  {
    Addr(a, bs, i) in mem && mem[Addr(a, bs, i)] == Header(MAGIC, bs[i].free, Addr(a, bs, i + 1))
  }

  /** The headers of a region: one per block, each naming the next, and the end header. */
  ghost predicate Chain(mem: Memory, x: Area) {
    && (forall i | 0 <= i < |x.blocks| :: LinkAt(mem, x.base, x.blocks, i))
    && x.base + Span(x.blocks) in mem && mem[x.base + Span(x.blocks)] == Header(0, false, NULL)
  }

  ghost predicate Same(mem: Memory, mem': Memory, b: nat) { b in mem && b in mem' && mem'[b] == mem[b] }

  // ----- addresses -----

  lemma AddrEnd(a: nat, bs: seq<Block>)
    ensures Addr(a, bs, |bs|) == a + Span(bs) && Addr(a, bs, 0) == a
  {
    assert bs[..|bs|] == bs;
  }

  lemma {:induction false} AddrApart(a: nat, bs: seq<Block>, i: nat, j: nat)
    requires i < j <= |bs|
    ensures Addr(a, bs, i) + HEADER + bs[i].size <= Addr(a, bs, j)
    decreases j
  {
    AddrStep(a, bs, j - 1);
    if i < j - 1 { AddrApart(a, bs, i, j - 1); }
  }

  /** Headers of one chain never overlap. */
  lemma HeadersClear(a: nat, bs: seq<Block>, i: nat, j: nat)
    requires i <= |bs| && j <= |bs| && i != j
    ensures Clear(Addr(a, bs, i), Addr(a, bs, j))
  {
    if i < j { AddrApart(a, bs, i, j); } else { AddrApart(a, bs, j, i); }
  }

  /** Splicing keeps addresses in front, and behind up to the change in the number of blocks. */
  lemma SpliceAddr(a: nat, bs: seq<Block>, i: nat, j: nat, mid: seq<Block>, k: nat)
    requires i <= j <= |bs| && Span(mid) == Span(bs[i..j]) && k <= |Splice(bs, i, j, mid)|
    ensures var out := Splice(bs, i, j, mid);
      && (k <= i ==> Addr(a, out, k) == Addr(a, bs, k))
      && (k >= i + |mid| ==> Addr(a, out, k) == Addr(a, bs, k - i - |mid| + j))
  {
    var out := Splice(bs, i, j, mid);
    if k <= i {
      assert out[..k] == bs[..k];
    } else if k >= i + |mid| {
      var m := k - i - |mid| + j;
      assert out[..k] == (bs[..i] + mid) + bs[j..m];
      assert bs[..m] == (bs[..i] + bs[i..j]) + bs[j..m];
      SpanConcat(bs[..i] + mid, bs[j..m]);
      SpanConcat(bs[..i], mid);
      SpanConcat(bs[..i] + bs[i..j], bs[j..m]);
      SpanConcat(bs[..i], bs[i..j]);
    }
  }

  // ----- writes that keep a chain -----

  /** Memory that agrees on the headers of a region holds the region. */
  lemma ChainFrame(mem: Memory, mem': Memory, x: Area)
    requires Chain(mem, x)
    requires forall i | 0 <= i <= |x.blocks| :: Same(mem, mem', Addr(x.base, x.blocks, i))
    ensures Chain(mem', x)
  {
    AddrEnd(x.base, x.blocks);
    forall i | 0 <= i < |x.blocks| ensures LinkAt(mem', x.base, x.blocks, i) {
      assert LinkAt(mem, x.base, x.blocks, i) && Same(mem, mem', Addr(x.base, x.blocks, i));
    }
    assert Same(mem, mem', Addr(x.base, x.blocks, |x.blocks|));
  }

  lemma ChainHeaders(mem: Memory, x: Area, i: nat)
    requires Chain(mem, x) && i <= |x.blocks|
    ensures Addr(x.base, x.blocks, i) in mem
    ensures x.base <= Addr(x.base, x.blocks, i) && Addr(x.base, x.blocks, i) + HEADER <= x.End()
  {
    AddrEnd(x.base, x.blocks);
    AddrBound(x.base, x.blocks, i);
    if i < |x.blocks| { assert LinkAt(mem, x.base, x.blocks, i); }
  }

  /** A header written outside a region leaves the region alone. */
  lemma StoreOutside(mem: Memory, x: Area, a: nat, h: Header)
    requires Chain(mem, x) && (a + HEADER <= x.base || x.End() <= a)
    ensures Chain(Store(mem, a, h), x)
  {
    forall i | 0 <= i <= |x.blocks| ensures Same(mem, Store(mem, a, h), Addr(x.base, x.blocks, i)) {
      ChainHeaders(mem, x, i);
    }
    ChainFrame(mem, Store(mem, a, h), x);
  }

  /** Anything written into the payload of a block leaves every region alone. */
  lemma PayloadWrite(mem: Memory, mem': Memory, x: Area, k: nat)
    requires Chain(mem, x) && k < |x.blocks|
    requires var lo, hi := Addr(x.base, x.blocks, k) + HEADER, Addr(x.base, x.blocks, k + 1);
      forall b | b in mem && (b + HEADER <= lo || hi <= b) :: b in mem' && mem'[b] == mem[b]
    ensures Chain(mem', x)
  {
    forall i | 0 <= i <= |x.blocks| ensures Same(mem, mem', Addr(x.base, x.blocks, i)) {
      ChainHeaders(mem, x, i);
      AddrStep(x.base, x.blocks, k);
      if i < k { AddrApart(x.base, x.blocks, i, k); }
      if i > k + 1 { AddrApart(x.base, x.blocks, k + 1, i); }
    }
    ChainFrame(mem, mem', x);
  }

  /** The headers outside blocks `i` to `j`, and the end header, are the same. */
  ghost predicate SameOutside(mem: Memory, mem': Memory, x: Area, i: nat, j: nat)
    requires i <= j <= |x.blocks|
  {
    forall k | 0 <= k < i || j <= k <= |x.blocks| :: Same(mem, mem', Addr(x.base, x.blocks, k))
  }

  /** The blocks from `i` up to `n` are linked in memory. */
  ghost predicate Linked(mem: Memory, a: nat, bs: seq<Block>, i: nat, n: nat)
    requires n <= |bs|
  {
    forall k | i <= k < n :: LinkAt(mem, a, bs, k)
  }

  /** Memory that agrees outside blocks `i` to `j` and links `mid` in their place holds the spliced region. */
  lemma ChainSplice(mem: Memory, mem': Memory, x: Area, i: nat, j: nat, mid: seq<Block>)
    requires Chain(mem, x) && i < j <= |x.blocks| && Span(mid) == Span(x.blocks[i..j])
    requires SameOutside(mem, mem', x, i, j) && Linked(mem', x.base, Splice(x.blocks, i, j, mid), i, i + |mid|)
    ensures Chain(mem', x.(blocks := Splice(x.blocks, i, j, mid)))
  {
    var a, bs, out := x.base, x.blocks, Splice(x.blocks, i, j, mid);
    forall k | 0 <= k < |out| ensures LinkAt(mem', a, out, k) {
      LinkSpliced(mem, mem', x, i, j, mid, k);
    }
    EndSpliced(mem, mem', x, i, j, mid);
  }

  lemma LinkSpliced(mem: Memory, mem': Memory, x: Area, i: nat, j: nat, mid: seq<Block>, k: nat)
    requires Chain(mem, x) && i < j <= |x.blocks| && Span(mid) == Span(x.blocks[i..j])
    requires k < |Splice(x.blocks, i, j, mid)|
    requires SameOutside(mem, mem', x, i, j) && Linked(mem', x.base, Splice(x.blocks, i, j, mid), i, i + |mid|)
    ensures LinkAt(mem', x.base, Splice(x.blocks, i, j, mid), k)
  {
    if k < i {
      LinkInFront(mem, mem', x.base, x.blocks, i, j, mid, k);
    } else if k >= i + |mid| {
      LinkBehind(mem, mem', x.base, x.blocks, i, j, mid, k);
    }
  }

  /** The end header stays where it was. */
  lemma EndSpliced(mem: Memory, mem': Memory, x: Area, i: nat, j: nat, mid: seq<Block>)
    requires Chain(mem, x) && i < j <= |x.blocks| && Span(mid) == Span(x.blocks[i..j])
    requires SameOutside(mem, mem', x, i, j)
    ensures var last := x.base + Span(Splice(x.blocks, i, j, mid)); last in mem' && mem'[last] == Header(0, false, NULL)
  {
    var out := Splice(x.blocks, i, j, mid);
    SpliceAddr(x.base, x.blocks, i, j, mid, |out|);
    AddrEnd(x.base, x.blocks);
    AddrEnd(x.base, out);
  }

  lemma LinkInFront(mem: Memory, mem': Memory, a: nat, bs: seq<Block>, i: nat, j: nat, mid: seq<Block>, k: nat)
    requires i <= j <= |bs| && Span(mid) == Span(bs[i..j]) && k < i
    requires LinkAt(mem, a, bs, k) && Same(mem, mem', Addr(a, bs, k))
    ensures LinkAt(mem', a, Splice(bs, i, j, mid), k)
  {
    SpliceAt(bs, i, j, mid, k);
    SpliceAddr(a, bs, i, j, mid, k);
    SpliceAddr(a, bs, i, j, mid, k + 1);
  }

  lemma LinkBehind(mem: Memory, mem': Memory, a: nat, bs: seq<Block>, i: nat, j: nat, mid: seq<Block>, k: nat)
    requires i <= j <= |bs| && Span(mid) == Span(bs[i..j]) && i + |mid| <= k < |Splice(bs, i, j, mid)|
    requires LinkAt(mem, a, bs, k - i - |mid| + j) && Same(mem, mem', Addr(a, bs, k - i - |mid| + j))
    ensures LinkAt(mem', a, Splice(bs, i, j, mid), k)
  {
    SpliceAt(bs, i, j, mid, k);
    SpliceAddr(a, bs, i, j, mid, k);
    SpliceAddr(a, bs, i, j, mid, k + 1);
  }

  /** Taking a whole free block: its header is rewritten. */
  lemma TakeWhole(mem: Memory, x: Area, k: nat)
    requires Chain(mem, x) && k < |x.blocks|
    ensures var mid := [Block(x.blocks[k].size, false)];
      Chain(Store(mem, Addr(x.base, x.blocks, k), Header(MAGIC, false, Addr(x.base, x.blocks, k + 1))),
            x.(blocks := Splice(x.blocks, k, k + 1, mid)))
  {
    var a, bs, mid := x.base, x.blocks, [Block(x.blocks[k].size, false)];
    var mem' := Store(mem, Addr(a, bs, k), Header(MAGIC, false, Addr(a, bs, k + 1)));
    assert bs[k..k + 1] == [bs[k]];
    forall i | (0 <= i < k || k + 1 <= i <= |bs|) ensures Same(mem, mem', Addr(a, bs, i)) {
      HeadersClear(a, bs, k, i);
      ChainHeaders(mem, x, i);
    }
    SpliceAt(bs, k, k + 1, mid, k);
    SpliceAddr(a, bs, k, k + 1, mid, k);
    SpliceAddr(a, bs, k, k + 1, mid, k + 1);
    ChainSplice(mem, mem', x, k, k + 1, mid);
  }

  /** Memory after a split: a header for the rest is written first, then the block's own. */
  function SplitStore(mem: Memory, node: nat, n: nat, next: nat): Memory {
    Store(Store(mem, node + n + HEADER, Header(MAGIC, true, next)), node, Header(MAGIC, false, node + n + HEADER))
  }

  lemma SplitSame(mem: Memory, x: Area, k: nat, n: nat, i: nat)
    requires Chain(mem, x) && k < |x.blocks| && n + HEADER <= x.blocks[k].size && i <= |x.blocks| && i != k
    ensures Same(mem, SplitStore(mem, Addr(x.base, x.blocks, k), n, Addr(x.base, x.blocks, k + 1)), Addr(x.base, x.blocks, i))
  {
    var a, bs, node := x.base, x.blocks, Addr(x.base, x.blocks, k);
    AddrStep(a, bs, k);
    ChainHeaders(mem, x, i);
    BlockClear(a, bs, k, i, node + n + HEADER);
    BlockClear(a, bs, k, i, node);
  }

  /** Splitting a free block links the two pieces in its place. */
  lemma TakeSplit(mem: Memory, x: Area, k: nat, n: nat)
    requires Chain(mem, x) && k < |x.blocks| && n + HEADER <= x.blocks[k].size
    ensures var mid := [Block(n, false), Block(x.blocks[k].size - n - HEADER, true)];
      Chain(SplitStore(mem, Addr(x.base, x.blocks, k), n, Addr(x.base, x.blocks, k + 1)),
            x.(blocks := Splice(x.blocks, k, k + 1, mid)))
  {
    var a, bs := x.base, x.blocks;
    var mid := [Block(n, false), Block(bs[k].size - n - HEADER, true)];
    var mem' := SplitStore(mem, Addr(a, bs, k), n, Addr(a, bs, k + 1));
    forall i | (0 <= i < k || k + 1 <= i <= |bs|) ensures Same(mem, mem', Addr(a, bs, i)) { SplitSame(mem, x, k, n, i); }
    assert Span(mid) == Span(bs[k..k + 1]) by {
      assert bs[k..k + 1] == [bs[k]];
      UsedPair(0, mid[0], mid[1]);
    }
    SplitLinks(a, bs, k, n);
    assert LinkAt(mem', a, Splice(bs, k, k + 1, mid), k);
    assert LinkAt(mem', a, Splice(bs, k, k + 1, mid), k + 1);
    ChainSplice(mem, mem', x, k, k + 1, mid);
  }

  lemma StoreKeeps(mem: Memory, a: nat, h: Header, b: nat)
    requires b in mem && Clear(a, b)
    ensures Same(mem, Store(mem, a, h), b)
  {}

  /** A header inside block `k` overlaps no header of another block. */
  lemma BlockClear(a: nat, bs: seq<Block>, k: nat, i: nat, at: nat)
    requires k < |bs| && i <= |bs| && i != k && Addr(a, bs, k) <= at && at + HEADER <= Addr(a, bs, k + 1)
    ensures Clear(at, Addr(a, bs, i))
  {
    if i < k { AddrApart(a, bs, i, k); }
    if i > k + 1 { AddrApart(a, bs, k + 1, i); }
  }

  lemma SplitLinks(a: nat, bs: seq<Block>, k: nat, n: nat)
    requires k < |bs| && n + HEADER <= bs[k].size
    ensures var mid := [Block(n, false), Block(bs[k].size - n - HEADER, true)];
      var out := Splice(bs, k, k + 1, mid);
      && out[k] == mid[0] && out[k + 1] == mid[1]
      && Addr(a, out, k) == Addr(a, bs, k) && Addr(a, out, k + 1) == Addr(a, bs, k) + HEADER + n
      && Addr(a, out, k + 2) == Addr(a, bs, k + 1)
  {
    var mid := [Block(n, false), Block(bs[k].size - n - HEADER, true)];
    var out := Splice(bs, k, k + 1, mid);
    assert bs[k..k + 1] == [bs[k]];
    UsedPair(0, mid[0], mid[1]);
    SpliceAt(bs, k, k + 1, mid, k);
    SpliceAt(bs, k, k + 1, mid, k + 1);
    SpliceAddr(a, bs, k, k + 1, mid, k);
    AddrStep(a, out, k);
    AddrStep(a, out, k + 1);
    AddrStep(a, bs, k);
  }

  /** Merging blocks `i` to `j` into one free block: the first header is rewritten, the others do not matter. */
  lemma MergeChain(mem: Memory, mem': Memory, x: Area, i: nat, j: nat, b: Block)
    requires Chain(mem, x) && i < j <= |x.blocks| && Span([b]) == Span(x.blocks[i..j])
    requires forall k | 0 <= k < i || j <= k <= |x.blocks| :: Same(mem, mem', Addr(x.base, x.blocks, k))
    requires Addr(x.base, x.blocks, i) in mem'
    requires mem'[Addr(x.base, x.blocks, i)] == Header(MAGIC, b.free, Addr(x.base, x.blocks, j))
    ensures Chain(mem', x.(blocks := Splice(x.blocks, i, j, [b])))
  {
    var a, bs := x.base, x.blocks;
    SpliceAt(bs, i, j, [b], i);
    SpliceAddr(a, bs, i, j, [b], i);
    SpliceAddr(a, bs, i, j, [b], i + 1);
    ChainSplice(mem, mem', x, i, j, [b]);
  }
}
