/**
 Runs of the physical memory manager: allocation undone by release, and the invariant that
 every run of allocations and releases keeps.
 */
module PmmRuns {
  import opened Options
  import opened Words
  import opened Regions
  import opened PmmSpec

  // ----- round trip -----

  /** A merged list is a fixpoint of merging around any of its regions. */
  lemma MergeAroundStable(rs: seq<Region>, i: nat)
    requires i < |rs| && Coalesced(rs)
    ensures MergeAround(rs, i) == rs
  {
    if i > 0 { assert !Mergeable(rs[i - 1], rs[i - 1 + 1]); }
    if i + 1 < |rs| { assert !Mergeable(rs[i], rs[i + 1]); }
  }

  /** Pieces of a USABLE region that stay USABLE. */
  lemma PiecesShape(r: Region, p: nat, n: nat)
    requires r.base <= p && p + n <= r.End()
    ensures var lo, mid, hi :=
        Region(r.base, p - r.base, Usable), Region(p, n, Usable), Region(p + n, r.End() - (p + n), Usable);
      Pieces(r, p, n, Usable) ==
        if p == r.base then (if p + n == r.End() then [mid] else [mid, hi])
        else if p + n == r.End() then [lo, mid] else [lo, mid, hi]
  {}

  /** A USABLE region cut in two is restored by merging around the lower piece. */
  lemma MergeRight(rs: seq<Region>, i: nat, n: nat)
    requires Coalesced(rs) && i < |rs| && rs[i].kind.Usable? && 0 < n < rs[i].size
    ensures MergeAround(Splice(rs, i, Pieces(rs[i], rs[i].base, n, Usable)), i) == rs
  {
    var c := Pieces(rs[i], rs[i].base, n, Usable);
    var l := Splice(rs, i, c);
    PiecesShape(rs[i], rs[i].base, n);
    if i > 0 { assert !Mergeable(rs[i - 1], rs[i - 1 + 1]); }
    assert l[i] == c[0] && l[i + 1] == c[1];
    assert Join(l, i) == rs by { assert Hull(c[0], c[1]) == rs[i]; }
    MergeAroundStable(rs, i);
  }

  /** The same, merging around the upper piece. */
  lemma MergeLeft(rs: seq<Region>, i: nat, p: nat)
    requires Coalesced(rs) && i < |rs| && rs[i].kind.Usable? && rs[i].base < p < rs[i].End()
    ensures MergeAround(Splice(rs, i, Pieces(rs[i], p, rs[i].End() - p, Usable)), i + 1) == rs
  {
    var c := Pieces(rs[i], p, rs[i].End() - p, Usable);
    var l := Splice(rs, i, c);
    PiecesShape(rs[i], p, rs[i].End() - p);
    assert l[i] == c[0] && l[i + 1] == c[1];
    assert Join(l, i) == rs by { assert Hull(c[0], c[1]) == rs[i]; }
    MergeAroundStable(rs, i);
  }

  /** A USABLE region cut in three is restored by merging around the middle piece. */
  lemma MergeMiddle(rs: seq<Region>, i: nat, p: nat, n: nat)
    requires Coalesced(rs) && i < |rs| && rs[i].kind.Usable? && rs[i].base < p < p + n < rs[i].End()
    ensures MergeAround(Splice(rs, i, Pieces(rs[i], p, n, Usable)), i + 1) == rs
  {
    JoinPieces(rs, i, p, n);
    MergeRight(rs, i, p + n - rs[i].base);
  }

  lemma JoinPieces(rs: seq<Region>, i: nat, p: nat, n: nat)
    requires i < |rs| && rs[i].base < p < p + n < rs[i].End()
    ensures var l := Splice(rs, i, Pieces(rs[i], p, n, Usable));
      && Joinable(l, i)
      && Join(l, i) == Splice(rs, i, Pieces(rs[i], rs[i].base, p + n - rs[i].base, Usable))
  {
    var r, c, cut := rs[i], Pieces(rs[i], p, n, Usable), p + n - rs[i].base;
    PiecesShape(r, p, n);
    PiecesShape(r, r.base, cut);
    JoinMiddle(rs[..i], c[0], c[1], [c[2]] + rs[i + 1..]);
    SpliceParts(rs, i, c[0], c[1], c[2]);
    assert c == [c[0], c[1], c[2]];
  }

  lemma SpliceParts(rs: seq<Region>, i: nat, a: Region, b: Region, c: Region)
    requires i < |rs|
    ensures Splice(rs, i, [a, b, c]) == rs[..i] + [a, b] + ([c] + rs[i + 1..])
    ensures Splice(rs, i, [Hull(a, b), c]) == rs[..i] + [Hull(a, b)] + ([c] + rs[i + 1..])
  {}

  lemma JoinMiddle(pre: seq<Region>, a: Region, b: Region, post: seq<Region>)
    ensures Join(pre + [a, b] + post, |pre|) == pre + [Hull(a, b)] + post
  {}

  lemma FindBaseUnique(rs: seq<Region>, k: nat)
    requires Valid(rs) && k < |rs|
    ensures FindBase(rs, rs[k].base) == k
  {
    forall i | 0 <= i < k ensures rs[i].base != rs[k].base {
      assert rs[i].End() <= rs[k].base;
    }
  }

  lemma RetypedSplice(rs: seq<Region>, i: nat, mid: seq<Region>, j: nat)
    requires i < |rs| && j < |mid|
    ensures i + j < |Splice(rs, i, mid)| && Splice(rs, i, mid)[i + j] == mid[j]
    ensures Retyped(Splice(rs, i, mid), i + j) == Splice(rs, i, mid[j := mid[j].(kind := Usable)])
  {}

  function Place(r: Region, p: nat): nat { if p > r.base then 1 else 0 }

  lemma MergePieces(rs: seq<Region>, i: nat, p: nat, n: nat)
    requires Coalesced(rs) && i < |rs| && rs[i].kind.Usable? && 0 < n
    requires rs[i].base <= p && p + n <= rs[i].End()
    ensures var l := Splice(rs, i, Pieces(rs[i], p, n, Usable));
      var k := i + Place(rs[i], p);
      k < |l| && MergeAround(l, k) == rs
  {
    var r := rs[i];
    if r.base < p && p + n < r.End() {
      MergeMiddle(rs, i, p, n);
    } else if r.base < p {
      MergeLeft(rs, i, p);
    } else if n < r.size {
      MergeRight(rs, i, n);
    } else {
      assert Splice(rs, i, Pieces(r, p, n, Usable)) == rs;
      MergeAroundStable(rs, i);
    }
  }

  /** Retyping the reserved piece of a carved region leaves three USABLE pieces. */
  lemma RetypeCarved(rs: seq<Region>, i: nat, p: nat, n: nat)
    requires i < |rs| && rs[i].base <= p && p + n <= rs[i].End()
    ensures var out := Splice(rs, i, Carve(rs[i], p, n));
      var k := i + Place(rs[i], p);
      && k < |out| && out[k] == Region(p, n, Reserved)
      && Retyped(out, k) == Splice(rs, i, Pieces(rs[i], p, n, Usable))
  {
    var c, j := Carve(rs[i], p, n), Place(rs[i], p);
    RetypedSplice(rs, i, c, j);
    assert c[j := Region(p, n, Usable)] == Pieces(rs[i], p, n, Usable);
  }

  /** From a merged list, releasing what a request returned restores the very same list. */
  lemma AllocThenFree(rs: seq<Region>, kb: nat)
    requires Valid(rs) && Coalesced(rs)
    requires AllocIn(rs, kb).ptr != NULL
    ensures FreeIn(AllocIn(rs, kb).regions, AllocIn(rs, kb).ptr) == rs
  {
    CoalesceFixpoint(rs);
    var out, p, n := AllocIn(rs, kb).regions, AllocIn(rs, kb).ptr, AllocSize(kb);
    var i := FirstFit(rs, n);
    assert Valid(out) && PageFloor(p) == p by { AllocEffect(rs, kb); }
    RetypeCarved(rs, i, p, n);
    MergePieces(rs, i, p, n);
    FindBaseUnique(out, i + Place(rs[i], p));
  }

  // ----- runs -----

  datatype Block = Block(base: nat, size: nat) {
    predicate Holds(x: nat) { base <= x < base + size }
  }

  datatype Op = Allocate(kb: nat) | Release(ptr: nat)

  /** The list, and the blocks handed out and not yet returned. */
  datatype State = State(regions: seq<Region>, blocks: seq<Block>)

  ghost predicate Held(bs: seq<Block>, x: nat) { exists k :: 0 <= k < |bs| && bs[k].Holds(x) }

  ghost function Total(bs: seq<Block>): nat {
    if bs == [] then 0 else bs[0].size + Total(bs[1..])
  }

  function IndexOf(bs: seq<Block>, base: nat): (k: nat)
    ensures k <= |bs| && (k < |bs| ==> bs[k].base == base) && forall j | 0 <= j < k :: bs[j].base != base
  {
    if bs == [] || bs[0].base == base then 0 else 1 + IndexOf(bs[1..], base)
  }

  function Step(s: State, op: Op): State {
    match op
    case Allocate(kb) =>
      var r := AllocIn(s.regions, kb);
      State(r.regions, if r.ptr == NULL then s.blocks else s.blocks + [Block(r.ptr, AllocSize(kb))])
    case Release(ptr) =>
      var k := IndexOf(s.blocks, PageFloor(ptr));
      State(FreeIn(s.regions, ptr),
            if ptr == NULL || k == |s.blocks| then s.blocks else s.blocks[..k] + s.blocks[k + 1..])
  }

  function Run(s: State, ops: seq<Op>): State
    decreases |ops|
  {
    if ops == [] then s else Run(Step(s, ops[0]), ops[1..])
  }

  /** A release that names an outstanding block, or one that `pmm_free` ignores. */
  ghost predicate Allowed(s: State, op: Op) {
    op.Release? ==> !Frees(s.regions, op.ptr) || IndexOf(s.blocks, PageFloor(op.ptr)) < |s.blocks|
  }

  ghost predicate AllAllowed(s: State, ops: seq<Op>)
    decreases |ops|
  {
    ops == [] || (Allowed(s, ops[0]) && AllAllowed(Step(s, ops[0]), ops[1..]))
  }

  /**
   The boot map `boot` explains the state: outstanding blocks are page-aligned, each is one RESERVED
   region, they were USABLE at boot, and nothing else changed type; no USABLE byte is lost or gained.
   */
  ghost predicate Inv(boot: seq<Region>, s: State) {
    && Valid(s.regions)
    && (forall k | 0 <= k < |s.blocks| :: GoodBlock(s, s.blocks[k]))
    && (forall j, k | 0 <= j < k < |s.blocks| :: s.blocks[j].base != s.blocks[k].base)
    && (forall x: nat :: KindAt(s.regions, x) == if Held(s.blocks, x) then Some(Reserved) else KindAt(boot, x))
    && (forall x: nat :: Held(s.blocks, x) ==> KindAt(boot, x) == Some(Usable))
    && UsableBytes(s.regions) + Total(s.blocks) == UsableBytes(boot)
    && KindAt(boot, 0) != Some(Usable)
  }

  ghost predicate GoodBlock(s: State, b: Block) {
    b.base != NULL && b.base % PAGE == 0 && 0 < b.size && Region(b.base, b.size, Reserved) in s.regions
  }

  lemma {:induction false} TotalConcat(xs: seq<Block>, ys: seq<Block>)
    ensures Total(xs + ys) == Total(xs) + Total(ys)
  {
    if xs == [] {
      assert xs + ys == ys;
    } else {
      assert (xs + ys)[1..] == xs[1..] + ys;
      TotalConcat(xs[1..], ys);
    }
  }

  lemma {:induction false} TotalRemove(bs: seq<Block>, k: nat)
    requires k < |bs|
    ensures Total(bs[..k] + bs[k + 1..]) + bs[k].size == Total(bs)
  {
    var out := bs[..k] + bs[k + 1..];
    if k == 0 {
      assert out == bs[1..];
    } else {
      assert out[1..] == bs[1..][..k - 1] + bs[1..][k..];
      TotalRemove(bs[1..], k - 1);
    }
  }

  /** Outstanding blocks never overlap. */
  lemma BlocksApart(boot: seq<Region>, s: State, k: nat, x: nat)
    requires Inv(boot, s) && k < |s.blocks|
    ensures forall j | 0 <= j < |s.blocks| && j != k && s.blocks[j].Holds(x) :: !s.blocks[k].Holds(x)
  {
    var b := s.blocks[k];
    assert GoodBlock(s, b);
    var q :| 0 <= q < |s.regions| && s.regions[q] == Region(b.base, b.size, Reserved);
    forall j | 0 <= j < |s.blocks| && j != k && s.blocks[j].Holds(x) ensures !b.Holds(x) {
      var a := s.blocks[j];
      assert GoodBlock(s, a);
      var p :| 0 <= p < |s.regions| && s.regions[p] == Region(a.base, a.size, Reserved);
      assert p != q;
    }
  }

  lemma AllocateBlocks(boot: seq<Region>, s: State, kb: nat)
    requires Inv(boot, s)
    ensures var t := Step(s, Allocate(kb));
      && (forall j | 0 <= j < |t.blocks| :: GoodBlock(t, t.blocks[j]))
      && (forall i, j | 0 <= i < j < |t.blocks| :: t.blocks[i].base != t.blocks[j].base)
  {
    var r, t := AllocIn(s.regions, kb), Step(s, Allocate(kb));
    AllocEffect(s.regions, kb);
    forall b | b in s.blocks ensures GoodBlock(t, b) && b.base != r.ptr {
      assert GoodBlock(s, b) && b.Holds(b.base);
      AllocKeepsOthers(s.regions, kb, Region(b.base, b.size, Reserved));
      assert Held(s.blocks, b.base);
    }
  }

  lemma AllocateKeeps(boot: seq<Region>, s: State, kb: nat)
    requires Inv(boot, s)
    ensures Inv(boot, Step(s, Allocate(kb)))
  {
    var r, t := AllocIn(s.regions, kb), Step(s, Allocate(kb));
    AllocateBlocks(boot, s, kb);
    AllocEffect(s.regions, kb);
    if r.ptr == NULL {
      assert KindAt(s.regions, 0) != Some(Usable);
    } else {
      var b := Block(r.ptr, AllocSize(kb));
      TotalConcat(s.blocks, [b]);
      forall x: nat ensures Held(t.blocks, x) <==> Held(s.blocks, x) || b.Holds(x) { HeldAppend(s.blocks, b, x); }
    }
  }

  lemma HeldAppend(bs: seq<Block>, b: Block, x: nat)
    ensures Held(bs + [b], x) <==> Held(bs, x) || b.Holds(x)
  {
    var out := bs + [b];
    if Held(bs, x) { var k :| 0 <= k < |bs| && bs[k].Holds(x); assert out[k].Holds(x); }
    if b.Holds(x) { assert out[|bs|].Holds(x); }
  }

  lemma HeldRemove(bs: seq<Block>, k: nat, x: nat)
    requires k < |bs| && forall j | 0 <= j < |bs| && j != k && bs[j].Holds(x) :: !bs[k].Holds(x)
    ensures Held(bs[..k] + bs[k + 1..], x) <==> Held(bs, x) && !bs[k].Holds(x)
  {
    var out := bs[..k] + bs[k + 1..];
    if j :| 0 <= j < |bs| && bs[j].Holds(x) && j != k {
      assert out[if j < k then j else j - 1].Holds(x);
    }
    if j :| 0 <= j < |out| && out[j].Holds(x) {
      assert bs[if j < k then j else j + 1].Holds(x);
    }
  }

  /** A release of an outstanding block finds exactly its region. */
  lemma ReleaseFinds(boot: seq<Region>, s: State, ptr: nat)
    requires Inv(boot, s)
    ensures var k := IndexOf(s.blocks, PageFloor(ptr));
      ptr != NULL && k < |s.blocks| ==>
        && Frees(s.regions, ptr)
        && s.regions[FindBase(s.regions, PageFloor(ptr))] == Region(s.blocks[k].base, s.blocks[k].size, Reserved)
  {
    var k := IndexOf(s.blocks, PageFloor(ptr));
    if ptr != NULL && k < |s.blocks| {
      var b := s.blocks[k];
      assert GoodBlock(s, b);
      var q :| 0 <= q < |s.regions| && s.regions[q] == Region(b.base, b.size, Reserved);
      FindBaseUnique(s.regions, q);
    }
  }

  lemma ReleaseBlocks(boot: seq<Region>, s: State, ptr: nat)
    requires Inv(boot, s) && ptr != NULL && IndexOf(s.blocks, PageFloor(ptr)) < |s.blocks|
    ensures var t := Step(s, Release(ptr));
      && (forall j | 0 <= j < |t.blocks| :: GoodBlock(t, t.blocks[j]))
      && (forall i, j | 0 <= i < j < |t.blocks| :: t.blocks[i].base != t.blocks[j].base)
  {
    var t := Step(s, Release(ptr));
    var k := IndexOf(s.blocks, PageFloor(ptr));
    forall j | 0 <= j < |t.blocks|
      ensures t.blocks[j] == s.blocks[if j < k then j else j + 1] && GoodBlock(t, t.blocks[j])
    {
      var c := s.blocks[if j < k then j else j + 1];
      assert t.blocks[j] == c && GoodBlock(s, c);
      FreeKeepsOthers(s.regions, ptr, Region(c.base, c.size, Reserved));
    }
  }

  lemma ReleaseKeeps(boot: seq<Region>, s: State, ptr: nat)
    requires Inv(boot, s) && Allowed(s, Release(ptr))
    ensures Inv(boot, Step(s, Release(ptr)))
  {
    var t := Step(s, Release(ptr));
    var k := IndexOf(s.blocks, PageFloor(ptr));
    FreeEffect(s.regions, ptr);
    ReleaseFinds(boot, s, ptr);
    if ptr != NULL && k < |s.blocks| {
      var b := s.blocks[k];
      ReleaseBlocks(boot, s, ptr);
      assert Total(t.blocks) + b.size == Total(s.blocks) by { TotalRemove(s.blocks, k); }
      forall x: nat ensures Held(t.blocks, x) <==> Held(s.blocks, x) && !b.Holds(x) {
        BlocksApart(boot, s, k, x);
        HeldRemove(s.blocks, k, x);
      }
      forall x: nat | b.Holds(x) ensures Held(s.blocks, x) { assert s.blocks[k].Holds(x); }
    } else {
      assert t == s;
    }
  }

  /** Every run from a sound boot map in which address 0 is not USABLE keeps the invariant. */
  lemma {:induction false} RunKeeps(boot: seq<Region>, s: State, ops: seq<Op>)
    requires Inv(boot, s) && AllAllowed(s, ops)
    ensures Inv(boot, Run(s, ops))
    decreases |ops|
  {
    if ops != [] {
      match ops[0] {
        case Allocate(kb) => AllocateKeeps(boot, s, kb);
        case Release(ptr) => ReleaseKeeps(boot, s, ptr);
      }
      RunKeeps(boot, Step(s, ops[0]), ops[1..]);
    }
  }

  /** What is handed out was USABLE at boot. */
  lemma BlockUsable(boot: seq<Region>, s: State, k: nat, x: nat)
    requires Inv(boot, s) && k < |s.blocks| && s.blocks[k].Holds(x)
    ensures KindAt(boot, x) == Some(Usable)
  {
    assert Held(s.blocks, x);
  }

  lemma BootInv(boot: seq<Region>)
    requires Valid(boot) && KindAt(boot, 0) != Some(Usable)
    ensures Inv(boot, State(boot, []))
  {}

  /** In a run, a representable request fails exactly when no page-aligned USABLE run is long enough. */
  lemma RunComplete(boot: seq<Region>, s: State, kb: nat)
    requires Inv(boot, s) && Representable(kb)
    ensures AllocIn(s.regions, kb).ptr == NULL
       <==> !exists a: nat :: a % PAGE == 0 && UsableRun(s.regions, a, AllocSize(kb))
  {
    AllocSizeRounds(kb);
    NullMeansNoRun(s.regions, kb);
    FirstFitComplete(s.regions, AllocSize(kb));
    AllocEffect(s.regions, kb);
    assert KindAt(s.regions, 0) != Some(Usable);
  }

  /**
   A release conserves USABLE plus outstanding bytes exactly when it is allowed: freeing a region
   that was never handed out (a firmware table, say) creates USABLE memory.
   */
  lemma ReleaseConserves(boot: seq<Region>, s: State, ptr: nat)
    requires Inv(boot, s)
    ensures var t := Step(s, Release(ptr));
      UsableBytes(t.regions) + Total(t.blocks) == UsableBytes(boot) <==> Allowed(s, Release(ptr))
  {
    if Allowed(s, Release(ptr)) {
      ReleaseKeeps(boot, s, ptr);
    } else {
      FreeEffect(s.regions, ptr);
    }
  }

  /** A firmware table released by its address becomes USABLE memory that was never there. */
  lemma FirmwareReleased()
    ensures var boot := [Region(PAGE, PAGE, AcpiNvs)];
      var s := State(boot, []);
      && Inv(boot, s) && !Allowed(s, Release(PAGE))
      && Step(s, Release(PAGE)) == State([Region(PAGE, PAGE, Usable)], [])
      && UsableBytes(boot) == 0 && UsableBytes(Step(s, Release(PAGE)).regions) == PAGE
  {
    var boot := [Region(PAGE, PAGE, AcpiNvs)];
    var s := State(boot, []);
    BootInv(boot);
    assert PageFloor(PAGE) == PAGE && FindBase(boot, PAGE) == 0;
    assert MergeAround(Retyped(boot, 0), 0) == [Region(PAGE, PAGE, Usable)];
  }
}
