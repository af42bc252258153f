/** The heap as a list of regions: allocation with expansion, release, and what both keep. */
module HeapRuns {
  import opened Words
  import opened HeapChain

  /** `sizeof(HeapRegion)` on a 64-bit machine. */
  const REGION_STRUCT: nat := 24

  datatype Area = Area(base: nat, blocks: seq<Block>) {
    /** First address behind the end header. */
    function End(): nat { base + Span(blocks) + HEADER }
  }

  ghost function UsedIn(x: Area): map<nat, nat> { Used(x.base, x.blocks) }

  ghost predicate AreaOk(x: Area) {
    && 0 < x.base && x.End() < WORD && x.blocks != [] && Merged(x.blocks)
    && forall p | p in UsedIn(x) :: UsedIn(x)[p] > 0
  }

  ghost predicate Disjoint(x: Area, y: Area) { x.End() <= y.base || y.End() <= x.base }

  ghost predicate AreasOk(areas: seq<Area>) {
    && (forall i | 0 <= i < |areas| :: AreaOk(areas[i]))
    && (forall i, j | 0 <= i < j < |areas| :: Disjoint(areas[i], areas[j]))
  }

  ghost function UsedAll(areas: seq<Area>): map<nat, nat> {
    if areas == [] then map[] else UsedIn(areas[0]) + UsedAll(areas[1..])
  }

  // ----- operations -----

  /** The first region with a block that fits. */
  function AreaFit(areas: seq<Area>, n: nat): (i: nat)
    ensures i <= |areas|
    ensures i < |areas| ==> FirstFit(areas[i].blocks, n) < |areas[i].blocks|
    ensures forall j | 0 <= j < i :: FirstFit(areas[j].blocks, n) == |areas[j].blocks|
  {
    if areas == [] || FirstFit(areas[0].blocks, n) < |areas[0].blocks| then 0 else 1 + AreaFit(areas[1..], n)
  }

  function PtrIn(x: Area, n: nat): nat { Addr(x.base, x.blocks, FirstFit(x.blocks, n)) + HEADER }

  /** The size that `heap_alloc` asks the page allocator for, on 64-bit words. */
  function RegionSize(n: nat): nat {
    Wrap(Wrap(n + (PAGE - n % PAGE)) + PAGE)
  }

  /** A fresh region of `size` bytes at `base`, with the block for its own descriptor taken. */
  function NewArea(base: nat, size: nat): Area
    requires size >= 2 * HEADER
  {
    Area(base, Allocate([Block(size - 2 * HEADER, true)], REGION_STRUCT))
  }

  datatype State = State(areas: seq<Area>, live: map<nat, nat>)

  datatype Outcome = Outcome(ptr: nat, state: State)

  /** `heap_alloc`; `grant` is what the page allocator answers if it is asked, NULL for nothing. */
  function Malloc(s: State, n: nat, grant: nat): Outcome {
    var i := AreaFit(s.areas, n);
    if n == 0 then Outcome(NULL, s)
    else if i < |s.areas| then
      var x := s.areas[i];
      var p := PtrIn(x, n);
      Outcome(p, State(s.areas[i := x.(blocks := Allocate(x.blocks, n))], s.live[p := n]))
    else if grant == NULL || RegionSize(n) == 0 then Outcome(NULL, s)
    else
      var x := NewArea(grant, RegionSize(n));
      var live := s.live[grant + HEADER := REGION_STRUCT];
      if FirstFit(x.blocks, n) == |x.blocks| then Outcome(NULL, State(s.areas + [x], live))
      else Outcome(PtrIn(x, n), State(s.areas + [x.(blocks := Allocate(x.blocks, n))], live[PtrIn(x, n) := n]))
  }

  /** The region that owns an address, or their number. */
  function AreaOwner(areas: seq<Area>, ptr: nat): (i: nat)
    ensures i <= |areas|
    ensures i < |areas| ==> Owner(areas[i].base, areas[i].blocks, ptr) < |areas[i].blocks|
    ensures forall j | 0 <= j < i :: Owner(areas[j].base, areas[j].blocks, ptr) == |areas[j].blocks|
  {
    if areas == [] || Owner(areas[0].base, areas[0].blocks, ptr) < |areas[0].blocks| then 0
    else 1 + AreaOwner(areas[1..], ptr)
  }

  /** `heap_free`: the block that holds the address is released, wherever in it the address points. */
  function Free(s: State, ptr: nat): State {
    var i := AreaOwner(s.areas, ptr);
    if ptr == NULL || i == |s.areas| then s
    else
      var x := s.areas[i];
      var k := Owner(x.base, x.blocks, ptr);
      State(s.areas[i := x.(blocks := Release(x.blocks, k))], s.live - {Addr(x.base, x.blocks, k) + HEADER})
  }

  // ----- the payloads of all regions -----

  lemma InArea(x: Area, p: nat)
    requires p in UsedIn(x)
    ensures x.base + HEADER <= p && p + UsedIn(x)[p] + HEADER <= x.End()
  {
    UsedBounds(x.base, x.blocks);
  }

  lemma {:induction false} UsedAllWitness(areas: seq<Area>, p: nat) returns (i: nat)
    requires p in UsedAll(areas)
    ensures i < |areas| && p in UsedIn(areas[i])
  {
    if p in UsedAll(areas[1..]) {
      var k := UsedAllWitness(areas[1..], p);
      i := k + 1;
    } else {
      i := 0;
    }
  }

  lemma {:induction false} UsedNowhere(areas: seq<Area>, p: nat)
    requires forall i | 0 <= i < |areas| :: p !in UsedIn(areas[i])
    ensures p !in UsedAll(areas)
  {
    if areas != [] { UsedNowhere(areas[1..], p); }
  }

  /** An address outside a region is no payload of it. */
  lemma NotInArea(x: Area, p: nat)
    requires p < x.base || x.End() <= p
    ensures p !in UsedIn(x)
  {
    UsedBounds(x.base, x.blocks);
  }

  /** An address inside one region is a payload of no other. */
  lemma OnlyHere(areas: seq<Area>, i: nat, p: nat)
    requires AreasOk(areas) && i < |areas| && areas[i].base <= p < areas[i].End()
    ensures forall j | 0 <= j < |areas| && j != i :: p !in UsedIn(areas[j])
  {
    forall j | 0 <= j < |areas| && j != i ensures p !in UsedIn(areas[j]) {
      assert if i < j then Disjoint(areas[i], areas[j]) else Disjoint(areas[j], areas[i]);
      NotInArea(areas[j], p);
    }
  }

  lemma OneArea(areas: seq<Area>, i: nat, j: nat, p: nat)
    requires AreasOk(areas) && i < |areas| && j < |areas| && p in UsedIn(areas[i]) && p in UsedIn(areas[j])
    ensures i == j
  {
    InArea(areas[i], p);
    InArea(areas[j], p);
    assert i < j ==> Disjoint(areas[i], areas[j]);
    assert j < i ==> Disjoint(areas[j], areas[i]);
  }

  lemma {:induction false} UsedAllMember(areas: seq<Area>, i: nat, p: nat)
    requires AreasOk(areas) && i < |areas| && p in UsedIn(areas[i])
    ensures p in UsedAll(areas) && UsedAll(areas)[p] == UsedIn(areas[i])[p]
  {
    var rest := areas[1..];
    if i > 0 {
      UsedAllMember(rest, i - 1, p);
    } else if p in UsedAll(rest) {
      var k := UsedAllWitness(rest, p);
      OneArea(areas, 0, k + 1, p);
    }
  }

  /** Changing the blocks of one region changes the payloads of that region only. */
  lemma UsedAllUpdate(areas: seq<Area>, i: nat, x: Area)
    requires i < |areas| && AreasOk(areas) && AreasOk(areas[i := x])
    ensures UsedAll(areas[i := x]) == (UsedAll(areas) - UsedIn(areas[i]).Keys) + UsedIn(x)
  {
    var out, goal := areas[i := x], (UsedAll(areas) - UsedIn(areas[i]).Keys) + UsedIn(x);
    forall p
      ensures p in UsedAll(out) <==> p in goal
      ensures p in UsedAll(out) && p in goal ==> UsedAll(out)[p] == goal[p]
    {
      if p in UsedIn(x) {
        UsedAllMember(out, i, p);
      } else if p in UsedAll(areas) && p !in UsedIn(areas[i]) {
        var k := UsedAllWitness(areas, p);
        UsedAllMember(areas, k, p);
        UsedAllMember(out, k, p);
      } else if p in UsedAll(out) {
        var k := UsedAllWitness(out, p);
        UsedAllMember(areas, k, p);
        OneArea(areas, i, k, p);
      }
    }
  }

  lemma {:induction false} UsedAllAppend(areas: seq<Area>, x: Area)
    ensures UsedAll(areas + [x]) == UsedAll(areas) + UsedIn(x)
  {
    if areas == [] {
      assert areas + [x] == [x] && [x][1..] == [];
    } else {
      assert (areas + [x])[1..] == areas[1..] + [x];
      UsedAllAppend(areas[1..], x);
    }
  }

  // ----- the invariant -----

  /** Every block in use was handed out and is large enough, and nothing else was handed out. */
  ghost predicate Inv(s: State) {
    && AreasOk(s.areas)
    && s.live.Keys == UsedAll(s.areas).Keys
    && forall p | p in s.live :: 0 < s.live[p] <= UsedAll(s.areas)[p]
  }

  /** Blocks handed out never overlap, and each lies inside one region. */
  lemma LiveApart(s: State, p: nat, q: nat)
    requires Inv(s) && p in s.live && q in s.live && p < q
    ensures p + s.live[p] <= q
  {
    var i := UsedAllWitness(s.areas, p);
    var j := UsedAllWitness(s.areas, q);
    UsedAllMember(s.areas, i, p);
    UsedAllMember(s.areas, j, q);
    InArea(s.areas[i], p);
    InArea(s.areas[j], q);
    if i == j {
      UsedApart(s.areas[i].base, s.areas[i].blocks, p, q);
    } else {
      assert i < j ==> Disjoint(s.areas[i], s.areas[j]);
      assert j < i ==> Disjoint(s.areas[j], s.areas[i]);
    }
  }

  /** A region none of whose blocks is handed out is again one free block. */
  lemma FreedArea(s: State, i: nat)
    requires Inv(s) && i < |s.areas| && forall p | p in s.live :: p !in UsedIn(s.areas[i])
    ensures s.areas[i].blocks == [Block(s.areas[i].End() - s.areas[i].base - 2 * HEADER, true)]
  {
    var x := s.areas[i];
    forall p | p in UsedIn(x) ensures false { UsedAllMember(s.areas, i, p); }
    assert UsedIn(x) == map[];
    assert AreaOk(x);
    AllFree(x.base, x.blocks);
  }

  // ----- allocation keeps the invariant -----

  lemma AllocateOk(x: Area, n: nat)
    requires AreaOk(x) && 0 < n && FirstFit(x.blocks, n) < |x.blocks|
    ensures var y, p := x.(blocks := Allocate(x.blocks, n)), PtrIn(x, n);
      && AreaOk(y) && y.End() == x.End()
      && p !in UsedIn(x) && p in UsedIn(y) && n <= UsedIn(y)[p] < n + MIN_SIZE + HEADER && UsedIn(y) - {p} == UsedIn(x)
      && x.base < p
  {
    AllocateUsed(x.base, x.blocks, n);
    AllocateMerged(x.blocks, n);
    var y, p := x.(blocks := Allocate(x.blocks, n)), PtrIn(x, n);
    forall q | q in UsedIn(y) ensures UsedIn(y)[q] > 0 { if q != p { assert q in UsedIn(x); } }
  }

  /** Swapping one region for one of the same extent keeps the regions apart. */
  lemma ReplaceOk(areas: seq<Area>, i: nat, y: Area)
    requires AreasOk(areas) && i < |areas| && AreaOk(y) && y.base == areas[i].base && y.End() == areas[i].End()
    ensures AreasOk(areas[i := y])
  {
    var out := areas[i := y];
    forall j, k | 0 <= j < k < |out| ensures Disjoint(out[j], out[k]) { assert Disjoint(areas[j], areas[k]); }
  }

  /** One more payload in one region is one more payload in the heap. */
  lemma UsedAllGrow(areas: seq<Area>, i: nat, y: Area, p: nat)
    requires i < |areas| && AreasOk(areas) && AreasOk(areas[i := y])
    requires p !in UsedIn(areas[i]) && p in UsedIn(y) && UsedIn(y) - {p} == UsedIn(areas[i])
    ensures p !in UsedAll(areas) && UsedAll(areas[i := y]) == UsedAll(areas)[p := UsedIn(y)[p]]
  {
    FreshPtr(areas, i, y, p);
    UsedAllUpdate(areas, i, y);
    forall q | q in UsedIn(areas[i]) ensures q in UsedAll(areas) && UsedAll(areas)[q] == UsedIn(areas[i])[q] {
      UsedAllMember(areas, i, q);
    }
    MapGrow(UsedAll(areas), UsedIn(areas[i]), UsedIn(y), p);
  }

  lemma MapGrow(all: map<nat, nat>, part: map<nat, nat>, grown: map<nat, nat>, p: nat)
    requires p in grown && grown - {p} == part && (forall q | q in part :: q in all && all[q] == part[q])
    ensures (all - part.Keys) + grown == all[p := grown[p]]
  {
    forall q | q in grown && q != p ensures q in part && part[q] == grown[q] {
      assert q in grown - {p};
    }
  }

  lemma UsedAllShrink(areas: seq<Area>, i: nat, y: Area, p: nat)
    requires i < |areas| && AreasOk(areas) && AreasOk(areas[i := y])
    requires p in UsedIn(areas[i]) && UsedIn(y) == UsedIn(areas[i]) - {p}
    ensures UsedAll(areas[i := y]) == UsedAll(areas) - {p}
  {
    UsedAllUpdate(areas, i, y);
    forall q | q in UsedIn(areas[i]) ensures q in UsedAll(areas) && UsedAll(areas)[q] == UsedIn(areas[i])[q] {
      UsedAllMember(areas, i, q);
    }
  }

  /** Handing out a block of region `i` keeps the invariant. */
  lemma AllocAt(s: State, i: nat, n: nat)
    requires Inv(s) && 0 < n && i < |s.areas| && FirstFit(s.areas[i].blocks, n) < |s.areas[i].blocks|
    ensures var x := s.areas[i];
      var y, p := x.(blocks := Allocate(x.blocks, n)), PtrIn(x, n);
      Inv(State(s.areas[i := y], s.live[p := n])) && p !in s.live && p != NULL
  {
    var x := s.areas[i];
    var y, p := x.(blocks := Allocate(x.blocks, n)), PtrIn(x, n);
    assert AreaOk(x);
    AllocateOk(x, n);
    ReplaceOk(s.areas, i, y);
    UsedAllGrow(s.areas, i, y, p);
  }

  lemma MallocFits(s: State, n: nat, grant: nat)
    requires Inv(s) && 0 < n && AreaFit(s.areas, n) < |s.areas|
    ensures Inv(Malloc(s, n, grant).state)
    ensures Malloc(s, n, grant).ptr !in s.live && Malloc(s, n, grant).ptr != NULL
  {
    AllocAt(s, AreaFit(s.areas, n), n);
  }

  /** A payload that is new in one region is new in the heap. */
  lemma FreshPtr(areas: seq<Area>, i: nat, y: Area, p: nat)
    requires AreasOk(areas) && i < |areas| && AreasOk(areas[i := y]) && p in UsedIn(y) && p !in UsedIn(areas[i])
    ensures p !in UsedAll(areas)
  {
    var out := areas[i := y];
    InArea(y, p);
    OnlyHere(out, i, p);
    forall j | 0 <= j < |areas| ensures p !in UsedIn(areas[j]) { assert j != i ==> areas[j] == out[j]; }
    UsedNowhere(areas, p);
  }

  // ----- expansion -----

  /** Memory the page allocator may hand to the heap: non-null, below the word limit, outside every region. */
  ghost predicate GrantOk(areas: seq<Area>, grant: nat, size: nat) {
    && 0 < grant && grant + size < WORD
    && forall i | 0 <= i < |areas| :: grant + size <= areas[i].base || areas[i].End() <= grant
  }

  lemma NewAreaOk(base: nat, size: nat)
    requires 0 < base && base + size < WORD && 128 <= size
    ensures var x := NewArea(base, size);
      && AreaOk(x) && x.End() == base + size
      && x.blocks == [Block(REGION_STRUCT, false), Block(size - 72, true)]
      && UsedIn(x) == map[base + HEADER := REGION_STRUCT]
  {
    var whole := Area(base, [Block(size - 2 * HEADER, true)]);
    assert whole.blocks[1..] == [] && Span(whole.blocks[1..]) == 0;
    UsedFree(base, whole.blocks[0]);
    assert whole.blocks == [whole.blocks[0]];
    AllocateOk(whole, REGION_STRUCT);
    var x := NewArea(base, size);
    assert x.blocks == [Block(REGION_STRUCT, false), Block(size - 72, true)];
    assert x.blocks[1..] == [x.blocks[1]];
    UsedPair(base, x.blocks[0], x.blocks[1]);
  }

  /** The size asked for: two pages at most beyond the request, whole pages, unless the word wraps. */
  lemma RegionSizeBounds(n: nat)
    requires 0 < n < WORD
    ensures RegionSize(n) % PAGE == 0
    ensures n <= WORD - 1 - 8192 ==> n + PAGE < RegionSize(n) <= n + 2 * PAGE
    ensures n > WORD - 1 - 8192 ==> RegionSize(n) == 0 || RegionSize(n) == PAGE
  {}

  /** Once memory is granted, the request succeeds exactly when it is at most SIZE_MAX - 8192 bytes. */
  lemma ExpansionExact(s: State, n: nat, grant: nat)
    requires Inv(s) && 0 < n < WORD && AreaFit(s.areas, n) == |s.areas|
    requires grant != NULL && GrantOk(s.areas, grant, RegionSize(n))
    ensures Malloc(s, n, grant).ptr != NULL <==> n <= WORD - 1 - 8192
  {
    RegionSizeBounds(n);
    if RegionSize(n) != 0 {
      NewAreaOk(grant, RegionSize(n));
      var x := NewArea(grant, RegionSize(n));
      assert FirstFit(x.blocks, n) == if RegionSize(n) - 72 >= n then 1 else 2;
    }
  }

  lemma AppendOk(areas: seq<Area>, x: Area)
    requires AreasOk(areas) && AreaOk(x) && forall i | 0 <= i < |areas| :: Disjoint(areas[i], x)
    ensures AreasOk(areas + [x])
  {}

  /** A granted region, with its descriptor's block taken, joins the heap. */
  lemma Expand(s: State, grant: nat, size: nat)
    requires Inv(s) && GrantOk(s.areas, grant, size) && 128 <= size
    ensures Inv(State(s.areas + [NewArea(grant, size)], s.live[grant + HEADER := REGION_STRUCT]))
    ensures grant + HEADER !in s.live
  {
    var x := NewArea(grant, size);
    NewAreaOk(grant, size);
    AppendOk(s.areas, x);
    UsedAllAppend(s.areas, x);
    NewPayload(s.areas, x, grant + HEADER);
  }

  lemma NullNotLive(s: State)
    requires Inv(s)
    ensures NULL !in s.live
  {
    forall i | 0 <= i < |s.areas| ensures NULL !in UsedIn(s.areas[i]) {
      assert AreaOk(s.areas[i]);
      NotInArea(s.areas[i], NULL);
    }
    UsedNowhere(s.areas, NULL);
  }

  lemma MallocGrows(s: State, n: nat, grant: nat)
    requires Inv(s) && 0 < n < WORD && AreaFit(s.areas, n) == |s.areas|
    requires grant != NULL ==> GrantOk(s.areas, grant, RegionSize(n))
    ensures Inv(Malloc(s, n, grant).state)
    ensures Malloc(s, n, grant).ptr !in s.live
  {
    RegionSizeBounds(n);
    NullNotLive(s);
    if grant != NULL && RegionSize(n) != 0 {
      var x, k := NewArea(grant, RegionSize(n)), |s.areas|;
      Expand(s, grant, RegionSize(n));
      var s1 := State(s.areas + [x], s.live[grant + HEADER := REGION_STRUCT]);
      if FirstFit(x.blocks, n) < |x.blocks| {
        AllocAt(s1, k, n);
        LastReplaced(s.areas, x, x.(blocks := Allocate(x.blocks, n)));
      }
    }
  }

  lemma LastReplaced(areas: seq<Area>, x: Area, y: Area)
    ensures (areas + [x])[|areas| := y] == areas + [y]
  {}

  lemma NewPayload(areas: seq<Area>, y: Area, p: nat)
    requires AreasOk(areas + [y]) && p in UsedIn(y)
    ensures p !in UsedAll(areas)
  {
    var out := areas + [y];
    InArea(y, p);
    OnlyHere(out, |areas|, p);
    forall j | 0 <= j < |areas| ensures p !in UsedIn(areas[j]) { assert areas[j] == out[j]; }
    UsedNowhere(areas, p);
  }

  // ----- release keeps the invariant -----

  /** Releasing a free block of a merged region changes nothing. */
  lemma ReleaseFree(bs: seq<Block>, i: nat)
    requires i < |bs| && Merged(bs) && bs[i].free
    ensures Release(bs, i) == bs
  {
    if i > 0 { assert !BothFree(bs[i - 1], bs[i - 1 + 1]); }
    if i + 1 < |bs| { assert !BothFree(bs[i], bs[i + 1]); }
  }

  /** A free block's payload address is no payload in use. */
  lemma FreeNotUsed(a: nat, bs: seq<Block>, i: nat)
    requires i < |bs| && bs[i].free
    ensures Addr(a, bs, i) + HEADER !in Used(a, bs)
  {
    assert bs[i..i + 1] == [bs[i]];
    SpliceUsed(a, bs, i, i + 1, [bs[i]]);
    UsedFree(Addr(a, bs, i), bs[i]);
    OutsideMiddle(a, bs, i, i + 1);
    AddrStep(a, bs, i);
  }

  /** Releasing through any address keeps the regions tiled and merged and the blocks apart. */
  lemma FreeKeeps(s: State, ptr: nat)
    requires Inv(s)
    ensures Inv(Free(s, ptr))
  {
    var i := AreaOwner(s.areas, ptr);
    if ptr != NULL && i < |s.areas| {
      var x := s.areas[i];
      assert AreaOk(x);
      var k := Owner(x.base, x.blocks, ptr);
      if x.blocks[k].free { ReleaseNothing(s, i, k); } else { ReleaseAt(s, i, k); }
    }
  }

  lemma ReleaseNothing(s: State, i: nat, k: nat)
    requires Inv(s) && i < |s.areas| && k < |s.areas[i].blocks| && s.areas[i].blocks[k].free
    ensures var x := s.areas[i];
      State(s.areas[i := x.(blocks := Release(x.blocks, k))], s.live - {Addr(x.base, x.blocks, k) + HEADER}) == s
  {
    var x := s.areas[i];
    assert AreaOk(x);
    ReleaseFree(x.blocks, k);
    NotInHeap(s.areas, i, k);
    assert s.areas[i := x] == s.areas;
  }

  lemma ReleaseAt(s: State, i: nat, k: nat)
    requires Inv(s) && i < |s.areas| && k < |s.areas[i].blocks| && !s.areas[i].blocks[k].free
    ensures var x := s.areas[i];
      Inv(State(s.areas[i := x.(blocks := Release(x.blocks, k))], s.live - {Addr(x.base, x.blocks, k) + HEADER}))
  {
    var x := s.areas[i];
    assert AreaOk(x);
    var y, p := x.(blocks := Release(x.blocks, k)), Addr(x.base, x.blocks, k) + HEADER;
    ReleaseOk(x, k);
    ReplaceOk(s.areas, i, y);
    UsedAllShrink(s.areas, i, y, p);
  }

  lemma ReleaseOk(x: Area, k: nat)
    requires AreaOk(x) && k < |x.blocks| && !x.blocks[k].free
    ensures var y, p := x.(blocks := Release(x.blocks, k)), Addr(x.base, x.blocks, k) + HEADER;
      AreaOk(y) && y.End() == x.End() && p in UsedIn(x) && UsedIn(y) == UsedIn(x) - {p}
  {
    ReleaseUsed(x.base, x.blocks, k);
    ReleaseMerged(x.blocks, k);
    var y := x.(blocks := Release(x.blocks, k));
    forall q | q in UsedIn(y) ensures UsedIn(y)[q] > 0 { assert q in UsedIn(x); }
  }

  /** The payload address of a free block is in use nowhere in the heap. */
  lemma NotInHeap(areas: seq<Area>, i: nat, k: nat)
    requires AreasOk(areas) && i < |areas| && k < |areas[i].blocks| && areas[i].blocks[k].free
    ensures Addr(areas[i].base, areas[i].blocks, k) + HEADER !in UsedAll(areas)
  {
    var x := areas[i];
    var p := Addr(x.base, x.blocks, k) + HEADER;
    assert p !in UsedIn(x) by { FreeNotUsed(x.base, x.blocks, k); }
    assert x.base <= p < x.End() by {
      AddrStep(x.base, x.blocks, k);
      AddrBound(x.base, x.blocks, k);
      AddrBound(x.base, x.blocks, k + 1);
    }
    OnlyHere(areas, i, p);
    UsedNowhere(areas, p);
  }

  lemma AddrBound(a: nat, bs: seq<Block>, i: nat)
    requires i <= |bs|
    ensures a <= Addr(a, bs, i) <= a + Span(bs)
  {
    assert bs == bs[..i] + bs[i..];
    SpanConcat(bs[..i], bs[i..]);
  }

  /** Releasing through any address inside a handed-out block takes exactly that block back. */
  lemma FreeTakesBack(s: State, p: nat, q: nat)
    requires Inv(s) && p in s.live && p <= q < p + s.live[p]
    ensures Free(s, q).live == s.live - {p}
  {
    NullNotLive(s);
    var i := UsedAllWitness(s.areas, p);
    var x := s.areas[i];
    UsedAllMember(s.areas, i, p);
    UsedOwner(x.base, x.blocks, p, q);
    InArea(x, p);
    forall j | 0 <= j < i ensures Owner(s.areas[j].base, s.areas[j].blocks, q) == |s.areas[j].blocks| {
      assert Disjoint(s.areas[j], s.areas[i]);
      NotOwner(s.areas[j], q);
    }
    assert AreaOwner(s.areas, q) == i;
  }

  lemma NotOwner(x: Area, ptr: nat)
    requires ptr < x.base || x.End() <= ptr
    ensures Owner(x.base, x.blocks, ptr) == |x.blocks|
  {
    OwnerFound(x.base, x.blocks, ptr);
    var i := Owner(x.base, x.blocks, ptr);
    if i < |x.blocks| {
      AddrBound(x.base, x.blocks, i);
      AddrBound(x.base, x.blocks, i + 1);
    }
  }
}
