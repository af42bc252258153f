/** The kernel heap: the pointer walks of kernel/memory/heap.c over in-band headers. */
module Heap {
  import opened Options
  import opened Words
  import opened HeapChain
  import opened HeapRuns
  import opened HeapRecords
  import opened HeapMemory
  import opened HeapRegions
  import opened HeapAligned
  import BootMap
  import Regions
  import PmmSpec
  import Pmm

  /** `NODE_SIZE` */
  function NodeSize(mem: Memory, node: nat): nat
    requires node in mem
  {
    if mem[node].next != NULL && mem[node].next >= node + HEADER then mem[node].next - node - HEADER else 0
  }

  /** No byte of the heap's regions is free for the page allocator to hand out. */
  ghost predicate Owned(areas: seq<Area>, rs: seq<Regions.Region>) {
    forall i, x: nat | 0 <= i < |areas| && areas[i].base <= x < areas[i].End() ::
      Regions.KindAt(rs, x) != Some(Regions.Usable)
  }

  class KernelHeap {
    var mem: Memory
    var records: Records
    var first: Record
    ghost var areas: seq<Area>
    ghost var live: map<nat, nat>

    /** Memory holds the chain of every region, and the list of the regions. */
    ghost predicate Linked()
      reads this
    {
      areas != [] && Chains(mem, areas) && Listed(first, records, areas)
    }

    ghost predicate Valid()
      reads this
    {
      Linked() && Safe(State(areas, live))
    }

    /** What a region pointer points at. */
    function Region(p: RegionPtr): Record
      requires p != Null && (p.At? ==> p.addr in records)
      reads this`first, this`records
    {
      if p.At? then records[p.addr] else first
    }

    /** `alloc_region` on the region at `base` */
    method AllocRegion(base: nat, n: nat, ghost r: nat) returns (ptr: nat)
      requires Chains(mem, areas) && AreasOk(areas) && r < |areas| && base == areas[r].base
      modifies this`mem, this`records, this`areas
      ensures Chains(mem, areas)
      ensures var x := old(areas)[r];
        var i := FirstFit(x.blocks, n);
        if i == |x.blocks| then ptr == NULL && areas == old(areas) && records == old(records)
        else
          && ptr == PtrIn(x, n) && areas == old(areas)[r := x.(blocks := Allocate(x.blocks, n))]
          && KeptOutside(old(records), records, Addr(x.base, x.blocks, i), Addr(x.base, x.blocks, i + 1))
    {
      ghost var x := areas[r];
      var node := base;
      ghost var i := 0;
      AddrEnd(x.base, x.blocks);
      while node != NULL && node in mem && mem[node].magic == MAGIC
        invariant 0 <= i <= |x.blocks| && node == Addr(x.base, x.blocks, i)
        invariant mem == old(mem) && areas == old(areas) && records == old(records)
        invariant forall j | 0 <= j < i :: !Fits(x.blocks[j], n)
        decreases |x.blocks| - i
      {
        Visit(mem, x, i);
        if mem[node].free && NodeSize(mem, node) >= n {
          assert FirstFit(x.blocks, n) == i;
          Take(node, n, r, i);
          return node + HEADER;
        }
        node := mem[node].next;
        i := i + 1;
      }
      Visit(mem, x, i);
      ptr := NULL;
    }

    /** The part of `alloc_region` that takes the block at `node`, splitting it if the rest is worth it. */
    method Take(node: nat, n: nat, ghost r: nat, ghost i: nat)
      requires Chains(mem, areas) && AreasOk(areas)
      requires r < |areas| && i == FirstFit(areas[r].blocks, n) < |areas[r].blocks|
      requires node == Addr(areas[r].base, areas[r].blocks, i)
      modifies this`mem, this`records, this`areas
      ensures Chains(mem, areas)
      ensures var x := old(areas)[r];
        && areas == old(areas)[r := x.(blocks := Allocate(x.blocks, n))]
        && KeptOutside(old(records), records, Addr(x.base, x.blocks, i), Addr(x.base, x.blocks, i + 1))
    {
      ghost var y := areas[r].(blocks := Allocate(areas[r].blocks, n));
      TakeChain(mem, areas[r], n);
      TakeWrites(node, n, r, i);
      ChainsUpdate(mem, areas, r, y);
      areas := areas[r := y];
    }

    /** The headers that are written for it. */
    method TakeWrites(node: nat, n: nat, ghost r: nat, ghost i: nat)
      requires Chains(mem, areas) && AreasOk(areas) && r < |areas| && i < |areas[r].blocks| && Fits(areas[r].blocks[i], n)
      requires node == Addr(areas[r].base, areas[r].blocks, i)
      modifies this`mem, this`records
      ensures var x := areas[r];
        var next := Addr(x.base, x.blocks, i + 1);
        && mem == (if x.blocks[i].size - n >= MIN_SIZE + HEADER then SplitStore(old(mem), node, n, next)
                   else Store(old(mem), node, Header(MAGIC, false, next)))
        && KeptOutside(old(records), records, node, next)
      ensures forall j | 0 <= j < |areas| && j != r :: Chain(mem, areas[j])
    {
      ghost var x := areas[r];
      Visit(mem, x, i);
      AddrStep(x.base, x.blocks, i);
      var header, size := mem[node], NodeSize(mem, node);
      if size - n >= MIN_SIZE + HEADER {
        var rest := node + n + HEADER;
        Write(rest, Header(MAGIC, true, header.next), r, i);
        Write(node, Header(header.magic, false, rest), r, i);
      } else {
        Write(node, header.(free := false), r, i);
      }
    }

    /** Stores a header inside block `i` of region `r`; the other regions keep their chains. */
    method Write(at: nat, h: Header, ghost r: nat, ghost i: nat)
      requires AreasOk(areas) && r < |areas| && i < |areas[r].blocks|
      requires Addr(areas[r].base, areas[r].blocks, i) <= at
      requires at + HEADER <= Addr(areas[r].base, areas[r].blocks, i + 1)
      modifies this`mem, this`records
      ensures mem == Store(old(mem), at, h) && records == Lost(old(records), at)
      ensures forall j | 0 <= j < |areas| && j != r && Chain(old(mem), areas[j]) :: Chain(mem, areas[j])
    {
      InsideArea(areas[r], i, at);
      mem := Store(mem, at, h);
      records := Lost(records, at);
      forall j | 0 <= j < |areas| && j != r && Chain(old(mem), areas[j]) ensures Chain(mem, areas[j]) {
        assert if j < r then Disjoint(areas[j], areas[r]) else Disjoint(areas[r], areas[j]);
        StoreOutside(old(mem), areas[j], at, h);
      }
    }

    /** `free_region` on the region at `base` */
    method FreeRegion(base: nat, ptr: nat, ghost r: nat) returns (ok: bool)
      requires Chains(mem, areas) && AreasOk(areas) && r < |areas| && base == areas[r].base && ptr != NULL
      modifies this`mem, this`records, this`areas
      ensures Chains(mem, areas)
      ensures var x := old(areas)[r];
        var k := Owner(x.base, x.blocks, ptr);
        && ok == (k < |x.blocks|)
        && areas == (if ok then old(areas)[r := x.(blocks := Release(x.blocks, k))] else old(areas))
        && KeptBeside(old(records), records, x)
    {
      ghost var x := areas[r];
      var node, prev := base, NULL;
      ghost var i := 0;
      AddrEnd(x.base, x.blocks);
      while node != NULL && node in mem && mem[node].magic == MAGIC
        invariant 0 <= i <= |x.blocks| && node == Addr(x.base, x.blocks, i)
        invariant prev == if i == 0 then NULL else Addr(x.base, x.blocks, i - 1)
        invariant mem == old(mem) && areas == old(areas) && records == old(records)
        invariant forall j | 0 <= j < i :: !(Addr(x.base, x.blocks, j) < ptr < Addr(x.base, x.blocks, j + 1))
        decreases |x.blocks| - i
      {
        Visit(mem, x, i);
        if node < ptr < mem[node].next {
          OwnerIs(x, ptr, i);
          Give(node, prev, r, i);
          return true;
        }
        prev := node;
        node := mem[node].next;
        i := i + 1;
      }
      Visit(mem, x, i);
      OwnerIs(x, ptr, i);
      ok := false;
    }

    /** The part of `free_region` that frees the block at `node` and merges it with its free neighbours. */
    method Give(node: nat, prev: nat, ghost r: nat, ghost i: nat)
      requires Chains(mem, areas) && AreasOk(areas) && r < |areas| && i < |areas[r].blocks|
      requires node == Addr(areas[r].base, areas[r].blocks, i)
      requires prev == if i == 0 then NULL else Addr(areas[r].base, areas[r].blocks, i - 1)
      modifies this`mem, this`records, this`areas
      ensures Chains(mem, areas)
      ensures var x := old(areas)[r];
        areas == old(areas)[r := x.(blocks := Release(x.blocks, i))] && KeptBeside(old(records), records, x)
    {
      ghost var x := areas[r];
      ghost var y := x.(blocks := Release(x.blocks, i));
      GiveChain(mem, x, i);
      Visit(mem, x, i);
      Visit(mem, x, i + 1);
      AddrStep(x.base, x.blocks, i);
      var header := mem[node].(free := true);
      Write(node, header, r, i);
      HeadersClear(x.base, x.blocks, i, i + 1);
      StoreKeeps(old(mem), node, header, header.next);
      if mem[header.next].free {
        header := header.(next := mem[header.next].next);
        Write(node, header, r, i);
      }
      if prev != NULL {
        Visit(old(mem), x, i - 1);
        HeadersClear(x.base, x.blocks, i, i - 1);
        assert Same(old(mem), mem, prev);
        MergeBack(prev, header.next, r, i);
      }
      assert mem == GiveStore(old(mem), x.blocks, x.base, i);
      ChainsUpdate(mem, areas, r, y);
      areas := areas[r := y];
    }

    /** The last step of `free_region`: a free predecessor absorbs the block. */
    method MergeBack(prev: nat, after: nat, ghost r: nat, ghost i: nat)
      requires AreasOk(areas) && r < |areas| && 0 < i < |areas[r].blocks|
      requires prev == Addr(areas[r].base, areas[r].blocks, i - 1) && prev in mem
      modifies this`mem, this`records
      ensures mem == if old(mem)[prev].free then Store(old(mem), prev, Header(MAGIC, true, after)) else old(mem)
      ensures KeptBeside(old(records), records, areas[r])
      ensures forall j | 0 <= j < |areas| && j != r && Chain(old(mem), areas[j]) :: Chain(mem, areas[j])
    {
      AddrStep(areas[r].base, areas[r].blocks, i - 1);
      if mem[prev].free { Write(prev, Header(MAGIC, true, after), r, i - 1); }
    }

    /** `heap_init`: one region, all of it free. */
    constructor (base: nat, size: nat)
      requires 0 < base && 2 * HEADER <= size && base + size < WORD
      ensures Valid() && live == map[] && areas == [Area(base, [Block(size - 2 * HEADER, true)])]
    {
      mem := InitStore(map[], base, size);
      records := map[];
      first := Record(base, size, Null);
      areas := [Area(base, [Block(size - 2 * HEADER, true)])];
      live := map[];
      new;
      InitHeap(base, size);
    }

    /** The first loop of `heap_alloc`: the regions in the order of their list. */
    method TryRegions(n: nat) returns (ptr: nat)
      requires Valid() && 0 < n
      modifies this`mem, this`records, this`areas, this`live
      ensures Valid() && |areas| == |old(areas)|
      ensures forall i | 0 <= i < |areas| :: SameExtent(areas[i], old(areas)[i])
      ensures AreaFit(old(areas), n) == |old(areas)| ==> ptr == NULL && State(areas, live) == old(State(areas, live))
      ensures AreaFit(old(areas), n) < |old(areas)| ==>
        ptr != NULL && Outcome(ptr, State(areas, live)) == Malloc(old(State(areas, live)), n, NULL)
    {
      ghost var s := State(areas, live);
      var region := Local;
      ghost var j := 0;
      while region != Null
        invariant 0 <= j <= |areas| && region == PtrTo(areas, j) && Valid() && State(areas, live) == s
        invariant forall k | 0 <= k < j :: FirstFit(areas[k].blocks, n) == |areas[k].blocks|
        decreases |areas| - j
      {
        assert ListedAt(first, records, areas, j);
        ptr := TryRegion(Region(region).base, n, j);
        if ptr != NULL { return; }
        assert ListedAt(first, records, areas, j);
        region := Region(region).next;
        j := j + 1;
      }
      assert AreaFit(s.areas, n) == |s.areas|;
      ptr := NULL;
    }

    /** The body of that loop for one region. */
    method TryRegion(base: nat, n: nat, ghost r: nat) returns (ptr: nat)
      requires Valid() && 0 < n && r < |areas| && base == areas[r].base
      requires forall k | 0 <= k < r :: FirstFit(areas[k].blocks, n) == |areas[k].blocks|
      modifies this`mem, this`records, this`areas, this`live
      ensures Valid() && |areas| == |old(areas)|
      ensures forall i | 0 <= i < |areas| :: SameExtent(areas[i], old(areas)[i])
      ensures ptr == NULL ==>
        FirstFit(areas[r].blocks, n) == |areas[r].blocks| && State(areas, live) == old(State(areas, live))
      ensures ptr != NULL ==>
        && AreaFit(old(areas), n) < |old(areas)|
        && Outcome(ptr, State(areas, live)) == Malloc(old(State(areas, live)), n, NULL)
    {
      ghost var s, recs := State(areas, live), records;
      ghost var x := areas[r];
      ptr := AllocRegion(base, n, r);
      if FirstFit(x.blocks, n) < |x.blocks| {
        assert AreaFit(s.areas, n) == r;
        MallocFits(s, n, NULL);
        FitRecords(s, n, NULL);
        TakeListed(first, recs, records, s, r, n);
        AllocateOk(x, n);
      }
      if ptr != NULL { live := live[ptr := n]; }
    }

    /** `heap_alloc`: the regions in order, then a new region from the page allocator. */
    method Alloc(n: nat, pmm: Pmm.PhysicalMemory) returns (ptr: nat)
      requires Valid() && pmm.Valid() && n < WORD && Owned(areas, pmm.regions)
      modifies this, pmm
      ensures Valid() && pmm.Valid() && pmm.created == old(pmm.created) && Owned(areas, pmm.regions)
      ensures var grant := if pmm.created then PmmSpec.AllocIn(old(pmm.regions), RegionSize(n) / 1024).ptr else NULL;
        Outcome(ptr, State(areas, live)) == Malloc(old(State(areas, live)), n, grant)
      ensures pmm.regions ==
        if 0 < n && AreaFit(old(areas), n) == |old(areas)| && pmm.created
        then PmmSpec.AllocIn(old(pmm.regions), RegionSize(n) / 1024).regions else old(pmm.regions)
    {
      if n == 0 { return NULL; }
      ptr := TryRegions(n);
      if ptr != NULL {
        OwnedSame(old(areas), areas, pmm.regions);
        return;
      }
      if !pmm.created { return NULL; }
      var size := Wrap(Wrap(n + (PAGE - n % PAGE)) + PAGE);
      ptr := FromPages(n, size, pmm);
    }

    /** The second half of `heap_alloc`. */
    method FromPages(n: nat, size: nat, pmm: Pmm.PhysicalMemory) returns (ptr: nat)
      requires Valid() && pmm.Valid() && 0 < n < WORD && size == RegionSize(n) && Owned(areas, pmm.regions)
      requires AreaFit(areas, n) == |areas| && pmm.created
      modifies this, pmm
      ensures Valid() && pmm.Valid() && pmm.created && Owned(areas, pmm.regions)
      ensures var r := PmmSpec.AllocIn(old(pmm.regions), size / 1024);
        pmm.regions == r.regions && Outcome(ptr, State(areas, live)) == Malloc(old(State(areas, live)), n, r.ptr)
    {
      Grown(State(areas, live), pmm.regions, n);
      var grant := pmm.Alloc(size / 1024);
      if grant == NULL { return NULL; }
      ptr := Expand(grant, size, n);
    }

    /** The part of `heap_alloc` that turns granted memory into a region and allocates from it. */
    method Expand(grant: nat, size: nat, n: nat) returns (ptr: nat)
      requires Valid() && 0 < n && 128 <= size && GrantOk(areas, grant, size)
      modifies this
      ensures Valid()
      ensures var x := NewArea(grant, size);
        var taken := old(live)[grant + HEADER := REGION_STRUCT];
        Outcome(ptr, State(areas, live)) ==
          if FirstFit(x.blocks, n) == |x.blocks| then Outcome(NULL, State(old(areas) + [x], taken))
          else Outcome(PtrIn(x, n), State(old(areas) + [x.(blocks := Allocate(x.blocks, n))], taken[PtrIn(x, n) := n]))
    {
      ghost var k, x := |areas|, NewArea(grant, size);
      var region := AddRegion(grant, size);
      NewAreaOk(grant, size);
      Link(region, x);
      ghost var s, recs := State(areas, live), records;
      ptr := AllocRegion(Region(region).base, n, k);
      if FirstFit(x.blocks, n) < |x.blocks| {
        TakeListed(first, recs, records, s, k, n);
        LastRecords(s, old(areas), x, n);
        LastReplaced(old(areas), x, x.(blocks := Allocate(x.blocks, n)));
        AllocAt(s, k, n);
      }
      if ptr != NULL { live := live[ptr := n]; }
    }

    /** `initRegion` on granted memory, and the new region's record in the first block it hands out. */
    method AddRegion(base: nat, size: nat) returns (region: RegionPtr)
      requires Valid() && 128 <= size && GrantOk(areas, base, size)
      modifies this`mem, this`records, this`areas, this`live
      ensures areas == old(areas) + [NewArea(base, size)] && live == old(live)[base + HEADER := REGION_STRUCT]
      ensures Chains(mem, areas) && Safe(State(areas, live)) && Listed(first, records, old(areas))
      ensures region == At(base + HEADER) && Reads(first, records, region, Record(base, size, Null))
    {
      JoinRecords(State(areas, live), base, size);
      InitRegion(base, size);
      var addr := TakeRecord(base, size, old(areas));
      live := live[addr := REGION_STRUCT];
      ghost var recs := records;
      WriteRecord(addr, Record(base, size, Null));
      ListedOutside(first, recs, records, old(areas), base, size, old(live));
      region := At(addr);
    }

    /** Stores a record in the block that was taken for it. */
    method WriteRecord(addr: nat, rec: Record)
      requires Chains(mem, areas) && Inv(State(areas, live)) && addr in live && live[addr] == REGION_STRUCT
      modifies this`mem, this`records
      ensures Chains(mem, areas) && records == Put(old(records), addr, rec)
    {
      mem := Displaced(mem, addr);
      records := Put(records, addr, rec);
      BlockWrite(old(mem), mem, State(areas, live), addr);
    }

    /** The block for the record is the first of the new region. */
    method TakeRecord(base: nat, size: nat, ghost front: seq<Area>) returns (addr: nat)
      requires Chains(mem, areas) && AreasOk(areas) && Listed(first, records, front) && Safe(State(front, live))
      requires 128 <= size && GrantOk(front, base, size) && areas == front + [Area(base, [Block(size - 2 * HEADER, true)])]
      modifies this`mem, this`records, this`areas
      ensures Chains(mem, areas) && Listed(first, records, front)
      ensures addr == base + HEADER && areas == front + [NewArea(base, size)]
    {
      ghost var recs, whole := records, [Block(size - 2 * HEADER, true)];
      AddrEnd(base, whole);
      assert FirstFit(whole, REGION_STRUCT) == 0 && Span(whole) == size - HEADER;
      LastReplaced(front, Area(base, whole), NewArea(base, size));
      addr := AllocRegion(base, REGION_STRUCT, |areas| - 1);
      ListedOutside(first, recs, records, front, base, size, live);
    }

    /** `initRegion` */
    method InitRegion(base: nat, size: nat)
      requires Valid() && 128 <= size && GrantOk(areas, base, size)
      modifies this`mem, this`records, this`areas
      ensures Chains(mem, areas) && AreasOk(areas) && Listed(first, records, old(areas))
      ensures areas == old(areas) + [Area(base, [Block(size - 2 * HEADER, true)])]
    {
      InitChain(mem, base, size);
      AppendOk(areas, Area(base, [Block(size - 2 * HEADER, true)]));
      forall j | 0 <= j < |areas| ensures Chain(InitStore(mem, base, size), areas[j]) {
        InitOutside(mem, areas[j], base, size);
      }
      ghost var recs := records;
      mem := InitStore(mem, base, size);
      records := Lost(Lost(records, base), base + size - HEADER);
      ListedOutside(first, recs, records, areas, base, size, live);
      areas := areas + [Area(base, [Block(size - 2 * HEADER, true)])];
    }

    /** The walk to the last record of the list, and the link to the new one. */
    method Link(region: RegionPtr, ghost x: Area)
      requires areas != [] && areas[|areas| - 1] == x && Listed(first, records, areas[..|areas| - 1]) && |areas| > 1
      requires Chains(mem, areas) && Safe(State(areas, live))
      requires region == PtrTo(areas, |areas| - 1)
      requires Reads(first, records, region, Record(x.base, x.End() - x.base, Null))
      modifies this`mem, this`records, this`first
      ensures Valid() && Region.requires(region) && Region(region).base == x.base
    {
      ghost var front := areas[..|areas| - 1];
      var last := Local;
      ghost var j := 0;
      assert ListedAt(first, records, front, 0);
      while Region(last).next != Null
        invariant 0 <= j < |front| && last == PtrTo(front, j) && ListedAt(first, records, front, j)
        decreases |front| - j
      {
        last := Region(last).next;
        j := j + 1;
        assert ListedAt(first, records, front, j);
      }
      assert j == |front| - 1;
      SetNext(last, region, j);
      ListedAppend(old(first), old(records), first, records, front, x);
      assert front + [x] == areas;
      assert ListedAt(first, records, areas, |front|);
    }

    /** The `next` of one record in the list; no other record changes. */
    method SetNext(last: RegionPtr, region: RegionPtr, ghost k: nat)
      requires Chains(mem, areas) && Safe(State(areas, live)) && k < |areas| && last == PtrTo(areas, k)
      requires last.At? ==> last.addr in records
      modifies this`mem, this`records, this`first
      ensures Chains(mem, areas) && Region.requires(last) && Region(last) == old(Region(last)).(next := region)
      ensures forall j | 1 <= j < |areas| && j != k :: Kept(old(records), records, areas[j].base + HEADER)
      ensures k > 0 ==> first == old(first)
    {
      if last == Local {
        first := first.(next := region);
      } else {
        assert RecordLive(State(areas, live), k);
        WriteRecord(last.addr, records[last.addr].(next := region));
        PutApart(State(areas, live), old(records), k, old(records)[last.addr].(next := region));
      }
    }

    /** `heap_free`: everything stays in place, and the heap intact exactly when no region's record was released. */
    method Free(ptr: nat)
      requires Valid()
      modifies this`mem, this`records, this`areas, this`live
      ensures Linked() && Inv(State(areas, live)) && State(areas, live) == HeapRuns.Free(old(State(areas, live)), ptr)
      ensures Valid() <==> !InRecord(old(State(areas, live)), ptr)
    {
      FreeExact(State(areas, live), ptr);
      if ptr != NULL { FreeRegions(ptr); }
    }

    /** The loop of `heap_free`: the regions in the order of their list. */
    method FreeRegions(ptr: nat)
      requires Valid() && ptr != NULL
      modifies this`mem, this`records, this`areas, this`live
      ensures Linked() && State(areas, live) == HeapRuns.Free(old(State(areas, live)), ptr)
    {
      ghost var s := State(areas, live);
      var region := Local;
      ghost var j := 0;
      while region != Null
        invariant 0 <= j <= |areas| && region == PtrTo(areas, j)
        invariant Valid() && State(areas, live) == s && NotIn(s.areas, j, ptr)
        decreases |areas| - j
      {
        assert ListedAt(first, records, areas, j);
        var ok := FreeIn(Region(region).base, ptr, j);
        if ok { return; }
        assert ListedAt(first, records, areas, j);
        region := Region(region).next;
        j := j + 1;
      }
      NobodyOwns(s.areas, ptr);
    }

    /** The body of that loop for one region. */
    method FreeIn(base: nat, ptr: nat, ghost r: nat) returns (ok: bool)
      requires Valid() && r < |areas| && base == areas[r].base && ptr != NULL && NotIn(areas, r, ptr)
      modifies this`mem, this`records, this`areas, this`live
      ensures Linked()
      ensures ok ==> State(areas, live) == HeapRuns.Free(old(State(areas, live)), ptr)
      ensures !ok ==> State(areas, live) == old(State(areas, live)) && NotIn(areas, r + 1, ptr)
    {
      ghost var s, recs := State(areas, live), records;
      ghost var x := areas[r];
      ok := FreeRegion(base, ptr, r);
      if ok {
        OwnsHere(s.areas, r, ptr);
        GiveListed(first, recs, records, s, r, Owner(x.base, x.blocks, ptr));
        live := live - {Addr(x.base, x.blocks, Owner(x.base, x.blocks, ptr)) + HEADER};
      } else {
        SameList(first, recs, records, s, r);
      }
    }

    /** `heap_alloc`, with the new block named. */
    method AllocBlock(n: nat, pmm: Pmm.PhysicalMemory) returns (ptr: nat)
      requires Valid() && pmm.Valid() && n < WORD && Owned(areas, pmm.regions)
      modifies this, pmm
      ensures Valid() && pmm.Valid() && Owned(areas, pmm.regions)
      ensures ptr != NULL ==> n > 0 && ptr in live && live[ptr] == n && !RecordAt(areas, ptr)
      ensures ptr != NULL ==> ptr in UsedAll(areas) && Payload(ptr, UsedAll(areas)[ptr], n)
      ensures Outcome(ptr, State(areas, live))
           == Malloc(old(State(areas, live)), n, Granted(old(pmm.created), old(pmm.regions), n))
      ensures n == 0 ==> pmm.regions == old(pmm.regions)
    {
      ghost var s, grant := State(areas, live), Granted(pmm.created, pmm.regions, n);
      GrantedOk(s, pmm.created, pmm.regions, n);
      ptr := Alloc(n, pmm);
      if ptr != NULL { GaveBlock(s, n, grant); }
    }

    /** `heap_aligned_alloc`; `block` is the block underneath. */
    method AlignedAlloc(alignment: nat, size: nat, pmm: Pmm.PhysicalMemory) returns (ptr: nat, ghost block: nat)
      requires Valid() && pmm.Valid() && Owned(areas, pmm.regions) && alignment < WORD && size < WORD
      modifies this, pmm
      ensures pmm.Valid() && Owned(areas, pmm.regions) && Safe(State(areas, live))
      ensures !AlignedRequest(alignment, size) ==>
        block == NULL && State(areas, live) == old(State(areas, live)) && pmm.regions == old(pmm.regions)
      ensures AlignedRequest(alignment, size) ==>
        var n := Wrap(PaddedSize(alignment, size));
        Outcome(block, State(areas, live))
        == Malloc(old(State(areas, live)), n, Granted(old(pmm.created), old(pmm.regions), n))
      ensures block == NULL ==> ptr == NULL && Valid()
      ensures block != NULL ==>
        && alignment > 0 && ptr == AlignedPtr(block, alignment) && ptr % alignment == 0 && block in UsedAll(areas)
        && (ptr == NULL <==> WORD <= block + HEADER + alignment - 1)
        && (ptr != NULL ==> block + HEADER <= ptr)
        && (Within(block, UsedAll(areas)[block], ptr, size) <==> PaddedSize(alignment, size) < WORD)
      ensures block != NULL && PaddedSize(alignment, size) < WORD ==>
        Valid() && ptr != NULL && block in live && ptr + size <= block + live[block]
    {
      if alignment == 0 || size == 0 || !PowerOfTwo(alignment) { return NULL, NULL; }
      PowerBound(alignment);
      var p := AllocBlock(Wrap(PaddedSize(alignment, size)), pmm);
      if p == NULL { return NULL, NULL; }
      ptr := MarkAligned(p, alignment, size);
      block := p;
    }

    /** The aligned address behind the start of a block, with a header written in front of it. */
    method MarkAligned(block: nat, alignment: nat, size: nat) returns (ptr: nat)
      requires Valid() && block in live && !RecordAt(areas, block) && AlignedRequest(alignment, size)
      requires 2 * alignment <= WORD && size < WORD && live[block] == Wrap(PaddedSize(alignment, size))
      requires block in UsedAll(areas) && Payload(block, UsedAll(areas)[block], live[block])
      modifies this`mem, this`records
      ensures ptr == AlignedPtr(block, alignment) && ptr % alignment == 0
      ensures ptr == NULL <==> WORD <= block + HEADER + alignment - 1
      ensures ptr != NULL ==> block + HEADER <= ptr
      ensures Within(block, UsedAll(areas)[block], ptr, size) <==> PaddedSize(alignment, size) < WORD
      ensures PaddedSize(alignment, size) < WORD ==> Valid() && ptr != NULL && ptr + size <= block + live[block]
    {
      ptr := AlignedPtr(block, alignment);
      AlignedPtrSound(block, alignment);
      AlignedWithin(block, UsedAll(areas)[block], alignment, size);
      ghost var mem0, recs := mem, records;
      var at := Wrap(ptr + (WORD - HEADER));
      mem := Store(mem, at, Header(MAGIC, false, NULL));
      records := Lost(records, at);
      if PaddedSize(alignment, size) < WORD {
        OwnerWrite(mem0, mem, first, recs, records, State(areas, live), block);
      }
    }
  }

  // ----- the list of regions -----

  /** Records written inside granted memory leave the list alone. */
  lemma ListedOutside(first: Record, recs: Records, recs': Records, areas: seq<Area>, base: nat, size: nat,
                      live: map<nat, nat>)
    requires Listed(first, recs, areas) && Safe(State(areas, live)) && GrantOk(areas, base, size)
    requires KeptOutside(recs, recs', base, base + size)
    ensures Listed(first, recs', areas)
  {
    forall j | 1 <= j < |areas| ensures Kept(recs, recs', areas[j].base + HEADER) {
      RecordBlock(State(areas, live), j);
      RecordInside(areas[j]);
    }
    ListedKept(first, recs, recs', areas);
  }

  /** Records of different regions do not overlap. */
  lemma PutApart(s: State, recs: Records, k: nat, rec: Record)
    requires Safe(s) && 1 <= k < |s.areas|
    ensures var recs' := Put(recs, s.areas[k].base + HEADER, rec);
      forall j | 1 <= j < |s.areas| && j != k :: Kept(recs, recs', s.areas[j].base + HEADER)
  {
    var recs' := Put(recs, s.areas[k].base + HEADER, rec);
    forall j | 1 <= j < |s.areas| && j != k ensures Kept(recs, recs', s.areas[j].base + HEADER) {
      RecordBlock(s, j);
      RecordBlock(s, k);
      RecordInside(s.areas[j]);
      RecordInside(s.areas[k]);
      assert if j < k then Disjoint(s.areas[j], s.areas[k]) else Disjoint(s.areas[k], s.areas[j]);
    }
  }

  /** A region that does not own the address leaves the list alone. */
  lemma SameList(first: Record, recs: Records, recs': Records, s: State, r: nat)
    requires Safe(s) && Listed(first, recs, s.areas) && r < |s.areas| && KeptBeside(recs, recs', s.areas[r])
    ensures Listed(first, recs', s.areas)
  {
    forall j | 1 <= j < |s.areas| ensures Kept(recs, recs', s.areas[j].base + HEADER) { RecordBeside(s, r, j); }
    ListedKept(first, recs, recs', s.areas);
  }

  /** The memory an allocation may be given is outside the heap. */
  lemma GrantedOk(s: State, created: bool, rs: seq<Regions.Region>, n: nat)
    requires Inv(s) && Regions.Valid(rs) && Owned(s.areas, rs) && n < WORD
    ensures var grant := Granted(created, rs, n);
      n > 0 && grant != NULL ==> GrantOk(s.areas, grant, RegionSize(n))
  {
    if created && n > 0 { GrantFromPages(s, rs, n); }
  }

  /** What an allocation returns is a new block, large enough and no region's record. */
  lemma GaveBlock(s: State, n: nat, grant: nat)
    requires Safe(s) && n < WORD && (n > 0 && grant != NULL ==> GrantOk(s.areas, grant, RegionSize(n)))
    requires Malloc(s, n, grant).ptr != NULL
    ensures var r := Malloc(s, n, grant);
      && n > 0 && r.ptr in r.state.live && r.state.live[r.ptr] == n && !RecordAt(r.state.areas, r.ptr)
      && r.ptr in UsedAll(r.state.areas) && Payload(r.ptr, UsedAll(r.state.areas)[r.ptr], n)
  {
    MallocPayload(s, n, grant);
    MallocNoRecord(s, n, grant);
  }

  /** None of the first `r` regions owns the address. */
  ghost predicate NotIn(areas: seq<Area>, r: nat, ptr: nat)
    requires r <= |areas|
  {
    forall j | 0 <= j < r :: Owner(areas[j].base, areas[j].blocks, ptr) == |areas[j].blocks|
  }

  lemma OwnsHere(areas: seq<Area>, r: nat, ptr: nat)
    requires r < |areas| && NotIn(areas, r, ptr) && Owner(areas[r].base, areas[r].blocks, ptr) < |areas[r].blocks|
    ensures AreaOwner(areas, ptr) == r
  {}

  lemma NobodyOwns(areas: seq<Area>, ptr: nat)
    requires NotIn(areas, |areas|, ptr)
    ensures AreaOwner(areas, ptr) == |areas|
  {}

  /** What the physical memory manager gives for a request the regions cannot hold. */
  ghost function Granted(created: bool, rs: seq<Regions.Region>, n: nat): nat {
    if created then PmmSpec.AllocIn(rs, RegionSize(n) / 1024).ptr else NULL
  }

  // ----- new regions -----

  /** `initRegion` */
  function InitStore(mem: Memory, base: nat, size: nat): Memory
    requires 2 * HEADER <= size
  {
    var end := base + size - HEADER;
    Store(Store(mem, base, Header(MAGIC, true, end)), end, Header(0, false, NULL))
  }

  lemma InitChain(mem: Memory, base: nat, size: nat)
    requires 0 < base && 2 * HEADER <= size && base + size < WORD
    ensures var x := Area(base, [Block(size - 2 * HEADER, true)]);
      Chain(InitStore(mem, base, size), x) && AreaOk(x) && x.End() == base + size && UsedIn(x) == map[]
  {
    var x := Area(base, [Block(size - 2 * HEADER, true)]);
    assert x.blocks[1..] == [] && Span(x.blocks[1..]) == 0;
    UsedFree(base, x.blocks[0]);
    AddrEnd(base, x.blocks);
    assert LinkAt(InitStore(mem, base, size), base, x.blocks, 0);
  }

  lemma InitHeap(base: nat, size: nat)
    requires 0 < base && 2 * HEADER <= size && base + size < WORD
    ensures var x := Area(base, [Block(size - 2 * HEADER, true)]);
      && Safe(State([x], map[]))
      && Chains(InitStore(map[], base, size), [x]) && Listed(Record(base, size, Null), map[], [x])
  {
    var x := Area(base, [Block(size - 2 * HEADER, true)]);
    InitChain(map[], base, size);
    assert [x][1..] == [];
    assert UsedAll([x]) == UsedIn(x) + UsedAll([]);
  }

  lemma InitOutside(mem: Memory, x: Area, base: nat, size: nat)
    requires Chain(mem, x) && 2 * HEADER <= size && (base + size <= x.base || x.End() <= base)
    ensures Chain(InitStore(mem, base, size), x)
  {
    var end := base + size - HEADER;
    StoreOutside(mem, x, base, Header(MAGIC, true, end));
    StoreOutside(Store(mem, base, Header(MAGIC, true, end)), x, end, Header(0, false, NULL));
  }

  // ----- the heap and the page allocator -----

  /** The heap starts inside the kernel image, so after boot no byte of it is free for the page allocator. */
  lemma StartOwned(base: nat, size: nat, rs: seq<Regions.Region>, kernelEnd: nat, screen: BootMap.Screen)
    requires 2 * HEADER <= size && base + size <= kernelEnd && Regions.Valid(rs) && BootMap.Ordered(screen)
    requires BootMap.NoCut(BootMap.ReserveKernel(rs, kernelEnd), screen)
    ensures Owned([Area(base, [Block(size - 2 * HEADER, true)])], BootMap.Reserve(rs, kernelEnd, screen))
  {
    BootMap.BootReservation(rs, kernelEnd, screen);
    var blocks := [Block(size - 2 * HEADER, true)];
    assert Span(blocks) == size - HEADER;
  }

  lemma OwnedSame(areas: seq<Area>, areas': seq<Area>, rs: seq<Regions.Region>)
    requires Owned(areas, rs) && |areas'| == |areas|
    requires forall i | 0 <= i < |areas| :: SameExtent(areas'[i], areas[i])
    ensures Owned(areas', rs)
  {
    forall i, x: nat | 0 <= i < |areas'| && areas'[i].base <= x < areas'[i].End()
      ensures Regions.KindAt(rs, x) != Some(Regions.Usable)
    {
      assert SameExtent(areas'[i], areas[i]);
    }
  }

  /** Whole pages are allocated as asked. */
  lemma PagesExact(size: nat)
    requires 0 < size < WORD && size % PAGE == 0
    ensures PmmSpec.Representable(size / 1024) && PmmSpec.AllocSize(size / 1024) == size
  {
    assert size / 1024 * 1024 == size;
    assert size <= WORD - PAGE;
  }

  /** What the page allocator grants lies outside the heap. */
  lemma GrantFromPages(s: State, rs: seq<Regions.Region>, n: nat)
    requires Inv(s) && Regions.Valid(rs) && Owned(s.areas, rs) && 0 < n < WORD
    ensures var g := PmmSpec.AllocIn(rs, RegionSize(n) / 1024).ptr;
      g != NULL ==> RegionSize(n) >= PAGE && GrantOk(s.areas, g, RegionSize(n))
  {
    var size := RegionSize(n);
    var g := PmmSpec.AllocIn(rs, size / 1024).ptr;
    RegionSizeBounds(n);
    if g != NULL {
      assert size > 0;
      PagesExact(size);
      PmmSpec.AllocEffect(rs, size / 1024);
      assert Regions.UsableRun(rs, g, size);
      RunBelowLimit(rs, g, size);
      forall i | 0 <= i < |s.areas| ensures g + size <= s.areas[i].base || s.areas[i].End() <= g {
        RunApart(s.areas, i, rs, g, size);
      }
    }
  }

  /** After the page allocator has answered, the heap with its new region is still its own. */
  lemma OwnedAfter(s: State, rs: seq<Regions.Region>, n: nat)
    requires Inv(s) && Regions.Valid(rs) && Owned(s.areas, rs) && 0 < n < WORD && AreaFit(s.areas, n) == |s.areas|
    ensures var r := PmmSpec.AllocIn(rs, RegionSize(n) / 1024);
      Owned(Malloc(s, n, r.ptr).state.areas, r.regions)
  {
    var size := RegionSize(n);
    var r := PmmSpec.AllocIn(rs, size / 1024);
    var out := Malloc(s, n, r.ptr).state.areas;
    RegionSizeBounds(n);
    PmmSpec.AllocEffect(rs, size / 1024);
    if r.ptr != NULL {
      GrantFromPages(s, rs, n);
      PagesExact(size);
      MallocArea(s, n, r.ptr);
    }
    forall i, x: nat | 0 <= i < |out| && out[i].base <= x < out[i].End()
      ensures Regions.KindAt(r.regions, x) != Some(Regions.Usable)
    {
      if i < |s.areas| { assert out[i] == s.areas[i] && Regions.KindAt(rs, x) != Some(Regions.Usable); }
    }
  }

  /** What growing the heap with memory from the page allocator amounts to. */
  lemma Grown(s: State, rs: seq<Regions.Region>, n: nat)
    requires Safe(s) && Regions.Valid(rs) && Owned(s.areas, rs) && 0 < n < WORD && AreaFit(s.areas, n) == |s.areas|
    ensures var r := PmmSpec.AllocIn(rs, RegionSize(n) / 1024);
      && Owned(Malloc(s, n, r.ptr).state.areas, r.regions)
      && (r.ptr != NULL ==> 128 <= RegionSize(n) && GrantOk(s.areas, r.ptr, RegionSize(n)))
  {
    GrantFromPages(s, rs, n);
    OwnedAfter(s, rs, n);
  }

  /** The region an expansion adds is exactly the granted range. */
  lemma MallocArea(s: State, n: nat, grant: nat)
    requires Inv(s) && 0 < n < WORD && AreaFit(s.areas, n) == |s.areas| && grant != NULL && 128 <= RegionSize(n)
    requires GrantOk(s.areas, grant, RegionSize(n))
    ensures var out := Malloc(s, n, grant).state.areas;
      && |out| == |s.areas| + 1 && out[..|s.areas|] == s.areas
      && out[|s.areas|].base == grant && out[|s.areas|].End() == grant + RegionSize(n)
  {
    var x := NewArea(grant, RegionSize(n));
    NewAreaOk(grant, RegionSize(n));
    if FirstFit(x.blocks, n) < |x.blocks| { AllocateOk(x, n); }
  }

  lemma RunBelowLimit(rs: seq<Regions.Region>, g: nat, size: nat)
    requires Regions.Valid(rs) && Regions.UsableRun(rs, g, size) && 0 < size
    ensures g + size < WORD
  {
    assert Regions.KindAt(rs, g + size - 1) == Some(Regions.Usable);
    var i := Regions.KindAtWitness(rs, g + size - 1);
  }

  lemma RunApart(areas: seq<Area>, i: nat, rs: seq<Regions.Region>, g: nat, size: nat)
    requires Owned(areas, rs) && i < |areas| && Regions.UsableRun(rs, g, size)
    ensures g + size <= areas[i].base || areas[i].End() <= g || size == 0
  {
    var x := if g < areas[i].base then areas[i].base else g;
    if g <= x < g + size { assert Regions.KindAt(rs, x) == Some(Regions.Usable); }
  }

  /** The headers `alloc_region` writes give the region its new blocks. */
  lemma TakeChain(mem: Memory, x: Area, n: nat)
    requires Chain(mem, x) && FirstFit(x.blocks, n) < |x.blocks|
    ensures var i := FirstFit(x.blocks, n);
      var node, next, size := Addr(x.base, x.blocks, i), Addr(x.base, x.blocks, i + 1), x.blocks[i].size;
      var y := x.(blocks := Allocate(x.blocks, n));
      && SameExtent(x, y)
      && Chain(if size - n >= MIN_SIZE + HEADER then SplitStore(mem, node, n, next)
               else Store(mem, node, Header(MAGIC, false, next)), y)
  {
    var i := FirstFit(x.blocks, n);
    AllocateUsed(x.base, x.blocks, n);
    if x.blocks[i].size - n >= MIN_SIZE + HEADER { TakeSplit(mem, x, i, n); } else { TakeWhole(mem, x, i); }
  }

  /** Memory after `free_region`: the block's header, then its predecessor's if that is free. */
  function GiveStore(mem: Memory, bs: seq<Block>, a: nat, i: nat): Memory
    requires i < |bs|
  {
    var node, next := Addr(a, bs, i), Addr(a, bs, i + 1);
    var mem1 := Store(mem, node, Header(MAGIC, true, next));
    var right := i + 1 < |bs| && bs[i + 1].free;
    var mem2 := if right then Store(mem1, node, Header(MAGIC, true, Addr(a, bs, i + 2))) else mem1;
    var after := if right then Addr(a, bs, i + 2) else next;
    if i > 0 && bs[i - 1].free then Store(mem2, Addr(a, bs, i - 1), Header(MAGIC, true, after)) else mem2
  }

  lemma GiveSame(mem: Memory, x: Area, i: nat, k: nat)
    requires Chain(mem, x) && i < |x.blocks| && k <= |x.blocks| && (k < Lo(x.blocks, i) || k >= Hi(x.blocks, i))
    ensures Same(mem, GiveStore(mem, x.blocks, x.base, i), Addr(x.base, x.blocks, k))
  {
    ChainHeaders(mem, x, k);
    HeadersClear(x.base, x.blocks, i, k);
    if i > 0 && x.blocks[i - 1].free { HeadersClear(x.base, x.blocks, i - 1, k); }
  }

  /** The headers `free_region` writes give the region its merged blocks. */
  lemma GiveChain(mem: Memory, x: Area, i: nat)
    requires Chain(mem, x) && i < |x.blocks|
    ensures var y := x.(blocks := Release(x.blocks, i));
      SameExtent(x, y) && Chain(GiveStore(mem, x.blocks, x.base, i), y)
  {
    var bs, lo, hi, mem' := x.blocks, Lo(x.blocks, i), Hi(x.blocks, i), GiveStore(mem, x.blocks, x.base, i);
    ReleaseShape(bs, i);
    var b: Block :| b.free && Span([b]) == Span(bs[lo..hi]) && Release(bs, i) == Splice(bs, lo, hi, [b]);
    SpliceUsed(x.base, bs, lo, hi, [b]);
    forall k | 0 <= k < lo || hi <= k <= |bs| ensures Same(mem, mem', Addr(x.base, bs, k)) { GiveSame(mem, x, i, k); }
    MergeChain(mem, mem', x, lo, hi, b);
  }

  lemma InsideArea(x: Area, i: nat, at: nat)
    requires i < |x.blocks| && Addr(x.base, x.blocks, i) <= at && at + HEADER <= Addr(x.base, x.blocks, i + 1)
    ensures x.base <= at && at + HEADER <= x.End()
  {
    AddrBound(x.base, x.blocks, i);
    AddrBound(x.base, x.blocks, i + 1);
  }

  /** The first block whose span holds an address is its owner. */
  lemma OwnerIs(x: Area, ptr: nat, i: nat)
    requires i <= |x.blocks|
    requires forall j | 0 <= j < i :: !(Addr(x.base, x.blocks, j) < ptr < Addr(x.base, x.blocks, j + 1))
    ensures i == |x.blocks| ==> Owner(x.base, x.blocks, ptr) == i
    ensures i < |x.blocks| && Addr(x.base, x.blocks, i) < ptr < Addr(x.base, x.blocks, i + 1) ==>
      Owner(x.base, x.blocks, ptr) == i
  {
    OwnerFound(x.base, x.blocks, ptr);
  }

  /** What the walk reads at block `i`: its header, or the end header behind the last block. */
  lemma Visit(mem: Memory, x: Area, i: nat)
    requires Chain(mem, x) && AreaOk(x) && i <= |x.blocks|
    ensures var node := Addr(x.base, x.blocks, i);
      && node in mem && node != NULL
      && (mem[node].magic == MAGIC <==> i < |x.blocks|)
      && (i == |x.blocks| ==> mem[node] == Header(0, false, NULL))
      && (i < |x.blocks| ==>
            && mem[node] == Header(MAGIC, x.blocks[i].free, Addr(x.base, x.blocks, i + 1))
            && NodeSize(mem, node) == x.blocks[i].size)
  {
    ChainHeaders(mem, x, i);
    AddrEnd(x.base, x.blocks);
    if i < |x.blocks| {
      assert LinkAt(mem, x.base, x.blocks, i);
      AddrStep(x.base, x.blocks, i);
    }
  }
}
