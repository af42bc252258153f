/**
 The records of the heap's regions. Every region after the first holds its own record, which links the
 regions, in the payload of its first block; a release of that block takes the record away.
 */
module HeapRecords {
  import opened Words
  import opened HeapChain
  import opened HeapRuns

  /** The block that holds a region's record is handed out, and only as large as the record. */
  ghost predicate RecordLive(s: State, j: nat)
    requires j < |s.areas|
  {
    s.areas[j].base + HEADER in s.live && s.live[s.areas[j].base + HEADER] == REGION_STRUCT
  }

  ghost predicate RecordsLive(s: State) { forall j | 1 <= j < |s.areas| :: RecordLive(s, j) }

  /** The heap is intact: tiled and merged, blocks apart, and every region's record in a block in use. */
  ghost predicate Safe(s: State) { Inv(s) && RecordsLive(s) }

  /** The address points into the block of a region's record. */
  predicate InFirst(x: Area, ptr: nat) { x.blocks != [] && x.base < ptr < x.base + HEADER + x.blocks[0].size }

  ghost predicate InRecord(s: State, ptr: nat) { exists j :: 1 <= j < |s.areas| && InFirst(s.areas[j], ptr) }

  /** The block of a record is in use and holds it. */
  lemma RecordBlock(s: State, j: nat)
    requires Safe(s) && 1 <= j < |s.areas|
    ensures s.areas[j].blocks != [] && !s.areas[j].blocks[0].free && s.areas[j].blocks[0].size >= REGION_STRUCT
  {
    var x := s.areas[j];
    assert AreaOk(x) && RecordLive(s, j);
    var p := x.base + HEADER;
    var i := UsedAllWitness(s.areas, p);
    UsedAllMember(s.areas, i, p);
    InArea(s.areas[i], p);
    AreaLength(x);
    OnlyHere(s.areas, j, p);
    FirstUsed(x.base, x.blocks);
  }

  lemma AreaLength(x: Area)
    requires x.blocks != []
    ensures x.base + HEADER < x.End() && x.base + HEADER + x.blocks[0].size + HEADER <= x.End()
  {
  }

  // ----- allocation -----

  /** An allocation leaves every record where it is. */
  lemma MallocRecords(s: State, n: nat, grant: nat)
    requires Safe(s) && n < WORD && (grant != NULL ==> GrantOk(s.areas, grant, RegionSize(n)))
    ensures Safe(Malloc(s, n, grant).state)
  {
    if n > 0 {
      if AreaFit(s.areas, n) < |s.areas| { FitRecords(s, n, grant); } else { GrowRecords(s, n, grant); }
    }
  }

  lemma FitRecords(s: State, n: nat, grant: nat)
    requires Safe(s) && 0 < n && AreaFit(s.areas, n) < |s.areas|
    ensures Safe(Malloc(s, n, grant).state)
  {
    MallocFits(s, n, grant);
    var t := Malloc(s, n, grant).state;
    forall j | 1 <= j < |t.areas| ensures RecordLive(t, j) { assert RecordLive(s, j); }
  }

  lemma GrowRecords(s: State, n: nat, grant: nat)
    requires Safe(s) && 0 < n < WORD && AreaFit(s.areas, n) == |s.areas|
    requires grant != NULL ==> GrantOk(s.areas, grant, RegionSize(n))
    ensures Safe(Malloc(s, n, grant).state)
  {
    MallocGrows(s, n, grant);
    RegionSizeBounds(n);
    if grant != NULL && RegionSize(n) != 0 {
      var x := NewArea(grant, RegionSize(n));
      var s1 := State(s.areas + [x], s.live[grant + HEADER := REGION_STRUCT]);
      JoinRecords(s, grant, RegionSize(n));
      if FirstFit(x.blocks, n) < |x.blocks| { LastRecords(s1, s.areas, x, n); }
    }
  }

  lemma JoinRecords(s: State, grant: nat, size: nat)
    requires Safe(s) && GrantOk(s.areas, grant, size) && 128 <= size
    ensures Safe(State(s.areas + [NewArea(grant, size)], s.live[grant + HEADER := REGION_STRUCT]))
  {
    Expand(s, grant, size);
    var t := State(s.areas + [NewArea(grant, size)], s.live[grant + HEADER := REGION_STRUCT]);
    forall j | 1 <= j < |t.areas| ensures RecordLive(t, j) {
      if j < |s.areas| { assert RecordLive(s, j) && t.areas[j] == s.areas[j]; }
    }
  }

  lemma LastRecords(s: State, areas: seq<Area>, x: Area, n: nat)
    requires Safe(s) && s.areas == areas + [x] && 0 < n && FirstFit(x.blocks, n) < |x.blocks|
    ensures Safe(State(areas + [x.(blocks := Allocate(x.blocks, n))], s.live[PtrIn(x, n) := n]))
  {
    var y := x.(blocks := Allocate(x.blocks, n));
    AllocAt(s, |areas|, n);
    LastReplaced(areas, x, y);
    var t := State(areas + [y], s.live[PtrIn(x, n) := n]);
    forall j | 1 <= j < |t.areas| ensures RecordLive(t, j) {
      assert RecordLive(s, j) && t.areas[j].base == s.areas[j].base;
    }
  }

  // ----- release -----

  /** The block an address points into, when it is the first block of a region. */
  lemma RecordOwner(s: State, j: nat, ptr: nat)
    requires Inv(s) && j < |s.areas| && InFirst(s.areas[j], ptr)
    ensures ptr != NULL && AreaOwner(s.areas, ptr) == j && Owner(s.areas[j].base, s.areas[j].blocks, ptr) == 0
  {
    assert AreaOk(s.areas[j]);
    AreaLength(s.areas[j]);
    forall i | 0 <= i < j ensures Owner(s.areas[i].base, s.areas[i].blocks, ptr) == |s.areas[i].blocks| {
      assert Disjoint(s.areas[i], s.areas[j]);
      NotOwner(s.areas[i], ptr);
    }
    var o := AreaOwner(s.areas, ptr);
    assert o >= j;
  }

  /** Outside the records a release takes no record's block. */
  lemma ReleaseKeepsRecord(s: State, ptr: nat, j: nat)
    requires Safe(s) && 1 <= j < |s.areas| && !InFirst(s.areas[j], ptr)
    ensures |Free(s, ptr).areas| == |s.areas| && RecordLive(Free(s, ptr), j)
  {
    assert RecordLive(s, j);
    var i := AreaOwner(s.areas, ptr);
    if ptr != NULL && i < |s.areas| {
      var x := s.areas[i];
      var k := Owner(x.base, x.blocks, ptr);
      OwnerFound(x.base, x.blocks, ptr);
      PayloadInside(x, k);
      if i == j {
        FirstAlone(x, k);
        FirstSpan(x);
      } else {
        assert if i < j then Disjoint(x, s.areas[j]) else Disjoint(s.areas[j], x);
        AreaLength(s.areas[j]);
      }
    }
  }

  lemma PayloadInside(x: Area, k: nat)
    requires k < |x.blocks|
    ensures x.base + HEADER <= Addr(x.base, x.blocks, k) + HEADER < x.End()
  {
    AddrBound(x.base, x.blocks, k);
    AddrBound(x.base, x.blocks, k + 1);
    AddrStep(x.base, x.blocks, k);
  }

  /** Only the first block starts at the region's base. */
  lemma FirstAlone(x: Area, k: nat)
    requires k < |x.blocks|
    ensures Addr(x.base, x.blocks, k) == x.base <==> k == 0
  {
    if k > 0 {
      assert x.blocks[..k] != [];
    }
  }

  lemma FirstSpan(x: Area)
    requires x.blocks != []
    ensures Addr(x.base, x.blocks, 0) == x.base && Addr(x.base, x.blocks, 1) == x.base + HEADER + x.blocks[0].size
  {
    AddrStep(x.base, x.blocks, 0);
  }

  /** A release keeps every record exactly when the address lies in no record's block. */
  lemma FreeExact(s: State, ptr: nat)
    requires Safe(s)
    ensures Inv(Free(s, ptr))
    ensures Safe(Free(s, ptr)) <==> !InRecord(s, ptr)
  {
    FreeKeeps(s, ptr);
    if InRecord(s, ptr) {
      var j :| 1 <= j < |s.areas| && InFirst(s.areas[j], ptr);
      RecordOwner(s, j, ptr);
      FirstAlone(s.areas[j], 0);
      assert !RecordLive(Free(s, ptr), j);
    } else {
      forall j | 1 <= j < |s.areas|
        ensures |Free(s, ptr).areas| == |s.areas| && RecordLive(Free(s, ptr), j)
      {
        ReleaseKeepsRecord(s, ptr, j);
      }
      assert |Free(s, ptr).areas| == |s.areas|;
    }
  }

  /**
   What a released record leads to: after any growth, releasing the new region's record and asking for
   eight bytes hands out the bytes of the record itself.
   */
  lemma RecordReused(s: State, n: nat, grant: nat)
    requires Inv(s) && s.areas != [] && 0 < n <= WORD - 1 - 8192
    requires AreaFit(s.areas, n) == |s.areas| && AreaFit(s.areas, 8) == |s.areas|
    requires grant != NULL && GrantOk(s.areas, grant, RegionSize(n))
    ensures var t := Malloc(s, n, grant).state;
      InRecord(t, grant + HEADER) && Malloc(Free(t, grant + HEADER), 8, NULL).ptr == grant + HEADER
  {
    var t := Malloc(s, n, grant).state;
    GrownArea(s, n, grant);
    var k := |s.areas|;
    var x := t.areas[k];
    MallocGrows(s, n, grant);
    RecordOwner(t, k, grant + HEADER);
    var u := Free(t, grant + HEADER);
    FirstAlone(x, 0);
    assert u.areas[k].blocks[0] == Block(REGION_STRUCT, true);
    forall j | 0 <= j < k ensures FirstFit(u.areas[j].blocks, 8) == |u.areas[j].blocks| {
      assert u.areas[j] == s.areas[j];
    }
    assert AreaFit(u.areas, 8) == k;
    FirstAlone(u.areas[k], 0);
  }

  /** The region an expansion adds: the record's block, then the request's. */
  lemma GrownArea(s: State, n: nat, grant: nat)
    requires Inv(s) && 0 < n <= WORD - 1 - 8192 && AreaFit(s.areas, n) == |s.areas|
    requires grant != NULL && GrantOk(s.areas, grant, RegionSize(n))
    ensures var t := Malloc(s, n, grant).state;
      && |t.areas| == |s.areas| + 1 && t.areas[..|s.areas|] == s.areas
      && var x := t.areas[|s.areas|];
         x.base == grant && |x.blocks| >= 2 && x.blocks[0] == Block(REGION_STRUCT, false) && !x.blocks[1].free
  {
    RegionSizeBounds(n);
    NewAreaOk(grant, RegionSize(n));
    var x := NewArea(grant, RegionSize(n));
    assert FirstFit(x.blocks, n) == 1;
  }

  // ----- runs -----

  datatype Op = OpMalloc(n: nat, grant: nat) | OpFree(ptr: nat)

  function Step(s: State, op: Op): State {
    match op
    case OpMalloc(n, grant) => Malloc(s, n, grant).state
    case OpFree(ptr) => Free(s, ptr)
  }

  function Run(s: State, ops: seq<Op>): State
    decreases |ops|
  {
    if ops == [] then s else Run(Step(s, ops[0]), ops[1..])
  }

  /** Requests are words, grants are outside the heap, and no region's record is released. */
  ghost predicate Allowed(s: State, op: Op) {
    match op
    case OpMalloc(n, grant) => n < WORD && (grant != NULL ==> GrantOk(s.areas, grant, RegionSize(n)))
    case OpFree(ptr) => !InRecord(s, ptr)
  }

  ghost predicate AllAllowed(s: State, ops: seq<Op>)
    decreases |ops|
  {
    ops == [] || (Allowed(s, ops[0]) && AllAllowed(Step(s, ops[0]), ops[1..]))
  }

  /** Over every run the regions stay tiled and merged, the handed-out blocks apart and the records in place. */
  lemma {:induction false} RunKeeps(s: State, ops: seq<Op>)
    requires Safe(s) && AllAllowed(s, ops)
    ensures Safe(Run(s, ops))
    decreases |ops|
  {
    if ops != [] {
      match ops[0] {
        case OpMalloc(n, grant) => MallocRecords(s, n, grant);
        case OpFree(ptr) => FreeExact(s, ptr);
      }
      RunKeeps(Step(s, ops[0]), ops[1..]);
    }
  }
}
