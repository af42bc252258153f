/** Aligned blocks: the padded request, the address inside it, and when the two fit. */
module HeapAligned {
  import opened Arithmetic
  import opened Words
  import opened HeapChain
  import opened HeapRuns
  import opened HeapRecords

  /** Room for an aligned block and the header in front of it; the request is this sum on one word. */
  function PaddedSize(alignment: nat, size: nat): nat { size + alignment + HEADER - 1 }

  predicate AlignedRequest(alignment: nat, size: nat) { alignment > 0 && size > 0 && PowerOfTwo(alignment) }

  /** `(x & (x - 1)) == 0` for a positive word. */
  predicate PowerOfTwo(x: nat)
    decreases x
  {
    x == 1 || (x > 1 && x % 2 == 0 && PowerOfTwo(x / 2))
  }

  lemma {:induction false} PowerHalf(x: nat, k: nat)
    requires PowerOfTwo(x) && x < Pow2(k)
    ensures 2 * x <= Pow2(k)
    decreases k
  {
    if x > 1 { PowerHalf(x / 2, k - 1); }
  }

  /** An alignment that is a word is at most half of one. */
  lemma PowerBound(x: nat)
    requires PowerOfTwo(x) && x < WORD
    ensures 2 * x <= WORD
  {
    WordSize();
    PowerHalf(x, WORD_BITS);
  }

  /** `(ptr + sizeof(HeapNode) + alignment - 1) & ~(alignment - 1)` for a power of two, on one word. */
  function AlignedPtr(ptr: nat, alignment: nat): nat
    requires alignment > 0
  {
    Wrap(ptr + HEADER + alignment - 1) / alignment * alignment
  }

  lemma RoundDown(m: nat, alignment: nat)
    requires alignment > 0
    ensures m / alignment * alignment % alignment == 0 && m - alignment < m / alignment * alignment <= m
  {
    DivModUnique(m / alignment * alignment, alignment, m / alignment, 0);
    assert m == m / alignment * alignment + m % alignment;
  }

  /** The aligned address lies at or behind the block's header room, or the sum wrapped and it is NULL. */
  lemma AlignedPtrSound(ptr: nat, alignment: nat)
    requires 0 < alignment && ptr + HEADER < WORD
    ensures AlignedPtr(ptr, alignment) % alignment == 0
    ensures ptr + HEADER + alignment - 1 < WORD ==>
      ptr + HEADER <= AlignedPtr(ptr, alignment) <= ptr + HEADER + alignment - 1
    ensures ptr + HEADER + alignment - 1 >= WORD && alignment < WORD ==> AlignedPtr(ptr, alignment) == NULL
  {
    var m := Wrap(ptr + HEADER + alignment - 1);
    RoundDown(m, alignment);
    if ptr + HEADER + alignment - 1 >= WORD && alignment < WORD { SmallQuotient(m, alignment); }
  }

  lemma SmallQuotient(m: nat, d: nat)
    requires m < d
    ensures m / d * d == 0
  {
    DivModUnique(m, d, 0, m);
  }

  // ----- the block underneath -----

  /** A block for `n` bytes, and no more of it than could not be split off. */
  predicate Payload(block: nat, len: nat, n: nat) { n <= len < n + MIN_SIZE + HEADER && block + len + HEADER < WORD }

  /** The bytes at a non-null `ptr` lie inside the block. */
  predicate Within(block: nat, len: nat, ptr: nat, size: nat) { ptr != NULL && block <= ptr && ptr + size <= block + len }

  /** The bytes lie inside the block exactly when the size computed for it did not wrap. */
  lemma AlignedWithin(block: nat, len: nat, alignment: nat, size: nat)
    requires 0 < alignment && 2 * alignment <= WORD && 0 < size < WORD
    requires Payload(block, len, Wrap(PaddedSize(alignment, size)))
    ensures Within(block, len, AlignedPtr(block, alignment), size) <==> PaddedSize(alignment, size) < WORD
    ensures PaddedSize(alignment, size) < WORD ==>
      AlignedPtr(block, alignment) + size <= block + Wrap(PaddedSize(alignment, size))
  {
    AlignedPtrSound(block, alignment);
  }

  /** What `heap_alloc` hands out is large enough, and short of what could be split. */
  lemma MallocPayload(s: State, n: nat, grant: nat)
    requires Inv(s) && n < WORD && (n > 0 && grant != NULL ==> GrantOk(s.areas, grant, RegionSize(n)))
    ensures var r := Malloc(s, n, grant);
      r.ptr != NULL ==> n > 0 && r.ptr in UsedAll(r.state.areas) && Payload(r.ptr, UsedAll(r.state.areas)[r.ptr], n)
  {
    var r, i := Malloc(s, n, grant), AreaFit(s.areas, n);
    if r.ptr != NULL {
      if i < |s.areas| {
        MallocFits(s, n, grant);
        PayloadIn(r.state.areas, i, s.areas[i], n);
      } else {
        MallocGrows(s, n, grant);
        RegionSizeBounds(n);
        NewAreaOk(grant, RegionSize(n));
        PayloadIn(r.state.areas, i, NewArea(grant, RegionSize(n)), n);
      }
    }
  }

  lemma PayloadIn(areas: seq<Area>, i: nat, x: Area, n: nat)
    requires AreasOk(areas) && i < |areas| && 0 < n && AreaOk(x) && FirstFit(x.blocks, n) < |x.blocks|
    requires areas[i] == x.(blocks := Allocate(x.blocks, n))
    ensures PtrIn(x, n) in UsedAll(areas) && Payload(PtrIn(x, n), UsedAll(areas)[PtrIn(x, n)], n)
  {
    AllocateOk(x, n);
    UsedAllMember(areas, i, PtrIn(x, n));
    InArea(areas[i], PtrIn(x, n));
  }

  /** The address is that of a region's record. */
  ghost predicate RecordAt(areas: seq<Area>, p: nat) { exists j :: 1 <= j < |areas| && p == areas[j].base + HEADER }

  /** `heap_alloc` never hands out the block of a record. */
  lemma MallocNoRecord(s: State, n: nat, grant: nat)
    requires Safe(s) && n < WORD && (n > 0 && grant != NULL ==> GrantOk(s.areas, grant, RegionSize(n)))
    ensures Malloc(s, n, grant).ptr != NULL ==> !RecordAt(Malloc(s, n, grant).state.areas, Malloc(s, n, grant).ptr)
  {
    var r := Malloc(s, n, grant);
    if r.ptr != NULL {
      var fits := AreaFit(s.areas, n) < |s.areas|;
      if fits { MallocFits(s, n, grant); } else { MallocGrows(s, n, grant); }
      forall j | 1 <= j < |r.state.areas| ensures r.ptr != r.state.areas[j].base + HEADER {
        if j < |s.areas| {
          assert RecordLive(s, j) && r.state.areas[j].base == s.areas[j].base;
        } else {
          NewNoRecord(s, n, grant);
        }
      }
    }
  }

  lemma NewNoRecord(s: State, n: nat, grant: nat)
    requires Inv(s) && 0 < n < WORD && AreaFit(s.areas, n) == |s.areas| && Malloc(s, n, grant).ptr != NULL
    requires grant != NULL && GrantOk(s.areas, grant, RegionSize(n))
    ensures Malloc(s, n, grant).ptr != grant + HEADER
  {
    RegionSizeBounds(n);
    Expand(s, grant, RegionSize(n));
    AllocAt(State(s.areas + [NewArea(grant, RegionSize(n))], s.live[grant + HEADER := REGION_STRUCT]), |s.areas|, n);
  }

  /**
   The bytes that `heap_aligned_alloc` returns lie inside the block that `heap_alloc` gave it exactly when
   the size it asked for did not wrap; a wrapped request may also come back as NULL with the block taken.
   */
  lemma AlignedExact(s: State, alignment: nat, size: nat, grant: nat)
    requires Inv(s) && AlignedRequest(alignment, size) && alignment < WORD && size < WORD
    requires var n := Wrap(PaddedSize(alignment, size));
      n > 0 && grant != NULL ==> GrantOk(s.areas, grant, RegionSize(n))
    ensures var n := Wrap(PaddedSize(alignment, size));
      var r := Malloc(s, n, grant);
      r.ptr != NULL ==>
        && r.ptr in UsedAll(r.state.areas)
        && (Within(r.ptr, UsedAll(r.state.areas)[r.ptr], AlignedPtr(r.ptr, alignment), size)
            <==> PaddedSize(alignment, size) < WORD)
  {
    var n := Wrap(PaddedSize(alignment, size));
    var r := Malloc(s, n, grant);
    PowerBound(alignment);
    MallocPayload(s, n, grant);
    if r.ptr != NULL { AlignedWithin(r.ptr, UsedAll(r.state.areas)[r.ptr], alignment, size); }
  }

  /** A request that wraps: 16-byte alignment and the largest size get a block of thirty bytes. */
  lemma AlignedWraps()
    ensures var s := State([Area(4096, [Block(4064, true)])], map[]);
      var n := Wrap(PaddedSize(16, WORD - 1));
      var r := Malloc(s, n, NULL);
      && n == 30 && r.ptr == 4112 && r.state.live == map[4112 := 30] && AlignedPtr(r.ptr, 16) == 4128
      && r.state.areas[0].blocks[0] == Block(30, false)
  {
    var s := State([Area(4096, [Block(4064, true)])], map[]);
    assert FirstFit(s.areas[0].blocks, 30) == 0;
    assert AreaFit(s.areas, 30) == 0;
    assert s.areas[0].blocks[..0] == [];
  }
}
