/** The physical memory manager itself: the loops of kernel/memory/pmm.c over the region list. */
module Pmm {
  import opened Words
  import opened Regions
  import opened PmmSpec
  import opened BootMap
  import ListSpec

  /** Regions `r` and `s` overlap or touch. */
  predicate Meet(r: Region, s: Region) { !(s.base > r.End() || s.End() < r.base) }

  /** In a sound list only a direct neighbour can meet region `f`, and then the two touch. */
  lemma MeetsNeighbour(rs: seq<Region>, f: nat, n: nat)
    requires Valid(rs) && f < |rs| && n < |rs| && n != f
    ensures Meet(rs[f], rs[n]) <==>
      (n + 1 == f && rs[n].End() == rs[f].base) || (n == f + 1 && rs[f].End() == rs[n].base)
  {
    if n + 1 < f {
      assert rs[n].End() <= rs[n + 1].base && rs[n + 1].End() <= rs[f].base;
    } else if f + 1 < n {
      assert rs[f].End() <= rs[f + 1].base && rs[f + 1].End() <= rs[n].base;
    }
  }

  /** `gap + alloc_size` does not wrap. */
  lemma GapFits(r: Region, n: nat)
    requires AlignedBase(r) >= r.base && n < WORD && n % PAGE == 0
    ensures Wrap(AlignedBase(r) - r.base + n) == AlignedBase(r) - r.base + n
  {
    AlignedBaseSound(r);
  }

  /** Widening region `f` over its neighbour `n` and dropping `n`. */
  function Absorb(rs: seq<Region>, f: nat, n: nat): seq<Region>
    requires f < |rs| && n < |rs|
  {
    ListSpec.Remove(rs[f := Hull(rs[f], rs[n])], n)
  }

  lemma AbsorbIsJoin(rs: seq<Region>, f: nat, n: nat)
    requires f < |rs| && n < |rs| && (n + 1 == f || n == f + 1) && BothUsable(rs[f], rs[n])
    ensures Absorb(rs, f, n) == Join(rs, if n < f then n else f)
  {}

  /** What `pmm_maintain` will have made of the list once its cursor has moved on from `i`. */
  ghost function Merging(rs: seq<Region>, i: nat): seq<Region>
    requires i <= |rs|
  {
    rs[..i] + Coalesce(rs[i..])
  }

  lemma MergingEnds(rs: seq<Region>)
    ensures Merging(rs, 0) == Coalesce(rs)
    ensures rs != [] ==> Merging(rs, |rs| - 1) == rs
  {
    assert rs[0..] == rs;
    if rs != [] { assert rs[|rs| - 1..] == [rs[|rs| - 1]]; }
  }

  lemma MergingStep(rs: seq<Region>, i: nat)
    requires Regions.Valid(rs) && i + 1 < |rs|
    ensures !Mergeable(rs[i], rs[i + 1]) ==> Merging(rs, i + 1) == Merging(rs, i)
    ensures Mergeable(rs[i], rs[i + 1]) ==>
      Joinable(rs, i) && Absorb(rs, i, i + 1) == Join(rs, i) && Merging(Join(rs, i), i) == Merging(rs, i)
  {
    if Mergeable(rs[i], rs[i + 1]) {
      AbsorbIsJoin(rs, i, i + 1);
      MergingJoin(rs, i);
    } else {
      MergingSkip(rs, i);
    }
  }

  lemma MergingJoin(rs: seq<Region>, i: nat)
    requires i + 1 < |rs| && Mergeable(rs[i], rs[i + 1])
    ensures Merging(Join(rs, i), i) == Merging(rs, i)
  {
    var rest := rs[i..];
    assert rest[0] == rs[i] && rest[1] == rs[i + 1];
    assert Join(rs, i)[i..] == [Hull(rest[0], rest[1])] + rest[2..];
    assert Join(rs, i)[..i] == rs[..i];
  }

  lemma MergingSkip(rs: seq<Region>, i: nat)
    requires i + 1 < |rs| && !Mergeable(rs[i], rs[i + 1])
    ensures Merging(rs, i + 1) == Merging(rs, i)
  {
    var rest := rs[i..];
    assert rest[0] == rs[i] && rest[1] == rs[i + 1];
    assert rest[1..] == rs[i + 1..];
    assert rs[..i + 1] == rs[..i] + [rs[i]];
  }

  /** Absorbing the first USABLE region that meets `f` is a step of merging around `f`. */
  lemma AbsorbStep(rs: seq<Region>, f: nat, n: nat)
    requires Regions.Valid(rs) && f < |rs| && n < |rs| && n != f
    requires BothUsable(rs[f], rs[n]) && Meet(rs[f], rs[n])
    requires forall j | 0 <= j < n && j != f :: !(rs[j].kind.Usable? && Meet(rs[f], rs[j]))
    ensures var out, g := Absorb(rs, f, n), if n < f then f - 1 else f;
      && Regions.Valid(out) && g < |out| < |rs| && out[g].kind.Usable?
      && MergeAround(out, g) == MergeAround(rs, f)
  {
    MeetsNeighbour(rs, f, n);
    AbsorbIsJoin(rs, f, n);
    JoinValid(rs, if n < f then n else f);
    if n > f > 0 { MeetsNeighbour(rs, f, f - 1); }
  }

  /** When no USABLE region meets `f`, merging around `f` is done. */
  lemma AbsorbDone(rs: seq<Region>, f: nat)
    requires Regions.Valid(rs) && f < |rs| && rs[f].kind.Usable?
    requires forall j | 0 <= j < |rs| && j != f :: !(rs[j].kind.Usable? && Meet(rs[f], rs[j]))
    ensures MergeAround(rs, f) == rs
  {
    if f > 0 { MeetsNeighbour(rs, f, f - 1); }
    if f + 1 < |rs| { MeetsNeighbour(rs, f, f + 1); }
  }

  /** The list edits of `pmm_alloc`, by the pieces that are not empty. */
  lemma CutEdits(rs: seq<Region>, i: nat, a: nat, n: nat)
    requires i < |rs| && rs[i].kind.Usable? && rs[i].base <= a && a + n <= rs[i].End()
    ensures var r, out := rs[i], Splice(rs, i, Carve(rs[i], a, n));
      var suffix := Region(a + n, r.End() - (a + n), Usable);
      && (a == r.base && n == r.size ==> out == rs[i := r.(kind := Reserved)])
      && (a == r.base && n < r.size ==>
            out == ListSpec.Insert(rs[i := Region(r.base, n, Reserved)], i + 1, suffix))
      && (a > r.base ==>
            var l := ListSpec.Insert(rs[i := r.(size := a - r.base)], i + 1, Region(a, n, Reserved));
            out == if a + n == r.End() then l else ListSpec.Insert(l, i + 2, suffix))
  {}

  /** Every region ends below the word limit. */
  ghost predicate Bounded(rs: seq<Region>) { forall i | 0 <= i < |rs| :: rs[i].End() < WORD }

  /** One step of a reservation pass keeps the list in bounds, and what the walk will produce. */
  lemma WalkStep(rs: seq<Region>, i: nat, f: Splitter)
    requires Bounded(rs) && i < |rs| && Inside(f(rs[i]), rs[i]) && Settled(f, rs[i])
    ensures Bounded(Splice(rs, i, f(rs[i]))) && i < |Splice(rs, i, f(rs[i]))|
    ensures Walking(Splice(rs, i, f(rs[i])), i + 1, f) == Walking(rs, i, f)
    ensures i < |Walking(rs, i, f)|
  {
    WalkingStep(rs, i, f);
    WalkingBound(rs, i, f);
  }

  lemma ScreenValid(rs: seq<Region>, lo: nat, hi: nat)
    requires Regions.Valid(rs) && lo < hi
    ensures Regions.Valid(ReserveFramebuffer(rs, lo, hi))
  {
    FramebufferKindAt(rs, lo, hi, 0);
  }

  lemma RoundUp(size: nat)
    ensures PageCeil(size) == if size % PAGE != 0 then (size / PAGE + 1) * PAGE else size
  {}

  /** The first region that fits is the one `pmm_alloc` cuts. */
  lemma AllocFound(rs: seq<Region>, kb: nat, i: nat)
    requires Representable(kb) && i < |Coalesce(rs)| && Fits(Coalesce(rs)[i], AllocSize(kb))
    requires forall j | 0 <= j < i :: !Fits(Coalesce(rs)[j], AllocSize(kb))
    ensures var m, n := Coalesce(rs), AllocSize(kb);
      AllocIn(rs, kb) == Allocation(AlignedBase(m[i]), Splice(m, i, Carve(m[i], AlignedBase(m[i]), n)))
  {
    assert FirstFit(Coalesce(rs), AllocSize(kb)) == i;
  }

  lemma AllocNotFound(rs: seq<Region>, kb: nat)
    requires Representable(kb) && forall j | 0 <= j < |Coalesce(rs)| :: !Fits(Coalesce(rs)[j], AllocSize(kb))
    ensures AllocIn(rs, kb) == Allocation(NULL, Coalesce(rs))
  {
    assert FirstFit(Coalesce(rs), AllocSize(kb)) == |Coalesce(rs)|;
  }

  lemma FreeFound(rs: seq<Region>, ptr: nat, f: nat)
    requires ptr != NULL && f <= |rs| && (f < |rs| ==> rs[f].base == PageFloor(ptr))
    requires forall j | 0 <= j < f :: rs[j].base != PageFloor(ptr)
    ensures FreeIn(rs, ptr) == if f == |rs| || rs[f].kind.Usable? then rs else MergeAround(Retyped(rs, f), f)
  {
    assert FindBase(rs, PageFloor(ptr)) == f;
  }

  class PhysicalMemory {
    var created: bool
    var regions: seq<Region>

    ghost predicate Valid()
      reads this
    {
      Regions.Valid(regions)
    }

    constructor (boot: seq<Region>)
      requires Regions.Valid(boot)
      ensures Valid() && created && regions == boot
    {
      created, regions := true, boot;
    }

    /** The first loop of `pmm_init`: everything below the kernel's end becomes RESERVED. */
    method ReserveBelow(kernelEnd: nat)
      requires Valid()
      modifies this
      ensures Valid() && created == old(created)
      ensures regions == ReserveKernel(old(regions), kernelEnd)
    {
      KernelKindAt(regions, kernelEnd, 0);
      ghost var f, goal := KernelSplitter(kernelEnd), ReserveKernel(regions, kernelEnd);
      WalkingEnds(regions, f);
      var i: nat := 0;
      while i < |regions|
        invariant Bounded(regions) && created == old(created) && i <= |regions| && Walking(regions, i, f) == goal
        decreases |goal| - i
      {
        KernelPieces(regions[i], kernelEnd);
        WalkStep(regions, i, f);
        SplitAtKernel(i, kernelEnd);
        i := i + 1;
      }
      WalkingEnds(regions, f);
    }

    /** The body of that loop for region `i`. */
    method SplitAtKernel(i: nat, kernelEnd: nat)
      requires i < |regions| && regions[i].End() < WORD
      modifies this
      ensures created == old(created)
      ensures regions == Splice(old(regions), i, SplitKernel(old(regions)[i], kernelEnd))
    {
      var region := regions[i];
      if region.base < kernelEnd {
        var regionEnd := Wrap(region.base + region.size);
        if regionEnd > kernelEnd {
          regions := regions[i := region.(size := kernelEnd - region.base)];
          regions := ListSpec.Insert(regions, i + 1, Region(kernelEnd, regionEnd - kernelEnd, Usable));
        }
        regions := regions[i := regions[i].(kind := Reserved)];
      }
    }

    /** The size rounded up to whole pages. */
    static method RoundToPage(bytes: nat) returns (size: nat)
      ensures size == PageCeil(bytes)
    {
      RoundUp(bytes);
      size := bytes;
      if size % PAGE != 0 { size := (size / PAGE + 1) * PAGE; }
    }

    /** The framebuffer part of `pmm_init`: its pages become RESERVED or leave the map. */
    method ReserveScreen(framebuffer: nat, bytes: nat)
      requires Valid() && framebuffer + PageCeil(bytes) < WORD
      modifies this
      ensures created == old(created)
      ensures regions == if framebuffer == NULL then old(regions)
                         else ReserveFramebuffer(old(regions), framebuffer, framebuffer + PageCeil(bytes))
      ensures 0 < bytes || framebuffer == NULL ==> Valid()
    {
      if framebuffer == NULL { return; }
      var size := RoundToPage(bytes);
      var end := framebuffer + size;
      ghost var before := regions;
      ReservePages(framebuffer, end);
      if bytes > 0 { ScreenValid(before, framebuffer, end); }
    }

    /** The second loop of `pmm_init`. */
    method ReservePages(lo: nat, hi: nat)
      requires Valid() && lo <= hi
      modifies this
      ensures created == old(created) && regions == ReserveFramebuffer(old(regions), lo, hi)
    {
      ghost var f, goal := FramebufferSplitter(lo, hi), ReserveFramebuffer(regions, lo, hi);
      WalkingEnds(regions, f);
      var i: nat := 0;
      while i < |regions|
        invariant Bounded(regions) && created == old(created) && i <= |regions| && Walking(regions, i, f) == goal
        decreases |goal| - i
      {
        FramebufferPieces(regions[i], lo, hi);
        WalkStep(regions, i, f);
        SplitAtScreen(i, lo, hi);
        i := i + 1;
      }
      WalkingEnds(regions, f);
    }

    /** The body of that loop for region `i`. */
    method SplitAtScreen(i: nat, lo: nat, hi: nat)
      requires i < |regions| && regions[i].End() < WORD && lo <= hi
      modifies this
      ensures created == old(created)
      ensures regions == Splice(old(regions), i, SplitFramebuffer(old(regions)[i], lo, hi))
    {
      var region := regions[i];
      var regionEnd := Wrap(region.base + region.size);
      if region.base < hi && regionEnd > lo {
        if region.base < lo && regionEnd > hi {
          regions := regions[i := region.(size := lo - region.base)];
          regions := ListSpec.Insert(regions, i + 1, Region(hi, regionEnd - hi, region.kind));
          regions := ListSpec.Insert(regions, i + 1, Region(lo, hi - lo, Reserved));
        } else if region.base < lo && regionEnd <= hi {
          regions := regions[i := region.(size := lo - region.base)];
        } else if region.base >= lo && regionEnd > hi {
          var overlap := regionEnd - hi;
          regions := regions[i := region.(base := hi, size := overlap)];
        } else {
          regions := regions[i := region.(kind := Reserved)];
        }
      }
    }

    /** `pmm_maintain` */
    method Maintain()
      requires Valid()
      modifies this
      ensures Valid() && created == old(created)
      ensures regions == if created then Coalesce(old(regions)) else old(regions)
    {
      CoalesceValid(regions);
      if !created || |regions| == 0 { return; }
      var i: nat := 0;
      MergingEnds(regions);
      while i + 1 < |regions|
        invariant Valid() && created && i < |regions| && Merging(regions, i) == Coalesce(old(regions))
        decreases |regions| - i
      {
        var merged := MergeNext(i);
        if !merged { i := i + 1; }
      }
      MergingEnds(regions);
    }

    /** One round of `pmm_maintain`: region `i` absorbs its successor if both are USABLE and they meet. */
    method MergeNext(i: nat) returns (merged: bool)
      requires Valid() && i + 1 < |regions|
      modifies this
      ensures Valid() && created == old(created)
      ensures |regions| == |old(regions)| - (if merged then 1 else 0)
      ensures Merging(regions, if merged then i else i + 1) == Merging(old(regions), i)
    {
      var current, next := regions[i], regions[i + 1];
      MergingStep(regions, i);
      if current.kind.Usable? && next.kind.Usable? {
        var currentEnd := Wrap(current.base + current.size);
        var nextEnd := Wrap(next.base + next.size);
        if next.base <= currentEnd {
          JoinValid(regions, i);
          var newBase := if current.base < next.base then current.base else next.base;
          var newEnd := if currentEnd > nextEnd then currentEnd else nextEnd;
          var wide := current.(base := newBase, size := newEnd - newBase);
          assert wide == Hull(current, next);
          regions := regions[i := wide];
          regions := ListSpec.Remove(regions, i + 1);
          return true;
        }
      }
      merged := false;
    }

    /** `pmm_alloc`: the address of a reserved block, NULL when there is none. */
    method Alloc(kb: nat) returns (ptr: nat)
      requires Valid() && kb < WORD
      modifies this
      ensures Valid() && created == old(created)
      ensures created ==> Allocation(ptr, regions) == AllocIn(old(regions), kb)
      ensures !created ==> ptr == NULL && regions == old(regions)
    {
      if !created || kb == 0 { return NULL; }
      if kb > (WORD - 1) / 1024 { return NULL; }
      var bytes := kb * 1024;
      var size := PageFloor(Wrap(bytes + PAGE - 1));
      if size == 0 { return NULL; }
      Maintain();
      ghost var m := regions;
      for index := 0 to |regions|
        invariant Valid() && created && regions == m
        invariant forall j | 0 <= j < index :: !Fits(m[j], size)
      {
        var cur := regions[index];
        if !cur.kind.Usable? { continue; }
        var aligned := PageFloor(Wrap(cur.base + PAGE - 1));
        if aligned < cur.base { continue; }
        var gap := aligned - cur.base;
        GapFits(cur, size);
        if cur.size < Wrap(gap + size) { continue; }
        AllocFound(old(regions), kb, index);
        ptr := CutAt(index, aligned, size);
        return;
      }
      AllocNotFound(old(regions), kb);
      ptr := NULL;
    }

    /** The part of `pmm_alloc` that carves `size` bytes at `aligned` out of region `index`. */
    method CutAt(index: nat, aligned: nat, size: nat) returns (ptr: nat)
      requires Valid() && index < |regions| && regions[index].kind.Usable? && 0 < size
      requires regions[index].base <= aligned && aligned + size <= regions[index].End()
      modifies this
      ensures Valid() && created == old(created) && ptr == aligned
      ensures regions == Splice(old(regions), index, Carve(old(regions)[index], aligned, size))
    {
      var cur, gap := regions[index], aligned - regions[index].base;
      CarveSound(cur, aligned, size);
      SpliceValid(regions, index, Carve(cur, aligned, size));
      if gap == 0 {
        CutFront(index, size);
        return cur.base;
      }
      CutInside(index, gap, aligned, size);
      ptr := aligned;
    }

    /** The block starts where the region does. */
    method CutFront(index: nat, size: nat)
      requires index < |regions| && regions[index].kind.Usable? && 0 < size <= regions[index].size
      requires regions[index].End() < WORD
      modifies this`regions
      ensures regions == Splice(old(regions), index, Carve(old(regions)[index], old(regions)[index].base, size))
    {
      var cur := regions[index];
      CutEdits(regions, index, cur.base, size);
      if cur.size == size {
        regions := regions[index := cur.(kind := Reserved)];
        return;
      }
      var curEnd := Wrap(cur.base + cur.size);
      var end := Wrap(cur.base + size);
      regions := regions[index := Region(cur.base, size, Reserved)];
      if end < curEnd {
        regions := ListSpec.Insert(regions, index + 1, Region(end, curEnd - end, Usable));
      }
    }

    /** The block starts inside the region, which keeps the part in front. */
    method CutInside(index: nat, gap: nat, aligned: nat, size: nat)
      requires index < |regions| && regions[index].kind.Usable? && 0 < size && 0 < gap
      requires regions[index].base + gap == aligned && aligned + size <= regions[index].End() < WORD
      modifies this`regions
      ensures regions == Splice(old(regions), index, Carve(old(regions)[index], aligned, size))
    {
      var cur := regions[index];
      CutEdits(regions, index, aligned, size);
      var curEnd := Wrap(cur.base + cur.size);
      var end := Wrap(aligned + size);
      regions := regions[index := cur.(size := gap)];
      regions := ListSpec.Insert(regions, index + 1, Region(aligned, size, Reserved));
      if end < curEnd {
        regions := ListSpec.Insert(regions, index + 2, Region(end, curEnd - end, Usable));
      }
    }

    /** `pmm_free` */
    method Free(ptr: nat)
      requires Valid()
      modifies this
      ensures Valid() && created == old(created)
      ensures regions == if created then FreeIn(old(regions), ptr) else old(regions)
    {
      if ptr == NULL || !created { return; }
      var addr := ptr;
      if addr % PAGE != 0 { addr := PageFloor(addr); }
      var f: nat := 0;
      while f < |regions| && regions[f].base != addr
        invariant f <= |regions| && forall j | 0 <= j < f :: regions[j].base != addr
      {
        f := f + 1;
      }
      FreeFound(regions, ptr, f);
      if f == |regions| { return; }
      if regions[f].kind.Usable? { return; }
      RetypedSound(regions, f);
      regions := regions[f := regions[f].(kind := Usable)];
      var merged := true;
      while merged
        invariant Valid() && created && f < |regions| && regions[f].kind.Usable?
        invariant MergeAround(regions, f) == FreeIn(old(regions), ptr)
        invariant !merged ==> MergeAround(regions, f) == regions
        decreases |regions|, merged
      {
        f, merged := MergeOne(f);
      }
    }

    /** One scan of the list for a USABLE region that meets region `f`; the first one found is absorbed. */
    method MergeOne(f: nat) returns (g: nat, merged: bool)
      requires Valid() && f < |regions| && regions[f].kind.Usable?
      modifies this
      ensures Valid() && created == old(created) && g < |regions| && regions[g].kind.Usable?
      ensures MergeAround(regions, g) == MergeAround(old(regions), f)
      ensures if merged then |regions| < |old(regions)| else regions == old(regions) == MergeAround(regions, g)
    {
      var freed := regions[f];
      var freedEnd := Wrap(freed.base + freed.size);
      for n := 0 to |regions|
        invariant regions == old(regions) && created == old(created)
        invariant forall j | 0 <= j < n && j != f :: !(regions[j].kind.Usable? && Meet(freed, regions[j]))
      {
        var mr := regions[n];
        if n == f || !mr.kind.Usable? { continue; }
        var mrEnd := Wrap(mr.base + mr.size);
        if !(mr.base > freedEnd || mrEnd < freed.base) {
          AbsorbStep(regions, f, n);
          var newBase := if freed.base < mr.base then freed.base else mr.base;
          var newEnd := if freedEnd > mrEnd then freedEnd else mrEnd;
          var wide := freed.(base := newBase, size := newEnd - newBase);
          assert wide == Hull(freed, mr);
          regions := regions[f := wide];
          regions := ListSpec.Remove(regions, n);
          return if n < f then f - 1 else f, true;
        }
        // The two adjacency tests that follow in the source never succeed.
        if mrEnd == freed.base { assert false; }
        if freedEnd == mr.base { assert false; }
      }
      AbsorbDone(regions, f);
      g, merged := f, false;
    }
  }
}
