/**
 Page allocation and release on region lists: what `pmm_alloc` and `pmm_free` compute,
 and what holds over every run of the two.
 */
module PmmSpec {
  import opened Options
  import opened Words
  import opened Regions

  // ----- allocation -----

  /** `(sizeInKB * 1024 + PAGE - 1) & ~(PAGE - 1)` on 64-bit words. */
  function AllocSize(kb: nat): nat { PageFloor(Wrap(kb * 1024 + PAGE - 1)) }

  /** The requests that pass the guards of `pmm_alloc`. */
  predicate Representable(kb: nat) { 0 < kb <= (WORD - 1) / 1024 && AllocSize(kb) != 0 }

  /** `(base + PAGE - 1) & ~(PAGE - 1)` on 64-bit words. */
  function AlignedBase(r: Region): nat { PageFloor(Wrap(r.base + PAGE - 1)) }

  predicate Fits(r: Region, n: nat) {
    r.kind.Usable? && AlignedBase(r) >= r.base && r.size >= AlignedBase(r) - r.base + n
  }

  /** Index of the first region that fits, or the length of the list. */
  function FirstFit(rs: seq<Region>, n: nat): (i: nat)
    ensures i <= |rs|
    ensures i < |rs| ==> Fits(rs[i], n)
    ensures forall j | 0 <= j < i :: !Fits(rs[j], n)
  {
    if rs == [] || Fits(rs[0], n) then 0 else 1 + FirstFit(rs[1..], n)
  }

  /** Region `r` cut into prefix, the block `[a, a + n)` of type `k`, and suffix; empty pieces are left out. */
  function Pieces(r: Region, a: nat, n: nat, k: Kind): seq<Region>
    requires r.base <= a && a + n <= r.End()
  {
    (if a == r.base then [] else [Region(r.base, a - r.base, Usable)])
    + [Region(a, n, k)]
    + (if a + n == r.End() then [] else [Region(a + n, r.End() - (a + n), Usable)])
  }

  function Carve(r: Region, a: nat, n: nat): seq<Region>
    requires r.base <= a && a + n <= r.End()
  {
    Pieces(r, a, n, Reserved)
  }

  datatype Allocation = Allocation(ptr: nat, regions: seq<Region>)

  function AllocIn(rs: seq<Region>, kb: nat): Allocation {
    if !Representable(kb) then Allocation(NULL, rs)
    else
      var m, n := Coalesce(rs), AllocSize(kb);
      var i := FirstFit(m, n);
      if i == |m| then Allocation(NULL, m) else Allocation(AlignedBase(m[i]), Splice(m, i, Carve(m[i], AlignedBase(m[i]), n)))
  }

  /** A representable size is rounded up to whole pages without wrapping. */
  lemma AllocSizeRounds(kb: nat)
    requires 0 < kb <= (WORD - 1) / 1024
    ensures Representable(kb) <==> kb * 1024 + PAGE - 1 < WORD
    ensures Representable(kb) ==> AllocSize(kb) % PAGE == 0 && kb * 1024 <= AllocSize(kb) < kb * 1024 + PAGE
  {}

  lemma AlignedBaseSound(r: Region)
    ensures AlignedBase(r) % PAGE == 0 && AlignedBase(r) < r.base + PAGE
  {}

  lemma CarveSound(r: Region, a: nat, n: nat)
    requires r.base <= a && a + n <= r.End() < WORD && 0 < n
    ensures Valid(Carve(r, a, n)) && Inside(Carve(r, a, n), r)
    ensures Region(a, n, Reserved) in Carve(r, a, n)
    ensures UsableBytes(Carve(r, a, n)) + n == r.size
  {
    var pre := if a == r.base then [] else [Region(r.base, a - r.base, Usable)];
    var mid := [Region(a, n, Reserved)];
    var suf := if a + n == r.End() then [] else [Region(a + n, r.End() - (a + n), Usable)];
    assert Carve(r, a, n) == pre + mid + suf;
    UsableBytesConcat(pre + mid, suf);
    UsableBytesConcat(pre, mid);
    assert mid[0] in Carve(r, a, n);
  }

  lemma CarveKindAt(r: Region, a: nat, n: nat, x: nat)
    requires r.base <= a && a + n <= r.End() && r.Covers(x)
    ensures KindAt(Carve(r, a, n), x) == Some(if a <= x < a + n then Reserved else Usable)
  {
    var pre := if a == r.base then [] else [Region(r.base, a - r.base, Usable)];
    var mid := [Region(a, n, Reserved)];
    var suf := if a + n == r.End() then [] else [Region(a + n, r.End() - (a + n), Usable)];
    KindAtConcat(pre + mid, suf, x);
    KindAtConcat(pre, mid, x);
  }

  /** First fit on the merged list succeeds exactly when some page-aligned USABLE run is long enough. */
  lemma FirstFitComplete(rs: seq<Region>, n: nat)
    requires Valid(rs) && 0 < n && n % PAGE == 0
    ensures FirstFit(Coalesce(rs), n) < |Coalesce(rs)|
       <==> exists a: nat :: a % PAGE == 0 && UsableRun(rs, a, n)
  {
    var m := Coalesce(rs);
    CoalesceValid(rs);
    CoalesceCoalesced(rs);
    forall x: nat ensures KindAt(m, x) == KindAt(rs, x) { CoalesceKindAt(rs, x); }
    var i := FirstFit(m, n);
    if i < |m| {
      var a := AlignedBase(m[i]);
      AlignedBaseSound(m[i]);
      forall x: nat | a <= x < a + n ensures KindAt(rs, x) == Some(Usable) { KindAtElement(m, i, x); }
      assert UsableRun(rs, a, n);
    }
    if a: nat :| a % PAGE == 0 && UsableRun(rs, a, n) {
      assert UsableRun(m, a, n);
      var j := RunInOneRegion(m, a, n);
      AlignedFits(m[j], a, n);
    }
  }

  lemma AlignedFits(r: Region, a: nat, n: nat)
    requires r.kind.Usable? && r.End() < WORD && a % PAGE == 0 && n % PAGE == 0 && 0 < n
    requires r.base <= a && a + n <= r.End()
    ensures Fits(r, n)
  {
    assert r.base + PAGE - 1 < WORD;
    assert PageFloor(r.base + PAGE - 1) <= a;
  }

  /** The effect of one request on every address, on the byte count and on the list. */
  lemma AllocEffect(rs: seq<Region>, kb: nat)
    requires Valid(rs)
    ensures var r := AllocIn(rs, kb);
      var n := AllocSize(kb);
      var found := Representable(kb) && FirstFit(Coalesce(rs), n) < |Coalesce(rs)|;
      && Valid(r.regions)
      && (!found ==> r.ptr == NULL && UsableBytes(r.regions) == UsableBytes(rs))
      && (found ==>
            && r.ptr % PAGE == 0
            && UsableRun(rs, r.ptr, n)
            && Region(r.ptr, n, Reserved) in r.regions
            && UsableBytes(r.regions) + n == UsableBytes(rs))
      && forall x: nat :: KindAt(r.regions, x)
           == if found && r.ptr <= x < r.ptr + n then Some(Reserved) else KindAt(rs, x)
  {
    var r, n, m := AllocIn(rs, kb), AllocSize(kb), Coalesce(rs);
    CoalesceValid(rs);
    forall x: nat ensures KindAt(m, x) == KindAt(rs, x) { CoalesceKindAt(rs, x); }
    var i := FirstFit(m, n);
    if Representable(kb) && i < |m| {
      AlignedBaseSound(m[i]);
      CarveEffect(m, i, AlignedBase(m[i]), n);
    }
  }

  /** What carving a block out of one USABLE region does to every address. */
  lemma CarveEffect(m: seq<Region>, i: nat, a: nat, n: nat)
    requires Valid(m) && i < |m| && m[i].kind.Usable? && m[i].base <= a && a + n <= m[i].End() && 0 < n
    ensures var out := Splice(m, i, Carve(m[i], a, n));
      && Valid(out) && Region(a, n, Reserved) in out && UsableBytes(out) + n == UsableBytes(m) && UsableRun(m, a, n)
      && forall x: nat :: KindAt(out, x) == if a <= x < a + n then Some(Reserved) else KindAt(m, x)
  {
    var c := Carve(m[i], a, n);
    var out := Splice(m, i, c);
    CarveSound(m[i], a, n);
    SpliceValid(m, i, c);
    SpliceUsableBytes(m, i, c);
    assert forall s | s in c :: s in out;
    forall x: nat
      ensures KindAt(out, x) == if a <= x < a + n then Some(Reserved) else KindAt(m, x)
      ensures a <= x < a + n ==> KindAt(m, x) == Some(Usable)
    {
      SpliceKindAt(m, i, c, x);
      if m[i].Covers(x) {
        CarveKindAt(m[i], a, n, x);
        KindAtElement(m, i, x);
      }
    }
  }

  /** A request leaves every region that is not USABLE in the list. */
  lemma AllocKeepsOthers(rs: seq<Region>, kb: nat, b: Region)
    requires Valid(rs) && b in rs && !b.kind.Usable?
    ensures b in AllocIn(rs, kb).regions
  {
    CoalesceKeepsOthers(rs, b);
    var m, n := Coalesce(rs), AllocSize(kb);
    var i := FirstFit(m, n);
    if Representable(kb) && i < |m| {
      var k :| 0 <= k < |m| && m[k] == b;
      assert k != i;
      var c := Carve(m[i], AlignedBase(m[i]), n);
      var out := Splice(m, i, c);
      if k < i { assert out[k] == b; } else { assert out[k - 1 + |c|] == b; }
    }
  }

  lemma OnlyFirstAtZero(rs: seq<Region>, j: nat)
    requires Valid(rs) && j < |rs|
    ensures j > 0 ==> rs[j].base > 0
  {
    if j > 0 { assert rs[0].End() <= rs[j].base; }
  }

  /**
   When `pmm_alloc` answers NULL to a representable request although a page-aligned USABLE run
   exists: exactly when the run starts at address 0, which is then handed out as if it were NULL.
   */
  lemma NullMeansNoRun(rs: seq<Region>, kb: nat)
    requires Valid(rs) && Representable(kb)
    ensures AllocIn(rs, kb).ptr == NULL && (exists a: nat :: a % PAGE == 0 && UsableRun(rs, a, AllocSize(kb)))
       <==> UsableRun(rs, 0, AllocSize(kb))
  {
    var n, m, r := AllocSize(kb), Coalesce(rs), AllocIn(rs, kb);
    AllocSizeRounds(kb);
    FirstFitComplete(rs, n);
    AllocEffect(rs, kb);
    if UsableRun(rs, 0, n) {
      assert 0 % PAGE == 0;
      CoalesceValid(rs);
      CoalesceCoalesced(rs);
      forall x: nat ensures KindAt(m, x) == KindAt(rs, x) { CoalesceKindAt(rs, x); }
      assert UsableRun(m, 0, n);
      var j := RunInOneRegion(m, 0, n);
      AlignedFits(m[j], 0, n);
      var i := FirstFit(m, n);
      OnlyFirstAtZero(m, j);
    }
  }

  /** Four kilobytes from a map whose only USABLE page is page 0: the page is taken and NULL returned. */
  lemma PageZeroLost()
    ensures var rs := [Region(0, PAGE, Usable)];
      Valid(rs) && UsableRun(rs, 0, AllocSize(4)) && AllocIn(rs, 4) == Allocation(NULL, [Region(0, PAGE, Reserved)])
  {
    var rs := [Region(0, PAGE, Usable)];
    assert AllocSize(4) == PAGE && Fits(rs[0], PAGE);
  }

  // ----- release -----

  /** Index of the first region that starts at `addr`, or the length of the list. */
  function FindBase(rs: seq<Region>, addr: nat): (i: nat)
    ensures i <= |rs|
    ensures i < |rs| ==> rs[i].base == addr
    ensures forall j | 0 <= j < i :: rs[j].base != addr
  {
    if rs == [] || rs[0].base == addr then 0 else 1 + FindBase(rs[1..], addr)
  }

  /** Region `i` swallows its USABLE neighbours for as long as one touches, the lower one first. */
  function MergeAround(rs: seq<Region>, i: nat): seq<Region>
    requires i < |rs|
    decreases |rs|
  {
    if i > 0 && BothUsable(rs[i - 1], rs[i]) && rs[i - 1].End() == rs[i].base then MergeAround(Join(rs, i - 1), i - 1)
    else if i + 1 < |rs| && BothUsable(rs[i], rs[i + 1]) && rs[i].End() == rs[i + 1].base then MergeAround(Join(rs, i), i)
    else rs
  }

  function Retyped(rs: seq<Region>, i: nat): seq<Region>
    requires i < |rs|
  {
    rs[i := rs[i].(kind := Usable)]
  }

  function FreeIn(rs: seq<Region>, ptr: nat): seq<Region> {
    var i := FindBase(rs, PageFloor(ptr));
    if ptr == NULL || i == |rs| || rs[i].kind.Usable? then rs else MergeAround(Retyped(rs, i), i)
  }

  /** Merging around a region keeps soundness, bytes and every address's type. */
  lemma {:induction false} MergeAroundSound(rs: seq<Region>, i: nat)
    requires Valid(rs) && i < |rs|
    ensures Valid(MergeAround(rs, i)) && UsableBytes(MergeAround(rs, i)) == UsableBytes(rs)
    ensures forall x: nat :: KindAt(MergeAround(rs, i), x) == KindAt(rs, x)
    decreases |rs|
  {
    if i > 0 && BothUsable(rs[i - 1], rs[i]) && rs[i - 1].End() == rs[i].base {
      JoinKeeps(rs, i - 1);
      forall x: nat ensures KindAt(Join(rs, i - 1), x) == KindAt(rs, x) { JoinKindAt(rs, i - 1, x); }
      MergeAroundSound(Join(rs, i - 1), i - 1);
    } else if i + 1 < |rs| && BothUsable(rs[i], rs[i + 1]) && rs[i].End() == rs[i + 1].base {
      JoinKeeps(rs, i);
      forall x: nat ensures KindAt(Join(rs, i), x) == KindAt(rs, x) { JoinKindAt(rs, i, x); }
      MergeAroundSound(Join(rs, i), i);
    }
  }

  lemma {:induction false} MergeAroundKeepsOthers(rs: seq<Region>, i: nat, b: Region)
    requires i < |rs| && b in rs && !b.kind.Usable?
    ensures b in MergeAround(rs, i)
    decreases |rs|
  {
    if i > 0 && BothUsable(rs[i - 1], rs[i]) && rs[i - 1].End() == rs[i].base {
      assert rs == rs[..i - 1] + [rs[i - 1], rs[i]] + rs[i + 1..];
      MergeAroundKeepsOthers(Join(rs, i - 1), i - 1, b);
    } else if i + 1 < |rs| && BothUsable(rs[i], rs[i + 1]) && rs[i].End() == rs[i + 1].base {
      assert rs == rs[..i] + [rs[i], rs[i + 1]] + rs[i + 2..];
      MergeAroundKeepsOthers(Join(rs, i), i, b);
    }
  }

  /** No two USABLE neighbours touch, except perhaps around region `i`. */
  ghost predicate CoalescedBut(rs: seq<Region>, i: nat) {
    forall j | 0 <= j < |rs| - 1 && j != i && j + 1 != i :: !Mergeable(rs[j], rs[j + 1])
  }

  lemma JoinCoalescedBut(rs: seq<Region>, i: nat, k: nat)
    requires i + 1 < |rs| && (k == i || k == i + 1) && CoalescedBut(rs, k)
    ensures CoalescedBut(Join(rs, i), i)
  {
    var out := Join(rs, i);
    forall j | 0 <= j < |out| - 1 && j != i && j + 1 != i ensures !Mergeable(out[j], out[j + 1]) {
      if j < i {
        assert !Mergeable(rs[j], rs[j + 1]);
      } else {
        assert !Mergeable(rs[j + 1], rs[j + 1 + 1]);
      }
    }
  }

  /** Merging around `i` finishes the job when everything else was merged already. */
  lemma {:induction false} MergeAroundCoalesced(rs: seq<Region>, i: nat)
    requires Valid(rs) && i < |rs| && CoalescedBut(rs, i)
    ensures Coalesced(MergeAround(rs, i))
    decreases |rs|
  {
    if i > 0 && BothUsable(rs[i - 1], rs[i]) && rs[i - 1].End() == rs[i].base {
      JoinValid(rs, i - 1);
      JoinCoalescedBut(rs, i - 1, i);
      MergeAroundCoalesced(Join(rs, i - 1), i - 1);
    } else if i + 1 < |rs| && BothUsable(rs[i], rs[i + 1]) && rs[i].End() == rs[i + 1].base {
      JoinValid(rs, i);
      JoinCoalescedBut(rs, i, i);
      MergeAroundCoalesced(Join(rs, i), i);
    }
  }

  lemma RetypedSound(rs: seq<Region>, i: nat)
    requires Valid(rs) && i < |rs| && !rs[i].kind.Usable?
    ensures Valid(Retyped(rs, i)) && UsableBytes(Retyped(rs, i)) == UsableBytes(rs) + rs[i].size
    ensures forall x: nat :: KindAt(Retyped(rs, i), x) == if rs[i].Covers(x) then Some(Usable) else KindAt(rs, x)
  {
    var mid := [rs[i].(kind := Usable)];
    RetypedIsSplice(rs, i);
    SpliceValid(rs, i, mid);
    SpliceUsableBytes(rs, i, mid);
    forall x: nat
      ensures KindAt(Retyped(rs, i), x) == if rs[i].Covers(x) then Some(Usable) else KindAt(rs, x)
    {
      SpliceKindAt(rs, i, mid, x);
    }
  }

  lemma RetypedIsSplice(rs: seq<Region>, i: nat)
    requires i < |rs|
    ensures Retyped(rs, i) == Splice(rs, i, [rs[i].(kind := Usable)])
  {}

  /** The region that `pmm_free` finds: it starts at the page and is not USABLE yet. */
  ghost predicate Frees(rs: seq<Region>, ptr: nat) {
    var i := FindBase(rs, PageFloor(ptr));
    ptr != NULL && i < |rs| && !rs[i].kind.Usable?
  }

  /** `pmm_free` turns exactly the region that starts at the page into USABLE memory. */
  lemma FreeEffect(rs: seq<Region>, ptr: nat)
    requires Valid(rs)
    ensures Valid(FreeIn(rs, ptr))
    ensures !Frees(rs, ptr) ==> FreeIn(rs, ptr) == rs
    ensures var i := FindBase(rs, PageFloor(ptr));
      && (Frees(rs, ptr) ==> UsableBytes(FreeIn(rs, ptr)) == UsableBytes(rs) + rs[i].size)
      && forall x: nat :: KindAt(FreeIn(rs, ptr), x)
           == if Frees(rs, ptr) && rs[i].Covers(x) then Some(Usable) else KindAt(rs, x)
  {
    var i := FindBase(rs, PageFloor(ptr));
    if Frees(rs, ptr) {
      RetypedSound(rs, i);
      MergeAroundSound(Retyped(rs, i), i);
    }
  }

  /** `pmm_free` keeps a merged list merged. */
  lemma FreeCoalesced(rs: seq<Region>, ptr: nat)
    requires Valid(rs) && Coalesced(rs)
    ensures Coalesced(FreeIn(rs, ptr))
  {
    var i := FindBase(rs, PageFloor(ptr));
    if Frees(rs, ptr) {
      RetypedSound(rs, i);
      MergeAroundCoalesced(Retyped(rs, i), i);
    }
  }

  lemma FreeKeepsOthers(rs: seq<Region>, ptr: nat, b: Region)
    requires b in rs && !b.kind.Usable? && b.base != PageFloor(ptr)
    ensures b in FreeIn(rs, ptr)
  {
    var i := FindBase(rs, PageFloor(ptr));
    if ptr != NULL && i < |rs| && !rs[i].kind.Usable? {
      var k :| 0 <= k < |rs| && rs[k] == b;
      assert Retyped(rs, i)[k] == b;
      MergeAroundKeepsOthers(Retyped(rs, i), i, b);
    }
  }
}
