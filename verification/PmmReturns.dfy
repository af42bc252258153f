/**
 What a run leaves behind: the list stays merged, and once every block is returned it is the merged
 boot map again, region by region.
 */
module PmmReturns {
  import opened Options
  import opened Words
  import opened Regions
  import opened PmmSpec
  import opened PmmRuns

  // ----- the list stays merged -----

  lemma CarveCoalesced(m: seq<Region>, i: nat, a: nat, n: nat)
    requires Coalesced(m) && i < |m| && m[i].kind.Usable? && m[i].base <= a && a + n <= m[i].End()
    ensures Coalesced(Splice(m, i, Carve(m[i], a, n)))
  {
    var c := Carve(m[i], a, n);
    var out := Splice(m, i, c);
    forall j | 0 <= j < |out| - 1 ensures !Mergeable(out[j], out[j + 1]) {
      if j + 1 < i {
        assert !Mergeable(m[j], m[j + 1]);
      } else if j + 1 == i {
        assert out[j] == m[j] && out[j + 1] == c[0] && !Mergeable(m[j], m[j + 1]);
      } else if j >= i + |c| {
        var k := j - |c| + 1;
        assert out[j] == m[k] && out[j + 1] == m[k + 1] && !Mergeable(m[k], m[k + 1]);
      } else if j == i + |c| - 1 {
        assert out[j] == c[|c| - 1] && out[j + 1] == m[i + 1] && !Mergeable(m[i], m[i + 1]);
      } else {
        assert out[j] == c[j - i] && out[j + 1] == c[j + 1 - i];
      }
    }
  }

  /** Every request that passes the guards of `pmm_alloc` leaves the list merged, whatever it was before. */
  lemma AllocCoalesced(rs: seq<Region>, kb: nat)
    requires Valid(rs)
    ensures Representable(kb) || Coalesced(rs) ==> Coalesced(AllocIn(rs, kb).regions)
  {
    CoalesceCoalesced(rs);
    var m, n := Coalesce(rs), AllocSize(kb);
    var i := FirstFit(m, n);
    if Representable(kb) && i < |m| { CarveCoalesced(m, i, AlignedBase(m[i]), n); }
  }

  /** Over every run a merged list stays merged. */
  lemma {:induction false} RunCoalesced(boot: seq<Region>, s: State, ops: seq<Op>)
    requires Inv(boot, s) && AllAllowed(s, ops) && Coalesced(s.regions)
    ensures Coalesced(Run(s, ops).regions)
    decreases |ops|
  {
    if ops != [] {
      match ops[0] {
        case Allocate(kb) =>
          AllocateKeeps(boot, s, kb);
          AllocCoalesced(s.regions, kb);
        case Release(ptr) =>
          ReleaseKeeps(boot, s, ptr);
          FreeCoalesced(s.regions, ptr);
      }
      RunCoalesced(boot, Step(s, ops[0]), ops[1..]);
    }
  }

  // ----- merged lists are determined by what they say -----

  ghost predicate SameKinds(xs: seq<Region>, ys: seq<Region>) { forall x: nat :: KindAt(xs, x) == KindAt(ys, x) }

  /** The regions that are not USABLE are the same. */
  ghost predicate SameOthers(xs: seq<Region>, ys: seq<Region>) {
    forall r: Region | !r.kind.Usable? :: r in xs <==> r in ys
  }

  lemma FirstCovered(xs: seq<Region>)
    requires Valid(xs)
    ensures xs != [] ==> KindAt(xs, xs[0].base).Some?
  {}

  lemma FirstLowest(xs: seq<Region>, x: nat)
    requires Valid(xs) && KindAt(xs, x).Some?
    ensures xs != [] && xs[0].base <= x
  {
    var i := KindAtWitness(xs, x);
    if i > 0 { assert xs[0].End() <= xs[i].base; }
  }

  lemma FirstUsableEnd(xs: seq<Region>, ys: seq<Region>)
    requires Valid(xs) && Valid(ys) && Coalesced(xs) && SameKinds(xs, ys) && xs != [] && ys != []
    requires xs[0].base == ys[0].base && xs[0].kind.Usable? && ys[0].kind.Usable?
    ensures ys[0].End() <= xs[0].End()
  {
    var e := xs[0].End();
    EndNotUsable(xs, 0);
    assert KindAt(xs, e) == KindAt(ys, e);
  }

  lemma FirstSame(xs: seq<Region>, ys: seq<Region>)
    requires Valid(xs) && Valid(ys) && Coalesced(xs) && Coalesced(ys)
    requires SameKinds(xs, ys) && SameOthers(xs, ys) && xs != []
    ensures ys != [] && ys[0] == xs[0]
  {
    KindAtElement(xs, 0, xs[0].base);
    assert KindAt(xs, xs[0].base) == KindAt(ys, xs[0].base);
    FirstLowest(ys, xs[0].base);
    KindAtElement(ys, 0, ys[0].base);
    assert KindAt(xs, ys[0].base) == KindAt(ys, ys[0].base);
    FirstLowest(xs, ys[0].base);
    if xs[0].kind.Usable? {
      FirstUsableEnd(xs, ys);
      FirstUsableEnd(ys, xs);
    } else {
      assert xs[0] in ys;
      var j :| 0 <= j < |ys| && ys[j] == xs[0];
    }
  }

  lemma TailKinds(xs: seq<Region>, x: nat)
    requires Valid(xs) && xs != []
    ensures KindAt(xs[1..], x) == if xs[0].Covers(x) then None else KindAt(xs, x)
  {
    if xs[0].Covers(x) {
      forall i | 0 <= i < |xs| - 1 ensures !xs[1..][i].Covers(x) { assert xs[0].End() <= xs[i + 1].base; }
      KindAtNone(xs[1..], x);
    }
  }

  lemma TailMembers(xs: seq<Region>, r: Region)
    requires Valid(xs) && xs != []
    ensures r in xs[1..] <==> r in xs && r != xs[0]
  {
    if r in xs[1..] {
      var i :| 0 <= i < |xs| - 1 && xs[1..][i] == r;
      assert xs[0].End() <= xs[i + 1].base;
    }
    if r in xs && r != xs[0] {
      var i :| 0 <= i < |xs| && xs[i] == r;
      assert xs[1..][i - 1] == r;
    }
  }

  lemma TailCoalesced(xs: seq<Region>)
    requires Coalesced(xs) && xs != []
    ensures Coalesced(xs[1..])
  {
    forall i | 0 <= i < |xs| - 2 ensures !Mergeable(xs[1..][i], xs[1..][i + 1]) {
      assert !Mergeable(xs[i + 1], xs[i + 1 + 1]);
    }
  }

  /** Two merged lists that give every address the same type and keep the same other regions are equal. */
  lemma {:induction false} MergedUnique(xs: seq<Region>, ys: seq<Region>)
    requires Valid(xs) && Valid(ys) && Coalesced(xs) && Coalesced(ys)
    requires SameKinds(xs, ys) && SameOthers(xs, ys)
    ensures xs == ys
    decreases |xs|
  {
    if xs == [] {
      FirstCovered(ys);
    } else {
      FirstSame(xs, ys);
      forall x: nat ensures KindAt(xs[1..], x) == KindAt(ys[1..], x) {
        TailKinds(xs, x);
        TailKinds(ys, x);
      }
      forall r: Region | !r.kind.Usable? ensures r in xs[1..] <==> r in ys[1..] {
        TailMembers(xs, r);
        TailMembers(ys, r);
      }
      TailCoalesced(xs);
      TailCoalesced(ys);
      MergedUnique(xs[1..], ys[1..]);
      assert xs == [xs[0]] + xs[1..] && ys == [ys[0]] + ys[1..];
    }
  }

  // ----- the regions that are not USABLE -----

  lemma {:induction false} MergeAroundOthers(rs: seq<Region>, i: nat, r: Region)
    requires i < |rs| && !r.kind.Usable?
    ensures r in MergeAround(rs, i) <==> r in rs
    decreases |rs|
  {
    if i > 0 && BothUsable(rs[i - 1], rs[i]) && rs[i - 1].End() == rs[i].base {
      JoinOthers(rs, i - 1, r);
      MergeAroundOthers(Join(rs, i - 1), i - 1, r);
    } else if i + 1 < |rs| && BothUsable(rs[i], rs[i + 1]) && rs[i].End() == rs[i + 1].base {
      JoinOthers(rs, i, r);
      MergeAroundOthers(Join(rs, i), i, r);
    }
  }

  lemma JoinOthers(rs: seq<Region>, i: nat, r: Region)
    requires i + 1 < |rs| && BothUsable(rs[i], rs[i + 1]) && !r.kind.Usable?
    ensures r in Join(rs, i) <==> r in rs
  {
    assert rs == rs[..i] + [rs[i], rs[i + 1]] + rs[i + 2..];
  }

  /** A release takes the region it frees from the others, and no other. */
  lemma FreeOthers(rs: seq<Region>, ptr: nat, r: Region)
    requires Valid(rs) && !r.kind.Usable?
    ensures r in FreeIn(rs, ptr) <==> r in rs && !(Frees(rs, ptr) && r == rs[FindBase(rs, PageFloor(ptr))])
  {
    var i := FindBase(rs, PageFloor(ptr));
    if Frees(rs, ptr) {
      MergeAroundOthers(Retyped(rs, i), i, r);
      RetypedOthers(rs, i, r);
    }
  }

  lemma RetypedOthers(rs: seq<Region>, i: nat, r: Region)
    requires Valid(rs) && i < |rs| && !r.kind.Usable?
    ensures r in Retyped(rs, i) <==> r in rs && r != rs[i]
  {
    var out := Retyped(rs, i);
    if r in out {
      var k :| 0 <= k < |out| && out[k] == r;
      assert k != i && rs[k] == r;
      assert if k < i then rs[k].End() <= rs[i].base else rs[i].End() <= rs[k].base;
    }
    if r in rs && r != rs[i] {
      var k :| 0 <= k < |rs| && rs[k] == r;
      assert out[k] == r;
    }
  }

  /** A request adds the block it hands out to the others, and nothing else. */
  lemma AllocOthers(rs: seq<Region>, kb: nat, r: Region)
    requires Valid(rs) && !r.kind.Usable?
    ensures var found := Representable(kb) && FirstFit(Coalesce(rs), AllocSize(kb)) < |Coalesce(rs)|;
      r in AllocIn(rs, kb).regions
      <==> r in rs || (found && r == Region(AllocIn(rs, kb).ptr, AllocSize(kb), Reserved))
  {
    CoalesceKeepsOthers(rs, r);
    var m, n := Coalesce(rs), AllocSize(kb);
    var i := FirstFit(m, n);
    if Representable(kb) && i < |m| { CarveOthers(m, i, AlignedBase(m[i]), n, r); }
  }

  lemma CarveOthers(m: seq<Region>, i: nat, a: nat, n: nat, r: Region)
    requires i < |m| && m[i].kind.Usable? && m[i].base <= a && a + n <= m[i].End() && !r.kind.Usable?
    ensures r in Splice(m, i, Carve(m[i], a, n)) <==> r in m || r == Region(a, n, Reserved)
  {
    assert m == m[..i] + [m[i]] + m[i + 1..];
  }

  // ----- runs -----

  /** Apart from USABLE memory the list holds the boot map's regions and the outstanding blocks. */
  ghost predicate Others(boot: seq<Region>, s: State) {
    forall r: Region | !r.kind.Usable? :: r in s.regions <==> r in boot || IsBlock(s.blocks, r)
  }

  ghost predicate IsBlock(bs: seq<Block>, r: Region) { r.kind.Reserved? && Block(r.base, r.size) in bs }

  lemma AllocateOthers(boot: seq<Region>, s: State, kb: nat)
    requires Inv(boot, s) && Others(boot, s)
    ensures Others(boot, Step(s, Allocate(kb)))
  {
    var t := Step(s, Allocate(kb));
    AllocEffect(s.regions, kb);
    assert KindAt(s.regions, 0) != Some(Usable);
    forall r: Region | !r.kind.Usable? ensures r in t.regions <==> r in boot || IsBlock(t.blocks, r) {
      AllocOthers(s.regions, kb, r);
    }
  }

  lemma ReleaseOthers(boot: seq<Region>, s: State, ptr: nat)
    requires Inv(boot, s) && Others(boot, s) && Valid(boot) && Allowed(s, Release(ptr))
    ensures Others(boot, Step(s, Release(ptr)))
  {
    var t := Step(s, Release(ptr));
    var k := IndexOf(s.blocks, PageFloor(ptr));
    ReleaseFinds(boot, s, ptr);
    forall r: Region | !r.kind.Usable? ensures r in t.regions <==> r in boot || IsBlock(t.blocks, r) {
      FreeOthers(s.regions, ptr, r);
      if ptr != NULL && k < |s.blocks| {
        if r in boot { NotAtBoot(boot, s, k, r); }
        WithoutBlock(boot, s, k, r);
      }
    }
  }

  /** An outstanding block was no region of its own at boot. */
  lemma NotAtBoot(boot: seq<Region>, s: State, k: nat, r: Region)
    requires Inv(boot, s) && Valid(boot) && k < |s.blocks| && r in boot && !r.kind.Usable?
    ensures r != Region(s.blocks[k].base, s.blocks[k].size, Reserved)
  {
    var b := s.blocks[k];
    assert GoodBlock(s, b) && b.Holds(b.base);
    assert Held(s.blocks, b.base);
    var i :| 0 <= i < |boot| && boot[i] == r;
    if r.base == b.base { KindAtElement(boot, i, r.base); }
  }

  lemma WithoutBlock(boot: seq<Region>, s: State, k: nat, r: Region)
    requires Inv(boot, s) && k < |s.blocks|
    ensures IsBlock(s.blocks[..k] + s.blocks[k + 1..], r)
       <==> IsBlock(s.blocks, r) && r != Region(s.blocks[k].base, s.blocks[k].size, Reserved)
  {
    var bs, c := s.blocks, Block(r.base, r.size);
    assert bs == bs[..k] + [bs[k]] + bs[k + 1..];
    if c in bs[..k] + bs[k + 1..] {
      var j :| 0 <= j < |bs| && j != k && bs[j] == c;
      assert bs[j].base != bs[k].base;
    }
  }

  lemma {:induction false} RunOthers(boot: seq<Region>, s: State, ops: seq<Op>)
    requires Inv(boot, s) && Others(boot, s) && Valid(boot) && AllAllowed(s, ops)
    ensures Inv(boot, Run(s, ops)) && Others(boot, Run(s, ops))
    decreases |ops|
  {
    if ops != [] {
      match ops[0] {
        case Allocate(kb) =>
          AllocateKeeps(boot, s, kb);
          AllocateOthers(boot, s, kb);
        case Release(ptr) =>
          ReleaseKeeps(boot, s, ptr);
          ReleaseOthers(boot, s, ptr);
      }
      RunOthers(boot, Step(s, ops[0]), ops[1..]);
    }
  }

  /** A run that has returned every block leaves the boot map, merged: the very same regions in the same order. */
  lemma AllReturned(boot: seq<Region>, ops: seq<Op>)
    requires Valid(boot) && KindAt(boot, 0) != Some(Usable) && AllAllowed(State(boot, []), ops)
    requires Run(State(boot, []), ops).blocks == []
    ensures var rs := Run(State(boot, []), ops).regions;
      Coalesce(rs) == Coalesce(boot) && (Coalesced(rs) ==> rs == Coalesce(boot))
  {
    var s, t := State(boot, []), Run(State(boot, []), ops);
    BootInv(boot);
    RunOthers(boot, s, ops);
    SameMerged(boot, t);
    if Coalesced(t.regions) { CoalesceFixpoint(t.regions); }
  }

  lemma SameMerged(boot: seq<Region>, t: State)
    requires Valid(boot) && Inv(boot, t) && Others(boot, t) && t.blocks == []
    ensures Coalesce(t.regions) == Coalesce(boot)
  {
    var xs, ys := Coalesce(t.regions), Coalesce(boot);
    CoalesceValid(t.regions);
    CoalesceValid(boot);
    CoalesceCoalesced(t.regions);
    CoalesceCoalesced(boot);
    forall x: nat ensures KindAt(xs, x) == KindAt(ys, x) {
      CoalesceKindAt(t.regions, x);
      CoalesceKindAt(boot, x);
      assert !Held(t.blocks, x);
    }
    forall r: Region | !r.kind.Usable? ensures r in xs <==> r in ys {
      CoalesceKeepsOthers(t.regions, r);
      CoalesceKeepsOthers(boot, r);
    }
    MergedUnique(xs, ys);
  }
}
