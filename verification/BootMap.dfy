/**
 The two reservation passes of `pmm_init`: everything below the kernel's end, then the framebuffer.
 Each pass walks the list while inserting into it.
 */
module BootMap {
  import opened Options
  import opened Words
  import opened Regions
  import opened PmmSpec
  import PmmRuns

  type Splitter = Region -> seq<Region>

  /** Every region replaced by its pieces. */
  function Pass(rs: seq<Region>, f: Splitter): seq<Region> {
    if rs == [] then [] else f(rs[0]) + Pass(rs[1..], f)
  }

  /** Pieces of `r` that are sound and lie inside `r`. */
  ghost predicate Refines(f: Splitter, r: Region) { Valid(f(r)) && Inside(f(r), r) }

  lemma {:induction false} PassValid(rs: seq<Region>, f: Splitter)
    requires Valid(rs) && forall r | r in rs :: Refines(f, r)
    ensures Valid(Pass(rs, f))
    ensures forall s | s in Pass(rs, f) :: rs[0].base <= s.base
  {
    if rs != [] {
      var p, rest := f(rs[0]), Pass(rs[1..], f);
      assert Refines(f, rs[0]) && forall r | r in rs[1..] :: r in rs;
      PassValid(rs[1..], f);
      forall i, j | 0 <= i < |p| && 0 <= j < |rest| ensures p[i].End() <= rest[j].base {
        assert rest[j] in rest && p[i].End() <= rs[0].End();
        assert rs[0].End() <= rs[1].base;
      }
      forall s | s in p + rest ensures rs[0].base <= s.base {
        if s in rest { assert rs[0].End() <= rs[1].base; }
      }
    }
  }

  /** After a pass an address has the type its own region's pieces give it. */
  lemma {:induction false} PassKindAt(rs: seq<Region>, f: Splitter, x: nat)
    requires Valid(rs) && forall r | r in rs :: Refines(f, r)
    ensures KindAt(rs, x).None? ==> KindAt(Pass(rs, f), x).None?
    ensures forall i | 0 <= i < |rs| && rs[i].Covers(x) :: KindAt(Pass(rs, f), x) == KindAt(f(rs[i]), x)
  {
    if rs != [] {
      var p, rest := f(rs[0]), Pass(rs[1..], f);
      assert Refines(f, rs[0]) && forall r | r in rs[1..] :: r in rs;
      PassKindAt(rs[1..], f, x);
      KindAtConcat(p, rest, x);
      if rs[0].Covers(x) {
        PassValid(rs[1..], f);
        forall j | 0 <= j < |rest| ensures !rest[j].Covers(x) {
          assert rest[j] in rest && rs[0].End() <= rs[1].base;
        }
        KindAtNone(rest, x);
      } else {
        KindAtNone(p, x);
      }
    }
  }

  // ----- walking while inserting -----

  /** What the pass will have made of the list once its cursor has moved on from `i`. */
  ghost function Walking(rs: seq<Region>, i: nat, f: Splitter): seq<Region>
    requires i <= |rs|
  {
    rs[..i] + Pass(rs[i..], f)
  }

  /** Pieces inserted behind the cursor are met again by the walk and left alone. */
  ghost predicate Settled(f: Splitter, r: Region) {
    && f(r) != []
    && forall j | 1 <= j < |f(r)| :: f(f(r)[j]) == [f(r)[j]]
  }

  lemma {:induction false} PassFixed(ps: seq<Region>, rest: seq<Region>, f: Splitter)
    requires forall j | 0 <= j < |ps| :: f(ps[j]) == [ps[j]]
    ensures Pass(ps + rest, f) == ps + Pass(rest, f)
  {
    if ps == [] {
      assert ps + rest == rest;
    } else {
      assert (ps + rest)[1..] == ps[1..] + rest;
      PassFixed(ps[1..], rest, f);
    }
  }

  lemma WalkingBound(rs: seq<Region>, i: nat, f: Splitter)
    requires i < |rs| && f(rs[i]) != []
    ensures i < |Walking(rs, i, f)|
  {}

  lemma WalkingStep(rs: seq<Region>, i: nat, f: Splitter)
    requires i < |rs| && Settled(f, rs[i])
    ensures i < |Splice(rs, i, f(rs[i]))|
    ensures Walking(Splice(rs, i, f(rs[i])), i + 1, f) == Walking(rs, i, f)
  {
    var p, rest := f(rs[i]), rs[i + 1..];
    var out := Splice(rs, i, p);
    PassFixed(p[1..], rest, f);
    assert out[..i + 1] == rs[..i] + [p[0]] && out[i + 1..] == p[1..] + rest;
    assert rs[i..][1..] == rest && rs[i..][0] == rs[i];
    assert p == [p[0]] + p[1..];
  }

  lemma WalkingEnds(rs: seq<Region>, f: Splitter)
    ensures Walking(rs, 0, f) == Pass(rs, f) && Walking(rs, |rs|, f) == rs
  {
    assert rs[0..] == rs && rs[|rs|..] == [];
  }

  // ----- the kernel pass -----

  function SplitKernel(r: Region, kernelEnd: nat): seq<Region> {
    if r.base >= kernelEnd then [r]
    else if r.End() > kernelEnd then
      [Region(r.base, kernelEnd - r.base, Reserved), Region(kernelEnd, r.End() - kernelEnd, Usable)]
    else [r.(kind := Reserved)]
  }

  function KernelSplitter(kernelEnd: nat): Splitter { (r: Region) => SplitKernel(r, kernelEnd) }

  function ReserveKernel(rs: seq<Region>, kernelEnd: nat): seq<Region> { Pass(rs, KernelSplitter(kernelEnd)) }

  ghost predicate Straddles(r: Region, a: nat) { r.base < a < r.End() }

  lemma KernelPieces(r: Region, kernelEnd: nat)
    ensures var f := KernelSplitter(kernelEnd);
      f(r) == SplitKernel(r, kernelEnd) && Inside(f(r), r) && Settled(f, r)
  {
    assert KernelSplitter(kernelEnd)(r) == SplitKernel(r, kernelEnd);
  }

  lemma KernelRefines(rs: seq<Region>, kernelEnd: nat)
    requires Valid(rs)
    ensures forall r | r in rs :: Refines(KernelSplitter(kernelEnd), r)
  {
    forall r | r in rs ensures Refines(KernelSplitter(kernelEnd), r) { KernelPieces(r, kernelEnd); }
  }

  lemma SplitKernelKindAt(r: Region, kernelEnd: nat, x: nat)
    requires r.Covers(x)
    ensures KindAt(SplitKernel(r, kernelEnd), x) ==
      Some(if x < kernelEnd then Reserved else if r.base < kernelEnd then Usable else r.kind)
  {
    var p := SplitKernel(r, kernelEnd);
    if |p| == 2 { assert p[1..] == [p[1]]; }
  }

  /** The type of every address after the kernel pass. */
  lemma KernelKindAt(rs: seq<Region>, kernelEnd: nat, x: nat)
    requires Valid(rs)
    ensures Valid(ReserveKernel(rs, kernelEnd))
    ensures KindAt(ReserveKernel(rs, kernelEnd), x) ==
      if KindAt(rs, x).None? then None
      else if x < kernelEnd then Some(Reserved)
      else if exists r :: r in rs && Straddles(r, kernelEnd) && r.Covers(x) then Some(Usable)
      else KindAt(rs, x)
  {
    var f := KernelSplitter(kernelEnd);
    KernelRefines(rs, kernelEnd);
    PassValid(rs, f);
    PassKindAt(rs, f, x);
    if KindAt(rs, x).Some? {
      var i := KindAtWitness(rs, x);
      var r := rs[i];
      assert r in rs && f(r) == SplitKernel(r, kernelEnd);
      SplitKernelKindAt(r, kernelEnd, x);
      forall s | s in rs && s.Covers(x) ensures s == r { CoversOnce(rs, i, s, x); }
    }
  }

  lemma CoversOnce(rs: seq<Region>, i: nat, s: Region, x: nat)
    requires Valid(rs) && i < |rs| && rs[i].Covers(x) && s in rs && s.Covers(x)
    ensures s == rs[i]
  {
    var j :| 0 <= j < |rs| && rs[j] == s;
  }

  /**
   At and above the kernel's end the kernel pass leaves USABLE memory as it was exactly when no region
   of another type straddles that end: the tail of a straddling region becomes USABLE whatever it was.
   */
  lemma KernelPassExact(rs: seq<Region>, kernelEnd: nat)
    requires Valid(rs)
    ensures (forall x: nat | x >= kernelEnd ::
               KindAt(ReserveKernel(rs, kernelEnd), x) == Some(Usable) <==> KindAt(rs, x) == Some(Usable))
       <==> (forall r | r in rs && Straddles(r, kernelEnd) :: r.kind.Usable?)
  {
    var out := ReserveKernel(rs, kernelEnd);
    if r :| r in rs && Straddles(r, kernelEnd) && !r.kind.Usable? {
      var i :| 0 <= i < |rs| && rs[i] == r;
      KindAtElement(rs, i, kernelEnd);
      KernelKindAt(rs, kernelEnd, kernelEnd);
      assert r.Covers(kernelEnd) && KindAt(out, kernelEnd) == Some(Usable);
    } else {
      forall x: nat | x >= kernelEnd ensures KindAt(out, x) == KindAt(rs, x) {
        KernelKindAt(rs, kernelEnd, x);
        if r :| r in rs && Straddles(r, kernelEnd) && r.Covers(x) {
          var i :| 0 <= i < |rs| && rs[i] == r;
          KindAtElement(rs, i, x);
        }
      }
    }
  }

  /** A firmware table that straddles the kernel's end: its tail becomes USABLE. */
  lemma KernelTailFreed()
    ensures var rs := [Region(0, 2 * PAGE, AcpiNvs)];
      && Valid(rs) && KindAt(rs, PAGE) == Some(AcpiNvs) && KindAt(ReserveKernel(rs, PAGE), PAGE) == Some(Usable)
  {
    var rs := [Region(0, 2 * PAGE, AcpiNvs)];
    assert rs[0] in rs && Straddles(rs[0], PAGE) && rs[0].Covers(PAGE);
    KernelKindAt(rs, PAGE, PAGE);
  }

  // ----- the framebuffer pass -----

  function SplitFramebuffer(r: Region, lo: nat, hi: nat): seq<Region>
    requires lo <= hi
  {
    if !(r.base < hi && r.End() > lo) then [r]
    else if r.base < lo && r.End() > hi then
      [r.(size := lo - r.base), Region(lo, hi - lo, Reserved), Region(hi, r.End() - hi, r.kind)]
    else if r.base < lo then [r.(size := lo - r.base)]
    else if r.End() > hi then [Region(hi, r.End() - hi, r.kind)]
    else [r.(kind := Reserved)]
  }

  function FramebufferSplitter(lo: nat, hi: nat): Splitter
    requires lo <= hi
  {
    (r: Region) => SplitFramebuffer(r, lo, hi)
  }

  function ReserveFramebuffer(rs: seq<Region>, lo: nat, hi: nat): seq<Region>
    requires lo <= hi
  {
    Pass(rs, FramebufferSplitter(lo, hi))
  }

  lemma FramebufferPieces(r: Region, lo: nat, hi: nat)
    requires lo <= hi
    ensures var f := FramebufferSplitter(lo, hi);
      f(r) == SplitFramebuffer(r, lo, hi) && Inside(f(r), r) && Settled(f, r)
  {
    assert FramebufferSplitter(lo, hi)(r) == SplitFramebuffer(r, lo, hi);
  }

  lemma FramebufferRefines(rs: seq<Region>, lo: nat, hi: nat)
    requires Valid(rs) && lo < hi
    ensures forall r | r in rs :: Refines(FramebufferSplitter(lo, hi), r)
  {
    forall r | r in rs ensures Refines(FramebufferSplitter(lo, hi), r) { FramebufferPieces(r, lo, hi); }
  }

  lemma SplitFramebufferKindAt(r: Region, lo: nat, hi: nat, x: nat)
    requires lo < hi && r.Covers(x)
    ensures lo <= x < hi ==> KindAt(SplitFramebuffer(r, lo, hi), x) in {None, Some(Reserved)}
    ensures !(lo <= x < hi) ==> KindAt(SplitFramebuffer(r, lo, hi), x) == Some(r.kind)
  {
    var p := SplitFramebuffer(r, lo, hi);
    if |p| == 3 {
      assert p == [p[0]] + ([p[1]] + [p[2]]);
      KindAtConcat([p[0]], [p[1]] + [p[2]], x);
      KindAtConcat([p[1]], [p[2]], x);
    }
  }

  /** Inside a non-empty framebuffer no address stays USABLE; outside it nothing changes. */
  lemma FramebufferKindAt(rs: seq<Region>, lo: nat, hi: nat, x: nat)
    requires Valid(rs) && lo < hi
    ensures Valid(ReserveFramebuffer(rs, lo, hi))
    ensures lo <= x < hi ==> KindAt(ReserveFramebuffer(rs, lo, hi), x) in {None, Some(Reserved)}
    ensures !(lo <= x < hi) ==> KindAt(ReserveFramebuffer(rs, lo, hi), x) == KindAt(rs, x)
  {
    var f := FramebufferSplitter(lo, hi);
    FramebufferRefines(rs, lo, hi);
    PassValid(rs, f);
    PassKindAt(rs, f, x);
    if KindAt(rs, x).Some? {
      var i := KindAtWitness(rs, x);
      assert rs[i] in rs && f(rs[i]) == SplitFramebuffer(rs[i], lo, hi);
      SplitFramebufferKindAt(rs[i], lo, hi, x);
    }
  }

  /** With an empty framebuffer the pass stays sound exactly when its address splits no region. */
  lemma EmptyFramebuffer(rs: seq<Region>, lo: nat)
    requires Valid(rs)
    ensures Valid(ReserveFramebuffer(rs, lo, lo)) <==> forall r | r in rs :: !Straddles(r, lo)
  {
    var f := FramebufferSplitter(lo, lo);
    if r :| r in rs && Straddles(r, lo) {
      var i :| 0 <= i < |rs| && rs[i] == r;
      assert f(r) == SplitFramebuffer(r, lo, lo);
      PassMember(rs, f, i, 1);
    } else {
      forall r | r in rs ensures Refines(f, r) { assert f(r) == SplitFramebuffer(r, lo, lo) == [r]; }
      PassValid(rs, f);
    }
  }

  lemma {:induction false} PassMember(rs: seq<Region>, f: Splitter, i: nat, j: nat)
    requires i < |rs| && j < |f(rs[i])|
    ensures f(rs[i])[j] in Pass(rs, f)
  {
    if i > 0 { PassMember(rs[1..], f, i - 1, j); }
  }

  /** A framebuffer of no bytes in the middle of a region leaves an empty region between two halves. */
  lemma EmptyFramebufferSplits()
    ensures var rs := [Region(0, 2 * PAGE, Usable)];
      && Valid(rs) && !Valid(ReserveFramebuffer(rs, PAGE, PAGE))
      && ReserveFramebuffer(rs, PAGE, PAGE)
         == [Region(0, PAGE, Usable), Region(PAGE, 0, Reserved), Region(PAGE, PAGE, Usable)]
  {
    var rs := [Region(0, 2 * PAGE, Usable)];
    assert FramebufferSplitter(PAGE, PAGE)(rs[0]) == SplitFramebuffer(rs[0], PAGE, PAGE);
    assert Pass(rs[1..], FramebufferSplitter(PAGE, PAGE)) == [];
    assert ReserveFramebuffer(rs, PAGE, PAGE)[1].size == 0;
  }

  // ----- both passes -----

  /** The framebuffer the boot loader reports, if any, rounded to whole pages. */
  datatype Screen = NoScreen | Screen(lo: nat, hi: nat)

  predicate Ordered(screen: Screen) { screen.Screen? ==> screen.lo <= screen.hi }

  predicate Shows(screen: Screen, x: nat) { screen.Screen? && screen.lo <= x < screen.hi }

  function ReserveShown(rs: seq<Region>, screen: Screen): seq<Region>
    requires Ordered(screen)
  {
    if screen.Screen? then ReserveFramebuffer(rs, screen.lo, screen.hi) else rs
  }

  function Reserve(rs: seq<Region>, kernelEnd: nat, screen: Screen): seq<Region>
    requires Ordered(screen)
  {
    ReserveShown(ReserveKernel(rs, kernelEnd), screen)
  }

  /** A framebuffer of no bytes does not split a region. */
  ghost predicate NoCut(rs: seq<Region>, screen: Screen) {
    screen.Screen? && screen.lo == screen.hi ==> forall r | r in rs :: !Straddles(r, screen.lo)
  }

  /** A pass that leaves every region alone leaves the list alone. */
  lemma {:induction false} PassIdentity(rs: seq<Region>, f: Splitter)
    requires forall r | r in rs :: f(r) == [r]
    ensures Pass(rs, f) == rs
  {
    if rs != [] {
      assert forall r | r in rs[1..] :: r in rs;
      PassIdentity(rs[1..], f);
      assert rs == [rs[0]] + rs[1..];
    }
  }

  /** What the framebuffer pass does to an address, for every framebuffer that keeps the list sound. */
  lemma ShownKindAt(rs: seq<Region>, screen: Screen, x: nat)
    requires Valid(rs) && Ordered(screen) && NoCut(rs, screen)
    ensures Valid(ReserveShown(rs, screen))
    ensures Shows(screen, x) ==> KindAt(ReserveShown(rs, screen), x) in {None, Some(Reserved)}
    ensures !Shows(screen, x) ==> KindAt(ReserveShown(rs, screen), x) == KindAt(rs, x)
  {
    if screen.Screen? {
      if screen.lo < screen.hi {
        FramebufferKindAt(rs, screen.lo, screen.hi, x);
      } else {
        var f := FramebufferSplitter(screen.lo, screen.hi);
        forall r | r in rs ensures f(r) == [r] { assert f(r) == SplitFramebuffer(r, screen.lo, screen.hi); }
        PassIdentity(rs, f);
      }
    }
  }

  /** The list stays sound through both passes exactly when no framebuffer of no bytes splits a region. */
  lemma ReserveSound(rs: seq<Region>, kernelEnd: nat, screen: Screen)
    requires Valid(rs) && Ordered(screen)
    ensures Valid(Reserve(rs, kernelEnd, screen)) <==> NoCut(ReserveKernel(rs, kernelEnd), screen)
  {
    var mid := ReserveKernel(rs, kernelEnd);
    KernelKindAt(rs, kernelEnd, 0);
    if NoCut(mid, screen) { ShownKindAt(mid, screen, 0); } else { EmptyFramebuffer(mid, screen.lo); }
  }

  /**
   After both passes no USABLE byte lies below the kernel's end or in the framebuffer, and if the region
   straddling the kernel's end was USABLE every other address is USABLE exactly when it was before.
   */
  lemma BootReservation(rs: seq<Region>, kernelEnd: nat, screen: Screen)
    requires Valid(rs) && Ordered(screen) && NoCut(ReserveKernel(rs, kernelEnd), screen)
    ensures var out := Reserve(rs, kernelEnd, screen);
      && Valid(out)
      && (forall x: nat | x < kernelEnd || Shows(screen, x) :: KindAt(out, x) != Some(Usable))
      && ((forall r | r in rs && Straddles(r, kernelEnd) :: r.kind.Usable?) ==>
            forall x: nat | kernelEnd <= x && !Shows(screen, x) ::
              KindAt(out, x) == Some(Usable) <==> KindAt(rs, x) == Some(Usable))
  {
    var mid, out := ReserveKernel(rs, kernelEnd), Reserve(rs, kernelEnd, screen);
    KernelPassExact(rs, kernelEnd);
    ReserveSound(rs, kernelEnd, screen);
    forall x: nat
      ensures KindAt(out, x) == KindAt(mid, x) || Shows(screen, x)
      ensures x < kernelEnd || Shows(screen, x) ==> KindAt(out, x) != Some(Usable)
    {
      KernelKindAt(rs, kernelEnd, x);
      ShownKindAt(mid, screen, x);
    }
  }

  /** An address of neither the kernel nor the screen. */
  predicate Apart(kernelEnd: nat, screen: Screen, x: nat) { kernelEnd <= x && !Shows(screen, x) }

  /** An address that is USABLE after both passes is neither the kernel's nor on the screen. */
  lemma AfterBoot(rs: seq<Region>, kernelEnd: nat, screen: Screen, x: nat)
    requires Valid(rs) && Ordered(screen) && NoCut(ReserveKernel(rs, kernelEnd), screen)
    ensures KindAt(Reserve(rs, kernelEnd, screen), x) == Some(Usable) ==> Apart(kernelEnd, screen, x)
  {
    KernelKindAt(rs, kernelEnd, x);
    ShownKindAt(ReserveKernel(rs, kernelEnd), screen, x);
  }

  /** No outstanding block touches the kernel or the screen. */
  ghost predicate Clear(blocks: seq<PmmRuns.Block>, kernelEnd: nat, screen: Screen) {
    forall k: nat, x: nat | k < |blocks| && blocks[k].Holds(x) :: Apart(kernelEnd, screen, x)
  }

  lemma BlocksClear(rs: seq<Region>, kernelEnd: nat, screen: Screen, s: PmmRuns.State)
    requires Valid(rs) && Ordered(screen) && NoCut(ReserveKernel(rs, kernelEnd), screen)
    requires PmmRuns.Inv(Reserve(rs, kernelEnd, screen), s)
    ensures Clear(s.blocks, kernelEnd, screen)
  {
    forall k: nat, x: nat | k < |s.blocks| && s.blocks[k].Holds(x) ensures Apart(kernelEnd, screen, x) {
      PmmRuns.BlockUsable(Reserve(rs, kernelEnd, screen), s, k, x);
      AfterBoot(rs, kernelEnd, screen, x);
    }
  }

  /** From boot on: every allowed run over the reserved map keeps the allocator's invariant. */
  lemma BootThenRun(rs: seq<Region>, kernelEnd: nat, screen: Screen, ops: seq<PmmRuns.Op>)
    requires Valid(rs) && Ordered(screen) && NoCut(ReserveKernel(rs, kernelEnd), screen) && 0 < kernelEnd
    requires PmmRuns.AllAllowed(PmmRuns.State(Reserve(rs, kernelEnd, screen), []), ops)
    ensures var boot := Reserve(rs, kernelEnd, screen);
      var s := PmmRuns.Run(PmmRuns.State(boot, []), ops);
      PmmRuns.Inv(boot, s) && Clear(s.blocks, kernelEnd, screen)
  {
    var boot := Reserve(rs, kernelEnd, screen);
    ReserveSound(rs, kernelEnd, screen);
    AfterBoot(rs, kernelEnd, screen, 0);
    PmmRuns.BootInv(boot);
    PmmRuns.RunKeeps(boot, PmmRuns.State(boot, []), ops);
    BlocksClear(rs, kernelEnd, screen, PmmRuns.Run(PmmRuns.State(boot, []), ops));
  }
}
