/**
 The region list of the physical memory manager as a value: a list of typed address
 ranges, the type every address has, and what splitting and merging do to both.
 */
module Regions {
  import opened Options
  import opened Words

  datatype Kind =
    | Unknown | Null | Usable | Reserved | EfiRtCode | EfiRtData | AcpiReclaimable | AcpiNvs
    | BadMemory | PciResource | EfiBsCode | EfiBsData | EfiLoaderCode | EfiLoaderData

  datatype Region = Region(base: nat, size: nat, kind: Kind) {
    function End(): nat { base + size }
    predicate Covers(a: nat) { base <= a < End() }
  }

  function PageCeil(x: nat): nat { (x + PAGE - 1) / PAGE * PAGE }

  /** Sorted by address, pairwise disjoint, no empty region, every end below the word limit. */
  ghost predicate Valid(rs: seq<Region>) {
    && (forall i | 0 <= i < |rs| :: 0 < rs[i].size && rs[i].End() < WORD)
    && (forall i, j | 0 <= i < j < |rs| :: rs[i].End() <= rs[j].base)
  }

  /** The type of address `a`: the type of the first region that covers it. */
  ghost function KindAt(rs: seq<Region>, a: nat): Option<Kind> {
    if rs == [] then None
    else if rs[0].Covers(a) then Some(rs[0].kind)
    else KindAt(rs[1..], a)
  }

  /** Every address of `[a, a + n)` is USABLE. */
  ghost predicate UsableRun(rs: seq<Region>, a: nat, n: nat) {
    forall x: nat | a <= x < a + n :: KindAt(rs, x) == Some(Usable)
  }

  ghost function UsableBytes(rs: seq<Region>): nat {
    if rs == [] then 0
    else (if rs[0].kind.Usable? then rs[0].size else 0) + UsableBytes(rs[1..])
  }

  predicate BothUsable(r: Region, s: Region) { r.kind.Usable? && s.kind.Usable? }

  /** `pmm_maintain` joins `r` and its successor `s`. */
  predicate Mergeable(r: Region, s: Region) { BothUsable(r, s) && s.base <= r.End() }

  /** No two neighbours are USABLE and touch. */
  ghost predicate Coalesced(rs: seq<Region>) {
    forall i | 0 <= i < |rs| - 1 :: !Mergeable(rs[i], rs[i + 1])
  }

  /** The range from the lower base to the higher end. */
  function Hull(r: Region, s: Region): Region {
    var lo := if r.base < s.base then r.base else s.base;
    var hi := if r.End() > s.End() then r.End() else s.End();
    Region(lo, hi - lo, r.kind)
  }

  // ----- concatenation -----

  lemma {:induction false} KindAtConcat(xs: seq<Region>, ys: seq<Region>, a: nat)
    ensures KindAt(xs + ys, a) == if KindAt(xs, a).Some? then KindAt(xs, a) else KindAt(ys, a)
  {
    if xs == [] {
      assert xs + ys == ys;
    } else {
      assert (xs + ys)[1..] == xs[1..] + ys;
      KindAtConcat(xs[1..], ys, a);
    }
  }

  lemma {:induction false} UsableBytesConcat(xs: seq<Region>, ys: seq<Region>)
    ensures UsableBytes(xs + ys) == UsableBytes(xs) + UsableBytes(ys)
  {
    if xs == [] {
      assert xs + ys == ys;
    } else {
      assert (xs + ys)[1..] == xs[1..] + ys;
      UsableBytesConcat(xs[1..], ys);
    }
  }

  lemma {:induction false} KindAtElement(rs: seq<Region>, i: nat, a: nat)
    requires Valid(rs) && i < |rs| && rs[i].Covers(a)
    ensures KindAt(rs, a) == Some(rs[i].kind)
  {
    if i > 0 {
      assert rs[0].End() <= rs[i].base;
      KindAtElement(rs[1..], i - 1, a);
    }
  }

  lemma {:induction false} KindAtWitness(rs: seq<Region>, a: nat) returns (i: nat)
    requires KindAt(rs, a).Some?
    ensures i < |rs| && rs[i].Covers(a) && KindAt(rs, a) == Some(rs[i].kind)
  {
    if rs[0].Covers(a) {
      i := 0;
    } else {
      var k := KindAtWitness(rs[1..], a);
      i := k + 1;
    }
  }

  lemma {:induction false} KindAtNone(rs: seq<Region>, a: nat)
    requires forall i | 0 <= i < |rs| :: !rs[i].Covers(a)
    ensures KindAt(rs, a) == None
  {
    if rs != [] {
      KindAtNone(rs[1..], a);
    }
  }

  // ----- replacing one region by pieces of it -----

  /** `mid` lies inside `r`. */
  ghost predicate Inside(mid: seq<Region>, r: Region) {
    forall i | 0 <= i < |mid| :: r.base <= mid[i].base && mid[i].End() <= r.End()
  }

  function Splice(rs: seq<Region>, i: nat, mid: seq<Region>): seq<Region>
    requires i < |rs|
  {
    rs[..i] + mid + rs[i + 1..]
  }

  lemma SpliceValid(rs: seq<Region>, i: nat, mid: seq<Region>)
    requires Valid(rs) && i < |rs| && Valid(mid) && Inside(mid, rs[i])
    ensures Valid(Splice(rs, i, mid))
  {
    var out := Splice(rs, i, mid);
    var m := |mid|;
    forall j | 0 <= j < |out|
      ensures out[j] == if j < i then rs[j] else if j < i + m then mid[j - i] else rs[j - m + 1]
    {}
  }

  /** Replacing region `i` changes the type of an address only through the two middles. */
  lemma SpliceKindAt(rs: seq<Region>, i: nat, mid: seq<Region>, a: nat)
    requires Valid(rs) && i < |rs| && Inside(mid, rs[i])
    ensures KindAt(Splice(rs, i, mid), a) == if rs[i].Covers(a) then KindAt(mid, a) else KindAt(rs, a)
  {
    var pre, post := rs[..i], rs[i + 1..];
    assert rs == pre + [rs[i]] + post;
    KindAtConcat(pre + mid, post, a);
    KindAtConcat(pre, mid, a);
    KindAtConcat(pre + [rs[i]], post, a);
    KindAtConcat(pre, [rs[i]], a);
    if rs[i].Covers(a) {
      KindAtNone(pre, a);
      forall k | 0 <= k < |post| ensures !post[k].Covers(a) { assert post[k] == rs[i + 1 + k]; }
      KindAtNone(post, a);
    } else {
      KindAtNone(mid, a);
    }
  }

  lemma SpliceUsableBytes(rs: seq<Region>, i: nat, mid: seq<Region>)
    requires i < |rs|
    ensures UsableBytes(Splice(rs, i, mid)) + UsableBytes([rs[i]]) == UsableBytes(rs) + UsableBytes(mid)
  {
    var pre, post := rs[..i], rs[i + 1..];
    assert rs == pre + [rs[i]] + post;
    UsableBytesConcat(pre + mid, post);
    UsableBytesConcat(pre, mid);
    UsableBytesConcat(pre + [rs[i]], post);
    UsableBytesConcat(pre, [rs[i]]);
  }

  // ----- joining two touching regions -----

  /** Regions `i` and `i + 1` replaced by their hull. */
  function Join(rs: seq<Region>, i: nat): seq<Region>
    requires i + 1 < |rs|
  {
    rs[..i] + [Hull(rs[i], rs[i + 1])] + rs[i + 2..]
  }

  ghost predicate Joinable(rs: seq<Region>, i: nat) {
    i + 1 < |rs| && BothUsable(rs[i], rs[i + 1]) && rs[i].End() == rs[i + 1].base
  }

  lemma JoinValid(rs: seq<Region>, i: nat)
    requires Valid(rs) && Joinable(rs, i)
    ensures Valid(Join(rs, i))
  {
    var out := Join(rs, i);
    forall j | 0 <= j < |out| && j != i ensures out[j] == if j < i then rs[j] else rs[j + 1] {}
    assert out[i] == Region(rs[i].base, rs[i].size + rs[i + 1].size, Usable);
  }

  lemma JoinUsableBytes(rs: seq<Region>, i: nat)
    requires Joinable(rs, i)
    ensures UsableBytes(Join(rs, i)) == UsableBytes(rs)
  {
    var pre, h, post := rs[..i], Hull(rs[i], rs[i + 1]), rs[i + 2..];
    assert rs == pre + [rs[i], rs[i + 1]] + post;
    UsableBytesConcat(pre + [h], post);
    UsableBytesConcat(pre, [h]);
    UsableBytesConcat(pre + [rs[i], rs[i + 1]], post);
    UsableBytesConcat(pre, [rs[i], rs[i + 1]]);
    UsableBytesConcat([rs[i]], [rs[i + 1]]);
    assert [rs[i]] + [rs[i + 1]] == [rs[i], rs[i + 1]];
  }

  lemma JoinKeeps(rs: seq<Region>, i: nat)
    requires Valid(rs) && Joinable(rs, i)
    ensures Valid(Join(rs, i))
    ensures UsableBytes(Join(rs, i)) == UsableBytes(rs)
  {
    JoinValid(rs, i);
    JoinUsableBytes(rs, i);
  }

  lemma JoinKindAt(rs: seq<Region>, i: nat, a: nat)
    requires Valid(rs) && Joinable(rs, i)
    ensures KindAt(Join(rs, i), a) == KindAt(rs, a)
  {
    var pre, post, h := rs[..i], rs[i + 2..], Hull(rs[i], rs[i + 1]);
    assert rs == pre + [rs[i], rs[i + 1]] + post;
    KindAtConcat(pre + [h], post, a);
    KindAtConcat(pre, [h], a);
    KindAtConcat(pre + [rs[i], rs[i + 1]], post, a);
    KindAtConcat(pre, [rs[i], rs[i + 1]], a);
    KindAtConcat([rs[i]], [rs[i + 1]], a);
    assert [rs[i]] + [rs[i + 1]] == [rs[i], rs[i + 1]];
  }

  // ----- merging neighbouring USABLE regions (pmm_maintain) -----

  /** The list after `pmm_maintain`: the head swallows its USABLE neighbour for as long as they touch. */
  function Coalesce(rs: seq<Region>): seq<Region>
    decreases |rs|
  {
    if |rs| <= 1 then rs
    else if Mergeable(rs[0], rs[1]) then Coalesce([Hull(rs[0], rs[1])] + rs[2..])
    else [rs[0]] + Coalesce(rs[1..])
  }

  lemma JoinHead(rs: seq<Region>)
    requires Valid(rs) && |rs| >= 2 && Mergeable(rs[0], rs[1])
    ensures Joinable(rs, 0) && Join(rs, 0) == [Hull(rs[0], rs[1])] + rs[2..]
  {}

  lemma ConsValid(r: Region, rs: seq<Region>)
    requires 0 < r.size && r.End() < WORD && Valid(rs) && (rs != [] ==> r.End() <= rs[0].base)
    ensures Valid([r] + rs)
  {
    forall j | 0 <= j < |rs| ensures r.End() <= rs[j].base {
      if j > 0 { assert rs[0].End() <= rs[j].base; }
    }
  }

  /** Merging keeps the list sound and conserves USABLE bytes. */
  lemma {:induction false} CoalesceValid(rs: seq<Region>)
    requires Valid(rs)
    ensures Valid(Coalesce(rs)) && UsableBytes(Coalesce(rs)) == UsableBytes(rs)
    ensures rs != [] ==> Coalesce(rs) != [] && Coalesce(rs)[0].base == rs[0].base && Coalesce(rs)[0].kind == rs[0].kind
    decreases |rs|
  {
    if |rs| <= 1 {
    } else if Mergeable(rs[0], rs[1]) {
      JoinHead(rs);
      JoinKeeps(rs, 0);
      CoalesceValid(Join(rs, 0));
    } else {
      CoalesceValid(rs[1..]);
      ConsValid(rs[0], Coalesce(rs[1..]));
      assert ([rs[0]] + Coalesce(rs[1..]))[1..] == Coalesce(rs[1..]);
    }
  }

  /** After merging no two USABLE neighbours touch. */
  lemma {:induction false} CoalesceCoalesced(rs: seq<Region>)
    requires Valid(rs)
    ensures Coalesced(Coalesce(rs))
    decreases |rs|
  {
    if |rs| <= 1 {
    } else if Mergeable(rs[0], rs[1]) {
      JoinHead(rs);
      JoinKeeps(rs, 0);
      CoalesceCoalesced(Join(rs, 0));
    } else {
      CoalesceCoalesced(rs[1..]);
      CoalesceValid(rs[1..]);
    }
  }

  /** Merging changes the type of no address. */
  lemma {:induction false} CoalesceKindAt(rs: seq<Region>, a: nat)
    requires Valid(rs)
    ensures KindAt(Coalesce(rs), a) == KindAt(rs, a)
    decreases |rs|
  {
    if |rs| <= 1 {
    } else if Mergeable(rs[0], rs[1]) {
      JoinHead(rs);
      JoinKeeps(rs, 0);
      JoinKindAt(rs, 0, a);
      CoalesceKindAt(Join(rs, 0), a);
    } else {
      CoalesceKindAt(rs[1..], a);
    }
  }

  /** Regions that are not USABLE survive merging unchanged, and none appears. */
  lemma {:induction false} CoalesceKeepsOthers(rs: seq<Region>, r: Region)
    requires !r.kind.Usable?
    ensures r in Coalesce(rs) <==> r in rs
    decreases |rs|
  {
    if |rs| <= 1 {
    } else if Mergeable(rs[0], rs[1]) {
      var next := [Hull(rs[0], rs[1])] + rs[2..];
      CoalesceKeepsOthers(next, r);
      assert rs == [rs[0], rs[1]] + rs[2..];
    } else {
      CoalesceKeepsOthers(rs[1..], r);
    }
  }

  /** Merging a merged list changes nothing. */
  lemma {:induction false} CoalesceFixpoint(rs: seq<Region>)
    requires Coalesced(rs)
    ensures Coalesce(rs) == rs
    decreases |rs|
  {
    if |rs| >= 2 {
      assert !Mergeable(rs[0], rs[0 + 1]);
      forall i | 0 <= i < |rs| - 2 ensures !Mergeable(rs[1..][i], rs[1..][i + 1]) {
        assert !Mergeable(rs[i + 1], rs[i + 1 + 1]);
      }
      CoalesceFixpoint(rs[1..]);
    }
  }

  /** In a merged list the address just past a USABLE region is not USABLE. */
  lemma EndNotUsable(rs: seq<Region>, i: nat)
    requires Valid(rs) && Coalesced(rs) && i < |rs| && rs[i].kind.Usable?
    ensures KindAt(rs, rs[i].End()) != Some(Usable)
  {
    var e := rs[i].End();
    if i + 1 < |rs| && rs[i + 1].base == e {
      KindAtElement(rs, i + 1, e);
    } else {
      forall j | 0 <= j < |rs| ensures !rs[j].Covers(e) {
        if j < i { assert rs[j].End() <= rs[i].base; }
        if j > i + 1 { assert rs[i + 1].End() <= rs[j].base; }
      }
      KindAtNone(rs, e);
    }
  }

  /** In a merged list a USABLE run lies inside one region. */
  lemma RunInOneRegion(rs: seq<Region>, a: nat, n: nat) returns (i: nat)
    requires Valid(rs) && Coalesced(rs) && n > 0 && UsableRun(rs, a, n)
    ensures i < |rs| && rs[i].kind.Usable? && rs[i].base <= a && a + n <= rs[i].End()
  {
    assert KindAt(rs, a) == Some(Usable);
    i := KindAtWitness(rs, a);
    EndNotUsable(rs, i);
  }
}
