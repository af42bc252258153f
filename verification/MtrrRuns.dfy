/** What one request, and a run of requests, leaves programmed. */
module MtrrRuns {
  import opened Arithmetic
  import opened Tiling
  import opened TileCount
  import opened Bits
  import opened MtrrSpec

  /** After an accepted request, the slots it took match exactly the page-rounded range. */
  lemma RequestCovers(c: Config, s: State, r: Request, a: nat)
    requires ConfigValid(c) && r.length > 0 && Accepts(c, s.mask, r) && a < Pow2(Width(c.physBits))
    ensures Lower(r) <= a < Upper(r)
            <==> exists i :: 0 <= i < |Chunks(r)| && SlotMatches(c, After(c, s, r).msrs, SlotAt(s.mask, i), a)
  {
    ChunksSized(c, r);
    TilesCover(Chunks(r), Lower(r), Upper(r), a);
    forall i | 0 <= i < |Chunks(r)|
      ensures SlotMatches(c, After(c, s, r).msrs, SlotAt(s.mask, i), a) <==> Inside(Chunks(r)[i], a)
    {
      SlotCoversChunk(c, s, r, i, a);
    }
    if Lower(r) <= a < Upper(r) {
      var x :| x in Chunks(r) && Inside(x, a);
      var i :| 0 <= i < |Chunks(r)| && Chunks(r)[i] == x;
      assert SlotMatches(c, After(c, s, r).msrs, SlotAt(s.mask, i), a);
    }
  }

  /** No address of the range is matched by two of those slots. */
  lemma RequestMatchesOnce(c: Config, s: State, r: Request, i: nat, j: nat, a: nat)
    requires ConfigValid(c) && r.length > 0 && Accepts(c, s.mask, r) && a < Pow2(Width(c.physBits))
    requires i < j < |Chunks(r)|
    ensures !(SlotMatches(c, After(c, s, r).msrs, SlotAt(s.mask, i), a)
              && SlotMatches(c, After(c, s, r).msrs, SlotAt(s.mask, j), a))
  {
    ChunksSized(c, r);
    TilesApart(Chunks(r), Lower(r), Upper(r), i, j);
    SlotCoversChunk(c, s, r, i, a);
    SlotCoversChunk(c, s, r, j, a);
  }

  /** A slot in use is never programmed again, and stays in use. */
  lemma RequestKeeps(c: Config, s: State, r: Request, slot: nat, b: nat, m: nat)
    requires ConfigValid(c) && Bit(s.mask, slot) && SlotHolds(s.msrs, slot, b, m)
    ensures Bit(After(c, s, r).mask, slot) && SlotHolds(After(c, s, r).msrs, slot, b, m)
  {
    if r.length > 0 && Accepts(c, s.mask, r) {
      ChunksSized(c, r);
      MaskBits(s.mask, |Chunks(r)|, slot);
      ProgrammedKeeps(s.msrs, s.mask, Chunks(r), |Chunks(r)|, PhysMaskBits(c.physBits), TypeCode(r.kind), slot, b, m);
    }
  }

  lemma RequestInv(c: Config, s: State, r: Request)
    requires ConfigValid(c) && Inv(c, s)
    ensures Inv(c, After(c, s, r))
  {
    if r.length > 0 && Accepts(c, s.mask, r) { SlotsSuffice(s.mask, |Chunks(r)|, c.varCount); }
  }

  function Run(c: Config, s: State, rs: seq<Request>): State
    requires ConfigValid(c)
    decreases |rs|
  {
    if rs == [] then s else Run(c, After(c, s, rs[0]), rs[1..])
  }

  /** Over every run the slots in use stay in use and keep their registers. */
  lemma {:induction false} RunKeeps(c: Config, s: State, rs: seq<Request>, slot: nat, b: nat, m: nat)
    requires ConfigValid(c) && Bit(s.mask, slot) && SlotHolds(s.msrs, slot, b, m)
    ensures Bit(Run(c, s, rs).mask, slot) && SlotHolds(Run(c, s, rs).msrs, slot, b, m)
    decreases |rs|
  {
    if rs != [] {
      RequestKeeps(c, s, rs[0], slot, b, m);
      RunKeeps(c, After(c, s, rs[0]), rs[1..], slot, b, m);
    }
  }

  lemma {:induction false} RunInv(c: Config, s: State, rs: seq<Request>)
    requires ConfigValid(c) && Inv(c, s)
    ensures Inv(c, Run(c, s, rs))
    decreases |rs|
  {
    if rs != [] {
      RequestInv(c, s, rs[0]);
      RunInv(c, After(c, s, rs[0]), rs[1..]);
    }
  }

  /**
   Whatever is requested later, the slots an accepted request took keep matching exactly its
   page-rounded range.
   */
  lemma RunCovers(c: Config, s: State, r: Request, later: seq<Request>, a: nat)
    requires ConfigValid(c) && r.length > 0 && Accepts(c, s.mask, r) && a < Pow2(Width(c.physBits))
    ensures Lower(r) <= a < Upper(r)
            <==> exists i :: 0 <= i < |Chunks(r)|
                          && SlotMatches(c, Run(c, s, [r] + later).msrs, SlotAt(s.mask, i), a)
  {
    var mid := After(c, s, r);
    assert ([r] + later)[1..] == later;
    RequestCovers(c, s, r, a);
    ChunksSized(c, r);
    forall i | 0 <= i < |Chunks(r)|
      ensures SlotMatches(c, Run(c, mid, later).msrs, SlotAt(s.mask, i), a)
           == SlotMatches(c, mid.msrs, SlotAt(s.mask, i), a)
    {
      var slot := SlotAt(s.mask, i);
      ProgrammedAt(s.msrs, s.mask, Chunks(r), |Chunks(r)|, PhysMaskBits(c.physBits), TypeCode(r.kind), i);
      MaskBits(s.mask, |Chunks(r)|, slot);
      RunKeeps(c, mid, later, slot, mid.msrs[BaseMsr(slot)], mid.msrs[MaskMsr(slot)]);
    }
  }

  /** A slot of an accepted request is none of the slots that any later request of the run takes. */
  lemma RequestsApart(c: Config, s: State, r: Request, between: seq<Request>, i: nat, j: nat)
    requires ConfigValid(c) && r.length > 0 && Accepts(c, s.mask, r) && i < |Chunks(r)|
    ensures SlotAt(s.mask, i) != SlotAt(Run(c, After(c, s, r), between).mask, j)
  {
    var mid, slot := After(c, s, r), SlotAt(s.mask, i);
    ChunksSized(c, r);
    ProgrammedAt(s.msrs, s.mask, Chunks(r), |Chunks(r)|, PhysMaskBits(c.physBits), TypeCode(r.kind), i);
    MaskBits(s.mask, |Chunks(r)|, slot);
    RunKeeps(c, mid, between, slot, mid.msrs[BaseMsr(slot)], mid.msrs[MaskMsr(slot)]);
    UsedDiffers(Run(c, mid, between).mask, j, slot);
  }

  /** With at most 45 address bits the chunk table never turns a request down. */
  lemma TableNeverBinds(c: Config, mask: nat, r: Request)
    requires ConfigValid(c) && c.physBits <= 45 && r.length > 0
    ensures Accepts(c, mask, r)
            <==> && c.varCount > 0 && r.kind != Unsupported && Upper(r) <= Pow2(c.physBits)
                 && PopCount(mask) + |Chunks(r)| <= c.varCount
  {
    Rounded(r);
    if Upper(r) <= Pow2(c.physBits) {
      TileBound(Lower(r), Upper(r) - Lower(r), c.physBits, PAGE_BITS);
    }
  }
}
