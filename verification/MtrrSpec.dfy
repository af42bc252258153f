/**
 Memory type range registers: how a range of physical addresses is encoded in base/mask register
 pairs, and what a run of requests leaves in them.
 */
module MtrrSpec {
  import opened Words
  import opened Arithmetic
  import opened Tiling
  import opened TileCount
  import opened Bits

  /** The bit of a mask register that enables the pair. */
  const VALID_BIT: nat := 11

  lemma Constants()
    ensures Pow2(PAGE_BITS) == 4096 && Pow2(VALID_BIT) == 0x800 && Pow2(WORD_BITS) == WORD
  {
    WordSize();
  }

  // ----- the encoding -----

  /** The bits of a register that hold address bits, for a processor with that many address bits. */
  function PhysMaskBits(physBits: nat): nat
  {
    if physBits >= 52 then 0xFFFF_FFFF_FFFF_F000 else And(Pow2(physBits) - 1, WORD - 1 - 0xFFF)
  }

  /** The address width the registers are programmed for. */
  function Width(physBits: nat): nat { if physBits >= 52 then WORD_BITS else physBits }

  /** The ones from bit `k` up to bit `m`. */
  function Band(k: nat, m: nat): (x: nat)
    requires k <= m
    ensures x < Pow2(m)
  {
    if k < m then Pow2Mono(k, m); Pow2(m) - Pow2(k) else 0
  }

  lemma BandIs(k: nat, m: nat)
    requires k <= m
    ensures Band(k, m) == Pow2(m) - Pow2(k) && Aligned(Band(k, m), k)
  {
    AlignedPower(m, k);
    AlignedPower(k, k);
    AlignedAdd(Pow2(m), Pow2(k), k);
    AlignedZero(k);
  }

  /** Clearing low bits of a band leaves the shorter band. */
  lemma BandFloor(p: nat, k: nat, m: nat)
    requires p <= k <= m
    ensures Floor(Band(p, m), k) == Band(k, m)
  {
    BandIs(p, m);
    BandIs(k, m);
    if p < k { Pow2Mono(p, k); }
    FloorSame(Band(k, m), Band(p, m), k);
  }

  lemma BandMeet(p: nat, k: nat, m: nat, w: nat)
    requires p <= k <= m <= w
    ensures And(Band(k, w), Band(p, m)) == Band(k, m)
  {
    BandIs(k, w);
    if m < w { Pow2Mono(m, w); }
    AndCommutes(Band(k, w), Band(p, m));
    AndBand(Band(p, m), w, k);
    BandFloor(p, k, m);
  }

  lemma BandAnd(x: nat, k: nat, m: nat)
    requires x < Pow2(m) && k <= m
    ensures And(x, Band(k, m)) == Floor(x, k)
  {
    BandIs(k, m);
    AndBand(x, m, k);
  }

  /** For every processor the register's address bits are those from the page size up to its width. */
  lemma PhysMask(physBits: nat)
    requires physBits >= PAGE_BITS
    ensures PhysMaskBits(physBits) == Band(PAGE_BITS, Width(physBits))
  {
    Constants();
    BandIs(PAGE_BITS, WORD_BITS);
    if physBits < 52 {
      BandIs(0, physBits);
      AndCommutes(Band(0, physBits), Band(PAGE_BITS, WORD_BITS));
      BandMeet(0, PAGE_BITS, physBits, WORD_BITS);
    }
  }

  function BaseValue(base: nat, physMask: nat, code: nat): nat { Or(And(base, physMask), code) }

  function MaskValue(size: nat, physMask: nat): nat
    requires 0 < size <= WORD
  {
    Or(And(WORD - 1 - (size - 1), physMask), 0x800)
  }

  /** An address matches an enabled pair when it agrees with the base on every masked bit. */
  predicate Matches(baseVal: nat, maskVal: nat, physMask: nat, a: nat) {
    && Bit(maskVal, VALID_BIT)
    && And(a, And(maskVal, physMask)) == And(And(baseVal, physMask), And(maskVal, physMask))
  }

  /** Low bits added to a field by an `or` are masked out again. */
  lemma OrField(field: nat, low: nat, p: nat, m: nat)
    requires p <= m && Aligned(field, p) && field < Pow2(m) && low < Pow2(p)
    ensures And(Or(field, low), Band(p, m)) == field
  {
    OrLow(field, low, p);
    AlignedRoom(field, p, m);
    BandAnd(field + low, p, m);
  }

  lemma BaseField(base: nat, code: nat, m: nat, p: nat)
    requires p <= m && Aligned(base, p) && base < Pow2(m) && code < Pow2(p)
    ensures And(BaseValue(base, Band(p, m), code), Band(p, m)) == base
  {
    BandAnd(base, p, m);
    FloorAligned(base, p);
    OrField(base, code, p, m);
  }

  lemma MaskField(k: nat, m: nat, p: nat, w: nat, v: nat)
    requires v < p <= k <= m <= w && WORD == Pow2(w) && 0x800 == Pow2(v)
    ensures Pow2(k) <= WORD
    ensures And(MaskValue(Pow2(k), Band(p, m)), Band(p, m)) == Band(k, m)
    ensures Bit(MaskValue(Pow2(k), Band(p, m)), v)
  {
    BandIs(k, w);
    BandMeet(p, k, m, w);
    BandIs(k, m);
    AlignedDown(Band(k, m), k, p);
    Pow2Mono(v, p);
    OrField(Band(k, m), 0x800, p, m);
    BitOr(Band(k, m), 0x800, v);
    BitPower(v, v);
  }

  /** A programmed pair matches an address of the machine exactly when it lies in the chunk. */
  lemma EncodingExact(base: nat, k: nat, code: nat, m: nat, a: nat)
    requires PAGE_BITS <= k <= m <= WORD_BITS && Aligned(base, k) && base + Pow2(k) <= Pow2(m)
    requires code < 4096 && a < Pow2(m)
    ensures Pow2(k) <= WORD
    ensures var physMask := Band(PAGE_BITS, m);
            Matches(BaseValue(base, physMask, code), MaskValue(Pow2(k), physMask), physMask, a)
            <==> Inside(Chunk(base, Pow2(k)), a)
  {
    Constants();
    AlignedDown(base, k, PAGE_BITS);
    BaseField(base, code, m, PAGE_BITS);
    MaskField(k, m, PAGE_BITS, WORD_BITS, VALID_BIT);
    BandAnd(a, k, m);
    BandAnd(base, k, m);
    FloorAligned(base, k);
    FloorSame(base, a, k);
  }

  // ----- slots -----

  /** The lowest clear bit. */
  function FirstClear(x: nat): (i: nat)
    ensures !Bit(x, i) && forall j :: 0 <= j < i ==> Bit(x, j)
  {
    if x % 2 == 0 then 0 else
      var i := FirstClear(x / 2) + 1;
      assert forall j :: 0 < j < i ==> Bit(x, j) == Bit(x / 2, j - 1);
      i
  }

  /** The usage mask after `n` slots are taken, lowest clear bit first. */
  function MaskAfter(mask: nat, n: nat): nat {
    if n == 0 then mask else Or(MaskAfter(mask, n - 1), Pow2(FirstClear(MaskAfter(mask, n - 1))))
  }

  /** The slot taken by the `i`-th acquisition. */
  function SlotAt(mask: nat, i: nat): nat { FirstClear(MaskAfter(mask, i)) }

  /** One of the first `n` acquisitions takes slot `j`. */
  ghost predicate Taken(mask: nat, n: nat, j: nat) { exists i :: 0 <= i < n && SlotAt(mask, i) == j }

  lemma TakenStep(mask: nat, n: nat, j: nat)
    ensures Taken(mask, n + 1, j) <==> Taken(mask, n, j) || SlotAt(mask, n) == j
  {
    if SlotAt(mask, n) == j { assert Taken(mask, n + 1, j); }
  }

  lemma MaskStep(mask: nat, n: nat, j: nat)
    ensures Bit(MaskAfter(mask, n + 1), j) <==> Bit(MaskAfter(mask, n), j) || j == SlotAt(mask, n)
  {
    BitOr(MaskAfter(mask, n), Pow2(SlotAt(mask, n)), j);
    BitPower(SlotAt(mask, n), j);
  }

  /** The slots taken are exactly the bits that became set. */
  lemma {:induction false} MaskBits(mask: nat, n: nat, j: nat)
    ensures Bit(MaskAfter(mask, n), j) <==> Bit(mask, j) || Taken(mask, n, j)
    decreases n
  {
    if n > 0 {
      MaskBits(mask, n - 1, j);
      MaskStep(mask, n - 1, j);
      TakenStep(mask, n - 1, j);
    }
  }

  /** Taken slots were clear, and differ from one another. */
  lemma SlotsDistinct(mask: nat, i: nat, j: nat)
    requires i < j
    ensures !Bit(mask, SlotAt(mask, j)) && SlotAt(mask, i) != SlotAt(mask, j)
  {
    MaskBits(mask, j, SlotAt(mask, j));
  }

  /** While fewer slots are used than exist, the lowest clear bit is a slot. */
  lemma RoomMeansSlot(mask: nat, v: nat)
    requires PopCount(mask) < v
    ensures FirstClear(mask) < v
  {
    if v <= FirstClear(mask) { AllSet(mask, v); }
  }

  /** Counting first is enough: when the free slots suffice, every acquisition finds one. */
  lemma {:induction false} SlotsSuffice(mask: nat, n: nat, v: nat)
    requires mask < Pow2(v) && PopCount(mask) + n <= v
    ensures MaskAfter(mask, n) < Pow2(v) && PopCount(MaskAfter(mask, n)) == PopCount(mask) + n
    ensures forall i :: 0 <= i < n ==> SlotAt(mask, i) < v
    decreases n
  {
    if n > 0 {
      SlotsSuffice(mask, n - 1, v);
      var before := MaskAfter(mask, n - 1);
      RoomMeansSlot(before, v);
      OrCount(before, FirstClear(before), v);
    }
  }

  // ----- requests -----

  datatype MemoryType = WriteCombining | Uncacheable | Unsupported

  function TypeCode(t: MemoryType): nat {
    match t
    case WriteCombining => 1
    case Uncacheable => 0
    case Unsupported => 0xFF
  }

  datatype Config = Config(varCount: nat, physBits: nat)

  predicate ConfigValid(c: Config) { c.varCount <= 64 && 36 <= c.physBits }

  datatype State = State(mask: nat, msrs: map<nat, nat>)

  datatype Request = Request(start: nat, length: nat, kind: MemoryType)

  predicate Representable(r: Request) { r.start < WORD && r.length < WORD }

  function Lower(r: Request): nat { PageFloor(r.start) }

  function Upper(r: Request): nat { PageFloor(r.start + r.length + 0xFFF) }

  lemma PageAligned(x: nat, p: nat)
    requires Pow2(p) == PAGE
    ensures Aligned(PageFloor(x), p)
  {
    AlignedMeans(PageFloor(x), p);
  }

  /** The page-rounded range is page-aligned, holds the request and exceeds it by less than a page at each end. */
  lemma Rounded(r: Request)
    requires r.length > 0
    ensures Lower(r) <= r.start < Lower(r) + PAGE
    ensures r.start + r.length <= Upper(r) < r.start + r.length + PAGE
    ensures Aligned(Lower(r), PAGE_BITS) && Aligned(Upper(r), PAGE_BITS)
    ensures Lower(r) < Upper(r) && Aligned(Upper(r) - Lower(r), PAGE_BITS)
  {
    Constants();
    PageAligned(r.start, PAGE_BITS);
    PageAligned(r.start + r.length + 0xFFF, PAGE_BITS);
    AlignedAdd(Upper(r), Lower(r), PAGE_BITS);
  }

  // ----- sums that do not fit a word -----

  /** The length of the page-rounded range. */
  function Span(r: Request): int { Upper(r) - Lower(r) }

  /**
   The request that is carried out: the one made, or, where the page-rounded range is as long as the
   whole space of words or longer, what is left of its length after the sums wrap around.
   */
  function Carried(r: Request): Request {
    if Span(r) < WORD then r else Request(Lower(r), Span(r) - WORD, r.kind)
  }

  /** The length as the code computes it, on words. */
  function LengthWord(r: Request): nat { (PageFloor((r.start + r.length + 0xFFF) % WORD) - Lower(r)) % WORD }

  /** The number of times a sum of two words and a page wraps. */
  function Wraps(x: nat): nat { if x < WORD then 0 else if x < 2 * WORD then 1 else 2 }

  /** A sum on words loses whole words only, and rounding down to a page does not see them. */
  lemma WrapFloor(x: nat)
    requires x < 2 * WORD + PAGE
    ensures PageFloor(x % WORD) == PageFloor(x) - Wraps(x) * WORD
  {
  }

  lemma WrapDifference(d: int, j: nat)
    requires 0 <= d < 2 * WORD && j <= 2
    ensures (d - j * WORD) % WORD == if d < WORD then d else d - WORD
  {
    if j == 0 {} else if j == 1 {} else {}
  }

  lemma SpanBounds(r: Request)
    requires Representable(r) && r.length > 0
    ensures 0 < Span(r) && (Span(r) < WORD <==> r.start % PAGE + r.length + 0xFFF < WORD)
    ensures Span(r) >= WORD ==> Span(r) == WORD || Span(r) == WORD + PAGE
  {
  }

  /** A page-aligned length is rounded to itself. */
  lemma PageLength(x: nat, d: nat)
    requires d == 0 || d == PAGE
    ensures PageFloor(PageFloor(x)) == PageFloor(x) && PageFloor(PageFloor(x) + d + 0xFFF) == PageFloor(x) + d
  {
  }

  /** The wrapped sums are the range of the request carried out. */
  lemma CarriedRange(r: Request)
    requires Representable(r) && r.length > 0
    ensures var q := Carried(r);
      && Lower(q) == Lower(r) && LengthWord(r) == Upper(q) - Lower(q) && (LengthWord(r) == 0 <==> q.length == 0)
  {
    SpanBounds(r);
    WrapFloor(r.start + r.length + 0xFFF);
    WrapDifference(Span(r), Wraps(r.start + r.length + 0xFFF));
    if Span(r) >= WORD { PageLength(r.start, Span(r) - WORD); }
  }

  /** A request is carried out for all of its range exactly when the last page sum stays below the word limit. */
  lemma CarriedExact(r: Request)
    requires Representable(r) && r.length > 0
    ensures Carried(r) == r <==> r.start % PAGE + r.length + 0xFFF < WORD
    ensures Carried(r) != r ==> Carried(r).length == 0 || Carried(r).length == PAGE
  {
    SpanBounds(r);
  }

  /** The longest request from address zero is carried out as no request at all. */
  lemma LongestVanishes(kind: MemoryType)
    ensures Carried(Request(0, WORD - 1, kind)) == Request(0, 0, kind)
  {
    SpanBounds(Request(0, WORD - 1, kind));
  }

  function Chunks(r: Request): seq<Chunk> {
    if Lower(r) <= Upper(r) then Tile(Lower(r), Upper(r) - Lower(r)) else []
  }

  /** When a non-empty request is carried out. */
  predicate Accepts(c: Config, mask: nat, r: Request) {
    && c.varCount > 0 && r.kind != Unsupported
    && Upper(r) <= Pow2(Width(c.physBits))
    && |Chunks(r)| <= 64 && PopCount(mask) + |Chunks(r)| <= c.varCount
  }

  /** When a request is answered with success, which an empty one is without any effect. */
  predicate Succeeds(c: Config, mask: nat, r: Request) {
    c.varCount > 0 && r.kind != Unsupported && (r.length == 0 || Accepts(c, mask, r))
  }

  /** The register numbers of a slot. */
  function BaseMsr(slot: nat): nat { 0x200 + 2 * slot }

  function MaskMsr(slot: nat): nat { 0x200 + 2 * slot + 1 }

  function Put(msrs: map<nat, nat>, slot: nat, chunk: Chunk, physMask: nat, code: nat): map<nat, nat>
    requires 0 < chunk.size <= WORD
  {
    msrs[BaseMsr(slot) := BaseValue(chunk.base, physMask, code)][MaskMsr(slot) := MaskValue(chunk.size, physMask)]
  }

  predicate Sized(chunks: seq<Chunk>) { forall i :: 0 <= i < |chunks| ==> 0 < chunks[i].size <= WORD }

  /** The registers after the first `n` chunks are programmed into the slots taken from `mask`. */
  function Programmed(msrs: map<nat, nat>, mask: nat, chunks: seq<Chunk>, n: nat, physMask: nat, code: nat): map<nat, nat>
    requires n <= |chunks| && Sized(chunks)
  {
    if n == 0 then msrs
    else Put(Programmed(msrs, mask, chunks, n - 1, physMask, code), SlotAt(mask, n - 1), chunks[n - 1], physMask, code)
  }

  /** The registers of one slot. */
  predicate SlotHolds(msrs: map<nat, nat>, slot: nat, baseVal: nat, maskVal: nat) {
    && BaseMsr(slot) in msrs && msrs[BaseMsr(slot)] == baseVal
    && MaskMsr(slot) in msrs && msrs[MaskMsr(slot)] == maskVal
  }

  /** Programming writes each chunk to its own slot, and no register of a slot that was in use. */
  lemma {:induction false} ProgrammedAt(msrs: map<nat, nat>, mask: nat, chunks: seq<Chunk>, n: nat, physMask: nat,
                                        code: nat, i: nat)
    requires i < n <= |chunks| && Sized(chunks)
    ensures SlotHolds(Programmed(msrs, mask, chunks, n, physMask, code), SlotAt(mask, i),
                      BaseValue(chunks[i].base, physMask, code), MaskValue(chunks[i].size, physMask))
    decreases n
  {
    if i < n - 1 {
      ProgrammedAt(msrs, mask, chunks, n - 1, physMask, code, i);
      SlotsDistinct(mask, i, n - 1);
    }
  }

  lemma UsedDiffers(mask: nat, n: nat, slot: nat)
    requires Bit(mask, slot)
    ensures slot != SlotAt(mask, n)
  {
    MaskBits(mask, n, slot);
  }

  lemma PutKeeps(msrs: map<nat, nat>, other: nat, chunk: Chunk, physMask: nat, code: nat, slot: nat, b: nat, m: nat)
    requires 0 < chunk.size <= WORD && slot != other && SlotHolds(msrs, slot, b, m)
    ensures SlotHolds(Put(msrs, other, chunk, physMask, code), slot, b, m)
  {
  }

  lemma {:induction false} ProgrammedKeeps(msrs: map<nat, nat>, mask: nat, chunks: seq<Chunk>, n: nat, physMask: nat,
                                           code: nat, slot: nat, b: nat, m: nat)
    requires n <= |chunks| && Sized(chunks) && Bit(mask, slot) && SlotHolds(msrs, slot, b, m)
    ensures SlotHolds(Programmed(msrs, mask, chunks, n, physMask, code), slot, b, m)
    decreases n
  {
    if n > 0 {
      ProgrammedKeeps(msrs, mask, chunks, n - 1, physMask, code, slot, b, m);
      UsedDiffers(mask, n - 1, slot);
      var before := Programmed(msrs, mask, chunks, n - 1, physMask, code);
      PutKeeps(before, SlotAt(mask, n - 1), chunks[n - 1], physMask, code, slot, b, m);
    }
  }

  lemma WidthWord(physBits: nat)
    ensures Pow2(Width(physBits)) <= WORD
  {
    Constants();
    if physBits < 52 { Pow2Mono(physBits, WORD_BITS); }
  }

  lemma TilesSized(cs: seq<Chunk>, lo: nat, hi: nat)
    requires Tiles(cs, lo, hi) && hi <= WORD
    ensures Sized(cs)
  {
    forall i | 0 <= i < |cs| ensures 0 < cs[i].size <= WORD { TilesBounds(cs, lo, hi, i); }
  }

  /** The chunks of an accepted request fit a register. */
  lemma ChunksSized(c: Config, r: Request)
    requires ConfigValid(c) && r.length > 0 && Upper(r) <= Pow2(Width(c.physBits))
    ensures Tiles(Chunks(r), Lower(r), Upper(r)) && Sized(Chunks(r))
    ensures Chunks(r) != [] && forall x :: x in Chunks(r) ==> Dyadic(x)
  {
    ChunksTile(r);
    WidthWord(c.physBits);
    TilesSized(Chunks(r), Lower(r), Upper(r));
  }

  lemma ChunksTile(r: Request)
    requires r.length > 0
    ensures Tiles(Chunks(r), Lower(r), Upper(r)) && Chunks(r) != [] && forall x :: x in Chunks(r) ==> Dyadic(x)
  {
    Rounded(r);
    TileRange(Lower(r), Upper(r));
  }

  lemma TileRange(lo: nat, hi: nat)
    requires lo < hi
    ensures var cs := Tile(lo, hi - lo); Tiles(cs, lo, hi) && cs != [] && forall x :: x in cs ==> Dyadic(x)
  {
    TileExact(lo, hi - lo);
  }

  function After(c: Config, s: State, r: Request): State
    requires ConfigValid(c)
  {
    if r.length > 0 && Accepts(c, s.mask, r) then
      ChunksSized(c, r);
      State(MaskAfter(s.mask, |Chunks(r)|),
            Programmed(s.msrs, s.mask, Chunks(r), |Chunks(r)|, PhysMaskBits(c.physBits), TypeCode(r.kind)))
    else s
  }

  predicate Inv(c: Config, s: State) { s.mask < Pow2(c.varCount) && PopCount(s.mask) <= c.varCount }

  /** A slot whose registers match an address. */
  predicate SlotMatches(c: Config, msrs: map<nat, nat>, slot: nat, a: nat)
    requires ConfigValid(c)
  {
    && BaseMsr(slot) in msrs && MaskMsr(slot) in msrs
    && Matches(msrs[BaseMsr(slot)], msrs[MaskMsr(slot)], PhysMaskBits(c.physBits), a)
  }

  /** The size of a page-aligned power of two chunk is at least a page. */
  lemma ChunkShape(c: Config, r: Request, i: nat) returns (k: nat)
    requires ConfigValid(c) && r.length > 0 && Upper(r) <= Pow2(Width(c.physBits)) && i < |Chunks(r)|
    ensures PAGE_BITS <= k <= Width(c.physBits) && Chunks(r)[i].size == Pow2(k) && Aligned(Chunks(r)[i].base, k)
    ensures Chunks(r)[i].base + Pow2(k) <= Pow2(Width(c.physBits))
  {
    ChunksTile(r);
    Rounded(r);
    k := TileShape(Lower(r), Upper(r), PAGE_BITS, Width(c.physBits), i);
  }

  lemma TileShape(lo: nat, hi: nat, p: nat, w: nat, i: nat) returns (k: nat)
    requires lo < hi <= Pow2(w) && Aligned(lo, p) && Aligned(hi - lo, p) && i < |Tile(lo, hi - lo)|
    ensures p <= k <= w && Tile(lo, hi - lo)[i].size == Pow2(k) && Aligned(Tile(lo, hi - lo)[i].base, k)
    ensures Tile(lo, hi - lo)[i].base + Pow2(k) <= Pow2(w)
  {
    TileRange(lo, hi);
    TilesBounds(Tile(lo, hi - lo), lo, hi, i);
    k := WholePages(lo, hi - lo, p, i);
    ExponentBelow(k, w);
  }

  lemma ExponentBelow(k: nat, w: nat)
    requires Pow2(k) <= Pow2(w)
    ensures k <= w
  {
    if w < k { Pow2Mono(w, k); }
  }

  lemma {:induction false} WholePages(c: nat, r: nat, p: nat, i: nat) returns (k: nat)
    requires Aligned(c, p) && Aligned(r, p) && i < |Tile(c, r)|
    ensures p <= k && Tile(c, r)[i].size == Pow2(k) && Aligned(Tile(c, r)[i].base, k)
    decreases r
  {
    Step(c, r, p);
    k := Choice(c, r);
    if i > 0 { k := WholePages(c + Pow2(k), r - Pow2(k), p, i - 1); }
  }

  /** After an accepted request the `i`-th slot taken matches exactly the addresses of the `i`-th chunk. */
  lemma SlotCoversChunk(c: Config, s: State, r: Request, i: nat, a: nat)
    requires ConfigValid(c) && r.length > 0 && Accepts(c, s.mask, r)
    requires i < |Chunks(r)| && a < Pow2(Width(c.physBits))
    ensures SlotMatches(c, After(c, s, r).msrs, SlotAt(s.mask, i), a) <==> Inside(Chunks(r)[i], a)
  {
    ChunksSized(c, r);
    var k := ChunkShape(c, r, i);
    PhysMask(c.physBits);
    ProgrammedAt(s.msrs, s.mask, Chunks(r), |Chunks(r)|, PhysMaskBits(c.physBits), TypeCode(r.kind), i);
    EncodingExact(Chunks(r)[i].base, k, TypeCode(r.kind), Width(c.physBits), a);
  }
}
