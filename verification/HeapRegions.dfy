/**
 The list of regions in memory: every region after the first keeps the record that links it in the
 payload of its own first block, among the headers of the blocks.
 */
module HeapRegions {
  import opened HeapChain
  import opened HeapRuns
  import opened HeapRecords
  import opened HeapMemory

  /** A pointer to a region record: the statically allocated one, or one inside the heap. */
  datatype RegionPtr = Null | Local | At(addr: nat)

  datatype Record = Record(base: nat, size: nat, next: RegionPtr)

  /** The records that can be read, by address. */
  type Records = map<nat, Record>

  /** A header at `a` and a record at `b` do not overlap. */
  predicate Apart(a: nat, b: nat) { a + HEADER <= b || b + REGION_STRUCT <= a }

  /** Writing a header destroys the records it overlaps. */
  function Lost(recs: Records, a: nat): Records { map b | b in recs && Apart(a, b) :: recs[b] }

  /** Writing a record destroys the headers and the other records it overlaps. */
  function Displaced(mem: Memory, b: nat): Memory { map a | a in mem && Apart(a, b) :: mem[a] }

  function Put(recs: Records, b: nat, rec: Record): Records {
    (map c | c in recs && (b + REGION_STRUCT <= c || c + REGION_STRUCT <= b) :: recs[c])[b := rec]
  }

  // ----- the list -----

  ghost function PtrTo(areas: seq<Area>, j: nat): RegionPtr {
    if j >= |areas| then Null else if j == 0 then Local else At(areas[j].base + HEADER)
  }

  ghost function RecordOf(areas: seq<Area>, j: nat): Record
    requires j < |areas|
  {
    Record(areas[j].base, areas[j].End() - areas[j].base, PtrTo(areas, j + 1))
  }

  /** What is read through a region pointer. */
  ghost predicate Reads(first: Record, recs: Records, p: RegionPtr, rec: Record) {
    match p
    case Null => false
    case Local => first == rec
    case At(b) => b in recs && recs[b] == rec
  }

  ghost predicate ListedAt(first: Record, recs: Records, areas: seq<Area>, j: nat)
    requires j < |areas|
  {
    Reads(first, recs, PtrTo(areas, j), RecordOf(areas, j))
  }

  /** The records form the list of the regions, in order. */
  ghost predicate Listed(first: Record, recs: Records, areas: seq<Area>) {
    forall j | 0 <= j < |areas| :: ListedAt(first, recs, areas, j)
  }

  /** Memory holds the chain of every region. */
  ghost predicate Chains(mem: Memory, areas: seq<Area>) { forall i | 0 <= i < |areas| :: Chain(mem, areas[i]) }

  predicate SameExtent(x: Area, y: Area) { x.base == y.base && x.End() == y.End() }

  ghost predicate Kept(recs: Records, recs': Records, b: nat) { b in recs ==> b in recs' && recs'[b] == recs[b] }

  /** Records outside `[lo, hi)` are as before. */
  ghost predicate KeptOutside(recs: Records, recs': Records, lo: nat, hi: nat) {
    forall b: nat | b + REGION_STRUCT <= lo || hi <= b :: Kept(recs, recs', b)
  }

  /** Records that overlap no header of a region are as before. */
  ghost predicate KeptBeside(recs: Records, recs': Records, x: Area) {
    forall b | ApartFrom(x, b) :: Kept(recs, recs', b)
  }

  ghost predicate ApartFrom(x: Area, b: nat) { forall i | 0 <= i <= |x.blocks| :: Apart(Addr(x.base, x.blocks, i), b) }

  /** The list depends on the records of its regions only. */
  lemma ListedKept(first: Record, recs: Records, recs': Records, areas: seq<Area>)
    requires Listed(first, recs, areas) && forall j | 1 <= j < |areas| :: Kept(recs, recs', areas[j].base + HEADER)
    ensures Listed(first, recs', areas)
  {
    forall j | 0 <= j < |areas| ensures ListedAt(first, recs', areas, j) {
      assert ListedAt(first, recs, areas, j);
      if j > 0 { assert Kept(recs, recs', areas[j].base + HEADER); }
    }
  }

  /** New blocks for one region of unchanged extent. */
  lemma ListedUpdate(first: Record, recs: Records, areas: seq<Area>, r: nat, y: Area)
    requires Listed(first, recs, areas) && r < |areas| && SameExtent(areas[r], y)
    ensures Listed(first, recs, areas[r := y])
  {
    var out := areas[r := y];
    forall j | 0 <= j < |areas| ensures ListedAt(first, recs, out, j) { assert ListedAt(first, recs, areas, j); }
  }

  lemma ChainsUpdate(mem: Memory, areas: seq<Area>, r: nat, y: Area)
    requires r < |areas| && Chain(mem, y) && forall i | 0 <= i < |areas| && i != r :: Chain(mem, areas[i])
    ensures Chains(mem, areas[r := y])
  {}

  // ----- records and the writes of the heap -----

  /** A record lies between the headers of its region. */
  lemma RecordInside(x: Area)
    requires x.blocks != [] && x.blocks[0].size >= REGION_STRUCT
    ensures ApartFrom(x, x.base + HEADER) && x.base + HEADER + REGION_STRUCT + HEADER <= x.End()
  {
    var b := x.base + HEADER;
    AddrEnd(x.base, x.blocks);
    AreaLength(x);
    forall i | 0 <= i <= |x.blocks| ensures Apart(Addr(x.base, x.blocks, i), b) {
      if i > 0 { AddrApart(x.base, x.blocks, 0, i); }
    }
  }

  /** A record of one region overlaps no header of any region. */
  lemma RecordBeside(s: State, r: nat, j: nat)
    requires Safe(s) && r < |s.areas| && 1 <= j < |s.areas|
    ensures ApartFrom(s.areas[r], s.areas[j].base + HEADER)
  {
    RecordBlock(s, j);
    RecordInside(s.areas[j]);
    if r != j {
      var x := s.areas[r];
      assert if r < j then Disjoint(x, s.areas[j]) else Disjoint(s.areas[j], x);
      forall i | 0 <= i <= |x.blocks| ensures Apart(Addr(x.base, x.blocks, i), s.areas[j].base + HEADER) {
        AddrBound(x.base, x.blocks, i);
      }
    }
  }

  /** A free block lies beside every record. */
  lemma FreeBeside(s: State, r: nat, i: nat, j: nat)
    requires Safe(s) && r < |s.areas| && i < |s.areas[r].blocks| && s.areas[r].blocks[i].free && 1 <= j < |s.areas|
    ensures var x, b := s.areas[r], s.areas[j].base + HEADER;
      b + REGION_STRUCT <= Addr(x.base, x.blocks, i) || Addr(x.base, x.blocks, i + 1) <= b
  {
    var x := s.areas[r];
    RecordBlock(s, j);
    RecordInside(s.areas[j]);
    AddrBound(x.base, x.blocks, i);
    AddrBound(x.base, x.blocks, i + 1);
    AddrEnd(x.base, x.blocks);
    if r == j {
      AddrApart(x.base, x.blocks, 0, i);
    } else {
      assert if r < j then Disjoint(x, s.areas[j]) else Disjoint(s.areas[j], x);
    }
  }

  /** Taking a free block leaves the list of regions alone. */
  lemma TakeListed(first: Record, recs: Records, recs': Records, s: State, r: nat, n: nat)
    requires Safe(s) && Listed(first, recs, s.areas) && r < |s.areas|
    requires var x := s.areas[r];
      var i := FirstFit(x.blocks, n);
      i < |x.blocks| && KeptOutside(recs, recs', Addr(x.base, x.blocks, i), Addr(x.base, x.blocks, i + 1))
    ensures var x := s.areas[r]; Listed(first, recs', s.areas[r := x.(blocks := Allocate(x.blocks, n))])
  {
    var x := s.areas[r];
    forall j | 1 <= j < |s.areas| ensures Kept(recs, recs', s.areas[j].base + HEADER) {
      FreeBeside(s, r, FirstFit(x.blocks, n), j);
    }
    ListedKept(first, recs, recs', s.areas);
    AllocateUsed(x.base, x.blocks, n);
    ListedUpdate(first, recs', s.areas, r, x.(blocks := Allocate(x.blocks, n)));
  }

  /** So does releasing any block, even one that holds a record. */
  lemma GiveListed(first: Record, recs: Records, recs': Records, s: State, r: nat, k: nat)
    requires Safe(s) && Listed(first, recs, s.areas) && r < |s.areas| && k < |s.areas[r].blocks|
    requires KeptBeside(recs, recs', s.areas[r])
    ensures var x := s.areas[r]; Listed(first, recs', s.areas[r := x.(blocks := Release(x.blocks, k))])
  {
    var x := s.areas[r];
    forall j | 1 <= j < |s.areas| ensures Kept(recs, recs', s.areas[j].base + HEADER) { RecordBeside(s, r, j); }
    ListedKept(first, recs, recs', s.areas);
    ReleaseExtent(x, k);
    ListedUpdate(first, recs', s.areas, r, x.(blocks := Release(x.blocks, k)));
  }

  lemma ReleaseExtent(x: Area, k: nat)
    requires k < |x.blocks|
    ensures SameExtent(x, x.(blocks := Release(x.blocks, k)))
  {
    var bs, lo, hi := x.blocks, Lo(x.blocks, k), Hi(x.blocks, k);
    ReleaseShape(bs, k);
    var b: Block :| b.free && Span([b]) == Span(bs[lo..hi]) && Release(bs, k) == Splice(bs, lo, hi, [b]);
    SpliceUsed(x.base, bs, lo, hi, [b]);
  }

  /** Whatever the owner of a block writes into it, the headers survive, and the records unless the block holds one. */
  lemma OwnerWrite(mem: Memory, mem': Memory, first: Record, recs: Records, recs': Records, s: State, p: nat)
    requires Chains(mem, s.areas) && Listed(first, recs, s.areas) && Safe(s) && p in s.live
    requires forall b | b in mem && (b + HEADER <= p || p + s.live[p] <= b) :: Same(mem, mem', b)
    requires KeptOutside(recs, recs', p, p + s.live[p])
    ensures Chains(mem', s.areas)
    ensures (forall j | 1 <= j < |s.areas| :: p != s.areas[j].base + HEADER) ==> Listed(first, recs', s.areas)
  {
    BlockWrite(mem, mem', s, p);
    if forall j | 1 <= j < |s.areas| :: p != s.areas[j].base + HEADER {
      forall j | 1 <= j < |s.areas| ensures Kept(recs, recs', s.areas[j].base + HEADER) {
        var q := s.areas[j].base + HEADER;
        assert RecordLive(s, j);
        if p < q { LiveApart(s, p, q); } else { LiveApart(s, q, p); }
      }
      ListedKept(first, recs, recs', s.areas);
    }
  }

  /** Whatever is written into a block in use, the headers survive. */
  lemma BlockWrite(mem: Memory, mem': Memory, s: State, p: nat)
    requires Chains(mem, s.areas) && Inv(s) && p in s.live
    requires forall b | b in mem && (b + HEADER <= p || p + s.live[p] <= b) :: Same(mem, mem', b)
    ensures Chains(mem', s.areas)
  {
    var i := UsedAllWitness(s.areas, p);
    var x := s.areas[i];
    UsedAllMember(s.areas, i, p);
    InArea(x, p);
    UsedOwner(x.base, x.blocks, p, p);
    AddrStep(x.base, x.blocks, Owner(x.base, x.blocks, p));
    PayloadWrite(mem, mem', x, Owner(x.base, x.blocks, p));
    forall j | 0 <= j < |s.areas| && j != i ensures Chain(mem', s.areas[j]) {
      assert if i < j then Disjoint(x, s.areas[j]) else Disjoint(s.areas[j], x);
      forall k | 0 <= k <= |s.areas[j].blocks| ensures Same(mem, mem', Addr(s.areas[j].base, s.areas[j].blocks, k)) {
        ChainHeaders(mem, s.areas[j], k);
      }
      ChainFrame(mem, mem', s.areas[j]);
    }
  }

  /** A record written into its block, and linked from the last region's record, extends the list. */
  lemma ListedAppend(first: Record, recs: Records, first': Record, recs': Records, areas: seq<Area>, x: Area)
    requires areas != [] && Listed(first, recs, areas)
    requires forall j | 1 <= j < |areas| - 1 :: Kept(recs, recs', areas[j].base + HEADER)
    requires var k := |areas| - 1;
      && Reads(first', recs', PtrTo(areas, k), RecordOf(areas, k).(next := At(x.base + HEADER)))
      && (k > 0 ==> first' == first)
    requires Reads(first', recs', At(x.base + HEADER), Record(x.base, x.End() - x.base, Null))
    ensures Listed(first', recs', areas + [x])
  {
    var out, k := areas + [x], |areas| - 1;
    forall j | 0 <= j < |out| ensures ListedAt(first', recs', out, j) {
      if j < k {
        assert ListedAt(first, recs, areas, j);
        assert PtrTo(out, j) == PtrTo(areas, j) && RecordOf(out, j) == RecordOf(areas, j);
        if j > 0 { assert Kept(recs, recs', areas[j].base + HEADER); }
      } else if j == k {
        assert RecordOf(out, j) == RecordOf(areas, k).(next := At(x.base + HEADER));
      }
    }
  }
}
