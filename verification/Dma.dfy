/** The descriptor table of a bus-master disk transfer. */
module Dma {
  import opened Arithmetic
  import opened Bits

  /** A descriptor: where the piece starts, its length in 16 bits, and its flags. */
  datatype Prd = Prd(base: nat, byteCount: nat, flags: nat)

  const SEGMENT: nat := 0x1_0000
  const ENTRIES: nat := 4
  const END_OF_TABLE: nat := 0x8000

  /** The length the device reads: zero stands for a whole segment. */
  function Length(e: Prd): nat { if e.byteCount == 0 then SEGMENT else e.byteCount }

  /** The piece lies within one segment. */
  predicate WithinSegment(e: Prd) {
    e.byteCount < SEGMENT && e.base / SEGMENT == (e.base + Length(e) - 1) / SEGMENT
  }

  /** The pieces lie end to end from `lo` to `hi`. */
  predicate Covers(es: seq<Prd>, lo: nat, hi: nat) {
    if es == [] then lo == hi
    else es[|es| - 1].base + Length(es[|es| - 1]) == hi && Covers(es[..|es| - 1], lo, es[|es| - 1].base)
  }

  /** A finished table: only the last entry ends it. */
  predicate Ended(es: seq<Prd>) {
    forall i :: 0 <= i < |es| ==> es[i].flags == if i == |es| - 1 then END_OF_TABLE else 0
  }

  /** What four segments can hold of a range. */
  function Reach(buf: nat, bytes: nat): nat {
    var room := ENTRIES * SEGMENT - buf % SEGMENT;
    if bytes < room then bytes else room
  }

  /** The table while it is filled: `n` entries cover the part of the range up to `p`. */
  ghost predicate Building(es: seq<Prd>, buf: nat, bytes: nat, p: nat) {
    && Covers(es, buf, p) && buf <= p <= buf + bytes && |es| <= ENTRIES
    && (forall i :: 0 <= i < |es| ==> WithinSegment(es[i]) && es[i].flags == 0)
    && (es == [] ==> p == buf)
    && (es != [] ==> buf % SEGMENT + (p - buf) <= |es| * SEGMENT)
    && (es != [] && p < buf + bytes ==> p % SEGMENT == 0 && buf % SEGMENT + (p - buf) == |es| * SEGMENT)
  }

  function Piece(p: nat, remaining: nat): nat {
    var space := SEGMENT - p % SEGMENT;
    if remaining < space then remaining else space
  }

  function Entry(p: nat, remaining: nat): Prd { Prd(p, Piece(p, remaining) % SEGMENT, 0) }

  lemma BuildStep(es: seq<Prd>, buf: nat, bytes: nat, p: nat)
    requires Building(es, buf, bytes, p) && p < buf + bytes && |es| < ENTRIES
    ensures Length(Entry(p, buf + bytes - p)) == Piece(p, buf + bytes - p) > 0
    ensures Building(es + [Entry(p, buf + bytes - p)], buf, bytes, p + Piece(p, buf + bytes - p))
  {
    var e, piece := Entry(p, buf + bytes - p), Piece(p, buf + bytes - p);
    var longer := es + [e];
    assert longer[..|es|] == es;
    assert WithinSegment(e);
    assert Covers(longer, buf, p + piece);
  }

  lemma {:induction false} CoversSame(es: seq<Prd>, fs: seq<Prd>, lo: nat, hi: nat)
    requires |es| == |fs| && Covers(es, lo, hi)
    requires forall i :: 0 <= i < |es| ==> es[i].base == fs[i].base && es[i].byteCount == fs[i].byteCount
    ensures Covers(fs, lo, hi)
    decreases |es|
  {
    if es != [] { CoversSame(es[..|es| - 1], fs[..|fs| - 1], lo, es[|es| - 1].base); }
  }

  lemma LowHalf(x: nat)
    ensures And(x, 0xFFFF) == x % SEGMENT
  {
    Pow2Double(8, 0x100);
    AndMod(x, 16);
  }

  /** The next entry, up to the end of the segment or of the range. */
  method NextEntry(p: nat, remaining: nat) returns (e: Prd, chunk: nat)
    ensures e == Entry(p, remaining) && chunk == Piece(p, remaining)
  {
    LowHalf(p);
    var space := SEGMENT - And(p, 0xFFFF);
    chunk := if remaining < space then remaining else space;
    LowHalf(chunk);
    e := Prd(p, And(chunk, 0xFFFF), 0);
  }

  method FillTable(prdt: array<Prd>, buf: nat, bytes: nat) returns (built: nat, idx: nat)
    requires prdt.Length == ENTRIES
    modifies prdt
    ensures idx <= ENTRIES && built <= bytes && (built < bytes ==> idx == ENTRIES)
    ensures Building(prdt[..idx], buf, bytes, buf + built)
  {
    built, idx := 0, 0;
    assert prdt[..0] == [];
    while built < bytes && idx < ENTRIES
      invariant idx <= ENTRIES && built <= bytes && Building(prdt[..idx], buf, bytes, buf + built)
    {
      ghost var es := prdt[..idx];
      BuildStep(es, buf, bytes, buf + built);
      var e, chunk := NextEntry(buf + built, bytes - built);
      prdt[idx] := e;
      assert prdt[..idx + 1] == es + [e];
      built, idx := built + chunk, idx + 1;
    }
  }

  /** A filled table has reached as far as four segments allow. */
  lemma BuiltReach(es: seq<Prd>, buf: nat, bytes: nat, built: nat)
    requires Building(es, buf, bytes, buf + built) && (built < bytes ==> |es| == ENTRIES)
    ensures built == Reach(buf, bytes) && (bytes > 0 ==> es != [])
    ensures built == bytes <==> buf % SEGMENT + bytes <= ENTRIES * SEGMENT
  {
  }

  /** Marking the last entry ends the table and changes nothing else. */
  lemma MarkLast(es: seq<Prd>, buf: nat, bytes: nat, p: nat)
    requires Building(es, buf, bytes, p) && es != []
    ensures var last := es[|es| - 1];
            var marked := es[|es| - 1 := last.(flags := Or(last.flags, END_OF_TABLE))];
            && Covers(marked, buf, p) && Ended(marked)
            && forall i :: 0 <= i < |marked| ==> WithinSegment(marked[i])
  {
    var last := es[|es| - 1];
    var marked := es[|es| - 1 := last.(flags := Or(last.flags, END_OF_TABLE))];
    CoversSame(es, marked, buf, p);
  }

  /**
   Fills the table for a buffer: the entries cover the built part in order, none crosses a segment, only
   the last ends the table, and everything is built exactly when the range touches at most four segments.
   */
  method BuildPrdt(prdt: array?<Prd>, buf: nat, bytes: nat) returns (built: nat, ghost entries: nat)
    requires (prdt != null ==> prdt.Length == ENTRIES) && buf + bytes <= 0x1_0000_0000
    modifies if prdt == null then {} else {prdt}
    ensures prdt == null ==> built == 0 && entries == 0
    ensures entries <= ENTRIES && (prdt != null && bytes > 0 ==> entries > 0)
    ensures prdt != null ==> built == Reach(buf, bytes)
    ensures prdt != null ==> Covers(prdt[..entries], buf, buf + built) && Ended(prdt[..entries])
    ensures prdt != null ==> forall e :: e in prdt[..entries] ==> WithinSegment(e)
    ensures prdt != null ==> (built == bytes <==> buf % SEGMENT + bytes <= ENTRIES * SEGMENT)
  {
    if prdt == null { return 0, 0; }
    var idx;
    built, idx := FillTable(prdt, buf, bytes);
    entries := idx;
    ghost var es := prdt[..idx];
    BuiltReach(es, buf, bytes, built);
    if idx == 0 { return; }
    MarkLast(es, buf, bytes, buf + built);
    prdt[idx - 1] := prdt[idx - 1].(flags := Or(prdt[idx - 1].flags, END_OF_TABLE));
    assert prdt[..idx] == es[idx - 1 := prdt[idx - 1]];
  }
}
