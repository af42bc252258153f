/** The memory type range registers of the processor, programmed in place. */
module Mtrr {
  import opened Options
  import opened Words
  import opened Arithmetic
  import opened Tiling
  import opened TileCount
  import opened Bits
  import opened MtrrSpec
  import opened MtrrRuns
  import ListSpec

  /** What the processor reports: the feature bit, the capability register and its address width. */
  datatype Cpu = Cpu(hasMtrr: bool, capability: nat, width: Option<nat>)

  function ConfigOf(cpu: Cpu): Config {
    if !cpu.hasMtrr then Config(0, 36) else
      Config(cpu.capability % 256,
             match cpu.width case None => 36 case Some(w) => if w % 256 < 36 then 36 else w % 256)
  }

  /** The largest power of two that divides the base and does not exceed the length. */
  method LargestAligned(base: nat, length: nat) returns (candidate: nat)
    requires length > 0
    ensures candidate == Pow2(Choice(base, length))
  {
    ghost var k := HighBit(length);
    candidate := Pow2(HighBit(length));
    AndBelow(base, k);
    while candidate > 0 && And(base, candidate - 1) != 0
      invariant candidate == Pow2(k) && Fit(base, k) == Choice(base, length)
      invariant And(base, Pow2(k) - 1) == 0 <==> Aligned(base, k)
      decreases k
    {
      k := k - 1;
      candidate := candidate / 2;
      AndBelow(base, k);
    }
  }

  /** At least a page, at most what is left. */
  function Clamp(chunk: nat, left: nat): nat {
    var atLeast := if chunk < 0x1000 then 0x1000 else chunk;
    if atLeast > left then left else atLeast
  }

  /** The chunks cut so far and the tiling of what is left make up the tiling of the range. */
  ghost predicate Cutting(done: seq<Chunk>, cursor: nat, left: nat, start: nat, remaining: nat) {
    && Aligned(cursor, PAGE_BITS) && Aligned(left, PAGE_BITS)
    && done + Tile(cursor, left) == Tile(start, remaining)
  }

  lemma CutStep(done: seq<Chunk>, cursor: nat, left: nat, start: nat, remaining: nat)
    requires left > 0 && Cutting(done, cursor, left, start, remaining)
    ensures var size := Pow2(Choice(cursor, left));
            && 0x1000 <= size <= left && |done| < |Tile(start, remaining)|
            && Cutting(done + [Chunk(cursor, size)], cursor + size, left - size, start, remaining)
  {
    Step(cursor, left, PAGE_BITS);
    var k := Choice(cursor, left);
    AtLeastPage(k);
    ListSpec.Regroup(done, [Chunk(cursor, Pow2(k))], Tile(cursor + Pow2(k), left - Pow2(k)));
  }

  lemma AtLeastPage(k: nat)
    requires PAGE_BITS <= k
    ensures 0x1000 <= Pow2(k)
  {
    Constants();
    if PAGE_BITS < k { Pow2Mono(PAGE_BITS, k); }
  }

  /** Cuts the range into chunks, unless it needs more than the table holds. */
  method CutRange(start: nat, remaining: nat, chunks: array<Chunk>) returns (ok: bool, count: nat)
    requires chunks.Length == 64 && Aligned(start, PAGE_BITS) && Aligned(remaining, PAGE_BITS)
    modifies chunks
    ensures ok <==> |Tile(start, remaining)| <= 64
    ensures ok ==> count <= 64 && chunks[..count] == Tile(start, remaining)
  {
    var cursor, left := start, remaining;
    count := 0;
    assert chunks[..0] + Tile(start, remaining) == Tile(start, remaining);
    while left > 0
      invariant count <= 64 && Cutting(chunks[..count], cursor, left, start, remaining)
      decreases left
    {
      ghost var done := chunks[..count];
      CutStep(done, cursor, left, start, remaining);
      var chunk := LargestAligned(cursor, left);
      // Neither clamp binds on a page-aligned range.
      assert 0x1000 <= chunk <= left;
      chunk := Clamp(chunk, left);
      if count >= 64 { return false, count; }
      chunks[count] := Chunk(cursor, chunk);
      assert chunks[..count + 1] == done + [Chunk(cursor, chunk)];
      count, cursor, left := count + 1, cursor + chunk, left - chunk;
    }
    ok := true;
  }

  class RangeRegisters {
    const cpu: Cpu
    var initialized: bool
    var available: bool
    var varCount: nat
    var physBits: nat
    var usageMask: nat
    var msrs: map<nat, nat>

    function Abs(): State reads this { State(usageMask, msrs) }

    ghost predicate Valid() reads this {
      && ConfigValid(ConfigOf(cpu)) && Inv(ConfigOf(cpu), Abs())
      && (initialized ==> Config(varCount, physBits) == ConfigOf(cpu) && available == (varCount != 0))
      && (!initialized ==> usageMask == 0 && varCount == 0 && physBits == 36)
    }

    /** Before the first request: no slot taken, and the registers as the firmware left them. */
    constructor (cpu: Cpu, msrs: map<nat, nat>)
      requires ConfigOf(cpu).varCount <= 64
      ensures Valid() && this.cpu == cpu && !initialized && Abs() == State(0, msrs)
    {
      this.cpu, this.msrs := cpu, msrs;
      initialized, available, varCount, physBits, usageMask := false, false, 0, 36, 0;
    }

    /** Reads the processor's description once. */
    method Init() returns (ok: bool)
      requires Valid()
      modifies this
      ensures Valid() && initialized && Abs() == old(Abs())
      ensures ok == available && ok == (ConfigOf(cpu).varCount != 0)
    {
      if initialized { return available; }
      if !cpu.hasMtrr {
        initialized, available := true, false;
        return false;
      }
      varCount := cpu.capability % 256;
      available := varCount != 0;
      match cpu.width {
        case Some(w) =>
          physBits := w % 256;
          if physBits < 36 { physBits := 36; }
        case None =>
          physBits := 36;
      }
      usageMask := 0;
      initialized := true;
      return available;
    }

    /** Takes the lowest free slot; fails only when every slot is in use. */
    method AcquireSlot() returns (slot: int)
      requires varCount <= 64 && usageMask < Pow2(varCount)
      modifies this`usageMask
      ensures slot < 0 <==> varCount <= FirstClear(old(usageMask))
      ensures slot < 0 ==> usageMask == old(usageMask)
      ensures slot >= 0 ==> slot == FirstClear(old(usageMask)) && slot < varCount
      ensures slot >= 0 ==> usageMask == Or(old(usageMask), Pow2(slot))
    {
      var idx: nat := 0;
      while idx < varCount
        invariant idx <= varCount && usageMask == old(usageMask)
        invariant forall i :: 0 <= i < idx ==> Bit(usageMask, i)
      {
        AndBit(usageMask, idx);
        if And(usageMask, Pow2(idx)) == 0 {
          assert FirstClear(usageMask) == idx;
          usageMask := Or(usageMask, Pow2(idx));
          return idx;
        }
        idx := idx + 1;
      }
      return -1;
    }

    /** Gives a slot back: its bit and no other is cleared. */
    method ReleaseSlot(slot: int)
      requires slot < 64 && usageMask < WORD
      modifies this`usageMask
      ensures forall j: nat :: Bit(usageMask, j) <==> Bit(old(usageMask), j) && j != slot
    {
      if slot < 0 { return; }
      var bit := Pow2(slot);
      Constants();
      Pow2Mono(slot, WORD_BITS);
      var before, after := usageMask, And(usageMask, WORD - 1 - bit);
      forall j: nat ensures Bit(after, j) <==> Bit(before, j) && j != slot {
        BitAnd(before, WORD - 1 - bit, j);
        BitNot(bit, WORD_BITS, j);
        BitPower(slot, j);
        if j >= WORD_BITS { BitAbove(before, WORD_BITS, j); }
      }
      usageMask := after;
    }

    /** Takes one slot per chunk; the count was compared first, so none of these fails. */
    method AcquireAll(count: nat, slots: array<nat>)
      requires Valid() && initialized && count <= 64 && slots.Length == 64
      requires PopCount(usageMask) + count <= varCount
      modifies this`usageMask, slots
      ensures usageMask == MaskAfter(old(usageMask), count)
      ensures forall i :: 0 <= i < count ==> slots[i] == SlotAt(old(usageMask), i)
    {
      ghost var mask := usageMask;
      var i := 0;
      while i < count
        invariant i <= count && usageMask == MaskAfter(mask, i)
        invariant forall j :: 0 <= j < i ==> slots[j] == SlotAt(mask, j)
      {
        SlotsSuffice(mask, i, varCount);
        RoomMeansSlot(usageMask, varCount);
        var slot := AcquireSlot();
        if slot < 0 {
          // The source releases the slots taken so far here.
          assert false;
        }
        slots[i] := slot;
        i := i + 1;
      }
    }

    method ProgramSlot(slot: nat, base: nat, size: nat, code: nat)
      requires 0 < size <= WORD
      modifies this`msrs
      ensures msrs == Put(old(msrs), slot, Chunk(base, size), PhysMaskBits(physBits), code)
    {
      var physMask := PhysMaskBits(physBits);
      msrs := msrs[BaseMsr(slot) := Or(And(base, physMask), code)];
      msrs := msrs[MaskMsr(slot) := Or(And(WORD - 1 - (size - 1), physMask), 0x800)];
    }

    method ProgramAll(count: nat, slots: array<nat>, chunks: array<Chunk>, code: nat, ghost mask: nat)
      requires count <= slots.Length && count <= chunks.Length && Sized(chunks[..count])
      requires forall i :: 0 <= i < count ==> slots[i] == SlotAt(mask, i)
      modifies this`msrs
      ensures msrs == Programmed(old(msrs), mask, chunks[..count], count, PhysMaskBits(physBits), code)
    {
      var i := 0;
      while i < count
        invariant i <= count
        invariant msrs == Programmed(old(msrs), mask, chunks[..count], i, PhysMaskBits(physBits), code)
      {
        assert chunks[..count][i] == chunks[i];
        ProgramSlot(slots[i], chunks[i].base, chunks[i].size, code);
        i := i + 1;
      }
    }

    /**
     Sets the type of a range: carried out exactly when it is accepted, and otherwise without effect
     on the registers and the slots in use. A range whose sums do not fit a word is carried out as what
     is left of it.
     */
    method SetRange(r: Request) returns (ok: bool)
      requires Valid() && Representable(r)
      modifies this
      ensures Valid() && (old(initialized) || r.length > 0 ==> initialized)
      ensures ok <==> r.length == 0 || Succeeds(ConfigOf(cpu), old(usageMask), Carried(r))
      ensures r.length > 0 ==> Abs() == After(ConfigOf(cpu), old(Abs()), Carried(r))
      ensures r.length == 0 ==> Abs() == old(Abs())
    {
      if r.length == 0 { return true; }
      var ready := Init();
      if !ready { return false; }
      var code := TypeCode(r.kind);
      if code == 0xFF { return false; }
      CarriedRange(r);
      var start, end := PageFloor(r.start), PageFloor((r.start + r.length + 0xFFF) % WORD);
      var remaining := (end - start) % WORD;
      assert start == Lower(r) && remaining == LengthWord(r);
      if remaining == 0 { return true; }
      ok := SetPages(Carried(r), start, remaining, code);
    }

    /** The part of it that works on whole pages. */
    method SetPages(ghost r: Request, start: nat, remaining: nat, code: nat) returns (ok: bool)
      requires Valid() && initialized && available && r.length > 0 && r.kind != Unsupported && remaining > 0
      requires start == Lower(r) && start + remaining == Upper(r) && code == TypeCode(r.kind)
      modifies this`usageMask, this`msrs
      ensures Valid() && ok == Accepts(ConfigOf(cpu), old(usageMask), r)
      ensures Abs() == After(ConfigOf(cpu), old(Abs()), r)
    {
      var inside := WithinWidth(start, remaining);
      if !inside { return false; }
      ok := CutAndProgram(r, start, remaining, code);
    }

    /** Whether the range ends within the processor's address space. */
    method WithinWidth(start: nat, remaining: nat) returns (ok: bool)
      requires ConfigValid(Config(varCount, physBits)) && remaining > 0
      ensures ok <==> start + remaining <= Pow2(Width(physBits))
    {
      PhysMask(physBits);
      Constants();
      BandIs(PAGE_BITS, Width(physBits));
      OrLow(Band(PAGE_BITS, Width(physBits)), 0xFFF, PAGE_BITS);
      var maxAddress := Or(PhysMaskBits(physBits), 0xFFF);
      if start > maxAddress { return false; }
      return remaining - 1 <= maxAddress - start;
    }

    method CutAndProgram(ghost r: Request, start: nat, remaining: nat, code: nat) returns (ok: bool)
      requires Valid() && initialized && available && r.length > 0 && r.kind != Unsupported
      requires start == Lower(r) && start + remaining == Upper(r) <= Pow2(Width(physBits)) && code == TypeCode(r.kind)
      modifies this`usageMask, this`msrs
      ensures Valid() && ok == Accepts(ConfigOf(cpu), old(usageMask), r)
      ensures Abs() == After(ConfigOf(cpu), old(Abs()), r)
    {
      Rounded(r);
      var chunks := new Chunk[64];
      var fits, count := CutRange(start, remaining, chunks);
      if !fits { return false; }
      ok := ProgramCut(r, chunks, count, code);
    }

    /** Programs the chunks of a range if there are slots for all of them. */
    method ProgramCut(ghost r: Request, chunks: array<Chunk>, count: nat, code: nat) returns (ok: bool)
      requires Valid() && initialized && available && r.length > 0 && r.kind != Unsupported
      requires Upper(r) <= Pow2(Width(physBits)) && code == TypeCode(r.kind)
      requires chunks.Length == 64 && count <= 64 && chunks[..count] == Chunks(r)
      modifies this`usageMask, this`msrs
      ensures Valid() && ok == Accepts(ConfigOf(cpu), old(usageMask), r)
      ensures Abs() == After(ConfigOf(cpu), old(Abs()), r)
    {
      var used := BitCount(usageMask);
      var free := if varCount > used then varCount - used else 0;
      if count > free { return false; }
      ChunksSized(ConfigOf(cpu), r);
      RequestInv(ConfigOf(cpu), Abs(), r);
      TakeAndProgram(chunks, count, code);
      ok := true;
    }

    /** Takes one slot for each chunk, then programs them. */
    method TakeAndProgram(chunks: array<Chunk>, count: nat, code: nat)
      requires Valid() && initialized && chunks.Length == 64 && count <= 64 && Sized(chunks[..count])
      requires PopCount(usageMask) + count <= varCount
      modifies this`usageMask, this`msrs
      ensures usageMask == MaskAfter(old(usageMask), count)
      ensures msrs == Programmed(old(msrs), old(usageMask), chunks[..count], count, PhysMaskBits(physBits), code)
    {
      var slots := new nat[64];
      ghost var mask := usageMask;
      AcquireAll(count, slots);
      ProgramAll(count, slots, chunks, code, mask);
    }
  }

  lemma {:induction false} BitAbove(x: nat, w: nat, j: nat)
    requires x < Pow2(w) && w <= j
    ensures !Bit(x, j)
    decreases w
  {
    if w == 0 { BitZero(j); } else { BitAbove(x / 2, w - 1, j - 1); }
  }
}
