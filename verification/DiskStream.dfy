/** A byte stream over a block device. */
module DiskStream {
  import opened Words
  import opened Arithmetic
  import opened Grid
  import opened Bytes

  /** A device of equal blocks. Any operation may report failure, which leaves the blocks as they were. */
  class BlockDevice {
    const blockSize: nat
    /** The reported number of blocks; 0 when it is not known. */
    const totalBlocks: nat
    const hasWrite: bool
    var blocks: seq<seq<Byte>>
    /** How many operations have failed. */
    ghost var errors: nat

    ghost predicate Valid() reads this { blockSize > 0 && Uniform(blocks, blockSize) }

    constructor (blockSize: nat, totalBlocks: nat, hasWrite: bool, blocks: seq<seq<Byte>>)
      requires blockSize > 0 && Uniform(blocks, blockSize)
      ensures Valid() && this.blockSize == blockSize && this.totalBlocks == totalBlocks && this.hasWrite == hasWrite
      ensures this.blocks == blocks && errors == 0
    {
      this.blockSize, this.totalBlocks, this.hasWrite, this.blocks, errors := blockSize, totalBlocks, hasWrite, blocks, 0;
    }

    /** The device as one flat byte sequence. */
    ghost function Flat(): seq<Byte> reads this { Join(blocks) }

    method Read(lba: nat) returns (ok: bool, block: seq<Byte>)
      requires Valid()
      modifies this`errors
      ensures ok ==> lba < |blocks| && block == blocks[lba] && errors == old(errors)
      ensures !ok ==> errors == old(errors) + 1
    {
      if * {
        if lba < |blocks| { return true, blocks[lba]; }
      }
      errors := errors + 1;
      return false, [];
    }

    method Write(lba: nat, block: seq<Byte>) returns (ok: bool)
      requires Valid() && |block| == blockSize
      modifies this
      ensures Valid()
      ensures ok ==> lba < |old(blocks)| && blocks == old(blocks)[lba := block] && errors == old(errors)
      ensures !ok ==> blocks == old(blocks) && errors == old(errors) + 1
    {
      if * {
        if lba < |blocks| {
          blocks := blocks[lba := block];
          return true;
        }
      }
      errors := errors + 1;
      return false;
    }
  }

  /** The range is not empty, its end is a 64-bit position, and it lies within the reported size if there is one. */
  predicate InRange(offset: nat, size: nat, blockSize: nat, totalBlocks: nat)
    requires blockSize > 0
  {
    && size > 0 && offset + size <= WORD
    && (totalBlocks > 0 ==> offset + size <= totalBlocks * blockSize)
  }

  /** Comparing the last block with the block count is comparing the end with the size in bytes. */
  lemma LastBlock(offset: nat, size: nat, bs: nat, total: nat)
    requires bs > 0 && size > 0
    ensures offset / bs < total && (offset + size - 1) / bs < total <==> offset + size <= total * bs
  {
    BlockBelow(offset + size - 1, bs, total);
    BlockBelow(offset, bs, total);
  }

  lemma BlockBelow(x: nat, bs: nat, total: nat)
    requires bs > 0
    ensures x / bs < total <==> x < total * bs
  {
    var q, r := x / bs, x % bs;
    assert x == q * bs + r;
    if q < total { MulGap(q, total, bs); } else { MulMono(total, q, bs); }
  }

  /** The block of a position and the offset inside it. */
  method Locate(pos: nat, bs: nat) returns (lba: nat, intra: nat)
    requires bs > 0
    ensures pos == lba * bs + intra && intra < bs
  {
    lba, intra := pos / bs, pos % bs;
  }

  class Stream {
    const dev: BlockDevice
    var isOpen: bool
    var readOnly: bool

    ghost predicate Valid() reads this, dev { dev.Valid() }

    constructor (device: BlockDevice)
      ensures dev == device && !isOpen && readOnly
    {
      dev, isOpen, readOnly := device, false, true;
    }

    method Open(asReadOnly: bool)
      modifies this
      ensures isOpen && readOnly == if old(isOpen) then old(readOnly) else asReadOnly
    {
      if isOpen { return; }
      readOnly, isOpen := asReadOnly, true;
    }

    /** The guards both directions share. */
    method CheckRange(offset: nat, size: nat) returns (ok: bool)
      requires dev.Valid()
      ensures ok <==> InRange(offset, size, dev.blockSize, dev.totalBlocks)
    {
      if size == 0 { return false; }
      var startLba := offset / dev.blockSize;
      if offset > WORD - 1 - (size - 1) { return false; }
      var endLba := (offset + size - 1) / dev.blockSize;
      LastBlock(offset, size, dev.blockSize, dev.totalBlocks);
      if dev.totalBlocks > 0 && (startLba >= dev.totalBlocks || endLba >= dev.totalBlocks) { return false; }
      return true;
    }

    /** The part of one block that the range covers from a position on. */
    method ReadChunk(pos: nat, remain: nat) returns (ok: bool, piece: seq<Byte>)
      requires dev.Valid() && remain > 0
      modifies dev`errors
      ensures ok ==> 0 < |piece| <= remain && pos + |piece| <= |dev.Flat()| && piece == dev.Flat()[pos..pos + |piece|]
      ensures dev.errors >= old(dev.errors) && (!ok <==> dev.errors > old(dev.errors))
    {
      var lba, intra := Locate(pos, dev.blockSize);
      var chunk := dev.blockSize - intra;
      if chunk > remain { chunk := remain; }
      ok, piece := ReadPart(lba, intra, chunk);
    }

    method ReadPart(lba: nat, intra: nat, chunk: nat) returns (ok: bool, piece: seq<Byte>)
      requires dev.Valid() && intra + chunk <= dev.blockSize
      modifies dev`errors
      ensures ok ==> |piece| == chunk && lba * dev.blockSize + intra + chunk <= |dev.Flat()|
      ensures ok ==> piece == dev.Flat()[lba * dev.blockSize + intra..lba * dev.blockSize + intra + chunk]
      ensures dev.errors >= old(dev.errors) && (!ok <==> dev.errors > old(dev.errors))
    {
      var block;
      ok, block := dev.Read(lba);
      if !ok { return false, []; }
      JoinSlice(dev.blocks, dev.blockSize, lba);
      piece := block[intra..intra + chunk];
      PieceOfFlat(dev.Flat(), block, lba * dev.blockSize, intra, chunk);
    }

    /** Reads a range: exactly the requested slice of the device, or nothing. */
    method Read(offset: nat, size: nat) returns (out: array?<Byte>)
      requires Valid()
      modifies dev`errors
      ensures out != null ==> fresh(out) && offset + size <= |dev.Flat()| && out[..] == dev.Flat()[offset..offset + size]
      ensures dev.errors >= old(dev.errors)
      ensures out == null
              <==> !isOpen || !InRange(offset, size, dev.blockSize, dev.totalBlocks) || dev.errors > old(dev.errors)
    {
      if !isOpen { return null; }
      var fits := CheckRange(offset, size);
      if !fits { return null; }
      var buffer := new Byte[size];
      var copied := 0;
      while copied < size
        invariant copied <= size && dev.errors == old(dev.errors)
        invariant copied > 0 ==> offset + copied <= |dev.Flat()|
        invariant copied > 0 ==> buffer[..copied] == dev.Flat()[offset..offset + copied]
      {
        var ok, piece := ReadChunk(offset + copied, size - copied);
        if !ok { return null; }
        ghost var before := buffer[..copied];
        CopyInto(buffer, copied, piece);
        assert buffer[..copied + |piece|] == before + piece;
        SliceNext(dev.Flat(), offset, offset + copied, offset + copied + |piece|);
        copied := copied + |piece|;
      }
      out := buffer;
      assert out[..] == buffer[..size];
    }

    /** Writes the part of one block that the range covers: the whole block, or read, changed and written back. */
    method WriteChunk(pos: nat, data: seq<Byte>) returns (ok: bool, chunk: nat)
      requires dev.Valid() && |data| > 0
      modifies dev
      ensures dev.Valid() && dev.errors >= old(dev.errors) && (!ok <==> dev.errors > old(dev.errors))
      ensures ok ==> 0 < chunk <= |data| && pos + chunk <= |old(dev.Flat())|
      ensures ok ==> dev.Flat() == Overwrite(old(dev.Flat()), pos, data[..chunk])
      ensures !ok ==> dev.Flat() == old(dev.Flat())
    {
      var lba, intra := Locate(pos, dev.blockSize);
      chunk := dev.blockSize - intra;
      if chunk > |data| { chunk := |data|; }
      if intra == 0 && chunk == dev.blockSize {
        ok := WholeBlock(lba, data[..chunk]);
      } else {
        ok := PartOfBlock(lba, intra, data[..chunk]);
      }
    }

    method WholeBlock(lba: nat, block: seq<Byte>) returns (ok: bool)
      requires dev.Valid() && |block| == dev.blockSize
      modifies dev
      ensures dev.Valid() && dev.errors >= old(dev.errors) && (!ok <==> dev.errors > old(dev.errors))
      ensures ok ==> lba * dev.blockSize + |block| <= |old(dev.Flat())|
      ensures ok ==> dev.Flat() == Overwrite(old(dev.Flat()), lba * dev.blockSize, block)
      ensures !ok ==> dev.Flat() == old(dev.Flat())
    {
      ok := dev.Write(lba, block);
      if ok { JoinUpdate(old(dev.blocks), dev.blockSize, lba, block); }
    }

    method PartOfBlock(lba: nat, intra: nat, data: seq<Byte>) returns (ok: bool)
      requires dev.Valid() && intra + |data| <= dev.blockSize
      modifies dev
      ensures dev.Valid() && dev.errors >= old(dev.errors) && (!ok <==> dev.errors > old(dev.errors))
      ensures ok ==> lba * dev.blockSize + intra + |data| <= |old(dev.Flat())|
      ensures ok ==> dev.Flat() == Overwrite(old(dev.Flat()), lba * dev.blockSize + intra, data)
      ensures !ok ==> dev.Flat() == old(dev.Flat())
    {
      ghost var flat, base := dev.Flat(), lba * dev.blockSize;
      var block;
      ok, block := dev.Read(lba);
      if !ok { return; }
      JoinSlice(dev.blocks, dev.blockSize, lba);
      OverwriteInside(flat, base, dev.blockSize, intra, data);
      ok := WholeBlock(lba, Overwrite(block, intra, data));
    }

    /**
     Writes a range: the device becomes its old content with a prefix of the data written at the offset.
     The prefix is all of the data unless an operation failed.
     */
    method Write(offset: nat, data: seq<Byte>) returns (ghost written: nat)
      requires Valid()
      modifies dev
      ensures Valid() && dev.errors >= old(dev.errors) && written <= |data|
      ensures written > 0 ==> offset + written <= |old(dev.Flat())|
      ensures dev.Flat() == if written == 0 then old(dev.Flat()) else Overwrite(old(dev.Flat()), offset, data[..written])
      ensures var allowed := isOpen && !readOnly && dev.hasWrite
                             && InRange(offset, |data|, dev.blockSize, dev.totalBlocks);
              && (!allowed ==> written == 0 && dev.errors == old(dev.errors))
              && (allowed ==> (written == |data| <==> dev.errors == old(dev.errors)))
    {
      if !isOpen || readOnly || !dev.hasWrite { return 0; }
      var fits := CheckRange(offset, |data|);
      if !fits { return 0; }
      written := WriteAll(offset, data);
    }

    /** The loop of a write: one block after the other until one fails. */
    method WriteAll(offset: nat, data: seq<Byte>) returns (done: nat)
      requires dev.Valid()
      modifies dev
      ensures dev.Valid() && dev.errors >= old(dev.errors) && (done == |data| <==> dev.errors == old(dev.errors))
      ensures Prefixed(dev.Flat(), old(dev.Flat()), offset, data, done)
    {
      done := 0;
      while done < |data|
        invariant done <= |data| && dev.Valid() && dev.errors == old(dev.errors)
        invariant Prefixed(dev.Flat(), old(dev.Flat()), offset, data, done)
      {
        var ok, next := WriteNext(offset, data, done, old(dev.Flat()));
        if !ok { return; }
        done := next;
      }
    }

    /** The body of that loop. */
    method WriteNext(offset: nat, data: seq<Byte>, done: nat, ghost flat: seq<Byte>) returns (ok: bool, next: nat)
      requires dev.Valid() && done < |data| && Prefixed(dev.Flat(), flat, offset, data, done)
      modifies dev
      ensures dev.Valid() && dev.errors >= old(dev.errors) && (!ok <==> dev.errors > old(dev.errors))
      ensures !ok ==> next == done
      ensures ok ==> done < next <= |data|
      ensures Prefixed(dev.Flat(), flat, offset, data, next)
    {
      var chunk;
      ok, chunk := WriteChunk(offset + done, data[done..]);
      if !ok { return false, done; }
      NextPrefix(old(dev.Flat()), dev.Flat(), flat, offset, data, done, chunk);
      next := done + chunk;
    }
  }

  /** The content `flat` with the first `done` bytes of the data written at the offset. */
  ghost predicate Prefixed(now: seq<Byte>, flat: seq<Byte>, offset: nat, data: seq<Byte>, done: nat) {
    && done <= |data| && (done > 0 ==> offset + done <= |flat|)
    && now == if done == 0 then flat else Overwrite(flat, offset, data[..done])
  }

  lemma NextPrefix(now: seq<Byte>, next: seq<Byte>, flat: seq<Byte>, offset: nat, data: seq<Byte>, done: nat, chunk: nat)
    requires Prefixed(now, flat, offset, data, done) && 0 < chunk <= |data| - done && offset + done + chunk <= |now|
    requires next == Overwrite(now, offset + done, data[done..][..chunk])
    ensures Prefixed(next, flat, offset, data, done + chunk)
  {
    NextPiece(flat, offset, data, done, chunk);
  }

  /** One more piece written after a prefix. */
  lemma NextPiece(flat: seq<Byte>, offset: nat, data: seq<Byte>, done: nat, chunk: nat)
    requires 0 < chunk && done + chunk <= |data| && offset + done + chunk <= |flat|
    ensures data[done..][..chunk] == data[done..done + chunk]
    ensures (if done == 0 then Overwrite(flat, offset, data[done..done + chunk])
             else Overwrite(Overwrite(flat, offset, data[..done]), offset + done, data[done..done + chunk]))
         == Overwrite(flat, offset, data[..done + chunk])
  {
    if done > 0 {
      OverwriteNext(flat, offset, data[..done], data[done..done + chunk]);
      assert data[..done] + data[done..done + chunk] == data[..done + chunk];
    }
  }

  /** A piece of a block is a piece of the flat sequence. */
  lemma PieceOfFlat(flat: seq<Byte>, block: seq<Byte>, base: nat, intra: nat, n: nat)
    requires base + |block| <= |flat| && flat[base..base + |block|] == block && intra + n <= |block|
    ensures flat[base + intra..base + intra + n] == block[intra..intra + n]
  {
    var piece, part, whole := flat[base + intra..base + intra + n], block[intra..intra + n], flat[base..base + |block|];
    forall i | 0 <= i < n ensures piece[i] == part[i] {
      assert block[intra + i] == whole[intra + i];
    }
  }
}
