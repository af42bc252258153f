/** Files kept in memory: a growing buffer that behaves like a byte sequence with zero gaps. */
module RamFile {
  import opened Grid
  import opened Bytes
  import opened Words

  const SIZE_MAX: nat := WORD - 1

  /** The end of a range, as the 64-bit sum gives it. */
  function EndPos(offset: nat, count: nat): nat { Wrap(offset + count) }

  /**
   The guard of a write compares the wrapped sum and so never refuses; a buffer long enough for the
   wrapped end holds the range exactly when the sum does not wrap.
   */
  lemma GuardExact(offset: nat, count: nat, length: nat)
    requires offset <= SIZE_MAX && count <= SIZE_MAX && EndPos(offset, count) <= length <= SIZE_MAX
    ensures !(EndPos(offset, count) > SIZE_MAX)
    ensures offset + count <= length <==> offset + count <= SIZE_MAX
  {
  }

  /** Two bytes at the last offset pass the guard, and one byte of room is enough to try. */
  lemma GuardMisses(length: nat)
    requires 1 <= length <= SIZE_MAX
    ensures EndPos(SIZE_MAX, 2) == 1 <= length < SIZE_MAX + 2
  {
  }

  // ----- what a file is -----

  function Resize(content: seq<Byte>, length: nat): (r: seq<Byte>)
    ensures |r| == length
  {
    if length <= |content| then content[..length] else content + Repeat(0, length - |content|)
  }

  /** The content long enough to hold a range. */
  function Extended(content: seq<Byte>, end: nat): (r: seq<Byte>)
    ensures |r| == if end > |content| then end else |content|
  {
    if end > |content| then Resize(content, end) else content
  }

  function Written(content: seq<Byte>, offset: nat, data: seq<Byte>): seq<Byte> {
    Overwrite(Extended(content, offset + |data|), offset, data)
  }

  datatype Op = Write(offset: nat, data: seq<Byte>) | Truncate(length: nat)

  function Apply(content: seq<Byte>, op: Op): seq<Byte> {
    match op
    case Write(offset, data) => Written(content, offset, data)
    case Truncate(length) => Resize(content, length)
  }

  /** The content after a run of operations on an empty file. */
  function Run(ops: seq<Op>): seq<Byte> {
    if ops == [] then [] else Apply(Run(ops[..|ops| - 1]), ops[|ops| - 1])
  }

  /** The byte a position holds: from the last write over it, unless the file was cut below it since. */
  function LastByte(ops: seq<Op>, i: nat): Byte {
    if ops == [] then 0 else
      match ops[|ops| - 1]
      case Write(offset, data) =>
        if offset <= i < offset + |data| then data[i - offset] else LastByte(ops[..|ops| - 1], i)
      case Truncate(length) => if length <= i then 0 else LastByte(ops[..|ops| - 1], i)
  }

  lemma ApplyAt(content: seq<Byte>, op: Op, i: nat)
    ensures var before := if i < |content| then content[i] else 0;
            var after := if i < |Apply(content, op)| then Apply(content, op)[i] else 0;
            after == match op
                     case Write(offset, data) => (if offset <= i < offset + |data| then data[i - offset] else before)
                     case Truncate(length) => (if length <= i then 0 else before)
  {
  }

  /** After every run each position holds its last byte, and the positions beyond the end read as zero. */
  lemma {:induction false} RunIsLastBytes(ops: seq<Op>, i: nat)
    ensures LastByte(ops, i) == if i < |Run(ops)| then Run(ops)[i] else 0
    decreases |ops|
  {
    if ops != [] {
      RunIsLastBytes(ops[..|ops| - 1], i);
      ApplyAt(Run(ops[..|ops| - 1]), ops[|ops| - 1], i);
    }
  }

  // ----- the buffer -----

  /** How a write ends: no memory, carried out, or about to copy outside the buffer. */
  datatype Ending = NoMemory | Done | Overrun

  class File {
    var data: array<Byte>
    var size: nat

    ghost predicate Valid() reads this, data {
      && size <= data.Length <= SIZE_MAX
      && forall i :: size <= i < data.Length ==> data[i] == 0
    }

    ghost function Content(): seq<Byte>
      requires Valid()
      reads this, data
    {
      data[..size]
    }

    constructor ()
      ensures Valid() && Content() == [] && fresh(data)
    {
      data := new Byte[0];
      size := 0;
    }

    /** Makes the buffer hold `required` bytes, the new ones zero; without memory nothing changes. */
    method Grow(required: nat) returns (ok: bool)
      requires Valid() && required <= SIZE_MAX
      modifies this`data
      ensures Valid() && Content() == old(Content()) && (ok ==> required <= data.Length)
      ensures data == old(data) || fresh(data)
      ensures required <= old(data.Length) || !ok ==> data == old(data)
      ensures required <= old(data.Length) ==> ok
    {
      if required <= data.Length { return true; }
      var capacity := GrownCapacity(data.Length, required);
      if * { return false; }
      var grown := new Byte[capacity];
      CopyAndZero(data, grown);
      assert grown[..size] == data[..size];
      data := grown;
      return true;
    }

    /** Reads at most `count` bytes from a position. */
    method Read(offset: nat, count: nat) returns (bytes: seq<Byte>)
      requires Valid()
      ensures bytes == if offset >= size then []
                       else if offset + count <= size then Content()[offset..offset + count] else Content()[offset..]
    {
      if offset >= size { return []; }
      var remaining := size - offset;
      var toCopy := if count < remaining then count else remaining;
      bytes := data[offset..offset + toCopy];
    }

    /**
     Writes bytes at a position, filling a gap before it with zeros. Where the 64-bit sum of offset and
     length wraps, the buffer is sized for the wrapped sum and the copy would leave it: nothing is copied
     here.
     */
    method Write(offset: nat, bytes: seq<Byte>) returns (r: Ending)
      requires Valid() && offset <= SIZE_MAX && |bytes| <= SIZE_MAX
      modifies this, data
      ensures Valid() && (data == old(data) || fresh(data))
      ensures Content() == if r == Done then Written(old(Content()), offset, bytes) else old(Content())
      ensures r != NoMemory ==> (r == Done <==> offset + |bytes| <= SIZE_MAX)
      ensures EndPos(offset, |bytes|) <= old(data.Length) ==> r != NoMemory
    {
      var end := EndPos(offset, |bytes|);
      var ok := Grow(end);
      if !ok { return NoMemory; }
      GuardExact(offset, |bytes|, data.Length);
      if data.Length < offset + |bytes| { return Overrun; }
      ghost var before := data[..];
      ZeroTail(before, size, end);
      CopyInto(data, offset, bytes);
      if end > size { size := end; }
      OverwritePrefix(before, offset, bytes, size);
      r := Done;
    }

    /** Sets the length, cutting the content or extending it with zeros. */
    method Truncate(length: nat) returns (ok: bool)
      requires Valid() && length <= SIZE_MAX
      modifies this, data
      ensures Valid() && (data == old(data) || fresh(data))
      ensures Content() == if ok then Resize(old(Content()), length) else old(Content())
      ensures length <= old(data.Length) ==> ok
    {
      ok := Grow(length);
      if !ok { return; }
      ghost var before := data[..];
      ZeroTail(before, size, length);
      if length < size { Clear(data, length, size); }
      size := length;
    }
  }

  /** The bytes up to a later end are the content extended with zeros. */
  lemma ZeroTail(bytes: seq<Byte>, size: nat, end: nat)
    requires size <= |bytes| && end <= |bytes| && forall i :: size <= i < |bytes| ==> bytes[i] == 0
    ensures end >= size ==> bytes[..end] == Resize(bytes[..size], end)
    ensures bytes[..if end > size then end else size] == Extended(bytes[..size], end)
  {
  }

  lemma OverwritePrefix(bytes: seq<Byte>, at: nat, data: seq<Byte>, n: nat)
    requires at + |data| <= n <= |bytes|
    ensures Overwrite(bytes, at, data)[..n] == Overwrite(bytes[..n], at, data)
  {
  }

  /** Doubles a capacity until it suffices, or takes exactly what is needed where doubling would overflow. */
  method GrownCapacity(capacity: nat, required: nat) returns (grown: nat)
    requires capacity < required <= SIZE_MAX && capacity <= SIZE_MAX
    ensures required <= grown <= SIZE_MAX
    ensures grown < 2 * required || grown == 64
  {
    grown := if capacity > 0 then capacity else 64;
    while grown < required
      invariant 0 < grown <= SIZE_MAX && (grown < 2 * required || grown == 64)
      decreases required - grown
    {
      if grown > SIZE_MAX / 2 {
        grown := required;
        break;
      }
      grown := grown * 2;
    }
  }

  /** Copies a buffer to the front of a longer one and clears the rest. */
  method CopyAndZero(source: array<Byte>, target: array<Byte>)
    requires source != target && source.Length <= target.Length
    modifies target
    ensures target[..] == source[..] + Repeat(0, target.Length - source.Length)
  {
    var i := 0;
    while i < target.Length
      invariant i <= target.Length
      invariant forall j :: 0 <= j < i ==> target[j] == if j < source.Length then source[j] else 0
    {
      target[i] := if i < source.Length then source[i] else 0;
      i := i + 1;
    }
  }

  method Clear(target: array<Byte>, from: nat, to: nat)
    requires from <= to <= target.Length
    modifies target
    ensures target[..] == Overwrite(old(target[..]), from, Repeat(0, to - from))
  {
    var i := from;
    while i < to
      invariant from <= i <= to
      invariant forall j :: 0 <= j < target.Length ==> target[j] == if from <= j < i then 0 else old(target[j])
    {
      target[i] := 0;
      i := i + 1;
    }
  }
}
