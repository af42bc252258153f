/** Byte sequences: overwriting a stretch, and blocks laid end to end. */
module Bytes {
  import opened Arithmetic
  import opened Grid

  type Byte = x: int | 0 <= x < 256

  /** Overwriting a stretch and then the one after it overwrites both. */
  lemma OverwriteNext(s: seq<Byte>, at: nat, done: seq<Byte>, next: seq<Byte>)
    requires at + |done| + |next| <= |s|
    ensures Overwrite(Overwrite(s, at, done), at + |done|, next) == Overwrite(s, at, done + next)
  {
  }

  /** The stretch reads back, and everything else is untouched. */
  lemma OverwriteReads(s: seq<Byte>, at: nat, data: seq<Byte>)
    requires at + |data| <= |s|
    ensures Overwrite(s, at, data)[at..at + |data|] == data
    ensures forall i :: 0 <= i < |s| && (i < at || at + |data| <= i) ==> Overwrite(s, at, data)[i] == s[i]
  {
  }

  lemma SliceNext(s: seq<Byte>, a: nat, b: nat, c: nat)
    requires a <= b <= c <= |s|
    ensures s[a..b] + s[b..c] == s[a..c]
  {
  }

  // ----- blocks -----

  predicate Uniform(blocks: seq<seq<Byte>>, bs: nat) { forall i :: 0 <= i < |blocks| ==> |blocks[i]| == bs }

  lemma {:induction false} JoinSlice(blocks: seq<seq<Byte>>, bs: nat, lba: nat)
    requires Uniform(blocks, bs) && lba < |blocks|
    ensures lba * bs + bs <= |Join(blocks)|
    ensures Join(blocks)[lba * bs..lba * bs + bs] == blocks[lba]
    decreases |blocks|
  {
    JoinLength(blocks, bs);
    MulGap(lba, |blocks|, bs);
    assert Join(blocks) == blocks[0] + Join(blocks[1..]);
    if lba > 0 {
      JoinSlice(blocks[1..], bs, lba - 1);
      var at := (lba - 1) * bs;
      assert lba * bs == at + bs;
      SliceRight(blocks[0], Join(blocks[1..]), at, bs);
    }
  }

  lemma SliceRight(a: seq<Byte>, b: seq<Byte>, at: nat, n: nat)
    requires at + n <= |b|
    ensures (a + b)[|a| + at..|a| + at + n] == b[at..at + n]
  {
  }

  lemma {:induction false} JoinUpdate(blocks: seq<seq<Byte>>, bs: nat, lba: nat, block: seq<Byte>)
    requires Uniform(blocks, bs) && lba < |blocks| && |block| == bs
    ensures lba * bs + bs <= |Join(blocks)|
    ensures Join(blocks[lba := block]) == Overwrite(Join(blocks), lba * bs, block)
    decreases |blocks|
  {
    JoinSlice(blocks, bs, lba);
    var rest := blocks[1..];
    assert Join(blocks) == blocks[0] + Join(rest);
    if lba == 0 {
      assert blocks[0 := block][1..] == rest;
    } else {
      JoinUpdate(rest, bs, lba - 1, block);
      assert blocks[lba := block][1..] == rest[lba - 1 := block];
      assert lba * bs == (lba - 1) * bs + bs;
      OverwriteRight(blocks[0], Join(rest), (lba - 1) * bs, block);
    }
  }

  lemma OverwriteRight(a: seq<Byte>, b: seq<Byte>, at: nat, data: seq<Byte>)
    requires at + |data| <= |b|
    ensures Overwrite(a + b, |a| + at, data) == a + Overwrite(b, at, data)
  {
  }

  /** Overwriting inside a slice, and putting the slice back. */
  lemma OverwriteInside(s: seq<Byte>, base: nat, len: nat, intra: nat, data: seq<Byte>)
    requires base + len <= |s| && intra + |data| <= len
    ensures Overwrite(s, base, Overwrite(s[base..base + len], intra, data)) == Overwrite(s, base + intra, data)
  {
  }
}
