/**
 The scrollback ring of a terminal: lines stored in blocks of 128 that are added as the history grows
 up to a maximum, after which the oldest line is overwritten.
 */
module Ring {
  import opened Arithmetic

  const BLOCK: nat := 128

  /** What the ring stands for: at most `max` lines, the oldest dropped; a maximum of 0 means no limit. */
  function Push<T>(history: seq<T>, max: nat, x: T): seq<T> {
    if max > 0 && |history| >= max then (if history == [] then [] else history[1..]) + [x] else history + [x]
  }

  datatype Ring<T> = Ring(slots: seq<T>, start: nat, count: nat, max: nat)

  /** A position below twice the capacity, taken around the ring. */
  function Around(i: nat, cap: nat): (r: nat)
    requires i < 2 * cap
    ensures r < cap
  {
    if i < cap then i else i - cap
  }

  lemma AroundIsMod(i: nat, cap: nat)
    requires i < 2 * cap
    ensures i % cap == Around(i, cap)
  {
    if i < cap { DivModUnique(i, cap, 0, i); } else { DivModUnique(i, cap, 1, i - cap); }
  }

  predicate Inv<T>(r: Ring<T>) {
    && |r.slots| % BLOCK == 0
    && r.count <= |r.slots|
    && (r.max > 0 ==> r.count <= r.max && |r.slots| < r.max + BLOCK)
    && (r.start > 0 ==> r.max > 0 && r.count == r.max && r.start < |r.slots|)
  }

  /** The `i`-th oldest line. */
  function At<T>(r: Ring<T>, i: nat): T
    requires Inv(r) && i < r.count
  {
    r.slots[Around(r.start + i, |r.slots|)]
  }

  /** The stored lines, oldest first. */
  function History<T>(r: Ring<T>): (h: seq<T>)
    requires Inv(r)
    ensures |h| == r.count && forall i :: 0 <= i < |h| ==> h[i] == At(r, i)
  {
    seq(r.count, i requires 0 <= i < r.count => At(r, i))
  }

  /** The ring with one more block of unspecified lines. */
  function Grow<T>(r: Ring<T>, block: seq<T>): Ring<T> { r.(slots := r.slots + block) }

  predicate AtMax<T>(r: Ring<T>) { r.max > 0 && r.count >= r.max }

  /** Whether the next line needs a block that is not there yet. */
  predicate NeedsBlock<T>(r: Ring<T>) { |r.slots| == 0 || (!AtMax(r) && r.count >= |r.slots|) }

  /** Storing a line once the room for it is there. */
  function Store<T>(r: Ring<T>, x: T): Ring<T>
    requires Inv(r) && !NeedsBlock(r)
  {
    if AtMax(r) then r.(slots := r.slots[r.start := x], start := Around(r.start + 1, |r.slots|))
    else r.(slots := r.slots[Around(r.start + r.count, |r.slots|) := x], count := r.count + 1)
  }

  /** Adding a block when it is needed changes no stored line. */
  lemma GrowKeeps<T>(r: Ring<T>, block: seq<T>)
    requires Inv(r) && NeedsBlock(r) && |block| == BLOCK
    ensures Inv(Grow(r, block)) && !NeedsBlock(Grow(r, block))
    ensures History(Grow(r, block)) == History(r)
  {
    var g := Grow(r, block);
    assert r.start == 0;
    forall i | 0 <= i < r.count ensures At(g, i) == At(r, i) {}
  }

  /** The newest line after a line is stored at the maximum. */
  function Last<T>(r: Ring<T>, x: T): T
    requires Inv(r) && !NeedsBlock(r) && AtMax(r)
  {
    if |r.slots| == r.max then x else r.slots[Around(r.start + r.max, |r.slots|)]
  }

  /**
   Storing a line, in full: below the maximum it is appended; at the maximum the oldest line goes, and
   the new one is the newest exactly when the ring has no slot beyond the maximum. Otherwise the newest
   line is what that slot held before.
   */
  lemma StoreHistory<T>(r: Ring<T>, x: T)
    requires Inv(r) && !NeedsBlock(r)
    ensures Inv(Store(r, x))
    ensures History(Store(r, x)) == if AtMax(r) then History(r)[1..] + [Last(r, x)] else History(r) + [x]
  {
    var s, h := Store(r, x), History(r);
    assert Inv(s);
    if AtMax(r) {
      forall i | 0 <= i < s.count ensures At(s, i) == (h[1..] + [Last(r, x)])[i] {
        if i < s.count - 1 { assert h[i + 1] == At(r, i + 1); }
      }
      assert History(s) == h[1..] + [Last(r, x)];
    } else {
      forall i | 0 <= i < s.count ensures At(s, i) == (h + [x])[i] {
        if i < r.count { assert h[i] == At(r, i); }
      }
      assert History(s) == h + [x];
    }
  }

  /** At its maximum the ring keeps the newest lines, for every line stored, exactly when it has no spare slot. */
  lemma StoreExact<T>(r: Ring<T>, x: T, y: T)
    requires Inv(r) && !NeedsBlock(r) && x != y
    ensures History(Store(r, x)) == Push(History(r), r.max, x) && History(Store(r, y)) == Push(History(r), r.max, y)
            <==> (AtMax(r) ==> |r.slots| == r.max)
  {
    StoreHistory(r, x);
    StoreHistory(r, y);
    var h := History(r);
    if AtMax(r) && |r.slots| != r.max {
      assert (h[1..] + [Last(r, x)])[|h| - 1] == Last(r, x) == Last(r, y);
      assert (h[1..] + [x])[|h| - 1] == x;
      assert (h[1..] + [y])[|h| - 1] == y;
    }
  }

  /** A maximum that fills its last block never leaves a spare slot. */
  lemma WholeBlocks<T>(r: Ring<T>)
    requires Inv(r) && AtMax(r)
    ensures |r.slots| == r.max <==> r.max % BLOCK == 0
  {
  }

  // ----- whole runs -----

  /** One push: a block first, if it is needed, holding whatever the memory held. */
  function Pushed<T>(r: Ring<T>, x: T, junk: seq<T>): (p: Ring<T>)
    requires Inv(r) && |junk| == BLOCK
    ensures Inv(p) && p.max == r.max
  {
    if NeedsBlock(r) then
      GrowKeeps(r, junk);
      StoreHistory(Grow(r, junk), x);
      Store(Grow(r, junk), x)
    else
      StoreHistory(r, x);
      Store(r, x)
  }

  /** With a maximum of whole blocks a push is the push of the history it stands for. */
  lemma PushedRefines<T>(r: Ring<T>, x: T, junk: seq<T>)
    requires Inv(r) && |junk| == BLOCK && r.max % BLOCK == 0
    ensures History(Pushed(r, x, junk)) == Push(History(r), r.max, x)
  {
    if NeedsBlock(r) {
      GrowKeeps(r, junk);
      StoreHistory(Grow(r, junk), x);
    } else {
      StoreHistory(r, x);
      if AtMax(r) { WholeBlocks(r); }
    }
  }

  /** The last `max` of the lines, or all of them. */
  function Newest<T>(lines: seq<T>, max: nat): seq<T> {
    if max > 0 && |lines| > max then lines[|lines| - max..] else lines
  }

  lemma NewestPush<T>(lines: seq<T>, max: nat, x: T)
    ensures Push(Newest(lines, max), max, x) == Newest(lines + [x], max)
  {
  }

  /** What new blocks hold, by the push they are added in. */
  ghost predicate Blocks<T>(junk: nat -> seq<T>) { forall i :: |junk(i)| == BLOCK }

  /** A run of pushes, each with what a block allocated for it would hold. */
  ghost function Run<T>(r: Ring<T>, lines: seq<T>, junk: nat -> seq<T>): (p: Ring<T>)
    requires Inv(r) && Blocks(junk)
    ensures Inv(p) && p.max == r.max
    decreases |lines|
  {
    if lines == [] then r else Run(Pushed(r, lines[0], junk(|lines|)), lines[1..], junk)
  }

  function PushAll<T>(history: seq<T>, max: nat, lines: seq<T>): seq<T>
    decreases |lines|
  {
    if lines == [] then history else PushAll(Push(history, max, lines[0]), max, lines[1..])
  }

  /** Over every run the ring stands for the history its pushes make. */
  lemma {:induction false} RunRefines<T>(r: Ring<T>, lines: seq<T>, junk: nat -> seq<T>)
    requires Inv(r) && Blocks(junk) && r.max % BLOCK == 0
    ensures History(Run(r, lines, junk)) == PushAll(History(r), r.max, lines)
    decreases |lines|
  {
    if lines != [] {
      PushedRefines(r, lines[0], junk(|lines|));
      RunRefines(Pushed(r, lines[0], junk(|lines|)), lines[1..], junk);
    }
  }

  /** That history is always the newest of all lines pushed, oldest first. */
  lemma {:induction false} PushAllIsNewest<T>(past: seq<T>, max: nat, lines: seq<T>)
    ensures PushAll(Newest(past, max), max, lines) == Newest(past + lines, max)
    decreases |lines|
  {
    if lines == [] {
      assert past + lines == past;
    } else {
      NewestPush(past, max, lines[0]);
      PushAllIsNewest(past + [lines[0]], max, lines[1..]);
      assert past + [lines[0]] + lines[1..] == past + lines;
    }
  }

  // ----- which maxima keep the newest lines -----

  function Empty<T>(max: nat): Ring<T> { Ring([], 0, 0, max) }

  /** Every run from the empty ring leaves the newest lines pushed, whatever new blocks held. */
  ghost predicate KeepsNewest<T(!new)>(max: nat) {
    forall lines: seq<T>, junk: nat -> seq<T> | Blocks(junk) ::
      History(Run(Empty(max), lines, junk)) == Newest(lines, max)
  }

  /** The first `k` slots hold `x`, the rest what their blocks came with. */
  predicate Filled<T(==)>(r: Ring<T>, k: nat, x: T, y: T) {
    && Inv(r) && r.start == 0 && r.count == k <= |r.slots|
    && forall i :: 0 <= i < |r.slots| ==> r.slots[i] == if i < k then x else y
  }

  function Same<T>(x: T, n: nat): (s: seq<T>)
    ensures |s| == n && forall i :: 0 <= i < n ==> s[i] == x
  {
    seq(n, _ => x)
  }

  lemma FilledStep<T>(r: Ring<T>, k: nat, x: T, y: T)
    requires Filled(r, k, x, y) && !AtMax(r)
    ensures Filled(Pushed(r, x, Same(y, BLOCK)), k + 1, x, y)
  {
    if NeedsBlock(r) { GrowKeeps(r, Same(y, BLOCK)); }
  }

  /** At the maximum, with a slot to spare, the newest line that shows is the content of that slot. */
  lemma StalePush<T>(r: Ring<T>, x: T, y: T, junk: seq<T>)
    requires Filled(r, r.max, x, y) && r.max % BLOCK != 0 && |junk| == BLOCK
    ensures var h := History(Pushed(r, x, junk)); |h| == r.max && h[r.max - 1] == y
  {
    WholeBlocks(r);
    StoreHistory(r, x);
  }

  /** One line more than the maximum, and what shows as the newest is the content of a fresh block. */
  lemma {:induction false} StaleRun<T>(r: Ring<T>, k: nat, x: T, y: T, junk: nat -> seq<T>)
    requires Filled(r, k, x, y) && r.max % BLOCK != 0 && k <= r.max
    requires Blocks(junk) && forall i :: junk(i) == Same(y, BLOCK)
    ensures var h := History(Run(r, Same(x, r.max + 1 - k), junk)); |h| == r.max && h[r.max - 1] == y
    decreases r.max - k
  {
    var lines := Same(x, r.max + 1 - k);
    assert lines[1..] == Same(x, r.max - k);
    if k == r.max {
      StalePush(r, x, y, junk(|lines|));
    } else {
      FilledStep(r, k, x, y);
      StaleRun(Pushed(r, x, junk(|lines|)), k + 1, x, y, junk);
    }
  }

  /** The ring keeps the newest lines over every run exactly when its maximum fills whole blocks. */
  lemma RingExact<T(!new)>(max: nat, x: T, y: T)
    requires x != y
    ensures KeepsNewest<T>(max) <==> max % BLOCK == 0
  {
    if max % BLOCK == 0 {
      forall lines: seq<T>, junk: nat -> seq<T> | Blocks(junk)
        ensures History(Run(Empty(max), lines, junk)) == Newest(lines, max)
      {
        RunRefines(Empty(max), lines, junk);
        PushAllIsNewest([], max, lines);
        assert [] + lines == lines && History(Empty<T>(max)) == [] == Newest<T>([], max);
      }
    } else {
      var lines, junk := Same(x, max + 1), _ => Same(y, BLOCK);
      StaleRun(Empty(max), 0, x, y, junk);
      assert Newest(lines, max)[max - 1] == x;
      assert History(Run(Empty(max), lines, junk)) != Newest(lines, max);
    }
  }
}
