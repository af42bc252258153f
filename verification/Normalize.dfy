/** Path normalisation: `vfs_normalize_path`, its meaning, and the buffer loop that computes it. */
module Normalize {
  import opened Paths
  import ListSpec

  /**
   Segments written so far, and for every depth the number of segments at which a `..` cuts them.
   The source records that number after appending a segment, not before.
   */
  datatype Progress = Progress(segs: seq<string>, marks: seq<nat>)

  datatype Outcome = Done(value: Progress) | Failed(code: Code)

  datatype Normalized = Path(path: string) | Refused(code: Code)

  /** Effect of one segment, for an output buffer of `size` characters. */
  function Take(s: Progress, seg: string, size: nat): Outcome {
    var len := |Render(s.segs)|;
    if |seg| > NAME_MAX then Failed(Invalid)
    else if seg == "." then Done(s)
    else if seg == ".." then
      if s.marks == [] then Done(s)
      else
        var m := s.marks[|s.marks| - 1];
        Done(Progress(if m <= |s.segs| then s.segs[..m] else s.segs, s.marks[..|s.marks| - 1]))
    else if len > 1 && len + 1 >= size then Failed(NoSpace)
    else if (if len > 1 then len + 1 else len) + |seg| >= size then Failed(NoSpace)
    else Done(Progress(s.segs + [seg],
                       if |s.marks| < MAX_SEGMENTS then s.marks + [|s.segs| + 1] else s.marks))
  }

  function TakeAll(s: Progress, segs: seq<string>, size: nat): Outcome
    decreases |segs|
  {
    if segs == [] then Done(s)
    else
      var r := Take(s, segs[0], size);
      if r.Failed? then r else TakeAll(r.value, segs[1..], size)
  }

  const START := Progress([], [])

  function Normal(path: string, size: nat): Normalized {
    if size == 0 then Refused(Invalid)
    else if path == "" then if size < 2 then Refused(NoSpace) else Path("/")
    else if path[0] != '/' then Refused(Invalid)
    else
      var r := TakeAll(START, Segs(path), size);
      if r.Failed? then Refused(r.code) else Path(Render(r.value.segs))
  }

  // ----- the invariant of the fold -----

  ghost predicate Increasing(marks: seq<nat>) { forall i, j | 0 <= i < j < |marks| :: marks[i] < marks[j] }

  /** Clean segments that fit the buffer; the marks rise and point inside the segments. */
  ghost predicate Sound(s: Progress, size: nat) {
    && AllClean(s.segs)
    && |Render(s.segs)| < size
    && Increasing(s.marks)
    && forall i | 0 <= i < |s.marks| :: i < s.marks[i] <= |s.segs|
  }

  lemma RenderAppend(segs: seq<string>, seg: string)
    ensures Render(segs + [seg]) == (if segs == [] then "/" else Render(segs) + "/") + seg
  {
    var all := segs + [seg];
    assert all[..|all| - 1] == segs && all[|all| - 1] == seg;
    assert Render(all) == Join(segs) + "/" + seg;
    if segs == [] { assert Join(segs) + "/" + seg == "/" + seg; }
  }

  /** The length the source computes before it copies a segment. */
  function LenAfter(segs: seq<string>, seg: string): nat {
    (if |Render(segs)| > 1 then |Render(segs)| + 1 else |Render(segs)|) + |seg|
  }

  lemma RenderLength(segs: seq<string>, seg: string)
    requires AllClean(segs)
    ensures |Render(segs + [seg])| == LenAfter(segs, seg) && (|Render(segs)| > 1 <==> segs != [])
  {
    RenderAppend(segs, seg);
    JoinShape(segs);
  }

  lemma {:induction false} JoinTake(segs: seq<string>, m: nat)
    requires m <= |segs|
    ensures Join(segs[..m]) <= Join(segs)
  {
    if m == |segs| {
      assert segs[..m] == segs;
    } else {
      var init := segs[..|segs| - 1];
      JoinTake(init, m);
      assert init[..m] == segs[..m];
      assert Join(segs) == Join(init) + "/" + segs[|segs| - 1];
    }
  }

  lemma CutSound(s: Progress, size: nat)
    requires Sound(s, size) && s.marks != []
    ensures var m := s.marks[|s.marks| - 1];
      m <= |s.segs| && Sound(Progress(s.segs[..m], s.marks[..|s.marks| - 1]), size)
  {
    JoinTake(s.segs, s.marks[|s.marks| - 1]);
  }

  lemma AppendSound(s: Progress, seg: string, size: nat, marks: seq<nat>)
    requires Sound(s, size) && Clean(seg) && LenAfter(s.segs, seg) < size
    requires marks == s.marks || marks == s.marks + [|s.segs| + 1]
    ensures Sound(Progress(s.segs + [seg], marks), size)
  {
    RenderLength(s.segs, seg);
    if s.marks != [] { assert |s.marks| - 1 < s.marks[|s.marks| - 1] <= |s.segs|; }
  }

  lemma TakeSound(s: Progress, seg: string, size: nat)
    requires Sound(s, size) && Plain(seg) && 1 < size
    ensures Take(s, seg, size).Done? ==> Sound(Take(s, seg, size).value, size)
  {
    var r := Take(s, seg, size);
    if r.Done? && seg == ".." && s.marks != [] {
      CutSound(s, size);
    } else if r.Done? && seg != "." && seg != ".." {
      AppendSound(s, seg, size, r.value.marks);
    }
  }

  lemma {:induction false} TakeAllSound(s: Progress, segs: seq<string>, size: nat)
    requires Sound(s, size) && AllPlain(segs) && 1 < size
    ensures TakeAll(s, segs, size).Done? ==> Sound(TakeAll(s, segs, size).value, size)
    decreases |segs|
  {
    if segs != [] {
      TakeSound(s, segs[0], size);
      var r := Take(s, segs[0], size);
      if r.Done? { TakeAllSound(r.value, segs[1..], size); }
    }
  }

  /** The depth guard never binds: a buffer of `PATH_MAX` characters has no room for that many segments. */
  lemma DepthGuard(s: Progress, size: nat)
    requires Sound(s, size) && size <= PATH_MAX
    ensures 2 * |s.marks| <= |Render(s.segs)| && |s.marks| < MAX_SEGMENTS
  {
    JoinShape(s.segs);
    if s.marks != [] {
      assert |s.marks| - 1 < s.marks[|s.marks| - 1] <= |s.segs|;
    }
  }

  // ----- results -----

  /** Every accepted path is canonical and fits the buffer with its terminator. */
  lemma NormalCanonical(path: string, size: nat)
    requires 1 < size && Normal(path, size).Path?
    ensures Canonical(Normal(path, size).path) && |Normal(path, size).path| < size
  {
    if path == "" {
      assert "/"[1..] == "";
    } else {
      SegsPlain(path);
      TakeAllSound(START, Segs(path), size);
      RenderCanonical(TakeAll(START, Segs(path), size).value.segs);
    }
  }

  /** Segments that are clean and fit are kept as they are. */
  lemma {:induction false} TakeAllClean(s: Progress, segs: seq<string>, size: nat)
    requires AllClean(s.segs + segs) && |Render(s.segs + segs)| < size
    ensures TakeAll(s, segs, size).Done? && TakeAll(s, segs, size).value.segs == s.segs + segs
    decreases |segs|
  {
    if segs == [] {
      assert s.segs + segs == s.segs;
    } else {
      StepClean(s.segs, segs, size);
      var r := Take(s, segs[0], size);
      TakeAllClean(r.value, segs[1..], size);
    }
  }

  lemma StepClean(head: seq<string>, segs: seq<string>, size: nat)
    requires segs != [] && AllClean(head + segs) && |Render(head + segs)| < size
    ensures Clean(segs[0]) && LenAfter(head, segs[0]) < size
    ensures (head + [segs[0]]) + segs[1..] == head + segs
  {
    HeadTail(segs);
    ListSpec.Regroup(head, [segs[0]], segs[1..]);
    JoinConcat(head + [segs[0]], segs[1..]);
    assert Clean((head + segs)[|head|]);
    assert AllClean(head) by {
      forall i | 0 <= i < |head| ensures Clean(head[i]) { assert Clean((head + segs)[i]); }
    }
    RenderLength(head, segs[0]);
  }

  /** A canonical path that fits is its own normal form. */
  lemma NormalFixed(p: string, size: nat)
    requires Canonical(p) && |p| < size
    ensures Normal(p, size) == Path(p)
  {
    CanonicalRender(p);
    assert START.segs + Segs(p) == Segs(p);
    TakeAllClean(START, Segs(p), size);
  }

  /** Normalising twice is normalising once. */
  lemma NormalIdempotent(path: string, size: nat)
    requires 1 < size && Normal(path, size).Path?
    ensures Normal(Normal(path, size).path, size) == Normal(path, size)
  {
    NormalCanonical(path, size);
    NormalFixed(Normal(path, size).path, size);
  }

  // ----- what `..` does -----

  function Kept(segs: seq<string>): seq<string> {
    if segs == [] then [] else (if segs[0] in {".", ".."} then [] else [segs[0]]) + Kept(segs[1..])
  }

  /** Without `..` an accepted path keeps its segments other than `.`, in order. */
  lemma {:induction false} TakeAllKept(s: Progress, segs: seq<string>, size: nat)
    requires ".." !in segs && TakeAll(s, segs, size).Done?
    ensures TakeAll(s, segs, size).value.segs == s.segs + Kept(segs)
    decreases |segs|
  {
    if segs != [] {
      var r := Take(s, segs[0], size);
      TakeAllKept(r.value, segs[1..], size);
    }
  }

  lemma NormalWithoutParents(path: string, size: nat)
    requires path != "" && ".." !in Segs(path) && Normal(path, size).Path?
    ensures Normal(path, size).path == Render(Kept(Segs(path)))
  {
    TakeAllKept(START, Segs(path), size);
    assert START.segs + Kept(Segs(path)) == Kept(Segs(path));
  }

  /** The textbook reading of a path, in which `..` drops the segment before it. */
  function Textbook(done: seq<string>, segs: seq<string>): seq<string>
    decreases |segs|
  {
    if segs == [] then done
    else if segs[0] == "." then Textbook(done, segs[1..])
    else if segs[0] == ".." then Textbook(if done == [] then [] else done[..|done| - 1], segs[1..])
    else Textbook(done + [segs[0]], segs[1..])
  }

  predicate Named(seg: string) { seg != "." && seg != ".." }

  /** No `..` comes after a named segment. */
  ghost predicate ParentsFirst(segs: seq<string>) {
    forall i, j | 0 <= i < j < |segs| && Named(segs[i]) :: segs[j] != ".."
  }

  /** Depth and textbook result keep the same length; the code's result is never shorter. */
  lemma {:induction false} TakeAllLongWay(s: Progress, done: seq<string>, segs: seq<string>, size: nat)
    requires Sound(s, size) && AllPlain(segs) && 1 < size <= PATH_MAX && TakeAll(s, segs, size).Done?
    requires |s.marks| == |done| < |s.segs|
    ensures |TakeAll(s, segs, size).value.segs| > |Textbook(done, segs)|
    decreases |segs|
  {
    if segs != [] {
      var r := Take(s, segs[0], size);
      TakeSound(s, segs[0], size);
      DepthGuard(s, size);
      var next := if segs[0] == "." then done
                  else if segs[0] == ".." then (if done == [] then [] else done[..|done| - 1])
                  else done + [segs[0]];
      if segs[0] == ".." && s.marks != [] {
        assert |s.marks| - 1 < s.marks[|s.marks| - 1];
      }
      TakeAllLongWay(r.value, next, segs[1..], size);
    }
  }

  lemma {:induction false} TakeAllTextbook(s: Progress, segs: seq<string>, size: nat)
    requires Sound(s, size) && AllPlain(segs) && 1 < size <= PATH_MAX && TakeAll(s, segs, size).Done?
    requires |s.marks| == |s.segs|
    ensures TakeAll(s, segs, size).value.segs == Textbook(s.segs, segs)
       <==> ParentsFirst(segs) && (s.segs != [] ==> ".." !in segs)
    decreases |segs|
  {
    if segs != [] {
      var r := Take(s, segs[0], size);
      TakeSound(s, segs[0], size);
      DepthGuard(s, size);
      assert segs == [segs[0]] + segs[1..];
      if segs[0] == ".." && s.segs != [] {
        assert |s.marks| - 1 < s.marks[|s.marks| - 1];
        TakeAllLongWay(r.value, s.segs[..|s.segs| - 1], segs[1..], size);
      } else {
        TakeAllTextbook(r.value, segs[1..], size);
        ParentsFirstCons(segs);
      }
    }
  }

  lemma ParentsFirstCons(segs: seq<string>)
    requires segs != []
    ensures ParentsFirst(segs) <==> ParentsFirst(segs[1..]) && (Named(segs[0]) ==> ".." !in segs[1..])
  {
    var rest := segs[1..];
    if ParentsFirst(segs) {
      forall i, j | 0 <= i < j < |rest| && Named(rest[i]) ensures rest[j] != ".." {
        assert Named(segs[i + 1]) && segs[j + 1] != "..";
      }
      if Named(segs[0]) {
        forall j | 0 <= j < |rest| ensures rest[j] != ".." { assert segs[j + 1] != ".."; }
      }
    }
    if ParentsFirst(rest) && (Named(segs[0]) ==> ".." !in rest) {
      forall i, j | 0 <= i < j < |segs| && Named(segs[i]) ensures segs[j] != ".." {
        assert segs[j] == rest[j - 1] && segs[j] in rest;
        if i > 0 { assert Named(rest[i - 1]); }
      }
    }
  }

  /**
   `..` names the parent only where there is none: an accepted path is read the textbook way exactly
   when no `..` comes after a named segment.
   */
  lemma ParentExact(path: string, size: nat)
    requires path != "" && 1 < size <= PATH_MAX && Normal(path, size).Path?
    ensures Normal(path, size).path == Render(Textbook([], Segs(path))) <==> ParentsFirst(Segs(path))
  {
    SegsPlain(path);
    var out := TakeAll(START, Segs(path), size).value.segs;
    TakeAllSound(START, Segs(path), size);
    TakeAllTextbook(START, Segs(path), size);
    TextbookPlain([], Segs(path));
    SegsRender(out);
    SegsRender(Textbook([], Segs(path)));
  }

  lemma {:induction false} TextbookPlain(done: seq<string>, segs: seq<string>)
    requires AllPlain(done) && AllPlain(segs)
    ensures AllPlain(Textbook(done, segs))
    decreases |segs|
  {
    if segs != [] {
      var next := if segs[0] == "." then done
                  else if segs[0] == ".." then (if done == [] then [] else done[..|done| - 1])
                  else done + [segs[0]];
      TextbookPlain(next, segs[1..]);
    }
  }

  /** `/a/..` stays `/a`, whatever the name. */
  lemma ParentStays(a: string)
    requires Clean(a)
    ensures Normal("/" + a + "/..", PATH_MAX) == Path("/" + a)
  {
    var segs, one := [a, ".."], Progress([a], [1]);
    assert Join([a]) == "/" + a by { JoinPrepend(a, []); assert [a] + [] == [a]; }
    assert Join(segs) == "/" + a + "/.." by { assert segs[..1] == [a]; }
    SegsJoin(segs);
    assert Take(START, a, PATH_MAX) == Done(one);
    assert Take(one, "..", PATH_MAX) == Done(Progress([a], []));
    assert TakeAll(one, [".."], PATH_MAX) == Done(Progress([a], []));
    assert segs[1..] == [".."];
  }
}
