/** The loops of `vfs_normalize_path` over the input string and the caller's output buffer. */
module NormalizeBuffer {
  import opened Paths
  import opened Normalize

  /** The buffer starts with `s` and a terminator. */
  ghost predicate Holds(out: seq<char>, s: string) {
    |s| < |out| && out[..|s|] == s && out[|s|] == '\0'
  }

  /** `offsets[i]` is the length of the output up to the mark of depth `i`. */
  ghost predicate Offsets(offsets: seq<nat>, s: Progress) {
    && |s.marks| <= |offsets|
    && forall i | 0 <= i < |s.marks| ::
         s.marks[i] <= |s.segs| && offsets[i] == |Render(s.segs[..s.marks[i]])|
  }

  lemma SegsFrom(path: string, p: nat)
    requires p < |path|
    ensures path[p] == '/' ==> Segs(path[p..]) == Segs(path[p + 1..])
    ensures path[p] != '/' ==>
      var n := SegLen(path[p..]);
      0 < n <= |path| - p && Segs(path[p..]) == [path[p..p + n]] + Segs(path[p + n..])
  {
    var rest := path[p..];
    assert rest[1..] == path[p + 1..];
    var n := SegLen(rest);
    assert rest[..n] == path[p..p + n] && rest[n..] == path[p + n..];
  }

  method SkipSlashes(path: string, p: nat, ghost todo: seq<string>) returns (q: nat)
    requires p <= |path| && Segs(path[p..]) == todo
    ensures p <= q <= |path| && (q < |path| ==> path[q] != '/')
    ensures Segs(path[q..]) == todo
  {
    q := p;
    while q < |path| && path[q] == '/'
      invariant p <= q <= |path| && Segs(path[q..]) == todo
    {
      SegsFrom(path, q);
      q := q + 1;
    }
  }

  method ScanSegment(path: string, p: nat) returns (n: nat)
    requires p < |path| && path[p] != '/'
    ensures n == SegLen(path[p..]) && 0 < n <= |path| - p
    ensures Segs(path[p..]) == [path[p..p + n]] + Segs(path[p + n..])
  {
    n := 0;
    while p + n < |path| && path[p + n] != '/'
      invariant p + n <= |path| && forall i | p <= i < p + n :: path[i] != '/'
    {
      n := n + 1;
    }
    assert path[p..] == path[p..p + n] + path[p + n..];
    SegLenPlain(path[p..p + n], path[p + n..]);
    SegsFrom(path, p);
  }

  /** Copies `seg` behind the first `len` characters and terminates the string. */
  method Append(out: array<char>, len: nat, seg: string)
    requires len + |seg| < out.Length
    modifies out
    ensures out[..len + |seg|] == old(out[..len]) + seg && out[len + |seg|] == '\0'
  {
    for i := 0 to |seg|
      invariant out[..len] == old(out[..len]) && out[len..len + i] == seg[..i]
    {
      out[len + i] := seg[i];
    }
    assert out[..len + |seg|] == out[..len] + out[len..len + |seg|];
    out[len + |seg|] := '\0';
  }

  lemma CutOffsets(offsets: seq<nat>, s: Progress, size: nat)
    requires Offsets(offsets, s) && Sound(s, size) && s.marks != []
    ensures var m := s.marks[|s.marks| - 1];
      && 0 < m <= |s.segs| && offsets[|s.marks| - 1] == |Render(s.segs[..m])|
      && Render(s.segs[..m]) <= Render(s.segs)
      && Offsets(offsets, Progress(s.segs[..m], s.marks[..|s.marks| - 1]))
  {
    var m := s.marks[|s.marks| - 1];
    JoinTake(s.segs, m);
    forall i | 0 <= i < |s.marks| - 1 ensures s.segs[..m][..s.marks[i]] == s.segs[..s.marks[i]] {}
  }

  lemma AppendOffsets(offsets: seq<nat>, s: Progress, seg: string, size: nat)
    requires Offsets(offsets, s) && Sound(s, size)
    ensures Offsets(offsets, Progress(s.segs + [seg], s.marks))
    ensures |s.marks| < |offsets| ==>
      Offsets(offsets[|s.marks| := |Render(s.segs + [seg])|], Progress(s.segs + [seg], s.marks + [|s.segs| + 1]))
  {
    var segs := s.segs + [seg];
    assert segs[..|s.segs| + 1] == segs;
    forall i | 0 <= i < |s.marks| ensures segs[..s.marks[i]] == s.segs[..s.marks[i]] {}
  }

  /**
   `vfs_normalize_path`. With one character of room the source writes behind the buffer on every absolute
   path, and on no other input; that is reported here and not carried out.
   */
  method NormalizePath(path: string, out: array<char>) returns (code: Code, overrun: bool)
    requires '\0' !in path
    modifies out
    ensures overrun <==> out.Length == 1 && path != "" && path[0] == '/'
    ensures !overrun && Normal(path, out.Length).Refused? ==> code == Normal(path, out.Length).code != Ok
    ensures !overrun && Normal(path, out.Length).Path? ==> code == Ok && Holds(out[..], Normal(path, out.Length).path)
  {
    overrun := false;
    if out.Length == 0 { return Invalid, false; }
    if path == "" {
      if out.Length < 2 { return NoSpace, false; }
      out[0], out[1] := '/', '\0';
      return Ok, false;
    }
    if path[0] != '/' { return Invalid, false; }
    if out.Length < 2 { return Ok, true; }
    code := NormalizeAbsolute(path, out);
  }

  /** Buffer, length, offset stack and depth represent the progress `s`. */
  ghost predicate Represents(out: seq<char>, len: nat, offsets: seq<nat>, depth: nat, s: Progress) {
    && Sound(s, |out|) && Holds(out, Render(s.segs)) && len == |Render(s.segs)|
    && |offsets| == MAX_SEGMENTS && depth == |s.marks| && Offsets(offsets, s)
  }

  /** The `..` branch: back to the length recorded for the depth above. */
  method Ascend(out: array<char>, len: nat, offsets: array<nat>, depth: nat, ghost s: Progress)
    returns (len': nat, depth': nat)
    requires Represents(out[..], len, offsets[..], depth, s)
    modifies out
    ensures Represents(out[..], len', offsets[..], depth', Take(s, "..", out.Length).value)
  {
    len', depth' := len, depth;
    if depth > 0 {
      CutOffsets(offsets[..], s, out.Length);
      CutSound(s, out.Length);
      depth' := depth - 1;
      len' := offsets[depth'];
      out[len'] := '\0';
    }
  }

  /** The branch that appends a named segment. */
  method Descend(out: array<char>, len: nat, offsets: array<nat>, depth: nat, seg: string, ghost s: Progress)
    returns (code: Code, len': nat, depth': nat)
    requires Represents(out[..], len, offsets[..], depth, s) && Clean(seg)
    modifies out, offsets
    ensures var r := Take(s, seg, out.Length);
      if r.Failed? then code == r.code
      else code == Ok && Represents(out[..], len', offsets[..], depth', r.value)
  {
    len', depth' := len, depth;
    RenderLength(s.segs, seg);
    RenderAppend(s.segs, seg);
    if len > 1 {
      if len + 1 >= out.Length { return NoSpace, len', depth'; }
      out[len] := '/';
      len' := len + 1;
    }
    assert out[..len'] + seg == Render(s.segs + [seg]);
    if len' + |seg| >= out.Length { return NoSpace, len', depth'; }
    Append(out, len', seg);
    len' := len' + |seg|;
    AppendOffsets(offsets[..], s, seg, out.Length);
    ghost var before := offsets[..];
    if depth < MAX_SEGMENTS {
      offsets[depth] := len';
      depth' := depth + 1;
      assert offsets[..] == before[depth := len'];
    }
    AppendSound(s, seg, out.Length, Take(s, seg, out.Length).value.marks);
    code := Ok;
  }

  lemma TakeFirst(s: Progress, seg: string, rest: seq<string>, size: nat)
    ensures var r := Take(s, seg, size);
      TakeAll(s, [seg] + rest, size) == if r.Failed? then r else TakeAll(r.value, rest, size)
  {
    assert ([seg] + rest)[1..] == rest;
  }

  /** One round of the loop; `rest` is what follows the segment. */
  method Segment(out: array<char>, len: nat, offsets: array<nat>, depth: nat, seg: string,
                 ghost s: Progress, ghost rest: seq<string>)
    returns (code: Code, len': nat, depth': nat, ghost s': Progress)
    requires Represents(out[..], len, offsets[..], depth, s) && Plain(seg)
    modifies out, offsets
    ensures code != Ok ==> TakeAll(s, [seg] + rest, out.Length) == Failed(code)
    ensures code == Ok ==> Represents(out[..], len', offsets[..], depth', s')
    ensures code == Ok ==> TakeAll(s, [seg] + rest, out.Length) == TakeAll(s', rest, out.Length)
  {
    TakeFirst(s, seg, rest, out.Length);
    ghost var r := Take(s, seg, out.Length);
    code, len', depth' := Ok, len, depth;
    s' := if r.Done? then r.value else s;
    if |seg| > NAME_MAX {
      code := Invalid;
    } else if seg == ".." {
      len', depth' := Ascend(out, len, offsets, depth, s);
    } else if seg != "." {
      code, len', depth' := Descend(out, len, offsets, depth, seg, s);
    }
  }

  method NormalizeAbsolute(path: string, out: array<char>) returns (code: Code)
    requires 1 < out.Length && path != "" && path[0] == '/'
    modifies out
    ensures var r := TakeAll(START, Segs(path), out.Length);
      if r.Failed? then code == r.code != Ok else code == Ok && Holds(out[..], Render(r.value.segs))
  {
    var offsets := new nat[MAX_SEGMENTS];
    out[0], out[1] := '/', '\0';
    assert path[0..] == path;
    var p := SkipSlashes(path, 0, Segs(path));
    code := Segments(path, p, out, offsets, TakeAll(START, Segs(path), out.Length));
  }

  /** Where the loop stands at position `p`: what is left to take leads to `goal`. */
  ghost predicate At(path: string, p: nat, out: seq<char>, len: nat, offsets: seq<nat>, depth: nat,
                     s: Progress, goal: Outcome)
  {
    && p <= |path| && (p < |path| ==> path[p] != '/')
    && Represents(out, len, offsets, depth, s)
    && TakeAll(s, Segs(path[p..]), |out|) == goal
  }

  lemma AtEnd(path: string, out: seq<char>, len: nat, offsets: seq<nat>, depth: nat, s: Progress, goal: Outcome)
    requires At(path, |path|, out, len, offsets, depth, s, goal)
    ensures goal == Done(s) && Holds(out, Render(s.segs))
  {
    assert path[|path|..] == "";
  }

  /** One round of the loop: scan a segment, take it, skip the slashes behind it. */
  method Round(path: string, p: nat, out: array<char>, len: nat, offsets: array<nat>, depth: nat,
               ghost s: Progress, ghost goal: Outcome)
    returns (code: Code, q: nat, len': nat, depth': nat, ghost s': Progress)
    requires p < |path| && At(path, p, out[..], len, offsets[..], depth, s, goal)
    modifies out, offsets
    ensures code != Ok ==> goal == Failed(code)
    ensures code == Ok ==> p < q && At(path, q, out[..], len', offsets[..], depth', s', goal)
  {
    var n := ScanSegment(path, p);
    ghost var rest := Segs(path[p + n..]);
    code, len', depth', s' := Segment(out, len, offsets, depth, path[p..p + n], s, rest);
    q := SkipSlashes(path, p + n, rest);
  }

  /** The loop over the segments from position `p0` on. */
  method Segments(path: string, p0: nat, out: array<char>, offsets: array<nat>, ghost goal: Outcome)
    returns (code: Code)
    requires At(path, p0, out[..], 1, offsets[..], 0, START, goal)
    modifies out, offsets
    ensures code != Ok ==> goal == Failed(code)
    ensures code == Ok ==> goal.Done? && Holds(out[..], Render(goal.value.segs))
  {
    var len: nat, depth: nat, p := 1, 0, p0;
    ghost var s := START;
    code := Ok;
    while p < |path|
      invariant code == Ok && At(path, p, out[..], len, offsets[..], depth, s, goal)
      decreases |path| - p
    {
      code, p, len, depth, s := Round(path, p, out, len, offsets, depth, s, goal);
      if code != Ok { return; }
    }
    AtEnd(path, out[..], len, offsets[..], depth, s, goal);
  }
}
