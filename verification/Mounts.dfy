/** Mount selection by string prefix, and what it means for the components of canonical paths. */
module Mounts {
  import opened Options
  import opened Paths
  import Tree

  datatype Mount = Mount(path: string, root: Tree.Id)

  /** The tests of `vfs_select_mount` for one mount path. */
  predicate Matches(m: string, p: string) {
    |m| <= |p| && p[..|m|] == m && (|m| == 1 || |p| == |m| || p[|m|] == '/')
  }

  /** `vfs_cache_path_is_under` */
  predicate Under(p: string, prefix: string) {
    && prefix != ""
    && |prefix| <= |p| && p[..|prefix|] == prefix
    && (|p| == |prefix| || prefix[|prefix| - 1] == '/' || p[|prefix|] == '/')
  }

  /** `vfs_select_mount`: the scan from the head, keeping the first longest match. */
  function Select(mounts: seq<Mount>, p: string, best: Option<Mount>): Option<Mount>
    decreases |mounts|
  {
    if mounts == [] then best
    else
      var m := mounts[0];
      var better := Matches(m.path, p) && (best.None? || |m.path| > |best.value.path|);
      Select(mounts[1..], p, if better then Some(m) else best)
  }

  function SelectMount(mounts: seq<Mount>, p: string): Option<Mount> { Select(mounts, p, None) }

  /** The part of `p` below mount path `m`, as `VFS_Resolve` cuts it. */
  function Relative(p: string, m: string): string
    requires Matches(m, p)
  {
    if m == "/" then (if p != "" && p[0] == '/' then p[1..] else p)
    else
      var rel := p[|m|..];
      if rel != "" && rel[0] == '/' then rel[1..] else rel
  }

  // ----- strings and components -----

  lemma RootSegs()
    ensures Segs("/") == []
  {
    assert "/"[1..] == "";
  }

  lemma CanonicalRoot(p: string)
    requires Canonical(p)
    ensures |p| == 1 <==> p == "/"
    ensures p == "/" <==> Segs(p) == []
  {
    RootSegs();
    CanonicalRender(p);
    JoinShape(Segs(p));
  }

  /** Canonical paths are equal when their components are. */
  lemma CanonicalInjective(p: string, q: string)
    requires Canonical(p) && Canonical(q) && Segs(p) == Segs(q)
    ensures p == q
  {
    CanonicalRender(p);
    CanonicalRender(q);
  }

  lemma PrefixSplits(m: string, p: string)
    requires Canonical(m) && Canonical(p) && Segs(m) <= Segs(p) && m != "/"
    ensures |m| <= |p| && p[..|m|] == m && p[|m|..] == Join(Segs(p)[|Segs(m)|..])
    ensures |p| == |m| || p[|m|] == '/'
  {
    var k := |Segs(m)|;
    var rest := Segs(p)[k..];
    CanonicalRoot(m);
    CanonicalRender(m);
    CanonicalRender(p);
    assert Segs(p) == Segs(m) + rest;
    JoinConcat(Segs(m), rest);
    JoinShape(rest);
  }

  /** On canonical paths the string test is the component test. */
  lemma MatchesComponents(m: string, p: string)
    requires Canonical(m) && Canonical(p)
    ensures Matches(m, p) <==> Segs(m) <= Segs(p)
    ensures Under(p, m) <==> Segs(m) <= Segs(p)
  {
    CanonicalRoot(m);
    if m == "/" {
      assert p[..1] == "/";
    } else {
      if |m| <= |p| && p[..|m|] == m && (|p| == |m| || p[|m|] == '/') {
        var rest := p[|m|..];
        assert p == m + rest;
        SegsConcat(m, rest);
      }
      if Segs(m) <= Segs(p) { PrefixSplits(m, p); }
    }
  }

  lemma DropSlash(rel: string)
    ensures Segs(if rel != "" && rel[0] == '/' then rel[1..] else rel) == Segs(rel)
  {}

  lemma SuffixSegs(p: string, k: nat)
    requires k <= |Segs(p)|
    ensures Segs(Join(Segs(p)[k..])) == Segs(p)[k..]
  {
    SegsPlain(p);
    SegsJoin(Segs(p)[k..]);
  }

  /** Below a matching mount remain exactly the remaining components. */
  lemma RelativeComponents(m: string, p: string)
    requires Canonical(m) && Canonical(p) && Matches(m, p)
    ensures Segs(m) <= Segs(p) && Segs(Relative(p, m)) == Segs(p)[|Segs(m)|..]
  {
    MatchesComponents(m, p);
    if m == "/" {
      RootSegs();
      DropSlash(p);
    } else {
      PrefixSplits(m, p);
      DropSlash(p[|m|..]);
      SuffixSegs(p, |Segs(m)|);
    }
  }

  // ----- the longest component prefix -----

  ghost predicate Distinct(mounts: seq<Mount>) {
    forall i, j | 0 <= i < j < |mounts| :: mounts[i].path != mounts[j].path && mounts[i].root != mounts[j].root
  }

  ghost predicate AllCanonical(mounts: seq<Mount>) { forall m | m in mounts :: Canonical(m.path) }

  /** `m` is a mount above `p`, and no other mount above `p` has as many components. */
  ghost predicate Closest(mounts: seq<Mount>, p: string, m: Mount) {
    && m in mounts && Segs(m.path) <= Segs(p)
    && forall n | n in mounts && Segs(n.path) <= Segs(p) && n != m :: |Segs(n.path)| < |Segs(m.path)|
  }

  lemma {:induction false} SelectLongest(mounts: seq<Mount>, p: string, best: Option<Mount>)
    requires best.Some? ==> Matches(best.value.path, p)
    ensures var r := Select(mounts, p, best);
      && (r.None? <==> best.None? && forall m | m in mounts :: !Matches(m.path, p))
      && (r.Some? ==> (r == best || r.value in mounts) && Matches(r.value.path, p))
      && (r.Some? ==> forall m | m in mounts && Matches(m.path, p) :: |m.path| <= |r.value.path|)
      && (r.Some? && best.Some? ==> |best.value.path| <= |r.value.path|)
    decreases |mounts|
  {
    if mounts != [] {
      var m := mounts[0];
      var better := Matches(m.path, p) && (best.None? || |m.path| > |best.value.path|);
      SelectLongest(mounts[1..], p, if better then Some(m) else best);
      assert forall n | n in mounts :: n == m || n in mounts[1..];
    }
  }

  lemma LongerString(m: string, n: string, p: string)
    requires Canonical(m) && Canonical(n) && Canonical(p) && Segs(m) <= Segs(p) && Segs(n) <= Segs(p)
    ensures |m| <= |n| <==> |Segs(m)| <= |Segs(n)|
    ensures |Segs(m)| == |Segs(n)| ==> m == n
  {
    if |Segs(m)| <= |Segs(n)| { ShorterString(m, n); }
    if |Segs(n)| <= |Segs(m)| { ShorterString(n, m); }
  }

  lemma ShorterString(m: string, n: string)
    requires Canonical(m) && Canonical(n) && Segs(m) <= Segs(n)
    ensures |m| < |n| || m == n
  {
    MatchesComponents(m, n);
    assert n[..|m|] == m;
    if |m| == |n| { assert n[..|m|] == n; }
  }

  /** The scan finds the mount with the longest component prefix, or there is no mount above the path. */
  lemma SelectClosest(mounts: seq<Mount>, p: string)
    requires AllCanonical(mounts) && Distinct(mounts) && Canonical(p)
    ensures SelectMount(mounts, p).None? <==> forall m | m in mounts :: !(Segs(m.path) <= Segs(p))
    ensures SelectMount(mounts, p).Some? ==> Closest(mounts, p, SelectMount(mounts, p).value)
  {
    SelectLongest(mounts, p, None);
    forall m | m in mounts ensures Matches(m.path, p) <==> Segs(m.path) <= Segs(p) { MatchesComponents(m.path, p); }
    var r := SelectMount(mounts, p);
    if r.Some? {
      forall n | n in mounts && Segs(n.path) <= Segs(p) && n != r.value
        ensures |Segs(n.path)| < |Segs(r.value.path)|
      {
        LongerString(n.path, r.value.path, p);
        PathsDiffer(mounts, n, r.value);
      }
    }
  }

  lemma PathsDiffer(mounts: seq<Mount>, m: Mount, n: Mount)
    requires Distinct(mounts) && m in mounts && n in mounts && m != n
    ensures m.path != n.path && m.root != n.root
  {
    var i :| 0 <= i < |mounts| && mounts[i] == m;
    var j :| 0 <= j < |mounts| && mounts[j] == n;
  }

  /** At most one mount is closest. */
  lemma ClosestUnique(mounts: seq<Mount>, p: string, m: Mount)
    requires AllCanonical(mounts) && Distinct(mounts) && Canonical(p) && Closest(mounts, p, m)
    ensures SelectMount(mounts, p) == Some(m)
  {
    SelectClosest(mounts, p);
  }
}
