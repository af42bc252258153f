/**
 Path strings of the virtual file system: their segments, the canonical form, and what
 `vfs_normalize_path` computes. Paths are C strings, so they hold no NUL character.
 */
module Paths {
  import ListSpec

  const NAME_MAX: nat := 255
  const PATH_MAX: nat := 1024
  const MAX_SEGMENTS: nat := PATH_MAX / 2

  datatype Code = Ok | Error | NotFound | Invalid | Unsupported | Exists | Busy | NoSpace

  // ----- segments -----

  /** Length of the run of non-slash characters at the head of `p`. */
  function SegLen(p: string): (n: nat)
    ensures n <= |p| && '/' !in p[..n] && (n < |p| ==> p[n] == '/')
  {
    if p == "" || p[0] == '/' then 0 else 1 + SegLen(p[1..])
  }

  /** The non-empty segments between slashes. */
  function Segs(p: string): seq<string>
    decreases |p|
  {
    if p == "" then []
    else if p[0] == '/' then Segs(p[1..])
    else [p[..SegLen(p)]] + Segs(p[SegLen(p)..])
  }

  /** `/a/b/c` for the segments `a`, `b`, `c`; nothing for no segment. */
  function Join(segs: seq<string>): string {
    if segs == [] then "" else Join(segs[..|segs| - 1]) + "/" + segs[|segs| - 1]
  }

  function Render(segs: seq<string>): string { if segs == [] then "/" else Join(segs) }

  predicate Plain(seg: string) { seg != "" && '/' !in seg }

  /** A segment that may stand in a normalised path. */
  predicate Clean(seg: string) { Plain(seg) && seg != "." && seg != ".." && |seg| <= NAME_MAX }

  ghost predicate AllPlain(segs: seq<string>) { forall i | 0 <= i < |segs| :: Plain(segs[i]) }
  ghost predicate AllClean(segs: seq<string>) { forall i | 0 <= i < |segs| :: Clean(segs[i]) }

  /** A leading slash, no empty segment, no trailing slash except for the root, only clean segments. */
  ghost predicate Canonical(p: string) {
    && p != "" && p[0] == '/'
    && (|p| > 1 ==> p[|p| - 1] != '/')
    && NoDoubleSlash(p)
    && AllClean(Segs(p))
  }

  lemma {:induction false} SegsPlain(p: string)
    ensures AllPlain(Segs(p))
    decreases |p|
  {
    if p != "" && p[0] == '/' {
      SegsPlain(p[1..]);
    } else if p != "" {
      SegsPlain(p[SegLen(p)..]);
    }
  }

  lemma {:induction false} SegLenPlain(seg: string, rest: string)
    requires '/' !in seg && (rest != "" ==> rest[0] == '/')
    ensures SegLen(seg + rest) == |seg|
  {
    if seg == "" {
      assert seg + rest == rest;
    } else {
      assert (seg + rest)[1..] == seg[1..] + rest;
      SegLenPlain(seg[1..], rest);
    }
  }

  lemma SegsCons(seg: string, rest: string)
    requires Plain(seg) && (rest != "" ==> rest[0] == '/')
    ensures Segs(seg + rest) == [seg] + Segs(rest)
  {
    SegLenPlain(seg, rest);
    assert (seg + rest)[..|seg|] == seg && (seg + rest)[|seg|..] == rest;
  }

  /** Segments of a concatenation that breaks at a slash. */
  lemma {:induction false} SegsConcat(p: string, q: string)
    requires q != "" ==> q[0] == '/'
    ensures Segs(p + q) == Segs(p) + Segs(q)
    decreases |p|
  {
    if p == "" {
      assert p + q == q;
    } else if p[0] == '/' {
      assert (p + q)[1..] == p[1..] + q;
      SegsConcat(p[1..], q);
    } else {
      var n := SegLen(p);
      var seg, rest := p[..n], p[n..];
      SegsConcat(rest, q);
      ListSpec.Regroup(seg, rest, q);
      assert p == seg + rest;
      SegsCons(seg, rest + q);
      ListSpec.Regroup([seg], Segs(rest), Segs(q));
    }
  }

  lemma HeadTail<T>(s: seq<T>)
    requires s != []
    ensures s == [s[0]] + s[1..]
  {}

  lemma {:induction false} SegsJoin(segs: seq<string>)
    requires AllPlain(segs)
    ensures Segs(Join(segs)) == segs
  {
    if segs != [] {
      var init, last := segs[..|segs| - 1], segs[|segs| - 1];
      SegsJoin(init);
      assert Join(segs) == Join(init) + ("/" + last);
      SegsConcat(Join(init), "/" + last);
      assert ("/" + last)[1..] == last + "" == last;
      SegsCons(last, "");
    }
  }

  /** Rendering and splitting are inverse on plain segments. */
  lemma SegsRender(segs: seq<string>)
    requires AllPlain(segs)
    ensures Segs(Render(segs)) == segs
  {
    if segs == [] { assert "/"[1..] == ""; } else { SegsJoin(segs); }
  }

  lemma {:induction false} JoinShape(segs: seq<string>)
    requires AllPlain(segs)
    ensures var p := Join(segs);
      && (segs == [] <==> p == "")
      && (p != "" ==> p[0] == '/' && p[|p| - 1] != '/')
      && NoDoubleSlash(p)
      && 2 * |segs| <= |p|
  {
    if segs != [] {
      var init, last := segs[..|segs| - 1], segs[|segs| - 1];
      JoinShape(init);
      var a, p := Join(init), Join(segs);
      assert p == a + "/" + last && Plain(last);
      forall i | 0 <= i < |p| - 1 ensures !(p[i] == '/' && p[i + 1] == '/') {
        if i + 1 < |a| {
          assert p[i] == a[i] && p[i + 1] == a[i + 1];
        } else if i >= |a| {
          assert p[i + 1] == last[i - |a|];
        }
      }
    }
  }

  lemma {:induction false} JoinConcat(xs: seq<string>, ys: seq<string>)
    ensures Join(xs + ys) == Join(xs) + Join(ys)
  {
    if ys == [] {
      assert xs + ys == xs;
    } else {
      var init, last := ys[..|ys| - 1], ys[|ys| - 1];
      JoinConcat(xs, init);
      assert (xs + ys)[..|xs + ys| - 1] == xs + init && (xs + ys)[|xs + ys| - 1] == last;
      ListSpec.Regroup(Join(xs), Join(init), "/");
      ListSpec.Regroup(Join(xs), Join(init) + "/", last);
    }
  }

  /** Rendered clean segments are canonical. */
  lemma RenderCanonical(segs: seq<string>)
    requires AllClean(segs)
    ensures Canonical(Render(segs)) && Segs(Render(segs)) == segs
  {
    SegsRender(segs);
    JoinShape(segs);
  }

  lemma JoinPrepend(seg: string, segs: seq<string>)
    ensures Join([seg] + segs) == "/" + seg + Join(segs)
  {
    if segs == [] {
      assert ([seg] + segs)[..0] == [];
    } else {
      assert ([seg] + segs)[..|segs|] == [seg] + segs[..|segs| - 1];
      JoinPrepend(seg, segs[..|segs| - 1]);
    }
  }

  /** A canonical path is the rendering of its segments. */
  lemma CanonicalRender(p: string)
    requires Canonical(p)
    ensures p == Render(Segs(p))
  {
    if |p| > 1 {
      SlashJoin(p);
      assert Segs(p) != [];
    } else {
      assert p == "/" && p[1..] == "";
    }
  }

  ghost predicate NoDoubleSlash(p: string) {
    forall i | 0 <= i < |p| - 1 :: !(p[i] == '/' && p[i + 1] == '/')
  }

  lemma SuffixNoDoubleSlash(p: string, k: nat)
    requires k <= |p| && NoDoubleSlash(p)
    ensures NoDoubleSlash(p[k..])
  {
    var q := p[k..];
    forall i | 0 <= i < |q| - 1 ensures !(q[i] == '/' && q[i + 1] == '/') {
      assert q[i] == p[k + i] && q[i + 1] == p[k + i + 1];
    }
  }

  lemma {:induction false} SlashJoin(p: string)
    requires |p| > 1 && p[0] == '/' && p[|p| - 1] != '/' && NoDoubleSlash(p)
    ensures Join(Segs(p)) == p && Segs(p) != []
    decreases |p|
  {
    var q := p[1..];
    assert p[0 + 1] != '/';
    var n := SegLen(q);
    var seg, rest := q[..n], q[n..];
    SegsSplit(p);
    JoinPrepend(seg, Segs(rest));
    if rest != "" {
      assert rest == p[n + 1..];
      SuffixNoDoubleSlash(p, n + 1);
      SlashJoin(rest);
    }
  }

  lemma SegsSplit(p: string)
    requires |p| > 1 && p[0] == '/' && p[1] != '/'
    ensures var n := SegLen(p[1..]);
      && 0 < n && p == "/" + p[1..][..n] + p[1..][n..]
      && Segs(p) == [p[1..][..n]] + Segs(p[1..][n..])
  {}
}
