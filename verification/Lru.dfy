/**
 The path cache is least-recently-used: over a run of resolutions it holds the most recently
 resolved paths, newest first, as many as fit; hence a larger cache never hits less often.
 */
module Lru {
  import opened Options
  import opened Paths
  import opened Normalize
  import opened Mounts
  import opened Tree
  import opened Vfs
  import ListSpec

  /** The first `c` entries. */
  function Take(c: nat, es: seq<Entry>): seq<Entry> { if |es| <= c then es else es[..c] }

  /** A cache that never evicts: the entry moves or comes to the front. */
  function Front(es: seq<Entry>, e: Entry): seq<Entry> { [e] + Drop(es, e.path) }

  /** What resolving `path` finds on the unchanged tree, as a cache entry. */
  function Resolved(s: State, path: string): Option<Entry> {
    var n := Normal(path, PATH_MAX);
    var r := ResolveUncached(s, path);
    if r.Found? && n.Path? then Some(Entry(n.path, r.node)) else None
  }

  function ResolveAll(s: State, paths: seq<string>): State
    decreases |paths|
  {
    if paths == [] then s else ResolveAll(Resolve(s, paths[0]).state, paths[1..])
  }

  /** The distinct resolved paths with their nodes, most recently resolved first. */
  function Recent(s: State, es: seq<Entry>, paths: seq<string>): seq<Entry>
    decreases |paths|
  {
    if paths == [] then es
    else
      var e := Resolved(s, paths[0]);
      Recent(s, if e.Some? then Front(es, e.value) else es, paths[1..])
  }

  /** Number of paths found among the `c` most recent ones when they were asked for. */
  function HitCount(s: State, es: seq<Entry>, paths: seq<string>, c: nat): nat
    decreases |paths|
  {
    if paths == [] then 0
    else
      var e := Resolved(s, paths[0]);
      if e.None? then HitCount(s, es, paths[1..], c)
      else (if Find(es, e.value.path) < |Take(c, es)| then 1 else 0) + HitCount(s, Front(es, e.value), paths[1..], c)
  }

  /** Same tree, same mounts, and the cache is the front of `es`. */
  ghost predicate Tracks(s0: State, s: State, es: seq<Entry>) {
    && Inv(s) && s.nodes == s0.nodes && s.mounts == s0.mounts && s.rooted == s0.rooted
    && s.cache == Take(s.capacity, es)
    && DistinctPaths(es) && Coherent(s.nodes, s.mounts, es)
  }

  lemma FindTake(c: nat, es: seq<Entry>, p: string)
    ensures var i := Find(es, p);
      Find(Take(c, es), p) == if i < |Take(c, es)| then i else |Take(c, es)|
  {
    var small := Take(c, es);
    assert forall j | 0 <= j < |small| :: small[j] == es[j];
  }

  lemma MoveTake(c: nat, es: seq<Entry>, i: nat)
    requires i < |Take(c, es)|
    ensures var small := Take(c, es);
      [small[i]] + ListSpec.Remove(small, i) == Take(c, [es[i]] + ListSpec.Remove(es, i))
  {}

  lemma InsertTake(c: nat, es: seq<Entry>, e: Entry)
    requires Find(es, e.path) >= |Take(c, es)|
    ensures Insert(Take(c, es), c, e) == Take(c, Front(es, e))
  {
    FindTake(c, es, e.path);
    var small, i := Take(c, es), Find(es, e.path);
    assert Drop(small, e.path) == small;
    if c > 0 && i < |es| {
      assert |small| == c;
      assert Front(es, e)[..c] == [e] + es[..c - 1];
    } else if c > 0 {
      assert Drop(es, e.path) == es;
    }
  }

  lemma FrontKeeps(s: State, es: seq<Entry>, e: Entry)
    requires DistinctPaths(es) && Coherent(s.nodes, s.mounts, es)
    requires Stored(e.path) && Lookup(s.nodes, s.mounts, e.path) == Some(e.node)
    ensures DistinctPaths(Front(es, e)) && Coherent(s.nodes, s.mounts, Front(es, e))
  {
    DropSubset(es, e.path);
    var rest := Drop(es, e.path);
    forall j | 0 <= j < |rest| ensures rest[j] in rest {}
  }

  /** One resolution moves its path to the front, whatever the capacity. */
  lemma ResolveTracks(s0: State, s: State, es: seq<Entry>, path: string)
    requires Tracks(s0, s, es)
    ensures var e := Resolved(s0, path);
      var t := Resolve(s, path).state;
      && Tracks(s0, t, if e.Some? then Front(es, e.value) else es)
      && t.capacity == s.capacity
      && t.hits == s.hits + (if e.Some? && Find(es, e.value.path) < |Take(s.capacity, es)| then 1 else 0)
  {
    ResolveCorrect(s, path);
    var n, e := Normal(path, PATH_MAX), Resolved(s0, path);
    if s.rooted && n.Path? {
      NormalCanonical(path, PATH_MAX);
      FindTake(s.capacity, es, n.path);
      var i := Find(es, n.path);
      if i < |Take(s.capacity, es)| {
        assert s.cache[i] in s.cache && es[i] == s.cache[i];
        MoveTake(s.capacity, es, i);
        FrontKeeps(s, es, e.value);
      } else if e.Some? {
        InsertTake(s.capacity, es, e.value);
        FrontKeeps(s, es, e.value);
      }
    }
  }

  lemma {:induction false} RunTracks(s0: State, s: State, es: seq<Entry>, paths: seq<string>)
    requires Tracks(s0, s, es)
    ensures Tracks(s0, ResolveAll(s, paths), Recent(s0, es, paths))
    ensures ResolveAll(s, paths).capacity == s.capacity
    ensures ResolveAll(s, paths).hits == s.hits + HitCount(s0, es, paths, s.capacity)
    decreases |paths|
  {
    if paths != [] {
      ResolveTracks(s0, s, es, paths[0]);
      var e := Resolved(s0, paths[0]);
      RunTracks(s0, Resolve(s, paths[0]).state, if e.Some? then Front(es, e.value) else es, paths[1..]);
    }
  }

  /** After any run from an empty cache, the cache is the most recent paths, newest first, cut at the capacity. */
  lemma CacheIsRecent(s: State, paths: seq<string>)
    requires Inv(s) && s.cache == []
    ensures ResolveAll(s, paths).cache == Take(s.capacity, Recent(s, [], paths))
    ensures DistinctPaths(ResolveAll(s, paths).cache) && |ResolveAll(s, paths).cache| <= s.capacity
  {
    RunTracks(s, s, [], paths);
  }

  lemma {:induction false} HitsGrow(s: State, es: seq<Entry>, paths: seq<string>, c: nat, d: nat)
    requires c <= d
    ensures HitCount(s, es, paths, c) <= HitCount(s, es, paths, d)
    decreases |paths|
  {
    if paths != [] {
      var e := Resolved(s, paths[0]);
      HitsGrow(s, if e.Some? then Front(es, e.value) else es, paths[1..], c, d);
    }
  }

  /** Inclusion: the smaller cache is a prefix of the larger one, and the larger one hits at least as often. */
  lemma Inclusion(s: State, paths: seq<string>, c: nat, d: nat)
    requires Inv(s) && s.cache == [] && c <= d
    ensures var small := ResolveAll(s.(capacity := c), paths);
      var large := ResolveAll(s.(capacity := d), paths);
      && small.cache <= large.cache
      && small.hits <= large.hits
  {
    var a, b := s.(capacity := c), s.(capacity := d);
    RunTracks(s, a, [], paths);
    RunTracks(s, b, [], paths);
    HitsGrow(s, [], paths, c, d);
  }
}
