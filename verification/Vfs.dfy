/**
 The virtual file system over in-memory file systems: mounts, nodes and the path cache as one state,
 what every operation does to it, and the coherence of the cache over every run.
 */
module Vfs {
  import opened Options
  import opened Paths
  import opened Normalize
  import opened Mounts
  import opened Tree
  import ListSpec

  datatype Entry = Entry(path: string, node: Id)

  datatype State = State(nodes: Nodes, mounts: seq<Mount>, rooted: bool,
                         cache: seq<Entry>, capacity: nat, hits: nat, misses: nat)

  /** Resolution without the cache: select the mount, then walk. `p` is canonical. */
  function Lookup(nodes: Nodes, mounts: seq<Mount>, p: string): Option<Id> {
    var m := SelectMount(mounts, p);
    if m.None? || !Matches(m.value.path, p) then None
    else Walk(nodes, m.value.root, Segs(Relative(p, m.value.path)))
  }

  /** What `vfs_walk` answers: a node, no such node, or a name that is too long. */
  datatype Walked = Arrived(node: Id) | Missing | TooLong

  /** `vfs_walk` on any segments: "." stays, ".." goes up where there is a parent. */
  function WalkNames(nodes: Nodes, a: Id, segs: seq<string>): Walked
    decreases |segs|
  {
    if segs == [] then Arrived(a)
    else if |segs[0]| > NAME_MAX then TooLong
    else if segs[0] == "." then WalkNames(nodes, a, segs[1..])
    else if segs[0] == ".." then WalkNames(nodes, UpOne(nodes, a), segs[1..])
    else
      var c := Child(nodes, a, segs[0]);
      if c.None? then Missing else WalkNames(nodes, c.value, segs[1..])
  }

  function UpOne(nodes: Nodes, a: Id): Id { if a in nodes && nodes[a].parent.Some? then nodes[a].parent.value else a }

  /** On the segments of a normalised path the walk goes down only, and no name is too long. */
  lemma {:induction false} WalkNamesClean(nodes: Nodes, a: Id, segs: seq<string>)
    requires AllClean(segs)
    ensures WalkNames(nodes, a, segs) == match Walk(nodes, a, segs) case None => Missing case Some(x) => Arrived(x)
    decreases |segs|
  {
    if segs != [] {
      assert Clean(segs[0]);
      var c := Child(nodes, a, segs[0]);
      if c.Some? { WalkNamesClean(nodes, c.value, segs[1..]); }
    }
  }

  /** Below a mount only such segments are left of a normalised path. */
  lemma LookupWalks(nodes: Nodes, mounts: seq<Mount>, p: string)
    requires AllCanonical(mounts) && Canonical(p)
    ensures var m := SelectMount(mounts, p);
      m.Some? && Matches(m.value.path, p) ==>
        WalkNames(nodes, m.value.root, Segs(Relative(p, m.value.path)))
        == match Lookup(nodes, mounts, p) case None => Missing case Some(x) => Arrived(x)
  {
    SelectLongest(mounts, p, None);
    var m := SelectMount(mounts, p);
    if m.Some? && Matches(m.value.path, p) {
      RelativeComponents(m.value.path, p);
      WalkNamesClean(nodes, m.value.root, Segs(Relative(p, m.value.path)));
    }
  }

  // ----- the cache -----

  function Find(cache: seq<Entry>, p: string): (i: nat)
    ensures i <= |cache| && (i < |cache| ==> cache[i].path == p) && forall j | 0 <= j < i :: cache[j].path != p
  {
    if cache == [] || cache[0].path == p then 0 else 1 + Find(cache[1..], p)
  }

  function Drop(cache: seq<Entry>, p: string): seq<Entry> {
    var i := Find(cache, p);
    if i == |cache| then cache else ListSpec.Remove(cache, i)
  }

  function DropUnder(cache: seq<Entry>, prefix: string): seq<Entry> {
    if cache == [] then []
    else (if Under(cache[0].path, prefix) then [] else [cache[0]]) + DropUnder(cache[1..], prefix)
  }

  /** `vfs_cache_insert` */
  function Insert(cache: seq<Entry>, capacity: nat, e: Entry): seq<Entry> {
    if capacity == 0 then cache
    else
      var rest := Drop(cache, e.path);
      [e] + (if |rest| >= capacity then rest[..|rest| - 1] else rest)
  }

  // ----- operations -----

  datatype Reply = Found(node: Id) | Answer(code: Code)

  datatype Outcome = Outcome(reply: Reply, state: State)

  function ResolveUncached(s: State, path: string): Reply {
    if !s.rooted then Answer(NotFound)
    else
      var n := Normal(path, PATH_MAX);
      if n.Refused? then Answer(n.code)
      else
        var r := Lookup(s.nodes, s.mounts, n.path);
        if r.None? then Answer(NotFound) else Found(r.value)
  }

  /** `VFS_Resolve` */
  function Resolve(s: State, path: string): Outcome {
    var n := Normal(path, PATH_MAX);
    if !s.rooted then Outcome(Answer(NotFound), s)
    else if n.Refused? then Outcome(Answer(n.code), s)
    else
      var i := Find(s.cache, n.path);
      if s.capacity > 0 && i < |s.cache| then
        Outcome(Found(s.cache[i].node),
                s.(cache := [s.cache[i]] + ListSpec.Remove(s.cache, i), hits := s.hits + 1))
      else
        var s1 := if s.capacity > 0 then s.(misses := s.misses + 1) else s;
        var r := Lookup(s.nodes, s.mounts, n.path);
        if r.None? then Outcome(Answer(NotFound), s1)
        else Outcome(Found(r.value), s1.(cache := Insert(s.cache, s.capacity, Entry(n.path, r.value))))
  }

  function MountAt(mounts: seq<Mount>, p: string): (i: nat)
    ensures i <= |mounts| && (i < |mounts| ==> mounts[i].path == p) && forall j | 0 <= j < i :: mounts[j].path != p
  {
    if mounts == [] || mounts[0].path == p then 0 else 1 + MountAt(mounts[1..], p)
  }

  /** `VFS_Mount` of an in-memory file system whose new root node is `id`. */
  function DoMount(s: State, target: string, id: Id): Outcome {
    var n := Normal(target, PATH_MAX);
    if n.Refused? || MountAt(s.mounts, n.path) < |s.mounts| then Outcome(Answer(Invalid), s)
    else
      Outcome(Found(id), s.(nodes := WithRoot(s.nodes, id),
                            mounts := s.mounts + [Mount(n.path, id)],
                            rooted := s.rooted || n.path == "/",
                            cache := Insert(DropUnder(s.cache, n.path), s.capacity, Entry(n.path, id))))
  }

  /** `VFS_Unmount` */
  function DoUnmount(s: State, target: string): Outcome {
    var n := Normal(target, PATH_MAX);
    if n.Refused? then Outcome(Answer(n.code), s)
    else
      var i := MountAt(s.mounts, n.path);
      if i == |s.mounts| then Outcome(Answer(NotFound), s)
      else if n.path == "/" then Outcome(Answer(Busy), s)
      else
        Outcome(Answer(Ok), s.(nodes := Without(s.nodes, s.mounts[i].root),
                               mounts := ListSpec.Remove(s.mounts, i),
                               cache := DropUnder(s.cache, n.path)))
  }

  /** The directory part of a canonical path other than the root. */
  function ParentOf(p: string): string {
    var segs := Segs(p);
    if segs == [] then "/" else Render(segs[..|segs| - 1])
  }

  function NameOf(p: string): string {
    var segs := Segs(p);
    if segs == [] then "" else segs[|segs| - 1]
  }

  /** `VFS_Create`; the new node, if one is made, is `id`. */
  function DoCreate(s: State, path: string, kind: Kind, id: Id): Outcome {
    var n := Normal(path, PATH_MAX);
    if kind.UnknownKind? then Outcome(Answer(Invalid), s)
    else if n.Refused? then Outcome(Answer(n.code), s)
    else if n.path == "/" then Outcome(Answer(Exists), s)
    else
      var r := Resolve(s, ParentOf(n.path));
      if r.reply.Answer? then r
      else
        var s1, dir := r.state.(cache := Drop(r.state.cache, n.path)), r.reply.node;
        if dir !in s1.nodes || !s1.nodes[dir].kind.Directory? then Outcome(Answer(Invalid), s1)
        else if Child(s1.nodes, dir, NameOf(n.path)).Some? then Outcome(Answer(Exists), s1)
        else Outcome(Answer(Ok), s1.(nodes := WithChild(s1.nodes, dir, NameOf(n.path), kind, id)))
  }

  /** `VFS_Remove` */
  function DoRemove(s: State, path: string): Outcome {
    var n := Normal(path, PATH_MAX);
    if n.Refused? then Outcome(Answer(n.code), s)
    else if n.path == "/" then Outcome(Answer(Busy), s)
    else
      var r := Resolve(s, ParentOf(n.path));
      if r.reply.Answer? then r
      else
        var s1, dir := r.state.(cache := DropUnder(r.state.cache, n.path)), r.reply.node;
        if dir !in s1.nodes || !s1.nodes[dir].kind.Directory? then Outcome(Answer(Invalid), s1)
        else
          var cs := s1.nodes[dir].children;
          var i := IndexOf(s1.nodes, cs, NameOf(n.path));
          if i == |cs| then Outcome(Answer(NotFound), s1)
          else Outcome(Answer(Ok), s1.(nodes := Without(Unlinked(s1.nodes, dir, i), cs[i])))
  }

  function SetCapacity(s: State, capacity: nat): State {
    s.(capacity := capacity, cache := if |s.cache| > capacity then s.cache[..capacity] else s.cache)
  }

  // ----- the invariant -----

  ghost predicate Stored(p: string) { Canonical(p) && |p| < PATH_MAX }

  ghost predicate MountsOk(nodes: Nodes, mounts: seq<Mount>) {
    && Distinct(mounts)
    && (forall m | m in mounts :: Stored(m.path) && IsRoot(nodes, m.root))
  }

  /** Every cached node is what resolution without the cache finds. */
  ghost predicate Coherent(nodes: Nodes, mounts: seq<Mount>, cache: seq<Entry>) {
    forall e | e in cache :: Stored(e.path) && Lookup(nodes, mounts, e.path) == Some(e.node)
  }

  ghost predicate DistinctPaths(cache: seq<Entry>) {
    forall i, j | 0 <= i < j < |cache| :: cache[i].path != cache[j].path
  }

  ghost predicate Inv(s: State) {
    && Consistent(s.nodes) && MountsOk(s.nodes, s.mounts)
    && (s.rooted <==> exists m :: m in s.mounts && m.path == "/")
    && Coherent(s.nodes, s.mounts, s.cache)
    && DistinctPaths(s.cache) && |s.cache| <= s.capacity
  }

  // ----- cache lemmas -----

  lemma {:induction false} DropUnderSubset(cache: seq<Entry>, prefix: string)
    ensures forall e :: e in DropUnder(cache, prefix) <==> e in cache && !Under(e.path, prefix)
    ensures |DropUnder(cache, prefix)| <= |cache|
    ensures DistinctPaths(cache) ==> DistinctPaths(DropUnder(cache, prefix))
  {
    if cache != [] {
      DropUnderSubset(cache[1..], prefix);
      var rest := DropUnder(cache[1..], prefix);
      if DistinctPaths(cache) {
        assert forall j | 0 <= j < |cache[1..]| :: cache[1..][j] == cache[j + 1];
        forall j | 0 <= j < |rest| ensures rest[j].path != cache[0].path {
          assert rest[j] in cache[1..];
        }
      }
    }
  }

  lemma DropSubset(cache: seq<Entry>, p: string)
    requires DistinctPaths(cache)
    ensures forall e :: e in Drop(cache, p) <==> e in cache && e.path != p
    ensures DistinctPaths(Drop(cache, p)) && |Drop(cache, p)| <= |cache|
  {
    var i, out := Find(cache, p), Drop(cache, p);
    if i < |cache| {
      forall j | 0 <= j < |out| ensures out[j] == cache[if j < i then j else j + 1] && out[j].path != p {}
      forall e | e in cache && e.path != p ensures e in out {
        var j :| 0 <= j < |cache| && cache[j] == e;
        assert out[if j < i then j else j - 1] == e;
      }
    }
  }

  lemma InsertKeeps(nodes: Nodes, mounts: seq<Mount>, cache: seq<Entry>, capacity: nat, e: Entry)
    requires Coherent(nodes, mounts, cache) && DistinctPaths(cache) && |cache| <= capacity
    requires Stored(e.path) && Lookup(nodes, mounts, e.path) == Some(e.node)
    ensures var out := Insert(cache, capacity, e);
      Coherent(nodes, mounts, out) && DistinctPaths(out) && |out| <= capacity
  {
    DropSubset(cache, e.path);
    var rest := Drop(cache, e.path);
    var kept := if |rest| >= capacity > 0 then rest[..|rest| - 1] else rest;
    forall j | 0 <= j < |kept| ensures kept[j] in rest {}
  }

  lemma MoveToFront(cache: seq<Entry>, i: nat)
    requires DistinctPaths(cache) && i < |cache|
    ensures var out := [cache[i]] + ListSpec.Remove(cache, i);
      DistinctPaths(out) && |out| == |cache| && forall e :: e in out <==> e in cache
  {
    var out := [cache[i]] + ListSpec.Remove(cache, i);
    forall j | 0 <= j < |out| ensures out[j] == cache[if j == 0 then i else if j <= i then j - 1 else j] {}
    forall e | e in cache ensures e in out {
      var j :| 0 <= j < |cache| && cache[j] == e;
      assert out[if j == i then 0 else if j < i then j + 1 else j] == e;
    }
  }

  // ----- resolution -----

  /** With a coherent cache the answer is the one without it, and coherence is kept. */
  lemma ResolveCorrect(s: State, path: string)
    requires Inv(s)
    ensures var r := Resolve(s, path);
      && r.reply == ResolveUncached(s, path)
      && Inv(r.state)
      && r.state.nodes == s.nodes && r.state.mounts == s.mounts && r.state.capacity == s.capacity
  {
    var n, r := Normal(path, PATH_MAX), Resolve(s, path);
    if s.rooted && n.Path? {
      NormalCanonical(path, PATH_MAX);
      var i := Find(s.cache, n.path);
      if s.capacity > 0 && i < |s.cache| {
        assert s.cache[i] in s.cache;
        MoveToFront(s.cache, i);
      } else {
        var x := Lookup(s.nodes, s.mounts, n.path);
        if x.Some? { InsertKeeps(s.nodes, s.mounts, s.cache, s.capacity, Entry(n.path, x.value)); }
      }
    }
  }
}
