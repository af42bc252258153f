/** The virtual file system object: the scans, walks and list edits of kernel/filesystem/VFS.c. */
module FileSystem {
  import opened Options
  import opened Paths
  import opened Normalize
  import opened NormalizeBuffer
  import opened Mounts
  import opened Tree
  import opened Vfs
  import opened VfsRuns
  import ListSpec

  // ----- strings -----

  ghost predicate NoNul(segs: seq<string>) { forall i | 0 <= i < |segs| :: '\0' !in segs[i] }

  lemma {:induction false} SegsNoNul(p: string)
    requires '\0' !in p
    ensures NoNul(Segs(p))
    decreases |p|
  {
    if p != "" && p[0] == '/' {
      SegsNoNul(p[1..]);
    } else if p != "" {
      SegsNoNul(p[SegLen(p)..]);
    }
  }

  lemma {:induction false} JoinNoNul(segs: seq<string>)
    requires NoNul(segs)
    ensures '\0' !in Join(segs)
  {
    if segs != [] { JoinNoNul(segs[..|segs| - 1]); }
  }

  lemma {:induction false} TakeAllNoNul(s: Progress, segs: seq<string>, size: nat)
    requires NoNul(s.segs) && NoNul(segs) && TakeAll(s, segs, size).Done?
    ensures NoNul(TakeAll(s, segs, size).value.segs)
    decreases |segs|
  {
    if segs != [] {
      var r := Take(s, segs[0], size);
      assert NoNul(r.value.segs);
      TakeAllNoNul(r.value, segs[1..], size);
    }
  }

  lemma NormalNoNul(path: string, size: nat)
    requires '\0' !in path && Normal(path, size).Path?
    ensures '\0' !in Normal(path, size).path
  {
    if path != "" {
      SegsNoNul(path);
      TakeAllNoNul(START, Segs(path), size);
      JoinNoNul(TakeAll(START, Segs(path), size).value.segs);
    }
  }

  /** The C string in a buffer. */
  method ReadString(buffer: array<char>, ghost s: string) returns (r: string)
    requires Holds(buffer[..], s) && '\0' !in s
    ensures r == s
  {
    assert forall i | 0 <= i < |s| :: buffer[i] == s[i] && s[i] != '\0' by {
      assert forall i | 0 <= i < |s| :: buffer[..][i] == s[i] && s[i] in s;
    }
    var n := 0;
    while buffer[n] != '\0'
      invariant 0 <= n <= |s|
      decreases |s| - n
    {
      n := n + 1;
    }
    r := buffer[..n];
    assert r == buffer[..][..n];
  }

  method NormalString(path: string) returns (r: Normalized)
    requires '\0' !in path
    ensures r == Normal(path, PATH_MAX)
  {
    var buffer := new char[PATH_MAX];
    var code, _ := NormalizePath(path, buffer);
    if code != Ok {
      r := Refused(code);
    } else {
      NormalNoNul(path, PATH_MAX);
      var p := ReadString(buffer, Normal(path, PATH_MAX).path);
      r := Path(p);
    }
  }

  /** `strrchr(p, '/')` */
  method LastSlash(p: string, ghost before: string, ghost after: string) returns (i: nat)
    requires p == before + "/" + after && '/' !in after
    ensures i == |before|
  {
    assert forall j | |before| < j < |p| :: p[j] == after[j - |before| - 1] && p[j] in after;
    i := |p| - 1;
    while p[i] != '/'
      invariant |before| <= i < |p|
      decreases i
    {
      i := i - 1;
    }
  }

  /** Directory and name of a canonical path. */
  method SplitLast(p: string) returns (dir: string, name: string)
    requires Stored(p) && p != "/"
    ensures dir == ParentOf(p) && name == NameOf(p)
  {
    LastSegment(p);
    ghost var before := Join(Segs(p)[..|Segs(p)| - 1]);
    var i := LastSlash(p, before, NameOf(p));
    name := p[i + 1..];
    dir := if i == 0 then "/" else p[..i];
    assert p[..i] == before;
  }

  lemma LastSegment(p: string)
    requires Stored(p) && p != "/"
    ensures Segs(p) != []
    ensures var init := Segs(p)[..|Segs(p)| - 1];
      && p == Join(init) + "/" + NameOf(p) && '/' !in NameOf(p)
      && ParentOf(p) == if |Join(init)| == 0 then "/" else Join(init)
  {
    ParentPath(p);
    CanonicalRender(p);
    SegsPlain(p);
    JoinShape(Segs(p)[..|Segs(p)| - 1]);
  }

  // ----- the object -----

  /** Removing the old entry, then the oldest one if the cache is full, then adding in front. */
  lemma InsertSteps(cache: seq<Entry>, capacity: nat, e: Entry)
    requires capacity > 0
    ensures var i := Find(cache, e.path);
      var dropped := if i < |cache| then ListSpec.Remove(cache, i) else cache;
      var kept := if |dropped| >= capacity then ListSpec.Remove(dropped, |dropped| - 1) else dropped;
      ListSpec.Insert(kept, 0, e) == Insert(cache, capacity, e)
  {
    var dropped := Drop(cache, e.path);
    if |dropped| >= capacity { RemoveLast(dropped); }
    InsertFront(if |dropped| >= capacity then dropped[..|dropped| - 1] else dropped, e);
  }

  lemma RemoveLast(s: seq<Entry>)
    requires s != []
    ensures ListSpec.Remove(s, |s| - 1) == s[..|s| - 1]
  {}

  lemma InsertFront(s: seq<Entry>, e: Entry)
    ensures ListSpec.Insert(s, 0, e) == [e] + s
  {}

  class VirtualFileSystem {
    var nodes: Nodes
    var mounts: seq<Mount>
    var rooted: bool
    var cache: seq<Entry>
    var capacity: nat
    var hits: nat
    var misses: nat

    ghost function Abs(): State
      reads this
    {
      State(nodes, mounts, rooted, cache, capacity, hits, misses)
    }

    ghost predicate Valid()
      reads this
    {
      Inv(Abs())
    }

    /** `VFS_Init` */
    constructor (capacity: nat)
      ensures Valid() && Abs() == State(map[], [], false, [], capacity, 0, 0)
    {
      nodes, mounts, rooted := map[], [], false;
      cache, this.capacity, hits, misses := [], capacity, 0, 0;
    }

    /** The strcmp scan shared by the cache operations. */
    method FindEntry(p: string) returns (i: nat)
      ensures i == Find(cache, p)
    {
      i := 0;
      while i < |cache| && cache[i].path != p
        invariant i <= |cache| && forall j | 0 <= j < i :: cache[j].path != p
      {
        i := i + 1;
      }
    }

    /** `vfs_cache_lookup` */
    method CacheLookup(p: string) returns (r: Option<Id>)
      modifies this
      ensures var i := Find(old(cache), p);
        if capacity == 0 then r == None && Abs() == old(Abs())
        else if i < |old(cache)| then
          && r == Some(old(cache)[i].node)
          && Abs() == old(Abs()).(cache := [old(cache)[i]] + ListSpec.Remove(old(cache), i), hits := old(hits) + 1)
        else r == None && Abs() == old(Abs()).(misses := old(misses) + 1)
    {
      if capacity == 0 { return None; }
      var i := FindEntry(p);
      if i < |cache| {
        var entry := cache[i];
        if i != 0 {
          cache := ListSpec.Remove(cache, i);
          cache := ListSpec.Insert(cache, 0, entry);
        }
        assert cache == [entry] + ListSpec.Remove(old(cache), i);
        hits := hits + 1;
        return Some(entry.node);
      }
      misses := misses + 1;
      r := None;
    }

    /** `vfs_cache_insert` */
    method CacheInsert(p: string, node: Id)
      modifies this
      ensures Abs() == old(Abs()).(cache := Insert(old(cache), capacity, Entry(p, node)))
    {
      if capacity == 0 { return; }
      InsertSteps(cache, capacity, Entry(p, node));
      var i := FindEntry(p);
      var kept := cache;
      if i < |kept| { kept := ListSpec.Remove(kept, i); }
      if |kept| >= capacity { kept := ListSpec.Remove(kept, |kept| - 1); }
      cache := ListSpec.Insert(kept, 0, Entry(p, node));
    }

    /** `vfs_cache_remove_prefix` */
    method CacheRemovePrefix(prefix: string)
      modifies this
      ensures Abs() == old(Abs()).(cache := DropUnder(old(cache), prefix))
    {
      var i: nat := 0;
      assert cache[0..] == cache;
      while i < |cache|
        invariant i <= |cache| && cache[..i] + DropUnder(cache[i..], prefix) == DropUnder(old(cache), prefix)
        invariant Abs() == old(Abs()).(cache := cache)
        decreases |cache| - i
      {
        DropUnderStep(cache, i, prefix);
        if !Under(cache[i].path, prefix) {
          i := i + 1;
        } else {
          cache := ListSpec.Remove(cache, i);
        }
      }
      assert cache[i..] == [] && cache[..i] == cache;
    }

    /** `vfs_cache_remove_exact` */
    method CacheRemoveExact(p: string)
      modifies this
      ensures Abs() == old(Abs()).(cache := Drop(old(cache), p))
    {
      var i := FindEntry(p);
      if i < |cache| { cache := ListSpec.Remove(cache, i); }
    }

    /** `VFS_CacheSetCapacity` with `vfs_cache_trim_to_capacity` and `vfs_cache_clear` */
    method CacheSetCapacity(n: nat)
      requires Valid()
      modifies this
      ensures Valid() && Abs() == SetCapacity(old(Abs()), n)
    {
      StepKeeps(Abs(), OpSetCapacity(n));
      capacity := n;
      if capacity == 0 {
        cache := [];
        return;
      }
      while |cache| > capacity
        invariant cache <= old(cache) && (|cache| < |old(cache)| ==> |cache| >= n)
        invariant Abs() == old(Abs()).(cache := cache, capacity := n)
      {
        cache := ListSpec.Remove(cache, |cache| - 1);
      }
      assert cache == SetCapacity(old(Abs()), n).cache;
    }

    method CacheFlush()
      requires Valid()
      modifies this
      ensures Valid() && Abs() == old(Abs()).(cache := [])
    {
      cache := [];
    }

    /** `vfs_select_mount` */
    method FindMount(p: string) returns (best: Option<Mount>)
      ensures best == SelectMount(mounts, p)
    {
      best := None;
      assert mounts[0..] == mounts;
      for i := 0 to |mounts|
        invariant Select(mounts[i..], p, best) == SelectMount(mounts, p)
      {
        var m := mounts[i];
        assert mounts[i..][0] == m && mounts[i..][1..] == mounts[i + 1..];
        if |m.path| <= |p| && p[..|m.path|] == m.path {
          if |m.path| == 1 || |p| == |m.path| || p[|m.path|] == '/' {
            if best.None? || |m.path| > |best.value.path| { best := Some(m); }
          }
        }
      }
    }

    /** `ramfs_lookup` */
    method LookupChild(a: Id, name: string) returns (r: Option<Id>)
      ensures r == Child(nodes, a, name)
    {
      if a !in nodes || !nodes[a].kind.Directory? { return None; }
      var cs := nodes[a].children;
      var i := 0;
      while i < |cs| && NameIn(nodes, cs[i]) != Some(name)
        invariant 0 <= i <= |cs| && forall j | 0 <= j < i :: NameIn(nodes, cs[j]) != Some(name)
      {
        i := i + 1;
      }
      assert i == IndexOf(nodes, cs, name);
      r := if i == |cs| then None else Some(cs[i]);
    }

    /** `vfs_walk` */
    method WalkPath(start: Id, rel: string) returns (r: Walked)
      ensures r == WalkNames(nodes, start, Segs(rel))
    {
      assert rel[0..] == rel;
      var p := SkipSlashes(rel, 0, Segs(rel));
      r := Arrived(start);
      ghost var todo := Segs(rel);
      while p < |rel|
        invariant Ahead(rel, p, todo) && r.Arrived?
        invariant WalkNames(nodes, r.node, todo) == WalkNames(nodes, start, Segs(rel))
        decreases |rel| - p
      {
        r, p, todo := WalkSegment(r.node, rel, p, todo);
        if !r.Arrived? { return; }
      }
      AheadEnd(rel, todo);
    }

    /** The body of that loop. */
    method WalkSegment(current: Id, rel: string, p: nat, ghost todo: seq<string>)
      returns (r: Walked, p': nat, ghost todo': seq<string>)
      requires p < |rel| && Ahead(rel, p, todo)
      ensures !r.Arrived? ==> r == WalkNames(nodes, current, todo)
      ensures r.Arrived? ==> p < p' && Ahead(rel, p', todo')
      ensures r.Arrived? ==> WalkNames(nodes, r.node, todo') == WalkNames(nodes, current, todo)
    {
      var n := ScanSegment(rel, p);
      todo' := Segs(rel[p + n..]);
      WalkFirst(nodes, current, rel[p..p + n], todo');
      p' := p;
      if n > NAME_MAX { return TooLong, p', todo'; }
      var next := Enter(current, rel[p..p + n]);
      if next.None? { return Missing, p', todo'; }
      p' := SkipSlashes(rel, p + n, todo');
      r := Arrived(next.value);
    }

    /** One segment of the walk. */
    method Enter(a: Id, name: string) returns (r: Option<Id>)
      ensures r == Entered(nodes, a, name)
    {
      if name == "." { return Some(a); }
      if name == ".." {
        if a in nodes && nodes[a].parent.Some? { return nodes[a].parent; }
        return Some(a);
      }
      r := LookupChild(a, name);
    }

    /** The uncached part of `VFS_Resolve` for a normalised path. */
    method WalkFromMount(p: string) returns (r: Option<Id>)
      requires AllCanonical(mounts) && Canonical(p)
      ensures r == Lookup(nodes, mounts, p)
    {
      var m := FindMount(p);
      if m.None? { return None; }
      SelectLongest(mounts, p, None);
      LookupWalks(nodes, mounts, p);
      var rel := p;
      if m.value.path == "/" {
        if rel != "" && rel[0] == '/' { rel := rel[1..]; }
      } else {
        rel := rel[|m.value.path|..];
        if rel != "" && rel[0] == '/' { rel := rel[1..]; }
      }
      if rel == "" { return Some(m.value.root); }
      var walked := WalkPath(m.value.root, rel);
      r := if walked.Arrived? then Some(walked.node) else None;
    }

    /** `VFS_Resolve` */
    method Resolve(path: string) returns (reply: Reply)
      requires Valid() && '\0' !in path
      modifies this
      ensures Valid() && Outcome(reply, Abs()) == Vfs.Resolve(old(Abs()), path)
      ensures reply == ResolveUncached(old(Abs()), path)
    {
      ResolveCorrect(Abs(), path);
      if !rooted { return Answer(NotFound); }
      var n := NormalString(path);
      if n.Refused? { return Answer(n.code); }
      var cached := CacheLookup(n.path);
      if cached.Some? { return Found(cached.value); }
      NormalCanonical(path, PATH_MAX);
      var found := WalkFromMount(n.path);
      if found.None? { return Answer(NotFound); }
      CacheInsert(n.path, found.value);
      reply := Found(found.value);
    }

    method FindMountAt(p: string) returns (i: nat)
      ensures i == MountAt(mounts, p)
    {
      i := 0;
      while i < |mounts| && mounts[i].path != p
        invariant i <= |mounts| && forall j | 0 <= j < i :: mounts[j].path != p
      {
        i := i + 1;
      }
    }

    /** `VFS_Mount` of an in-memory file system whose root node was allocated at `id` */
    method Mount(target: string, id: Id) returns (reply: Reply)
      requires Valid() && '\0' !in target && id !in nodes
      modifies this
      ensures Valid() && Outcome(reply, Abs()) == DoMount(old(Abs()), target, id)
    {
      MountKeeps(Abs(), target, id);
      var n := NormalString(target);
      if n.Refused? { return Answer(Invalid); }
      var i := FindMountAt(n.path);
      if i < |mounts| { return Answer(Invalid); }
      AddMount(n.path, id);
      reply := Found(id);
    }

    method AddMount(path: string, id: Id)
      modifies this
      ensures Abs() == old(Abs()).(nodes := WithRoot(old(nodes), id),
                                   mounts := old(mounts) + [Mounts.Mount(path, id)],
                                   rooted := old(rooted) || path == "/",
                                   cache := Insert(DropUnder(old(cache), path), old(capacity), Entry(path, id)))
    {
      nodes := WithRoot(nodes, id);
      mounts := mounts + [Mounts.Mount(path, id)];
      if path == "/" { rooted := true; }
      CacheRemovePrefix(path);
      CacheInsert(path, id);
    }

    /** `VFS_Unmount` */
    method Unmount(target: string) returns (reply: Reply)
      requires Valid() && '\0' !in target
      modifies this
      ensures Valid() && Outcome(reply, Abs()) == DoUnmount(old(Abs()), target)
    {
      UnmountKeeps(Abs(), target);
      var n := NormalString(target);
      if n.Refused? { return Answer(n.code); }
      var i := FindMountAt(n.path);
      if i == |mounts| { return Answer(NotFound); }
      if n.path == "/" { return Answer(Busy); }
      nodes := Without(nodes, mounts[i].root);
      mounts := ListSpec.Remove(mounts, i);
      CacheRemovePrefix(n.path);
      reply := Answer(Ok);
    }

    /** `VFS_Create`; a new node is allocated at `id` */
    method Create(path: string, kind: Kind, id: Id) returns (reply: Reply)
      requires Valid() && '\0' !in path && id !in nodes
      modifies this
      ensures Valid() && Outcome(reply, Abs()) == DoCreate(old(Abs()), path, kind, id)
    {
      CreateKeeps(Abs(), path, kind, id);
      if kind.UnknownKind? { return Answer(Invalid); }
      var n := NormalString(path);
      if n.Refused? { return Answer(n.code); }
      if n.path == "/" { return Answer(Exists); }
      NormalCanonical(path, PATH_MAX);
      ParentNoNul(path);
      var dir, name := SplitLast(n.path);
      reply := Resolve(dir);
      if reply.Answer? { return; }
      CacheRemoveExact(n.path);
      reply := CreateIn(reply.node, name, kind, id);
    }

    /** `ramfs_create` */
    method CreateIn(dir: Id, name: string, kind: Kind, id: Id) returns (reply: Reply)
      modifies this
      ensures var s := old(Abs());
        Outcome(reply, Abs()) ==
          if dir !in s.nodes || !s.nodes[dir].kind.Directory? then Outcome(Answer(Invalid), s)
          else if Child(s.nodes, dir, name).Some? then Outcome(Answer(Exists), s)
          else Outcome(Answer(Ok), s.(nodes := WithChild(s.nodes, dir, name, kind, id)))
    {
      if dir !in nodes || !nodes[dir].kind.Directory? { return Answer(Invalid); }
      var existing := LookupChild(dir, name);
      if existing.Some? { return Answer(Exists); }
      nodes := nodes[dir := nodes[dir].(children := nodes[dir].children + [id])];
      nodes := nodes[id := Node(name, kind, Some(dir), [])];
      reply := Answer(Ok);
    }

    /** `VFS_Remove` */
    method Remove(path: string) returns (reply: Reply)
      requires Valid() && '\0' !in path
      modifies this
      ensures Valid() && Outcome(reply, Abs()) == DoRemove(old(Abs()), path)
    {
      RemoveKeeps(Abs(), path);
      var n := NormalString(path);
      if n.Refused? { return Answer(n.code); }
      if n.path == "/" { return Answer(Busy); }
      NormalCanonical(path, PATH_MAX);
      ParentNoNul(path);
      var dir, name := SplitLast(n.path);
      reply := Resolve(dir);
      if reply.Answer? { return; }
      CacheRemovePrefix(n.path);
      reply := RemoveIn(reply.node, name);
    }

    /** `ramfs_remove` */
    method RemoveIn(dir: Id, name: string) returns (reply: Reply)
      modifies this
      ensures var s := old(Abs());
        Outcome(reply, Abs()) ==
          if dir !in s.nodes || !s.nodes[dir].kind.Directory? then Outcome(Answer(Invalid), s)
          else
            var cs := s.nodes[dir].children;
            var i := IndexOf(s.nodes, cs, name);
            if i == |cs| then Outcome(Answer(NotFound), s)
            else Outcome(Answer(Ok), s.(nodes := Without(Unlinked(s.nodes, dir, i), cs[i])))
    {
      if dir !in nodes || !nodes[dir].kind.Directory? { return Answer(Invalid); }
      var cs := nodes[dir].children;
      var i := 0;
      while i < |cs| && NameIn(nodes, cs[i]) != Some(name)
        invariant 0 <= i <= |cs| && Abs() == old(Abs())
        invariant forall j | 0 <= j < i :: NameIn(nodes, cs[j]) != Some(name)
      {
        i := i + 1;
      }
      assert i == IndexOf(nodes, cs, name);
      if i == |cs| { return Answer(NotFound); }
      nodes := nodes[dir := nodes[dir].(children := ListSpec.Remove(cs, i))];
      nodes := Without(nodes, cs[i]);
      reply := Answer(Ok);
    }
  }

  lemma ParentNoNul(path: string)
    requires '\0' !in path && Normal(path, PATH_MAX).Path?
    ensures '\0' !in ParentOf(Normal(path, PATH_MAX).path)
  {
    var p := Normal(path, PATH_MAX).path;
    NormalNoNul(path, PATH_MAX);
    SegsNoNul(p);
    if Segs(p) != [] { JoinNoNul(Segs(p)[..|Segs(p)| - 1]); }
  }

  ghost predicate Ahead(path: string, p: nat, todo: seq<string>) {
    p <= |path| && (p < |path| ==> path[p] != '/') && Segs(path[p..]) == todo
  }

  lemma AheadEnd(path: string, todo: seq<string>)
    requires Ahead(path, |path|, todo)
    ensures todo == []
  {
    assert path[|path|..] == "";
  }

  /** Where one segment leads, unless it is too long. */
  function Entered(nodes: Nodes, a: Id, name: string): Option<Id> {
    if name == "." then Some(a) else if name == ".." then Some(UpOne(nodes, a)) else Child(nodes, a, name)
  }

  lemma WalkFirst(nodes: Nodes, a: Id, seg: string, rest: seq<string>)
    ensures WalkNames(nodes, a, [seg] + rest) ==
      if |seg| > NAME_MAX then TooLong
      else
        var c := Entered(nodes, a, seg);
        if c.None? then Missing else WalkNames(nodes, c.value, rest)
  {
    assert ([seg] + rest)[1..] == rest;
  }

  lemma DropUnderStep(cache: seq<Entry>, i: nat, prefix: string)
    requires i < |cache|
    ensures var whole := cache[..i] + DropUnder(cache[i..], prefix);
      if Under(cache[i].path, prefix) then
        var out := ListSpec.Remove(cache, i);
        out[..i] + DropUnder(out[i..], prefix) == whole
      else cache[..i + 1] + DropUnder(cache[i + 1..], prefix) == whole
  {
    assert cache[i..][1..] == cache[i + 1..];
    if Under(cache[i].path, prefix) {
      var out := ListSpec.Remove(cache, i);
      assert out[..i] == cache[..i] && out[i..] == cache[i + 1..];
    } else {
      assert cache[..i + 1] == cache[..i] + [cache[i]];
    }
  }
}
