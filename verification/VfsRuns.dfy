/** What each operation of the virtual file system does to every path, and coherence over runs. */
module VfsRuns {
  import opened Options
  import opened Paths
  import opened Normalize
  import opened Mounts
  import opened Tree
  import opened Vfs
  import ListSpec

  // ----- resolution by components -----

  /** Resolution walks the components below the closest mount. */
  lemma LookupAt(nodes: Nodes, mounts: seq<Mount>, q: string, m: Mount)
    requires MountsOk(nodes, mounts) && Canonical(q) && Closest(mounts, q, m)
    ensures Lookup(nodes, mounts, q) == Walk(nodes, m.root, Segs(q)[|Segs(m.path)|..])
  {
    ClosestUnique(mounts, q, m);
    MatchesComponents(m.path, q);
    RelativeComponents(m.path, q);
  }

  lemma LookupMount(nodes: Nodes, mounts: seq<Mount>, q: string) returns (m: Option<Mount>)
    requires MountsOk(nodes, mounts) && Canonical(q)
    ensures m.None? ==> Lookup(nodes, mounts, q) == None && forall n | n in mounts :: !(Segs(n.path) <= Segs(q))
    ensures m.Some? ==> Closest(mounts, q, m.value)
    ensures m.Some? ==> Lookup(nodes, mounts, q) == Walk(nodes, m.value.root, Segs(q)[|Segs(m.value.path)|..])
  {
    SelectClosest(mounts, q);
    m := SelectMount(mounts, q);
    if m.Some? { LookupAt(nodes, mounts, q, m.value); }
  }

  lemma MountAtPresent(mounts: seq<Mount>, m: Mount)
    requires m in mounts
    ensures MountAt(mounts, m.path) < |mounts|
  {
    var j :| 0 <= j < |mounts| && mounts[j] == m;
  }

  // ----- mounting -----

  lemma MountKeepsOthers(nodes: Nodes, mounts: seq<Mount>, p: string, id: Id, q: string)
    requires Consistent(nodes) && MountsOk(nodes, mounts) && id !in nodes
    requires Canonical(p) && Canonical(q) && !(Segs(p) <= Segs(q))
    requires MountsOk(WithRoot(nodes, id), mounts + [Mount(p, id)])
    ensures Lookup(WithRoot(nodes, id), mounts + [Mount(p, id)], q) == Lookup(nodes, mounts, q)
  {
    var nodes', mounts' := WithRoot(nodes, id), mounts + [Mount(p, id)];
    var m := LookupMount(nodes, mounts, q);
    var m' := LookupMount(nodes', mounts', q);
    if m.Some? {
      assert Closest(mounts', q, m.value);
      LookupAt(nodes', mounts', q, m.value);
      WithRootWalk(nodes, id, m.value.root, Segs(q)[|Segs(m.value.path)|..]);
    } else {
      assert forall n | n in mounts' :: !(Segs(n.path) <= Segs(q));
    }
  }

  lemma MountedHere(nodes: Nodes, mounts: seq<Mount>, p: string, id: Id)
    requires MountsOk(nodes, mounts) && Mount(p, id) in mounts
    ensures Lookup(nodes, mounts, p) == Some(id)
  {
    var m := Mount(p, id);
    assert Segs(p) <= Segs(p);
    forall n | n in mounts && Segs(n.path) <= Segs(p) && n != m ensures |Segs(n.path)| < |Segs(p)| {
      PathsDiffer(mounts, n, m);
      LongerString(n.path, p, p);
    }
    LookupAt(nodes, mounts, p, m);
    assert Segs(p)[|Segs(p)|..] == [];
  }

  lemma MountAdds(s: State, p: string, id: Id)
    requires Inv(s) && id !in s.nodes && Stored(p) && MountAt(s.mounts, p) == |s.mounts|
    ensures MountsOk(WithRoot(s.nodes, id), s.mounts + [Mount(p, id)])
  {
    forall m | m in s.mounts ensures m.path != p && m.root != id {
      assert IsRoot(s.nodes, m.root);
      if m.path == p { MountAtPresent(s.mounts, m); }
    }
    DistinctAppend(s.mounts, p, id);
    forall m | m in s.mounts ensures IsRoot(WithRoot(s.nodes, id), m.root) { assert IsRoot(s.nodes, m.root); }
    assert IsRoot(WithRoot(s.nodes, id), id);
  }

  lemma DistinctAppend(mounts: seq<Mount>, p: string, id: Id)
    requires Distinct(mounts) && forall m | m in mounts :: m.path != p && m.root != id
    ensures Distinct(mounts + [Mount(p, id)])
  {
    var out := mounts + [Mount(p, id)];
    forall i, j | 0 <= i < j < |out| ensures out[i].path != out[j].path && out[i].root != out[j].root {
      assert out[i] == mounts[i] && mounts[i] in mounts;
    }
  }

  lemma MountKeeps(s: State, target: string, id: Id)
    requires Inv(s) && id !in s.nodes
    ensures Inv(DoMount(s, target, id).state)
  {
    var n, t := Normal(target, PATH_MAX), DoMount(s, target, id).state;
    if n.Path? && MountAt(s.mounts, n.path) == |s.mounts| {
      NormalCanonical(target, PATH_MAX);
      MountAdds(s, n.path, id);
      WithRootConsistent(s.nodes, id);
      DropUnderSubset(s.cache, n.path);
      var kept := DropUnder(s.cache, n.path);
      forall e | e in kept ensures Stored(e.path) && Lookup(t.nodes, t.mounts, e.path) == Some(e.node) {
        assert e in s.cache;
        MatchesComponents(n.path, e.path);
        MountKeepsOthers(s.nodes, s.mounts, n.path, id, e.path);
      }
      assert Mount(n.path, id) in t.mounts;
      MountedHere(t.nodes, t.mounts, n.path, id);
      InsertKeeps(t.nodes, t.mounts, kept, s.capacity, Entry(n.path, id));
      RootedAfterMount(s, n.path, id);
    }
  }

  lemma RootedAfterMount(s: State, p: string, id: Id)
    requires Inv(s)
    ensures s.rooted || p == "/" <==> exists m :: m in s.mounts + [Mount(p, id)] && m.path == "/"
  {
    var all := s.mounts + [Mount(p, id)];
    assert Mount(p, id) in all;
    if s.rooted { var m :| m in s.mounts && m.path == "/"; assert m in all; }
  }

  // ----- unmounting -----

  lemma RootOrphan(nodes: Nodes, r: Id)
    requires Consistent(nodes) && IsRoot(nodes, r)
    ensures Orphan(nodes, r)
  {
    forall a | a in nodes ensures r !in nodes[a].children { assert DirectoryOk(nodes, a); }
  }

  lemma RemovedMember(mounts: seq<Mount>, i: nat)
    requires Distinct(mounts) && i < |mounts|
    ensures Distinct(ListSpec.Remove(mounts, i))
    ensures forall m :: m in ListSpec.Remove(mounts, i) <==> m in mounts && m != mounts[i]
    ensures forall m | m in ListSpec.Remove(mounts, i) :: m.root != mounts[i].root
  {
    var out := ListSpec.Remove(mounts, i);
    forall j | 0 <= j < |out| ensures out[j] == mounts[if j < i then j else j + 1] {}
    forall m | m in mounts && m != mounts[i] ensures m in out {
      var j :| 0 <= j < |mounts| && mounts[j] == m;
      assert out[if j < i then j else j - 1] == m;
    }
  }

  lemma UnmountRest(nodes: Nodes, mounts: seq<Mount>, i: nat)
    requires Consistent(nodes) && MountsOk(nodes, mounts) && i < |mounts|
    ensures MountsOk(Without(nodes, mounts[i].root), ListSpec.Remove(mounts, i))
  {
    assert mounts[i] in mounts;
    RemovedMember(mounts, i);
    RootOrphan(nodes, mounts[i].root);
    WithoutConsistent(nodes, mounts[i].root);
  }

  lemma UnmountKeepsOthers(nodes: Nodes, mounts: seq<Mount>, i: nat, q: string)
    requires Consistent(nodes) && MountsOk(nodes, mounts) && i < |mounts|
    requires Canonical(q) && !(Segs(mounts[i].path) <= Segs(q))
    ensures Lookup(Without(nodes, mounts[i].root), ListSpec.Remove(mounts, i), q) == Lookup(nodes, mounts, q)
  {
    var gone := mounts[i];
    var nodes', mounts' := Without(nodes, gone.root), ListSpec.Remove(mounts, i);
    UnmountRest(nodes, mounts, i);
    RemovedMember(mounts, i);
    var m := LookupMount(nodes, mounts, q);
    var m' := LookupMount(nodes', mounts', q);
    if m.Some? {
      assert m.value in mounts' && Closest(mounts', q, m.value);
      LookupAt(nodes', mounts', q, m.value);
      RootOrphan(nodes, gone.root);
      WithoutWalk(nodes, gone.root, m.value.root, Segs(q)[|Segs(m.value.path)|..]);
    }
  }

  lemma UnmountKeeps(s: State, target: string)
    requires Inv(s)
    ensures Inv(DoUnmount(s, target).state)
  {
    var n, t := Normal(target, PATH_MAX), DoUnmount(s, target).state;
    if n.Path? && n.path != "/" && MountAt(s.mounts, n.path) < |s.mounts| {
      var i := MountAt(s.mounts, n.path);
      NormalCanonical(target, PATH_MAX);
      UnmountRest(s.nodes, s.mounts, i);
      RemovedMember(s.mounts, i);
      assert s.mounts[i] in s.mounts;
      RootOrphan(s.nodes, s.mounts[i].root);
      WithoutConsistent(s.nodes, s.mounts[i].root);
      DropUnderSubset(s.cache, n.path);
      forall e | e in t.cache ensures Stored(e.path) && Lookup(t.nodes, t.mounts, e.path) == Some(e.node) {
        assert e in s.cache;
        MatchesComponents(n.path, e.path);
        UnmountKeepsOthers(s.nodes, s.mounts, i, e.path);
      }
      if s.rooted { var m :| m in s.mounts && m.path == "/"; assert m in t.mounts; }
    }
  }

  // ----- creating -----

  lemma InitClean(segs: seq<string>)
    requires AllClean(segs) && segs != []
    ensures AllClean(segs[..|segs| - 1]) && segs == segs[..|segs| - 1] + [segs[|segs| - 1]]
  {
  }

  lemma ParentSegs(p: string, segs: seq<string>)
    requires Canonical(p) && segs == Segs(p) != []
    ensures Canonical(ParentOf(p)) && Segs(ParentOf(p)) == segs[..|segs| - 1] && segs == Segs(ParentOf(p)) + [NameOf(p)]
  {
    InitClean(segs);
    RenderCanonical(segs[..|segs| - 1]);
  }

  /** A directory's path is no longer than one of something in it. */
  lemma ParentLength(p: string)
    requires Canonical(p) && p != "/"
    ensures |ParentOf(p)| <= |p|
  {
    CanonicalRoot(p);
    CanonicalRender(p);
    JoinTake(Segs(p), |Segs(p)| - 1);
  }

  lemma ParentPath(p: string)
    requires Stored(p) && p != "/"
    ensures Segs(p) != [] && Stored(ParentOf(p))
    ensures Segs(ParentOf(p)) == Segs(p)[..|Segs(p)| - 1] && Segs(p) == Segs(ParentOf(p)) + [NameOf(p)]
    ensures Normal(ParentOf(p), PATH_MAX) == Path(ParentOf(p))
  {
    CanonicalRoot(p);
    ParentSegs(p, Segs(p));
    ParentLength(p);
    NormalFixed(ParentOf(p), PATH_MAX);
  }

  /** Where a resolved directory sits: below which mount, and along which components. */
  ghost predicate Located(nodes: Nodes, mounts: seq<Mount>, pp: string, dir: Id, m: Mount) {
    && Closest(mounts, pp, m)
    && Walk(nodes, m.root, Segs(pp)[|Segs(m.path)|..]) == Some(dir)
  }

  lemma Locate(nodes: Nodes, mounts: seq<Mount>, pp: string, dir: Id) returns (m: Mount)
    requires Consistent(nodes) && MountsOk(nodes, mounts) && Canonical(pp) && Lookup(nodes, mounts, pp) == Some(dir)
    ensures Located(nodes, mounts, pp, dir, m) && dir in nodes
  {
    var o := LookupMount(nodes, mounts, pp);
    m := o.value;
    WalkInNodes(nodes, m.root, Segs(pp)[|Segs(m.path)|..]);
  }

  /** Without a mount of its own, a path lies below the same mount as its directory. */
  lemma SameMount(nodes: Nodes, mounts: seq<Mount>, p: string, m: Mount)
    requires MountsOk(nodes, mounts) && Stored(p) && p != "/" && Closest(mounts, ParentOf(p), m)
    requires MountAt(mounts, p) == |mounts|
    ensures Closest(mounts, p, m)
  {
    ParentPath(p);
    forall n | n in mounts && Segs(n.path) <= Segs(p) ensures Segs(n.path) <= Segs(ParentOf(p)) {
      if Segs(n.path) == Segs(p) {
        CanonicalInjective(n.path, p);
        MountAtPresent(mounts, n);
      }
    }
  }

  /** A mounted path is its own closest mount. */
  lemma MountedClosest(nodes: Nodes, mounts: seq<Mount>, p: string, m: Mount)
    requires MountsOk(nodes, mounts) && Closest(mounts, p, m) && MountAt(mounts, p) < |mounts|
    ensures m.path == p
  {
    var n := mounts[MountAt(mounts, p)];
    assert n in mounts && Segs(n.path) <= Segs(p);
  }

  lemma SamePath(q: string, p: string, m: string)
    requires Stored(p) && p != "/" && Canonical(q) && Segs(m) <= Segs(ParentOf(p)) && Segs(m) <= Segs(q)
    ensures Segs(q)[|Segs(m)|..] == Segs(ParentOf(p))[|Segs(m)|..] + [NameOf(p)] <==> q == p
  {
    ParentPath(p);
    var k := |Segs(m)|;
    assert Segs(ParentOf(p))[k..] + [NameOf(p)] == Segs(p)[k..];
    SuffixSame(Segs(m), Segs(q), Segs(p));
    if Segs(q) == Segs(p) { CanonicalInjective(q, p); }
  }

  lemma SuffixSame(m: seq<string>, x: seq<string>, y: seq<string>)
    requires m <= x && m <= y
    ensures x[|m|..] == y[|m|..] <==> x == y
  {
    assert x == m + x[|m|..] && y == m + y[|m|..];
  }

  /** `q` is the new path and no mount hides it exactly when it lies below the directory's mount as that path. */
  lemma NewPath(nodes: Nodes, mounts: seq<Mount>, p: string, q: string, m0: Mount, m: Mount)
    requires MountsOk(nodes, mounts) && Stored(p) && p != "/" && Canonical(q)
    requires Closest(mounts, ParentOf(p), m0) && Closest(mounts, q, m)
    ensures q == p && MountAt(mounts, p) == |mounts| <==>
      m.root == m0.root && Segs(q)[|Segs(m.path)|..] == Segs(ParentOf(p))[|Segs(m0.path)|..] + [NameOf(p)]
  {
    ParentPath(p);
    if m != m0 { PathsDiffer(mounts, m, m0); } else { SamePath(q, p, m0.path); }
    if q == p {
      if MountAt(mounts, p) == |mounts| {
        SameMount(nodes, mounts, p, m0);
        ClosestUnique(mounts, p, m0);
        ClosestUnique(mounts, p, m);
      } else {
        MountedClosest(nodes, mounts, p, m);
      }
    }
  }

  /** Creating a node changes the resolution of its own path, unless a mount hides it, and of no other. */
  lemma CreateLookup(nodes: Nodes, mounts: seq<Mount>, p: string, dir: Id, kind: Kind, id: Id, q: string)
    requires Consistent(nodes) && MountsOk(nodes, mounts) && Stored(p) && p != "/" && Canonical(q)
    requires Lookup(nodes, mounts, ParentOf(p)) == Some(dir) && CanAdd(nodes, dir, NameOf(p), id)
    requires MountsOk(WithChild(nodes, dir, NameOf(p), kind, id), mounts)
    ensures Lookup(WithChild(nodes, dir, NameOf(p), kind, id), mounts, q)
         == if q == p && MountAt(mounts, p) == |mounts| then Some(id) else Lookup(nodes, mounts, q)
  {
    ParentPath(p);
    var m0 := Locate(nodes, mounts, ParentOf(p), dir);
    assert Segs(m0.path) <= Segs(p);
    var m := LookupMount(nodes, mounts, q);
    if m.Some? {
      LookupAt(WithChild(nodes, dir, NameOf(p), kind, id), mounts, q, m.value);
      WithChildWalk(nodes, dir, NameOf(p), kind, id,
                    m0.root, Segs(ParentOf(p))[|Segs(m0.path)|..], m.value.root, Segs(q)[|Segs(m.value.path)|..]);
      NewPath(nodes, mounts, p, q, m0, m.value);
    } else {
      var m' := LookupMount(WithChild(nodes, dir, NameOf(p), kind, id), mounts, q);
    }
  }

  lemma WithChildMounts(nodes: Nodes, mounts: seq<Mount>, dir: Id, name: string, kind: Kind, id: Id)
    requires CanAdd(nodes, dir, name, id) && MountsOk(nodes, mounts)
    ensures MountsOk(WithChild(nodes, dir, name, kind, id), mounts)
  {
    forall m | m in mounts ensures IsRoot(WithChild(nodes, dir, name, kind, id), m.root) {
      assert IsRoot(nodes, m.root);
    }
  }

  /** A new node, with its own path dropped from the cache, leaves every other cached path right. */
  lemma CreateAt(s: State, p: string, dir: Id, kind: Kind, id: Id)
    requires Inv(s) && Stored(p) && p != "/" && CanAdd(s.nodes, dir, NameOf(p), id)
    requires Lookup(s.nodes, s.mounts, ParentOf(p)) == Some(dir)
    ensures Inv(s.(nodes := WithChild(s.nodes, dir, NameOf(p), kind, id), cache := Drop(s.cache, p)))
  {
    var nodes' := WithChild(s.nodes, dir, NameOf(p), kind, id);
    DropSubset(s.cache, p);
    WithChildConsistent(s.nodes, dir, NameOf(p), kind, id);
    WithChildMounts(s.nodes, s.mounts, dir, NameOf(p), kind, id);
    forall e | e in Drop(s.cache, p) ensures Stored(e.path) && Lookup(nodes', s.mounts, e.path) == Some(e.node) {
      assert e in s.cache;
      CreateLookup(s.nodes, s.mounts, p, dir, kind, id, e.path);
    }
  }

  /** What resolving the directory of a path finds, and leaves. */
  lemma ResolvedDirectory(s: State, p: string)
    requires Inv(s) && Stored(p) && p != "/"
    ensures var r := Resolve(s, ParentOf(p));
      && Inv(r.state) && r.state.nodes == s.nodes && r.state.mounts == s.mounts
      && (r.reply.Found? ==> Lookup(s.nodes, s.mounts, ParentOf(p)) == Some(r.reply.node))
  {
    ParentPath(p);
    ResolveCorrect(s, ParentOf(p));
  }

  lemma DropKeeps(s: State, p: string)
    requires Inv(s)
    ensures Inv(s.(cache := Drop(s.cache, p)))
  {
    DropSubset(s.cache, p);
  }

  lemma CreateKeeps(s: State, path: string, kind: Kind, id: Id)
    requires Inv(s) && id !in s.nodes
    ensures Inv(DoCreate(s, path, kind, id).state)
  {
    var n := Normal(path, PATH_MAX);
    if !kind.UnknownKind? && n.Path? && n.path != "/" {
      NormalCanonical(path, PATH_MAX);
      ResolvedDirectory(s, n.path);
      var r := Resolve(s, ParentOf(n.path));
      if r.reply.Found? { CreateBelow(r.state, n.path, r.reply.node, kind, id); }
    }
  }

  /** The rest of a creation, once the directory is resolved. */
  lemma CreateBelow(s: State, p: string, dir: Id, kind: Kind, id: Id)
    requires Inv(s) && Stored(p) && p != "/" && id !in s.nodes && Lookup(s.nodes, s.mounts, ParentOf(p)) == Some(dir)
    ensures Inv(s.(cache := Drop(s.cache, p)))
    ensures dir in s.nodes && s.nodes[dir].kind.Directory? && Child(s.nodes, dir, NameOf(p)).None? ==>
      Inv(s.(cache := Drop(s.cache, p)).(nodes := WithChild(s.nodes, dir, NameOf(p), kind, id)))
  {
    DropKeeps(s, p);
    if dir in s.nodes && s.nodes[dir].kind.Directory? && Child(s.nodes, dir, NameOf(p)).None? {
      CreateAt(s, p, dir, kind, id);
    }
  }

  // ----- removing -----

  ghost predicate CanRemove(nodes: Nodes, dir: Id, i: nat, name: string) {
    && Consistent(nodes) && dir in nodes && nodes[dir].kind.Directory? && i < |nodes[dir].children|
    && NameIn(nodes, nodes[dir].children[i]) == Some(name)
  }

  function Removed(nodes: Nodes, dir: Id, i: nat): Nodes
    requires dir in nodes && i < |nodes[dir].children|
  {
    Without(Unlinked(nodes, dir, i), nodes[dir].children[i])
  }

  lemma RemovedOk(nodes: Nodes, mounts: seq<Mount>, dir: Id, i: nat, name: string)
    requires CanRemove(nodes, dir, i, name) && MountsOk(nodes, mounts)
    ensures Consistent(Removed(nodes, dir, i)) && MountsOk(Removed(nodes, dir, i), mounts)
    ensures forall m | m in mounts :: IsRoot(Unlinked(nodes, dir, i), m.root) && m.root != nodes[dir].children[i]
  {
    var c := nodes[dir].children[i];
    assert DirectoryOk(nodes, dir);
    UnlinkedConsistent(nodes, dir, i);
    WithoutConsistent(Unlinked(nodes, dir, i), c);
    forall m | m in mounts
      ensures IsRoot(Unlinked(nodes, dir, i), m.root) && m.root != c && IsRoot(Removed(nodes, dir, i), m.root)
    {
      assert IsRoot(nodes, m.root);
    }
  }

  /** A removed path resolves to nothing from then on, and so does everything below it that no other mount serves. */
  lemma RemoveLookup(nodes: Nodes, mounts: seq<Mount>, p: string, dir: Id, i: nat, q: string)
    requires MountsOk(nodes, mounts) && Stored(p) && p != "/" && Canonical(q)
    requires CanRemove(nodes, dir, i, NameOf(p)) && Lookup(nodes, mounts, ParentOf(p)) == Some(dir)
    ensures var same := SelectMount(mounts, q) == SelectMount(mounts, ParentOf(p));
      Lookup(Removed(nodes, dir, i), mounts, q)
        == if same && Segs(p) <= Segs(q) then None else Lookup(nodes, mounts, q)
  {
    ParentPath(p);
    var m0 := Locate(nodes, mounts, ParentOf(p), dir);
    ClosestUnique(mounts, ParentOf(p), m0);
    var t0, c := Segs(ParentOf(p))[|Segs(m0.path)|..], nodes[dir].children[i];
    RemovedOk(nodes, mounts, dir, i, NameOf(p));
    UnlinkedConsistent(nodes, dir, i);
    var m := LookupMount(nodes, mounts, q);
    var m' := LookupMount(Removed(nodes, dir, i), mounts, q);
    if m.Some? {
      ClosestUnique(mounts, q, m.value);
      LookupAt(Removed(nodes, dir, i), mounts, q, m.value);
      var t := Segs(q)[|Segs(m.value.path)|..];
      WithoutWalk(Unlinked(nodes, dir, i), c, m.value.root, t);
      UnlinkedWalk(nodes, dir, i, NameOf(p), m0.root, t0, m.value.root, t);
      if m.value != m0 { PathsDiffer(mounts, m.value, m0); } else { SamePrefix(q, p, m0.path); }
    }
  }

  lemma SamePrefix(q: string, p: string, m: string)
    requires Stored(p) && p != "/" && Segs(m) <= Segs(ParentOf(p)) && Segs(m) <= Segs(q)
    ensures Segs(ParentOf(p))[|Segs(m)|..] + [NameOf(p)] <= Segs(q)[|Segs(m)|..] <==> Segs(p) <= Segs(q)
  {
    ParentPath(p);
    PrefixBelow(Segs(m), Segs(ParentOf(p)), NameOf(p), Segs(q));
  }

  lemma PrefixBelow(m: seq<string>, dir: seq<string>, name: string, q: seq<string>)
    requires m <= dir && m <= q
    ensures dir[|m|..] + [name] <= q[|m|..] <==> dir + [name] <= q
  {
    var a, b := dir[|m|..] + [name], q[|m|..];
    assert m + a == dir + [name] && m + b == q;
    PrefixCancel(m, a, b);
  }

  lemma PrefixCancel(m: seq<string>, a: seq<string>, b: seq<string>)
    ensures a <= b <==> m + a <= m + b
  {
    if m + a <= m + b {
      forall j | 0 <= j < |a| ensures a[j] == b[j] { assert (m + a)[|m| + j] == (m + b)[|m| + j]; }
    }
  }

  /** A removed entry, with its path and everything below it dropped from the cache, leaves the rest right. */
  lemma RemoveAt(s: State, p: string, dir: Id, i: nat)
    requires Inv(s) && Stored(p) && p != "/" && Lookup(s.nodes, s.mounts, ParentOf(p)) == Some(dir)
    requires CanRemove(s.nodes, dir, i, NameOf(p))
    ensures Inv(s.(nodes := Removed(s.nodes, dir, i), cache := DropUnder(s.cache, p)))
  {
    DropUnderSubset(s.cache, p);
    RemovedOk(s.nodes, s.mounts, dir, i, NameOf(p));
    forall e | e in DropUnder(s.cache, p)
      ensures Stored(e.path) && Lookup(Removed(s.nodes, dir, i), s.mounts, e.path) == Some(e.node)
    {
      assert e in s.cache;
      MatchesComponents(p, e.path);
      RemoveLookup(s.nodes, s.mounts, p, dir, i, e.path);
    }
  }

  lemma DropUnderKeeps(s: State, p: string)
    requires Inv(s)
    ensures Inv(s.(cache := DropUnder(s.cache, p)))
  {
    DropUnderSubset(s.cache, p);
  }

  lemma RemoveKeeps(s: State, path: string)
    requires Inv(s)
    ensures Inv(DoRemove(s, path).state)
  {
    var n := Normal(path, PATH_MAX);
    if n.Path? && n.path != "/" {
      NormalCanonical(path, PATH_MAX);
      ResolvedDirectory(s, n.path);
      var r := Resolve(s, ParentOf(n.path));
      if r.reply.Found? {
        DropUnderKeeps(r.state, n.path);
        var dir, nodes := r.reply.node, r.state.nodes;
        if dir in nodes && nodes[dir].kind.Directory? {
          var i := IndexOf(nodes, nodes[dir].children, NameOf(n.path));
          if i < |nodes[dir].children| { RemoveAt(r.state, n.path, dir, i); }
        }
      }
    }
  }

  // ----- runs -----

  datatype Op =
    | OpMount(target: string, id: Id)
    | OpUnmount(target: string)
    | OpResolve(path: string)
    | OpCreate(path: string, kind: Kind, id: Id)
    | OpRemove(path: string)
    | OpFlush
    | OpSetCapacity(capacity: nat)

  function Step(s: State, op: Op): State {
    match op
    case OpMount(target, id) => DoMount(s, target, id).state
    case OpUnmount(target) => DoUnmount(s, target).state
    case OpResolve(path) => Resolve(s, path).state
    case OpCreate(path, kind, id) => DoCreate(s, path, kind, id).state
    case OpRemove(path) => DoRemove(s, path).state
    case OpFlush => s.(cache := [])
    case OpSetCapacity(c) => SetCapacity(s, c)
  }

  function Run(s: State, ops: seq<Op>): State
    decreases |ops|
  {
    if ops == [] then s else Run(Step(s, ops[0]), ops[1..])
  }

  /** A node is allocated at an address no live node has. */
  ghost predicate FreshIds(s: State, ops: seq<Op>)
    decreases |ops|
  {
    ops == [] ||
    (((ops[0].OpMount? || ops[0].OpCreate?) ==> ops[0].id !in s.nodes) && FreshIds(Step(s, ops[0]), ops[1..]))
  }

  lemma StepKeeps(s: State, op: Op)
    requires Inv(s) && ((op.OpMount? || op.OpCreate?) ==> op.id !in s.nodes)
    ensures Inv(Step(s, op))
  {
    match op {
      case OpMount(target, id) => MountKeeps(s, target, id);
      case OpUnmount(target) => UnmountKeeps(s, target);
      case OpResolve(path) => ResolveCorrect(s, path);
      case OpCreate(path, kind, id) => CreateKeeps(s, path, kind, id);
      case OpRemove(path) => RemoveKeeps(s, path);
      case OpFlush =>
      case OpSetCapacity(c) =>
    }
  }

  /** Over every run the cache stays coherent, so resolving is the same with and without it. */
  lemma {:induction false} RunCoherent(s: State, ops: seq<Op>, path: string)
    requires Inv(s) && FreshIds(s, ops)
    ensures Inv(Run(s, ops))
    ensures Resolve(Run(s, ops), path).reply == ResolveUncached(Run(s, ops), path)
    decreases |ops|
  {
    if ops == [] {
      ResolveCorrect(s, path);
    } else {
      StepKeeps(s, ops[0]);
      RunCoherent(Step(s, ops[0]), ops[1..], path);
    }
  }

  lemma StartInv(capacity: nat)
    ensures Inv(State(map[], [], false, [], capacity, 0, 0))
  {}
}
