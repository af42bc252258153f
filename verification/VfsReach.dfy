/**
 No node is lost: over every run each live node is found from some mount, and what an unmount or a
 removal frees is freed once.
 */
module VfsReach {
  import opened Options
  import opened Paths
  import opened Normalize
  import opened Mounts
  import opened Tree
  import opened TreeReach
  import opened Vfs
  import opened VfsRuns
  import ListSpec

  ghost predicate Reached(nodes: Nodes, mounts: seq<Mount>, x: Id) {
    exists m, t :: m in mounts && Walk(nodes, m.root, t) == Some(x)
  }

  ghost predicate AllReached(nodes: Nodes, mounts: seq<Mount>) { forall x | x in nodes :: Reached(nodes, mounts, x) }

  // ----- one operation -----

  lemma MountReached(nodes: Nodes, mounts: seq<Mount>, p: string, id: Id)
    requires Consistent(nodes) && MountsOk(nodes, mounts) && id !in nodes && AllReached(nodes, mounts)
    ensures AllReached(WithRoot(nodes, id), mounts + [Mount(p, id)])
  {
    var nodes', mounts' := WithRoot(nodes, id), mounts + [Mount(p, id)];
    forall x | x in nodes' ensures Reached(nodes', mounts', x) {
      if x == id {
        assert Mount(p, id) in mounts' && Walk(nodes', id, []) == Some(id);
      } else {
        var m, t :| m in mounts && Walk(nodes, m.root, t) == Some(x);
        WithRootWalk(nodes, id, m.root, t);
        assert m in mounts' && Walk(nodes', m.root, t) == Some(x);
      }
    }
  }

  lemma UnmountReached(nodes: Nodes, mounts: seq<Mount>, i: nat)
    requires Consistent(nodes) && MountsOk(nodes, mounts) && i < |mounts| && AllReached(nodes, mounts)
    ensures AllReached(Without(nodes, mounts[i].root), ListSpec.Remove(mounts, i))
  {
    var c := mounts[i].root;
    var nodes', mounts' := Without(nodes, c), ListSpec.Remove(mounts, i);
    assert mounts[i] in mounts;
    RemovedMember(mounts, i);
    RootOrphan(nodes, c);
    forall x | x in nodes' ensures Reached(nodes', mounts', x) {
      var m, t :| m in mounts && Walk(nodes, m.root, t) == Some(x);
      if m == mounts[i] {
        WalkUp(nodes, c, t);
        BelowBound(nodes, x, c, |t|);
      } else {
        assert m in mounts';
        WithoutWalk(nodes, c, m.root, t);
      }
    }
  }

  lemma CreateReached(nodes: Nodes, mounts: seq<Mount>, dir: Id, name: string, kind: Kind, id: Id)
    requires MountsOk(nodes, mounts) && CanAdd(nodes, dir, name, id) && AllReached(nodes, mounts)
    ensures AllReached(WithChild(nodes, dir, name, kind, id), mounts)
  {
    var nodes' := WithChild(nodes, dir, name, kind, id);
    assert Reached(nodes, mounts, dir);
    var m0, t0 :| m0 in mounts && Walk(nodes, m0.root, t0) == Some(dir);
    WalkSnoc(nodes, m0.root, t0, name);
    forall x | x in nodes' ensures Reached(nodes', mounts, x) {
      if x == id {
        WithChildWalk(nodes, dir, name, kind, id, m0.root, t0, m0.root, t0 + [name]);
        assert Walk(nodes', m0.root, t0 + [name]) == Some(id);
      } else {
        assert Reached(nodes, mounts, x);
        var m, t :| m in mounts && Walk(nodes, m.root, t) == Some(x);
        WithChildWalk(nodes, dir, name, kind, id, m0.root, t0, m.root, t);
        assert Walk(nodes', m.root, t) == Some(x);
      }
    }
  }

  lemma {:induction false} WalkSplit(nodes: Nodes, a: Id, s: seq<string>, t: seq<string>)
    ensures Walk(nodes, a, s + t) == if Walk(nodes, a, s).None? then None else Walk(nodes, Walk(nodes, a, s).value, t)
    decreases |s|
  {
    if s == [] {
      assert s + t == t;
    } else {
      assert (s + t)[1..] == s[1..] + t;
      var c := Child(nodes, a, s[0]);
      if c.Some? { WalkSplit(nodes, c.value, s[1..], t); }
    }
  }

  lemma {:induction false} UnlinkedUp(nodes: Nodes, dir: Id, i: nat, x: Id, k: nat)
    requires dir in nodes && i < |nodes[dir].children|
    ensures Up(Unlinked(nodes, dir, i), x, k) == Up(nodes, x, k)
    decreases k
  {
    if k > 0 && x in nodes && nodes[x].parent.Some? { UnlinkedUp(nodes, dir, i, nodes[x].parent.value, k - 1); }
  }

  /** The named child of a directory is the one at its place in the list. */
  lemma ChildHere(nodes: Nodes, dir: Id, i: nat, name: string)
    requires CanRemove(nodes, dir, i, name)
    ensures Child(nodes, dir, name) == Some(nodes[dir].children[i])
  {
    assert DirectoryOk(nodes, dir);
    var cs := nodes[dir].children;
    var j := IndexOf(nodes, cs, name);
    assert j < |cs| && nodes[cs[j]].name == name == nodes[cs[i]].name;
  }

  /** What was reached through a removed entry lies below it. */
  lemma ThroughRemoved(nodes: Nodes, dir: Id, i: nat, name: string, r: Id, t0: seq<string>, t: seq<string>, x: Id)
    requires CanRemove(nodes, dir, i, name) && Walk(nodes, r, t0) == Some(dir)
    requires t0 + [name] <= t && Walk(nodes, r, t) == Some(x)
    ensures x !in Removed(nodes, dir, i)
  {
    var c, nodes1 := nodes[dir].children[i], Unlinked(nodes, dir, i);
    var rest := t[|t0| + 1..];
    assert t == (t0 + [name]) + rest;
    WalkSnoc(nodes, r, t0, name);
    ChildHere(nodes, dir, i, name);
    WalkSplit(nodes, r, t0 + [name], rest);
    WalkUp(nodes, c, rest);
    UnlinkedUp(nodes, dir, i, x, |rest|);
    BelowBound(nodes1, x, c, |rest|);
  }

  /** What is left after a removal is found where it was. */
  lemma KeptReached(nodes: Nodes, mounts: seq<Mount>, dir: Id, i: nat, name: string,
                    r0: Id, t0: seq<string>, m: Mount, t: seq<string>, x: Id)
    requires MountsOk(nodes, mounts) && CanRemove(nodes, dir, i, name)
    requires IsRoot(nodes, r0) && Walk(nodes, r0, t0) == Some(dir) && m in mounts && Walk(nodes, m.root, t) == Some(x)
    requires x in Removed(nodes, dir, i)
    ensures Walk(Removed(nodes, dir, i), m.root, t) == Some(x)
  {
    RemovedOk(nodes, mounts, dir, i, name);
    UnlinkedConsistent(nodes, dir, i);
    UnlinkedWalk(nodes, dir, i, name, r0, t0, m.root, t);
    if m.root == r0 && t0 + [name] <= t {
      ThroughRemoved(nodes, dir, i, name, r0, t0, t, x);
    } else {
      WithoutWalk(Unlinked(nodes, dir, i), nodes[dir].children[i], m.root, t);
    }
  }

  lemma RemoveReached(nodes: Nodes, mounts: seq<Mount>, dir: Id, i: nat, name: string)
    requires MountsOk(nodes, mounts) && CanRemove(nodes, dir, i, name) && AllReached(nodes, mounts)
    ensures AllReached(Removed(nodes, dir, i), mounts)
  {
    var nodes' := Removed(nodes, dir, i);
    assert Reached(nodes, mounts, dir);
    var m0, t0 :| m0 in mounts && Walk(nodes, m0.root, t0) == Some(dir);
    forall x | x in nodes' ensures Reached(nodes', mounts, x) {
      assert Reached(nodes, mounts, x);
      var m, t :| m in mounts && Walk(nodes, m.root, t) == Some(x);
      KeptReached(nodes, mounts, dir, i, name, m0.root, t0, m, t, x);
    }
  }

  // ----- runs -----

  lemma ResolveNodes(s: State, path: string)
    ensures var t := Resolve(s, path).state; t.nodes == s.nodes && t.mounts == s.mounts
  {}

  /** What a creation does to the nodes: nothing, or one new child of a directory. */
  lemma CreateNodes(s: State, path: string, kind: Kind, id: Id) returns (added: bool, dir: Id, name: string)
    requires Consistent(s.nodes) && id !in s.nodes
    ensures var t := DoCreate(s, path, kind, id).state;
      && t.mounts == s.mounts && (!added ==> t.nodes == s.nodes)
      && (added ==> CanAdd(s.nodes, dir, name, id) && t.nodes == WithChild(s.nodes, dir, name, kind, id))
  {
    var n := Normal(path, PATH_MAX);
    added, dir, name := false, id, "";
    if !kind.UnknownKind? && n.Path? && n.path != "/" {
      ResolveNodes(s, ParentOf(n.path));
      var reply := Resolve(s, ParentOf(n.path)).reply;
      if reply.Found? {
        dir, name := reply.node, NameOf(n.path);
        added := dir in s.nodes && s.nodes[dir].kind.Directory? && Child(s.nodes, dir, name).None?;
      }
    }
  }

  /** What a removal does to the nodes: nothing, or one child of a directory goes with all below it. */
  lemma RemoveNodes(s: State, path: string) returns (gone: bool, dir: Id, i: nat, name: string)
    requires Consistent(s.nodes)
    ensures var t := DoRemove(s, path).state;
      && t.mounts == s.mounts && (!gone ==> t.nodes == s.nodes)
      && (gone ==> CanRemove(s.nodes, dir, i, name) && t.nodes == Removed(s.nodes, dir, i))
  {
    var n := Normal(path, PATH_MAX);
    gone, dir, i, name := false, 0, 0, "";
    if n.Path? && n.path != "/" {
      ResolveNodes(s, ParentOf(n.path));
      var reply := Resolve(s, ParentOf(n.path)).reply;
      if reply.Found? {
        dir, name := reply.node, NameOf(n.path);
        if dir in s.nodes && s.nodes[dir].kind.Directory? {
          i := IndexOf(s.nodes, s.nodes[dir].children, name);
          gone := i < |s.nodes[dir].children|;
        }
      }
    }
  }

  ghost predicate StateReached(s: State) { AllReached(s.nodes, s.mounts) }

  lemma MountStep(s: State, target: string, id: Id)
    requires Inv(s) && StateReached(s) && id !in s.nodes
    ensures StateReached(DoMount(s, target, id).state)
  {
    var n := Normal(target, PATH_MAX);
    if n.Path? { MountReached(s.nodes, s.mounts, n.path, id); }
  }

  lemma UnmountStep(s: State, target: string)
    requires Inv(s) && StateReached(s)
    ensures StateReached(DoUnmount(s, target).state)
  {
    var n := Normal(target, PATH_MAX);
    if n.Path? && MountAt(s.mounts, n.path) < |s.mounts| { UnmountReached(s.nodes, s.mounts, MountAt(s.mounts, n.path)); }
  }

  lemma CreateStep(s: State, path: string, kind: Kind, id: Id)
    requires Inv(s) && StateReached(s) && id !in s.nodes
    ensures StateReached(DoCreate(s, path, kind, id).state)
  {
    var added, dir, name := CreateNodes(s, path, kind, id);
    if added { CreateReached(s.nodes, s.mounts, dir, name, kind, id); }
  }

  lemma RemoveStep(s: State, path: string)
    requires Inv(s) && StateReached(s)
    ensures StateReached(DoRemove(s, path).state)
  {
    var gone, dir, i, name := RemoveNodes(s, path);
    if gone { RemoveReached(s.nodes, s.mounts, dir, i, name); }
  }

  lemma StepReached(s: State, op: Op)
    requires Inv(s) && StateReached(s) && ((op.OpMount? || op.OpCreate?) ==> op.id !in s.nodes)
    ensures StateReached(Step(s, op))
  {
    match op {
      case OpMount(target, id) => MountStep(s, target, id);
      case OpUnmount(target) => UnmountStep(s, target);
      case OpResolve(path) => ResolveNodes(s, path);
      case OpCreate(path, kind, id) => CreateStep(s, path, kind, id);
      case OpRemove(path) => RemoveStep(s, path);
      case OpFlush =>
      case OpSetCapacity(c) =>
    }
  }

  /** Over every run each live node is found from some mount: none is leaked. */
  lemma {:induction false} RunReached(s: State, ops: seq<Op>)
    requires Inv(s) && StateReached(s) && FreshIds(s, ops)
    ensures StateReached(Run(s, ops))
    decreases |ops|
  {
    if ops != [] {
      StepKeeps(s, ops[0]);
      StepReached(s, ops[0]);
      RunReached(Step(s, ops[0]), ops[1..]);
    }
  }

  // ----- what is freed -----

  /** A node with a parent is in its list. */
  lemma ReachedListed(nodes: Nodes, mounts: seq<Mount>, x: Id)
    requires Consistent(nodes) && MountsOk(nodes, mounts) && Reached(nodes, mounts, x)
    requires x in nodes && nodes[x].parent.Some?
    ensures nodes[x].parent.value in nodes && x in nodes[nodes[x].parent.value].children
  {
    var m, t :| m in mounts && Walk(nodes, m.root, t) == Some(x);
    assert IsRoot(nodes, m.root);
    WalkListed(nodes, m.root, t);
  }

  lemma WalkListed(nodes: Nodes, r: Id, t: seq<string>)
    requires Consistent(nodes) && r in nodes && t != [] && Walk(nodes, r, t).Some?
    ensures var x := Walk(nodes, r, t).value;
      && x in nodes && nodes[x].parent.Some? && nodes[x].parent.value in nodes
      && x in nodes[nodes[x].parent.value].children
  {
    var k := |t| - 1;
    assert t == t[..k] + [t[k]];
    WalkParent(nodes, r, t);
    WalkSnoc(nodes, r, t[..k], t[k]);
    WalkInNodes(nodes, r, t[..k]);
  }

  /** A node is some number of steps below a mount's root. */
  lemma ReachedRooted(nodes: Nodes, mounts: seq<Mount>, x: Id) returns (n: nat, r: Id)
    requires Consistent(nodes) && MountsOk(nodes, mounts) && Reached(nodes, mounts, x)
    ensures Rooted(nodes, x, n, r)
  {
    var m, t :| m in mounts && Walk(nodes, m.root, t) == Some(x);
    assert IsRoot(nodes, m.root);
    WalkUp(nodes, m.root, t);
    n, r := |t|, m.root;
  }

  /** An unmount frees the nodes of the mount, each once, and no other. */
  lemma UnmountFrees(nodes: Nodes, mounts: seq<Mount>, i: nat)
    requires Consistent(nodes) && MountsOk(nodes, mounts) && AllReached(nodes, mounts) && i < |mounts|
    ensures var c := mounts[i].root;
      var order := FreeOrder(nodes, c, |nodes| + 1);
      && Once(order) && (forall x :: x in order <==> Descends(nodes, x, c))
      && Without(nodes, c) == map x | x in nodes && x !in order :: nodes[x]
  {
    var c := mounts[i].root;
    assert mounts[i] in mounts && IsRoot(nodes, c);
    forall x | x in nodes && x != c && nodes[x].parent.Some?
      ensures nodes[x].parent.value in nodes && x in nodes[nodes[x].parent.value].children
    {
      assert Reached(nodes, mounts, x);
      ReachedListed(nodes, mounts, x);
    }
    assert Rooted(nodes, c, 0, c);
    FreeExact(nodes, c, 0, c);
  }

  /** A removal frees the removed node and everything below it, each once, and no other node. */
  lemma RemoveFrees(nodes: Nodes, mounts: seq<Mount>, dir: Id, i: nat, name: string)
    requires MountsOk(nodes, mounts) && CanRemove(nodes, dir, i, name) && AllReached(nodes, mounts)
    ensures var c, nodes1 := nodes[dir].children[i], Unlinked(nodes, dir, i);
      var order := FreeOrder(nodes1, c, |nodes1| + 1);
      && Once(order) && (forall x :: x in order <==> Descends(nodes, x, c))
      && Removed(nodes, dir, i) == map x | x in nodes1 && x !in order :: nodes1[x]
  {
    var c, nodes1 := nodes[dir].children[i], Unlinked(nodes, dir, i);
    assert DirectoryOk(nodes, dir);
    UnlinkedConsistent(nodes, dir, i);
    UnlinkedListed(nodes, mounts, dir, i);
    assert Reached(nodes, mounts, c);
    var n, r := ReachedRooted(nodes, mounts, c);
    UnlinkedUp(nodes, dir, i, c, n);
    FreeExact(nodes1, c, n, r);
    forall x ensures Descends(nodes1, x, c) <==> Descends(nodes, x, c) {
      forall k: nat ensures Up(nodes1, x, k) == Up(nodes, x, k) { UnlinkedUp(nodes, dir, i, x, k); }
    }
  }

  lemma UnlinkedListed(nodes: Nodes, mounts: seq<Mount>, dir: Id, i: nat)
    requires Consistent(nodes) && MountsOk(nodes, mounts) && AllReached(nodes, mounts)
    requires dir in nodes && i < |nodes[dir].children|
    ensures ListedBut(Unlinked(nodes, dir, i), nodes[dir].children[i])
  {
    var nodes1, c := Unlinked(nodes, dir, i), nodes[dir].children[i];
    forall x | x in nodes1 && x != c && nodes1[x].parent.Some?
      ensures nodes1[x].parent.value in nodes1 && x in nodes1[nodes1[x].parent.value].children
    {
      assert x in nodes && Reached(nodes, mounts, x);
      StillListed(nodes, mounts, dir, i, x);
    }
  }

  lemma StillListed(nodes: Nodes, mounts: seq<Mount>, dir: Id, i: nat, x: Id)
    requires Consistent(nodes) && MountsOk(nodes, mounts) && Reached(nodes, mounts, x)
    requires dir in nodes && i < |nodes[dir].children| && x != nodes[dir].children[i]
    requires x in nodes && nodes[x].parent.Some?
    ensures var nodes1, p := Unlinked(nodes, dir, i), nodes[x].parent.value; p in nodes1 && x in nodes1[p].children
  {
    ReachedListed(nodes, mounts, x);
    if nodes[x].parent.value == dir { RemoveOther(nodes[dir].children, i, x); }
  }

  lemma RemoveOther(cs: seq<Id>, i: nat, x: Id)
    requires i < |cs| && x in cs && x != cs[i]
    ensures x in ListSpec.Remove(cs, i)
  {
    var j :| 0 <= j < |cs| && cs[j] == x;
    assert ListSpec.Remove(cs, i)[if j < i then j else j - 1] == x;
  }
}
