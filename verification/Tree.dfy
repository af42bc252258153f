/**
 The in-memory file system's nodes, addressed by pointer: lookup, walking, and what adding,
 removing and freeing nodes does to every walk.
 */
module Tree {
  import opened Options
  import ListSpec

  type Id = nat

  datatype Kind = UnknownKind | Directory | Regular | Symlink | CharDevice | BlockDevice | Pipe | Socket

  datatype Node = Node(name: string, kind: Kind, parent: Option<Id>, children: seq<Id>)

  type Nodes = map<Id, Node>

  function NameIn(nodes: Nodes, c: Id): Option<string> { if c in nodes then Some(nodes[c].name) else None }

  /** Position of the first child called `name`, or the number of children. */
  function IndexOf(nodes: Nodes, cs: seq<Id>, name: string): (i: nat)
    ensures i <= |cs|
    ensures i < |cs| ==> NameIn(nodes, cs[i]) == Some(name)
    ensures forall j | 0 <= j < i :: NameIn(nodes, cs[j]) != Some(name)
  {
    if cs == [] || NameIn(nodes, cs[0]) == Some(name) then 0 else 1 + IndexOf(nodes, cs[1..], name)
  }

  /** `ramfs_lookup`: nothing is found in a node that is not a directory. */
  function Child(nodes: Nodes, a: Id, name: string): Option<Id> {
    if a !in nodes || !nodes[a].kind.Directory? then None
    else
      var cs := nodes[a].children;
      var i := IndexOf(nodes, cs, name);
      if i == |cs| then None else Some(cs[i])
  }

  /** `vfs_walk` along named segments. */
  function Walk(nodes: Nodes, a: Id, segs: seq<string>): Option<Id>
    decreases |segs|
  {
    if segs == [] then Some(a)
    else
      var c := Child(nodes, a, segs[0]);
      if c.None? then None else Walk(nodes, c.value, segs[1..])
  }

  /** Children exist, point back to their directory and have different names; only directories have any. */
  ghost predicate Consistent(nodes: Nodes) {
    forall a | a in nodes :: DirectoryOk(nodes, a)
  }

  ghost predicate DirectoryOk(nodes: Nodes, a: Id)
    requires a in nodes
  {
    var cs := nodes[a].children;
    && (!nodes[a].kind.Directory? ==> cs == [])
    && (forall i | 0 <= i < |cs| :: cs[i] in nodes && nodes[cs[i]].parent == Some(a))
    && (forall i, j | 0 <= i < j < |cs| :: cs[i] != cs[j] && nodes[cs[i]].name != nodes[cs[j]].name)
  }

  ghost predicate IsRoot(nodes: Nodes, r: Id) { r in nodes && nodes[r].parent == None && nodes[r].kind.Directory? }

  // ----- walks -----

  lemma ChildSound(nodes: Nodes, a: Id, name: string)
    requires Consistent(nodes)
    ensures var c := Child(nodes, a, name);
      c.Some? ==> c.value in nodes && nodes[c.value].parent == Some(a) && nodes[c.value].name == name
  {
    if a in nodes { assert DirectoryOk(nodes, a); }
  }

  lemma {:induction false} WalkSnoc(nodes: Nodes, a: Id, segs: seq<string>, s: string)
    ensures Walk(nodes, a, segs + [s]) ==
      var b := Walk(nodes, a, segs);
      if b.None? then None else Child(nodes, b.value, s)
    decreases |segs|
  {
    if segs == [] {
      assert ([] + [s])[1..] == [];
    } else {
      assert (segs + [s])[1..] == segs[1..] + [s];
      var c := Child(nodes, a, segs[0]);
      if c.Some? { WalkSnoc(nodes, c.value, segs[1..], s); }
    }
  }

  /** A walk of at least one step ends in a node whose parent is the node one step earlier. */
  lemma WalkParent(nodes: Nodes, r: Id, segs: seq<string>)
    requires Consistent(nodes) && segs != [] && Walk(nodes, r, segs).Some?
    ensures var x := Walk(nodes, r, segs).value;
      var k := |segs| - 1;
      && x in nodes && nodes[x].name == segs[k]
      && Walk(nodes, r, segs[..k]) == nodes[x].parent
      && nodes[x].parent.Some?
  {
    var k := |segs| - 1;
    assert segs == segs[..k] + [segs[k]];
    WalkSnoc(nodes, r, segs[..k], segs[k]);
    var b := Walk(nodes, r, segs[..k]);
    ChildSound(nodes, b.value, segs[k]);
  }

  /** A node is reached from at most one root and along one path. */
  lemma {:induction false} WalkUnique(nodes: Nodes, r: Id, s: seq<string>, q: Id, t: seq<string>)
    requires Consistent(nodes) && IsRoot(nodes, r) && IsRoot(nodes, q)
    requires Walk(nodes, r, s).Some? && Walk(nodes, r, s) == Walk(nodes, q, t)
    ensures r == q && s == t
    decreases |s|
  {
    if s != [] { WalkParent(nodes, r, s); }
    if t != [] { WalkParent(nodes, q, t); }
    if s != [] && t != [] {
      WalkUnique(nodes, r, s[..|s| - 1], q, t[..|t| - 1]);
      assert s == s[..|s| - 1] + [s[|s| - 1]] && t == t[..|t| - 1] + [t[|t| - 1]];
    }
  }

  // ----- a new root -----

  /** `ramfs_mount` */
  function WithRoot(nodes: Nodes, id: Id): Nodes { nodes[id := Node("", Directory, None, [])] }

  lemma {:induction false} IndexOfSame(nodes: Nodes, nodes': Nodes, cs: seq<Id>, name: string)
    requires forall i | 0 <= i < |cs| :: NameIn(nodes, cs[i]) == NameIn(nodes', cs[i])
    ensures IndexOf(nodes, cs, name) == IndexOf(nodes', cs, name)
  {
    if cs != [] { IndexOfSame(nodes, nodes', cs[1..], name); }
  }

  lemma WithRootConsistent(nodes: Nodes, id: Id)
    requires Consistent(nodes) && id !in nodes
    ensures Consistent(WithRoot(nodes, id)) && IsRoot(WithRoot(nodes, id), id)
  {
    var out := WithRoot(nodes, id);
    forall a | a in out ensures DirectoryOk(out, a) {
      if a != id { assert DirectoryOk(nodes, a); }
    }
  }

  lemma {:induction false} WithRootWalk(nodes: Nodes, id: Id, a: Id, segs: seq<string>)
    requires Consistent(nodes) && id !in nodes && a in nodes
    ensures Walk(WithRoot(nodes, id), a, segs) == Walk(nodes, a, segs)
    decreases |segs|
  {
    if segs != [] {
      assert DirectoryOk(nodes, a);
      IndexOfSame(nodes, WithRoot(nodes, id), nodes[a].children, segs[0]);
      ChildSound(nodes, a, segs[0]);
      var c := Child(nodes, a, segs[0]);
      if c.Some? { WithRootWalk(nodes, id, c.value, segs[1..]); }
    }
  }

  // ----- a new child -----

  /** `ramfs_create` once its checks have passed. */
  function WithChild(nodes: Nodes, dir: Id, name: string, kind: Kind, id: Id): Nodes
    requires dir in nodes
  {
    nodes[dir := nodes[dir].(children := nodes[dir].children + [id])][id := Node(name, kind, Some(dir), [])]
  }

  ghost predicate CanAdd(nodes: Nodes, dir: Id, name: string, id: Id) {
    && Consistent(nodes) && dir in nodes && nodes[dir].kind.Directory? && id !in nodes
    && Child(nodes, dir, name) == None
  }

  lemma WithChildConsistent(nodes: Nodes, dir: Id, name: string, kind: Kind, id: Id)
    requires CanAdd(nodes, dir, name, id)
    ensures Consistent(WithChild(nodes, dir, name, kind, id))
  {
    var out := WithChild(nodes, dir, name, kind, id);
    forall a | a in out ensures DirectoryOk(out, a) {
      if a != id {
        assert DirectoryOk(nodes, a);
        if a == dir {
          forall i | 0 <= i < |nodes[a].children| ensures nodes[nodes[a].children[i]].name != name {
            assert NameIn(nodes, nodes[a].children[i]) != Some(name);
          }
        }
      }
    }
  }

  lemma {:induction false} IndexOfAppend(nodes: Nodes, cs: seq<Id>, c: Id, name: string)
    ensures IndexOf(nodes, cs + [c], name) ==
      if IndexOf(nodes, cs, name) < |cs| || NameIn(nodes, c) == Some(name) then IndexOf(nodes, cs, name)
      else |cs| + 1
  {
    if cs != [] && NameIn(nodes, cs[0]) != Some(name) {
      assert (cs + [c])[1..] == cs[1..] + [c];
      IndexOfAppend(nodes, cs[1..], c, name);
    }
  }

  /** Adding a child changes one lookup. */
  lemma WithChildChild(nodes: Nodes, dir: Id, name: string, kind: Kind, id: Id, a: Id, s: string)
    requires CanAdd(nodes, dir, name, id) && a in nodes
    ensures var out := WithChild(nodes, dir, name, kind, id);
      && Child(out, a, s) == (if a == dir && s == name then Some(id) else Child(nodes, a, s))
      && Child(out, id, s) == None
  {
    var out := WithChild(nodes, dir, name, kind, id);
    assert DirectoryOk(nodes, a);
    var cs := nodes[a].children;
    assert forall i | 0 <= i < |cs| :: NameIn(nodes, cs[i]) == NameIn(out, cs[i]);
    IndexOfSame(nodes, out, cs, s);
    if a == dir { IndexOfAppend(out, cs, id, s); }
  }

  /** Adding a child changes one walk from a root. */
  lemma {:induction false} WithChildWalk(nodes: Nodes, dir: Id, name: string, kind: Kind, id: Id,
                                         r0: Id, t0: seq<string>, r: Id, t: seq<string>)
    requires CanAdd(nodes, dir, name, id) && IsRoot(nodes, r0) && IsRoot(nodes, r)
    requires Walk(nodes, r0, t0) == Some(dir)
    ensures Walk(WithChild(nodes, dir, name, kind, id), r, t)
         == if r == r0 && t == t0 + [name] then Some(id) else Walk(nodes, r, t)
    decreases |t|
  {
    var out := WithChild(nodes, dir, name, kind, id);
    if t != [] {
      var k := |t| - 1;
      var init, s := t[..k], t[k];
      assert t == init + [s];
      WalkSnoc(out, r, init, s);
      WalkSnoc(nodes, r, init, s);
      WithChildWalk(nodes, dir, name, kind, id, r0, t0, r, init);
      WalkSnoc(nodes, r0, t0, name);
      var x := Walk(nodes, r, init);
      if x.Some? {
        WalkInNodes(nodes, r, init);
        WithChildChild(nodes, dir, name, kind, id, x.value, s);
        if x.value == dir { WalkUnique(nodes, r, init, r0, t0); }
      }
      WithChildChild(nodes, dir, name, kind, id, dir, s);
      assert t == t0 + [name] <==> init == t0 && s == name;
    }
  }

  lemma WalkInNodes(nodes: Nodes, r: Id, t: seq<string>)
    requires Consistent(nodes) && r in nodes && Walk(nodes, r, t).Some?
    ensures Walk(nodes, r, t).value in nodes
  {
    if t != [] { WalkParent(nodes, r, t); }
  }

  // ----- freeing a subtree -----

  /** Following parent pointers from `x` meets `c` within `steps` steps. */
  predicate Below(nodes: Nodes, x: Id, c: Id, steps: nat)
    decreases steps
  {
    x == c || (steps > 0 && x in nodes && nodes[x].parent.Some? && Below(nodes, nodes[x].parent.value, c, steps - 1))
  }

  /** `ramfs_free_node`: the node `c` and everything below it are gone. */
  function Without(nodes: Nodes, c: Id): Nodes {
    map x | x in nodes && !Below(nodes, x, c, |nodes|) :: nodes[x]
  }

  lemma {:induction false} BelowMore(nodes: Nodes, x: Id, c: Id, steps: nat)
    requires Below(nodes, x, c, steps)
    ensures Below(nodes, x, c, steps + 1)
    decreases steps
  {
    if x != c { BelowMore(nodes, nodes[x].parent.value, c, steps - 1); }
  }

  /** No directory lists `c`. */
  ghost predicate Orphan(nodes: Nodes, c: Id) { forall a | a in nodes :: c !in nodes[a].children }

  /** From another root no walk enters what lies below an unlisted node. */
  lemma {:induction false} NotBelow(nodes: Nodes, c: Id, r: Id, t: seq<string>, steps: nat)
    requires Consistent(nodes) && Orphan(nodes, c) && IsRoot(nodes, r) && r != c && Walk(nodes, r, t).Some?
    ensures !Below(nodes, Walk(nodes, r, t).value, c, steps)
    decreases steps
  {
    if t != [] {
      WalkParent(nodes, r, t);
      var k := |t| - 1;
      assert t == t[..k] + [t[k]];
      WalkSnoc(nodes, r, t[..k], t[k]);
      assert DirectoryOk(nodes, Walk(nodes, r, t[..k]).value) by { WalkInNodes(nodes, r, t[..k]); }
      assert Walk(nodes, r, t).value != c;
      if steps > 0 { NotBelow(nodes, c, r, t[..k], steps - 1); }
    }
  }

  /** A surviving directory keeps all its children. */
  lemma WithoutKeepsChildren(nodes: Nodes, c: Id, a: Id)
    requires Consistent(nodes) && Orphan(nodes, c) && a in Without(nodes, c)
    ensures var out := Without(nodes, c);
      forall i | 0 <= i < |nodes[a].children| :: nodes[a].children[i] in out
  {
    assert DirectoryOk(nodes, a);
    forall i | 0 <= i < |nodes[a].children| ensures nodes[a].children[i] in Without(nodes, c) {
      var y := nodes[a].children[i];
      assert y in nodes[a].children;
      if Below(nodes, a, c, |nodes| - 1) { BelowMore(nodes, a, c, |nodes| - 1); }
    }
  }

  lemma WithoutConsistent(nodes: Nodes, c: Id)
    requires Consistent(nodes) && Orphan(nodes, c)
    ensures Consistent(Without(nodes, c))
    ensures forall r | IsRoot(nodes, r) && r != c :: IsRoot(Without(nodes, c), r)
  {
    var out := Without(nodes, c);
    forall a | a in out ensures DirectoryOk(out, a) {
      assert DirectoryOk(nodes, a);
      WithoutKeepsChildren(nodes, c, a);
    }
  }

  /** Freeing what lies below an unlisted node changes no walk from another root. */
  lemma {:induction false} WithoutWalk(nodes: Nodes, c: Id, r: Id, t: seq<string>)
    requires Consistent(nodes) && Orphan(nodes, c) && IsRoot(nodes, r) && r != c
    ensures Walk(Without(nodes, c), r, t) == Walk(nodes, r, t)
    decreases |t|
  {
    var out := Without(nodes, c);
    if t != [] {
      var k := |t| - 1;
      assert t == t[..k] + [t[k]];
      WalkSnoc(out, r, t[..k], t[k]);
      WalkSnoc(nodes, r, t[..k], t[k]);
      WithoutWalk(nodes, c, r, t[..k]);
      var x := Walk(nodes, r, t[..k]);
      if x.Some? {
        NotBelow(nodes, c, r, t[..k], |nodes|);
        WalkInNodes(nodes, r, t[..k]);
        WithoutKeepsChildren(nodes, c, x.value);
        assert DirectoryOk(nodes, x.value);
        IndexOfSame(nodes, out, nodes[x.value].children, t[k]);
      }
    }
  }

  // ----- unlinking a child -----

  /** `List_RemoveAt` on the children of `dir`. */
  function Unlinked(nodes: Nodes, dir: Id, i: nat): Nodes
    requires dir in nodes && i < |nodes[dir].children|
  {
    nodes[dir := nodes[dir].(children := ListSpec.Remove(nodes[dir].children, i))]
  }

  lemma UnlinkedConsistent(nodes: Nodes, dir: Id, i: nat)
    requires Consistent(nodes) && dir in nodes && i < |nodes[dir].children|
    ensures Consistent(Unlinked(nodes, dir, i)) && Orphan(Unlinked(nodes, dir, i), nodes[dir].children[i])
  {
    var out, cs := Unlinked(nodes, dir, i), nodes[dir].children;
    assert DirectoryOk(nodes, dir);
    var rest := ListSpec.Remove(cs, i);
    forall j | 0 <= j < |rest| ensures rest[j] == cs[if j < i then j else j + 1] && rest[j] != cs[i] {}
    forall a | a in out ensures DirectoryOk(out, a) { assert DirectoryOk(nodes, a); }
    forall a | a in out ensures cs[i] !in out[a].children {
      assert DirectoryOk(nodes, a);
      if a != dir { forall j | 0 <= j < |nodes[a].children| ensures nodes[a].children[j] != cs[i] {} }
    }
  }

  lemma {:induction false} IndexOfRemove(nodes: Nodes, cs: seq<Id>, i: nat, s: string)
    requires i < |cs| && (forall j | 0 <= j < |cs| && j != i :: NameIn(nodes, cs[j]) != NameIn(nodes, cs[i]))
    ensures var out, k, n := ListSpec.Remove(cs, i), IndexOf(nodes, ListSpec.Remove(cs, i), s), IndexOf(nodes, cs, s);
      if NameIn(nodes, cs[i]) == Some(s) then k == |out|
      else (n == |cs| <==> k == |out|) && (n < |cs| ==> out[k] == cs[n])
  {
    var out := ListSpec.Remove(cs, i);
    var k, n := IndexOf(nodes, out, s), IndexOf(nodes, cs, s);
    forall j | 0 <= j < |out| ensures out[j] == cs[if j < i then j else j + 1] {}
    if NameIn(nodes, cs[i]) != Some(s) && n < |cs| {
      var m := if n < i then n else n - 1;
      assert out[m] == cs[n];
      assert k <= m;
      assert forall j | 0 <= j < m :: NameIn(nodes, out[j]) != Some(s);
    }
  }

  /** Unlinking a child changes one lookup. */
  lemma UnlinkedChild(nodes: Nodes, dir: Id, i: nat, a: Id, s: string)
    requires Consistent(nodes) && dir in nodes && i < |nodes[dir].children| && a in nodes
    ensures Child(Unlinked(nodes, dir, i), a, s)
         == if a == dir && Some(s) == NameIn(nodes, nodes[dir].children[i]) then None else Child(nodes, a, s)
  {
    var out, cs := Unlinked(nodes, dir, i), nodes[a].children;
    assert DirectoryOk(nodes, a);
    if a == dir {
      IndexOfRemove(nodes, cs, i, s);
      IndexOfSame(nodes, out, ListSpec.Remove(cs, i), s);
    } else {
      IndexOfSame(nodes, out, cs, s);
    }
  }

  /** Unlinking a child cuts exactly the walks that pass through it. */
  lemma {:induction false} UnlinkedWalk(nodes: Nodes, dir: Id, i: nat, name: string,
                                        r0: Id, t0: seq<string>, r: Id, t: seq<string>)
    requires Consistent(nodes) && IsRoot(nodes, r0) && IsRoot(nodes, r) && Walk(nodes, r0, t0) == Some(dir)
    requires dir in nodes && i < |nodes[dir].children| && NameIn(nodes, nodes[dir].children[i]) == Some(name)
    ensures Walk(Unlinked(nodes, dir, i), r, t)
         == if r == r0 && t0 + [name] <= t then None else Walk(nodes, r, t)
    decreases |t|
  {
    if t != [] {
      var out, k := Unlinked(nodes, dir, i), |t| - 1;
      var init, s := t[..k], t[k];
      assert t == init + [s];
      WalkSnoc(out, r, init, s);
      WalkSnoc(nodes, r, init, s);
      UnlinkedWalk(nodes, dir, i, name, r0, t0, r, init);
      PrefixSnoc(t0 + [name], init, s);
      var x := Walk(nodes, r, init);
      if x.Some? {
        WalkInNodes(nodes, r, init);
        UnlinkedChild(nodes, dir, i, x.value, s);
        if x.value == dir { WalkUnique(nodes, r, init, r0, t0); }
      }
    }
  }

  lemma PrefixSnoc(p: seq<string>, init: seq<string>, s: string)
    ensures p <= init + [s] <==> p <= init || p == init + [s]
  {}
}
