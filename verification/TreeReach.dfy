/**
 The nodes below a node: every one is met, and freed, exactly once by the recursion over children that
 frees a subtree.
 */
module TreeReach {
  import opened Options
  import opened Tree

  // ----- ancestors -----

  /** The node `k` parent steps above `x`. */
  function Up(nodes: Nodes, x: Id, k: nat): Option<Id>
    decreases k
  {
    if k == 0 then Some(x)
    else if x !in nodes then None
    else match nodes[x].parent case None => None case Some(p) => Up(nodes, p, k - 1)
  }

  lemma {:induction false} UpSum(nodes: Nodes, x: Id, j: nat, k: nat)
    ensures Up(nodes, x, j + k) == if Up(nodes, x, j).None? then None else Up(nodes, Up(nodes, x, j).value, k)
    decreases j
  {
    if j > 0 && x in nodes && nodes[x].parent.Some? { UpSum(nodes, nodes[x].parent.value, j - 1, k); }
  }

  ghost predicate ParentIs(nodes: Nodes, y: Id, d: Id) { y in nodes && nodes[y].parent == Some(d) }

  /** One step first. */
  lemma UpFirst(nodes: Nodes, y: Id, d: Id, k: nat)
    requires ParentIs(nodes, y, d)
    ensures Up(nodes, y, k + 1) == Up(nodes, d, k)
  {}

  /** One step last. */
  lemma UpNext(nodes: Nodes, x: Id, k: nat, y: Id, d: Id)
    requires Up(nodes, x, k) == Some(y) && ParentIs(nodes, y, d)
    ensures Up(nodes, x, k + 1) == Some(d)
  {
    UpSum(nodes, x, k, 1);
    UpFirst(nodes, y, d, 0);
  }

  lemma {:induction false} UpFromBelow(nodes: Nodes, x: Id, c: Id, steps: nat) returns (k: nat)
    requires Below(nodes, x, c, steps)
    ensures k <= steps && Up(nodes, x, k) == Some(c)
    decreases steps
  {
    if x == c {
      k := 0;
    } else {
      k := UpFromBelow(nodes, nodes[x].parent.value, c, steps - 1);
      k := k + 1;
    }
  }

  lemma {:induction false} BelowFromUp(nodes: Nodes, x: Id, c: Id, steps: nat, k: nat)
    requires k <= steps && Up(nodes, x, k) == Some(c)
    ensures Below(nodes, x, c, steps)
    decreases k
  {
    if k > 0 { BelowFromUp(nodes, nodes[x].parent.value, c, steps - 1, k - 1); }
  }

  lemma {:induction false} LeastUp(nodes: Nodes, x: Id, c: Id, k: nat) returns (m: nat)
    requires Up(nodes, x, k) == Some(c)
    ensures m <= k && Up(nodes, x, m) == Some(c) && forall j | 0 <= j < m :: Up(nodes, x, j) != Some(c)
    decreases k
  {
    if j: nat :| j < k && Up(nodes, x, j) == Some(c) { m := LeastUp(nodes, x, c, j); } else { m := k; }
  }

  /** The first `k` nodes on the way up. */
  function Chain(nodes: Nodes, x: Id, k: nat): set<Id> {
    if k == 0 then {}
    else Chain(nodes, x, k - 1) + match Up(nodes, x, k - 1) case None => {} case Some(y) => {y}
  }

  lemma {:induction false} ChainMember(nodes: Nodes, x: Id, k: nat, y: Id)
    ensures y in Chain(nodes, x, k) <==> exists j :: 0 <= j < k && Up(nodes, x, j) == Some(y)
    decreases k
  {
    if k > 0 {
      ChainMember(nodes, x, k - 1, y);
      assert Up(nodes, x, k - 1) == Some(y) ==> exists j :: 0 <= j < k && Up(nodes, x, j) == Some(y);
    }
  }

  /** A way up that reaches `c` for the first time after `m` steps passes `m` different nodes. */
  lemma {:induction false} ChainSize(nodes: Nodes, x: Id, c: Id, m: nat, k: nat)
    requires k <= m && Up(nodes, x, m) == Some(c) && forall j | 0 <= j < m :: Up(nodes, x, j) != Some(c)
    ensures |Chain(nodes, x, k)| == k && Chain(nodes, x, k) <= nodes.Keys
    decreases k
  {
    if k > 0 {
      ChainSize(nodes, x, c, m, k - 1);
      UpSum(nodes, x, k - 1, m - (k - 1));
      var y := Up(nodes, x, k - 1).value;
      ChainMember(nodes, x, k - 1, y);
      if y in Chain(nodes, x, k - 1) {
        var j :| 0 <= j < k - 1 && Up(nodes, x, j) == Some(y);
        UpSum(nodes, x, j, m - (k - 1));
      }
    }
  }

  lemma SubsetSize(a: set<Id>, b: set<Id>)
    requires a <= b
    ensures |a| <= |b|
  {
    assert b == a + (b - a);
  }

  /** As many steps as there are nodes are enough to look for an ancestor. */
  lemma BelowBound(nodes: Nodes, x: Id, c: Id, k: nat)
    requires Up(nodes, x, k) == Some(c)
    ensures Below(nodes, x, c, |nodes|)
  {
    var m := LeastUp(nodes, x, c, k);
    ChainSize(nodes, x, c, m, m);
    SubsetSize(Chain(nodes, x, m), nodes.Keys);
    BelowFromUp(nodes, x, c, |nodes|, m);
  }

  /** A walk goes down as many steps as it takes to come back up. */
  lemma {:induction false} WalkUp(nodes: Nodes, r: Id, t: seq<string>)
    requires Consistent(nodes) && Walk(nodes, r, t).Some?
    ensures Up(nodes, Walk(nodes, r, t).value, |t|) == Some(r)
    decreases |t|
  {
    if t != [] {
      WalkParent(nodes, r, t);
      WalkUp(nodes, r, t[..|t| - 1]);
    }
  }

  // ----- freeing -----

  /** The order in which `ramfs_free_node` frees: the children one after the other, then the node. */
  function FreeOrder(nodes: Nodes, c: Id, depth: nat): seq<Id>
    decreases depth, 0
  {
    if depth == 0 || c !in nodes then [] else FreeList(nodes, nodes[c].children, depth - 1) + [c]
  }

  function FreeList(nodes: Nodes, cs: seq<Id>, depth: nat): seq<Id>
    decreases depth, |cs| + 1
  {
    if cs == [] then [] else FreeOrder(nodes, cs[0], depth) + FreeList(nodes, cs[1..], depth)
  }

  /** Every node with a parent is listed there, except perhaps `c`. */
  ghost predicate ListedBut(nodes: Nodes, c: Id) {
    forall x | x in nodes && x != c && nodes[x].parent.Some? ::
      nodes[x].parent.value in nodes && x in nodes[nodes[x].parent.value].children
  }

  /** `x` is `n` steps below the root `r`. */
  ghost predicate Rooted(nodes: Nodes, x: Id, n: nat, r: Id) {
    Up(nodes, x, n) == Some(r) && r in nodes && nodes[r].parent.None?
  }

  /** A node below a root is not among its own ancestors. */
  lemma NoLoop(nodes: Nodes, d: Id, n: nat, r: Id, p: nat)
    requires Rooted(nodes, d, n, r) && p > 0
    ensures Up(nodes, d, p) != Some(d)
  {
    UpSum(nodes, d, n, p);
    UpSum(nodes, d, p, n);
  }

  lemma {:induction false} FreeListMember(nodes: Nodes, cs: seq<Id>, depth: nat, x: Id)
    ensures x in FreeList(nodes, cs, depth) <==> exists i :: 0 <= i < |cs| && x in FreeOrder(nodes, cs[i], depth)
    decreases |cs|
  {
    if cs != [] {
      FreeListMember(nodes, cs[1..], depth, x);
      if i :| 0 <= i < |cs| - 1 && x in FreeOrder(nodes, cs[1..][i], depth) {
        assert x in FreeOrder(nodes, cs[i + 1], depth);
      }
      if i :| 0 <= i < |cs| && x in FreeOrder(nodes, cs[i], depth) {
        if i > 0 { assert x in FreeOrder(nodes, cs[1..][i - 1], depth); }
      }
    }
  }

  /** What is freed lies below the node. */
  lemma {:induction false} FreedBelow(nodes: Nodes, d: Id, depth: nat, x: Id) returns (k: nat)
    requires Consistent(nodes) && x in FreeOrder(nodes, d, depth)
    ensures k < depth && x in nodes && Up(nodes, x, k) == Some(d)
    decreases depth
  {
    assert DirectoryOk(nodes, d);
    if x == d {
      k := 0;
    } else {
      FreeListMember(nodes, nodes[d].children, depth - 1, x);
      var i :| 0 <= i < |nodes[d].children| && x in FreeOrder(nodes, nodes[d].children[i], depth - 1);
      var y := nodes[d].children[i];
      k := FreedBelow(nodes, y, depth - 1, x);
      UpNext(nodes, x, k, y, d);
      k := k + 1;
    }
  }

  /** A node whose parent is `d` is one of its children. */
  lemma ChildOf(nodes: Nodes, c: Id, h: nat, r: Id, d: Id, j: nat, y: Id)
    requires ListedBut(nodes, c) && Rooted(nodes, c, h, r) && Up(nodes, d, j) == Some(c)
    requires ParentIs(nodes, y, d)
    ensures d in nodes && y in nodes[d].children
  {
    UpFirst(nodes, y, d, j);
    NoLoop(nodes, c, h, r, j + 1);
  }

  lemma {:induction false} UpLast(nodes: Nodes, x: Id, k: nat, d: Id) returns (y: Id)
    requires k > 0 && Up(nodes, x, k) == Some(d)
    ensures ParentIs(nodes, y, d) && Up(nodes, x, k - 1) == Some(y)
  {
    UpSum(nodes, x, k - 1, 1);
    y := Up(nodes, x, k - 1).value;
  }

  /** Everything below the node is freed. */
  lemma {:induction false} BelowFreed(nodes: Nodes, c: Id, h: nat, r: Id, d: Id, j: nat, depth: nat, x: Id, k: nat)
    requires ListedBut(nodes, c) && Rooted(nodes, c, h, r) && d in nodes && Up(nodes, d, j) == Some(c)
    requires x in nodes && k < depth && Up(nodes, x, k) == Some(d)
    ensures x in FreeOrder(nodes, d, depth)
    decreases depth
  {
    if k > 0 {
      var y := UpLast(nodes, x, k, d);
      ChildOf(nodes, c, h, r, d, j, y);
      UpFirst(nodes, y, d, j);
      BelowFreed(nodes, c, h, r, y, j + 1, depth - 1, x, k - 1);
      var i :| 0 <= i < |nodes[d].children| && nodes[d].children[i] == y;
      FreeListMember(nodes, nodes[d].children, depth - 1, x);
    }
  }

  ghost predicate Once(s: seq<Id>) { forall i, j | 0 <= i < j < |s| :: s[i] != s[j] }

  lemma OnceConcat(s: seq<Id>, t: seq<Id>)
    requires Once(s) && Once(t) && forall x | x in s :: x !in t
    ensures Once(s + t)
  {
    forall i, j | 0 <= i < j < |s + t| ensures (s + t)[i] != (s + t)[j] {
      if i < |s| <= j { assert s[i] in s && t[j - |s|] in t; }
    }
  }

  /** No child of a node is an ancestor of another. */
  lemma SiblingLoop(nodes: Nodes, d: Id, n: nat, r: Id, y: Id, z: Id, q: nat)
    requires Rooted(nodes, d, n, r) && ParentIs(nodes, y, d) && ParentIs(nodes, z, d)
    ensures Up(nodes, y, q + 1) != Some(z)
  {
    UpFirst(nodes, y, d, q);
    if Up(nodes, d, q) == Some(z) { UpNext(nodes, d, q, z, d); }
    NoLoop(nodes, d, n, r, q + 1);
  }

  /** No two children of one node are ancestors of the same node. */
  lemma SiblingsApart(nodes: Nodes, d: Id, n: nat, r: Id, x: Id, y: Id, k: nat, z: Id, q: nat)
    requires Rooted(nodes, d, n, r) && ParentIs(nodes, y, d) && ParentIs(nodes, z, d) && Up(nodes, x, k) == Some(y)
    ensures Up(nodes, x, k + (q + 1)) != Some(z)
  {
    SiblingLoop(nodes, d, n, r, y, z, q);
    UpSum(nodes, x, k, q + 1);
  }

  lemma SiblingsDiffer(nodes: Nodes, d: Id, n: nat, r: Id, x: Id, y: Id, z: Id, depth: nat)
    requires Consistent(nodes) && Rooted(nodes, d, n, r) && ParentIs(nodes, y, d) && ParentIs(nodes, z, d) && y != z
    requires x in FreeOrder(nodes, y, depth)
    ensures x !in FreeOrder(nodes, z, depth)
  {
    if x in FreeOrder(nodes, z, depth) {
      var k := FreedBelow(nodes, y, depth, x);
      var m := FreedBelow(nodes, z, depth, x);
      if k < m { SiblingsApart(nodes, d, n, r, x, y, k, z, m - k - 1); }
      if m < k { SiblingsApart(nodes, d, n, r, x, z, m, y, k - m - 1); }
    }
  }

  lemma NotBelowItself(nodes: Nodes, d: Id, n: nat, r: Id, y: Id, depth: nat)
    requires Consistent(nodes) && Rooted(nodes, d, n, r) && ParentIs(nodes, y, d)
    ensures d !in FreeOrder(nodes, y, depth)
  {
    if d in FreeOrder(nodes, y, depth) {
      var k := FreedBelow(nodes, y, depth, d);
      UpNext(nodes, d, k, y, d);
      NoLoop(nodes, d, n, r, k + 1);
    }
  }

  /** Some of the children of `d`, each once. */
  ghost predicate SomeChildren(nodes: Nodes, d: Id, cs: seq<Id>) {
    Once(cs) && forall i | 0 <= i < |cs| :: ParentIs(nodes, cs[i], d)
  }

  lemma ChildrenOnce(nodes: Nodes, d: Id)
    requires Consistent(nodes) && d in nodes
    ensures SomeChildren(nodes, d, nodes[d].children)
  {
    assert DirectoryOk(nodes, d);
  }

  lemma {:induction false} FreeOnce(nodes: Nodes, d: Id, n: nat, r: Id, depth: nat)
    requires Consistent(nodes) && d in nodes && Rooted(nodes, d, n, r)
    ensures Once(FreeOrder(nodes, d, depth))
    decreases depth, 0
  {
    if depth > 0 {
      var cs := nodes[d].children;
      ChildrenOnce(nodes, d);
      FreeListOnce(nodes, d, n, r, cs, depth - 1);
      OnceConcat(FreeList(nodes, cs, depth - 1), [d]);
    }
  }

  lemma {:induction false} FreeListOnce(nodes: Nodes, d: Id, n: nat, r: Id, cs: seq<Id>, depth: nat)
    requires Consistent(nodes) && d in nodes && Rooted(nodes, d, n, r) && SomeChildren(nodes, d, cs)
    ensures Once(FreeList(nodes, cs, depth)) && d !in FreeList(nodes, cs, depth)
    decreases depth, |cs| + 1
  {
    if cs != [] {
      UpFirst(nodes, cs[0], d, n);
      FreeOnce(nodes, cs[0], n + 1, r, depth);
      NotBelowItself(nodes, d, n, r, cs[0], depth);
      FreeListOnce(nodes, d, n, r, cs[1..], depth);
      FirstApart(nodes, d, n, r, cs, depth);
      OnceConcat(FreeOrder(nodes, cs[0], depth), FreeList(nodes, cs[1..], depth));
    }
  }

  lemma FirstApart(nodes: Nodes, d: Id, n: nat, r: Id, cs: seq<Id>, depth: nat)
    requires Consistent(nodes) && Rooted(nodes, d, n, r) && SomeChildren(nodes, d, cs) && cs != []
    ensures forall x | x in FreeOrder(nodes, cs[0], depth) :: x !in FreeList(nodes, cs[1..], depth)
  {
    forall x | x in FreeOrder(nodes, cs[0], depth) ensures x !in FreeList(nodes, cs[1..], depth) {
      FreeListMember(nodes, cs[1..], depth, x);
      forall i | 0 <= i < |cs| - 1 ensures x !in FreeOrder(nodes, cs[1..][i], depth) {
        SiblingsDiffer(nodes, d, n, r, x, cs[0], cs[i + 1], depth);
      }
    }
  }

  /** Parent pointers lead from `x` to `c`, in however many steps. */
  ghost predicate Descends(nodes: Nodes, x: Id, c: Id) { x in nodes && exists k: nat :: Up(nodes, x, k) == Some(c) }

  lemma FreeMember(nodes: Nodes, c: Id, h: nat, r: Id, x: Id)
    requires Consistent(nodes) && ListedBut(nodes, c) && c in nodes && Rooted(nodes, c, h, r)
    ensures x in FreeOrder(nodes, c, |nodes| + 1) <==> Descends(nodes, x, c)
    ensures Descends(nodes, x, c) <==> x in nodes && Below(nodes, x, c, |nodes|)
  {
    var n := |nodes| + 1;
    if x in nodes && Below(nodes, x, c, |nodes|) { var k := UpFromBelow(nodes, x, c, |nodes|); }
    if x in FreeOrder(nodes, c, n) { var k := FreedBelow(nodes, c, n, x); }
    if Descends(nodes, x, c) {
      var k: nat :| Up(nodes, x, k) == Some(c);
      BelowBound(nodes, x, c, k);
      var m := UpFromBelow(nodes, x, c, |nodes|);
      BelowFreed(nodes, c, h, r, c, 0, n, x, m);
    }
  }

  /**
   The recursion over children frees exactly the nodes from which parent pointers lead to `c`, however
   far, and each of them once; what it leaves is the tree without `c`.
   */
  lemma FreeExact(nodes: Nodes, c: Id, h: nat, r: Id)
    requires Consistent(nodes) && ListedBut(nodes, c) && c in nodes && Rooted(nodes, c, h, r)
    ensures var order := FreeOrder(nodes, c, |nodes| + 1);
      && Once(order)
      && (forall x :: x in order <==> Descends(nodes, x, c))
      && Without(nodes, c) == map x | x in nodes && x !in order :: nodes[x]
  {
    FreeOnce(nodes, c, h, r, |nodes| + 1);
    forall x
      ensures x in FreeOrder(nodes, c, |nodes| + 1) <==> Descends(nodes, x, c)
      ensures Descends(nodes, x, c) <==> x in nodes && Below(nodes, x, c, |nodes|)
    {
      FreeMember(nodes, c, h, r, x);
    }
  }
}
