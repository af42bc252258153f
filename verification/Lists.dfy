/** What the operations of the kernel's `List` do to the sequence of items it holds. */
module ListSpec {

  function Insert<T>(s: seq<T>, k: nat, x: T): seq<T>
    requires k <= |s|
  {
    s[..k] + [x] + s[k..]
  }

  function Remove<T>(s: seq<T>, k: nat): seq<T>
    requires k < |s|
  {
    s[..k] + s[k + 1..]
  }

  /** Index of the first occurrence of `x`, or the length of `s`. */
  function Find<T(==)>(s: seq<T>, x: T): (k: nat)
    ensures k <= |s| && (k < |s| ==> s[k] == x) && x !in s[..k]
    ensures k == |s| <==> x !in s
  {
    if s == [] || s[0] == x then 0 else 1 + Find(s[1..], x)
  }

  lemma FindIs<T>(s: seq<T>, x: T, k: nat)
    requires k <= |s| && (k < |s| ==> s[k] == x) && forall i | 0 <= i < k :: s[i] != x
    ensures Find(s, x) == k
  {}

  lemma Regroup<T>(a: seq<T>, b: seq<T>, c: seq<T>)
    ensures (a + b) + c == a + (b + c)
  {}
}

/** The singly linked list of kernel/list.c refines a sequence; `nodes` lists the cells in order. */
module Lists {
  import opened ListSpec
  import opened Options

  class Node<T> {
    var data: T
    var next: Node?<T>

    constructor (data: T, next: Node?<T>)
      ensures this.data == data && this.next == next
    {
      this.data, this.next := data, next;
    }
  }

  class List<T(==)> {
    var head: Node?<T>
    var tail: Node?<T>
    var count: nat
    ghost var nodes: seq<Node<T>>
    ghost var items: seq<T>

    ghost predicate Valid()
      reads this, nodes
    {
      && count == |nodes| == |items|
      && (forall i, j | 0 <= i < j < |nodes| :: nodes[i] != nodes[j])
      && (forall i {:trigger nodes[i].next} | 0 <= i < |nodes| :: nodes[i].next == Cell(i + 1))
      && (forall i {:trigger nodes[i].data} | 0 <= i < |nodes| :: nodes[i].data == items[i])
      && head == Cell(0)
      && tail == (if nodes == [] then null else nodes[|nodes| - 1])
    }

    /** The cell at position `i`, null just past the end. */
    ghost function Cell(i: nat): Node?<T>
      reads this
    {
      if i < |nodes| then nodes[i] else null
    }

    constructor ()
      ensures Valid() && items == []
    {
      head, tail, count := null, null, 0;
      nodes, items := [], [];
    }

    method Add(item: T)
      requires Valid()
      modifies this, nodes
      ensures Valid() && items == old(items) + [item]
      ensures forall n | n in nodes :: n in old(nodes) || fresh(n)
    {
      var node := new Node(item, null);
      if head == null {
        head, tail := node, node;
      } else {
        tail.next := node;
        tail := node;
      }
      count := count + 1;
      nodes, items := nodes + [node], items + [item];
    }

    method RemoveAt(index: nat) returns (ok: bool)
      requires Valid()
      modifies this, nodes
      ensures Valid() && ok == (index < |old(items)|)
      ensures items == if ok then ListSpec.Remove(old(items), index) else old(items)
      ensures forall n | n in nodes :: n in old(nodes)
    {
      if index >= count { return false; }
      var prev: Node?<T>, cur := null, head;
      for i := 0 to index
        invariant cur == Cell(i) && prev == (if i == 0 then null else Cell(i - 1))
        invariant Valid() && nodes == old(nodes) && items == old(items)
      {
        prev := cur;
        cur := cur.next;
      }
      Unlink(prev, cur, index);
      ok := true;
    }

    /** Takes the cell `cur` at position `k`, whose predecessor is `prev`, out of the chain. */
    method Unlink(prev: Node?<T>, cur: Node<T>, ghost k: nat)
      requires Valid() && k < |nodes| && cur == nodes[k] && prev == (if k == 0 then null else nodes[k - 1])
      modifies this, nodes
      ensures Valid() && items == ListSpec.Remove(old(items), k)
      ensures nodes == old(nodes)[..k] + old(nodes)[k + 1..]
    {
      if prev == null {
        head := cur.next;
        if tail == cur { tail := cur.next; }
      } else {
        prev.next := cur.next;
        if tail == cur { tail := prev; }
      }
      count := count - 1;
      nodes, items := nodes[..k] + nodes[k + 1..], items[..k] + items[k + 1..];
      forall i | 0 <= i < |nodes|
        ensures nodes[i] == old(nodes)[if i < k then i else i + 1] && items[i] == old(items)[if i < k then i else i + 1]
      {}
      forall i | 0 <= i < |nodes| ensures nodes[i].next == Cell(i + 1) {
        if i + 1 < k { assert old(nodes)[i].next == old(nodes)[i + 1]; }
      }
    }

    method Remove(item: T) returns (ok: bool)
      requires Valid()
      modifies this, nodes
      ensures Valid() && ok == (item in old(items))
      ensures items == if ok then ListSpec.Remove(old(items), Find(old(items), item)) else old(items)
      ensures forall n | n in nodes :: n in old(nodes)
    {
      var prev: Node?<T>, cur := null, head;
      ghost var i := 0;
      while cur != null
        invariant 0 <= i <= |nodes| && cur == Cell(i) && prev == (if i == 0 then null else Cell(i - 1))
        invariant Valid() && nodes == old(nodes) && items == old(items)
        invariant forall j | 0 <= j < i :: items[j] != item
        decreases |nodes| - i
      {
        if cur.data == item {
          FindIs(items, item, i);
          assert items[i] == item;
          Unlink(prev, cur, i);
          return true;
        }
        prev := cur;
        cur := cur.next;
        i := i + 1;
      }
      ok := false;
    }

    method IndexOf(item: T) returns (index: int)
      requires Valid()
      ensures index == if item in items then Find(items, item) else -1
    {
      index := 0;
      var n := head;
      while n != null
        invariant 0 <= index <= |nodes| && n == Cell(index)
        invariant forall j | 0 <= j < index :: items[j] != item
        decreases |nodes| - index
      {
        if n.data == item {
          FindIs(items, item, index);
          assert items[index] == item;
          return;
        }
        n := n.next;
        index := index + 1;
      }
      index := -1;
    }

    /** The item at `index`; the source answers NULL outside the list. */
    method GetAt(index: nat) returns (item: Option<T>)
      requires Valid()
      ensures item == if index < |items| then Some(items[index]) else None
    {
      if index >= count { return None; }
      var n := head;
      for i := 0 to index
        invariant n == Cell(i)
      {
        n := n.next;
      }
      item := Some(n.data);
    }

    method InsertAt(index: nat, item: T) returns (ok: bool)
      requires Valid()
      modifies this, nodes
      ensures Valid() && ok == (index <= |old(items)|)
      ensures items == if ok then Insert(old(items), index, item) else old(items)
    {
      if index > count { return false; }
      if index == count {
        Add(item);
        return true;
      }
      if index == 0 {
        Push(item);
        return true;
      }
      var prev := head;
      for i := 0 to index - 1
        invariant prev == Cell(i)
      {
        prev := prev.next;
      }
      LinkAfter(prev, item, index);
      ok := true;
    }

    /** Puts a new cell in front of a non-empty chain. */
    method Push(item: T)
      requires Valid() && count > 0
      modifies this
      ensures Valid() && items == Insert(old(items), 0, item)
    {
      var node := new Node(item, head);
      head := node;
      count := count + 1;
      nodes, items := Insert(nodes, 0, node), Insert(items, 0, item);
      assert forall i | 1 <= i < |nodes| :: nodes[i] == old(nodes)[i - 1];
    }

    /** Puts a new cell after `prev`, the cell at position `k - 1`. */
    method LinkAfter(prev: Node<T>, item: T, ghost k: nat)
      requires Valid() && 0 < k <= |nodes| && prev == nodes[k - 1]
      modifies this, prev
      ensures Valid() && items == Insert(old(items), k, item)
    {
      var node := new Node(item, prev.next);
      prev.next := node;
      if node.next == null { tail := node; }
      count := count + 1;
      nodes, items := nodes[..k] + [node] + nodes[k..], items[..k] + [item] + items[k..];
      forall i | 0 <= i < |nodes|
        ensures nodes[i] == if i < k then old(nodes)[i] else if i == k then node else old(nodes)[i - 1]
        ensures items[i] == if i < k then old(items)[i] else if i == k then item else old(items)[i - 1]
      {}
    }

    method Clear()
      requires Valid()
      modifies this
      ensures Valid() && items == []
    {
      head, tail, count := null, null, 0;
      nodes, items := [], [];
    }
  }
}
