/**
  Singly linked lists: nodes changed in place through the head pointer and the links.
 */
module Slist {
  import opened Common

  /** The list after putting items in front, one after another. */
  function Prepended<T>(items: seq<T>, list: seq<T>): seq<T> {
    if items == [] then list else Prepended(items[1..], [items[0]] + list)
  }

  lemma {:induction false} PrependedIs<T>(items: seq<T>, list: seq<T>)
    ensures Prepended(items, list) == Rev(items) + list
  {
    if items != [] {
      PrependedIs(items[1..], [items[0]] + list);
      assert Rev(items) == Rev(items[1..]) + [items[0]];
      assert Rev(items[1..]) + ([items[0]] + list) == Rev(items[1..]) + [items[0]] + list;
    }
  }

  /** Putting items in front of an empty list and reversing it is adding them in order. */
  lemma {:induction false} PrependAndReverse<T>(items: seq<T>)
    ensures Rev(Prepended(items, [])) == items
  {
    PrependedIs(items, []);
    assert Rev(items) + [] == Rev(items);
    RevTwice(items);
  }

  class Node<T> {
    var data: T
    var next: Node?<T>

    constructor (data: T, next: Node?<T>)
      ensures this.data == data && this.next == next
    {
      this.data, this.next := data, next;
    }
  }

  function At<T>(nodes: seq<Node<T>>, i: nat): Node?<T> {
    if i < |nodes| then nodes[i] else null
  }

  /** The node before place `i`. */
  function Before<T>(nodes: seq<Node<T>>, i: nat): Node?<T>
    requires i <= |nodes|
  {
    if i == 0 then null else nodes[i - 1]
  }

  /** The nodes of a list from its first to its last. */
  ghost predicate Linked<T>(head: Node?<T>, nodes: seq<Node<T>>)
    reads nodes
  {
    && head == At(nodes, 0)
    && (forall i {:trigger nodes[i].next} :: 0 <= i < |nodes| ==> nodes[i].next == At(nodes, i + 1))
    && Distinct(nodes)
  }

  ghost function Data<T>(nodes: seq<Node<T>>): (d: seq<T>)
    reads nodes
    ensures |d| == |nodes|
  {
    seq(|nodes|, i requires 0 <= i < |nodes| reads nodes => nodes[i].data)
  }

  /** The first `i` links point back, the others forward. */
  ghost predicate Turned<T>(nodes: seq<Node<T>>, i: nat)
    requires i <= |nodes|
    reads nodes
  {
    && Distinct(nodes)
    && (forall k {:trigger nodes[k].next} :: 0 <= k < i ==> nodes[k].next == Before(nodes, k))
    && (forall k {:trigger nodes[k].next} :: i <= k < |nodes| ==> nodes[k].next == At(nodes, k + 1))
  }

  lemma {:induction false} RevDistinct<T>(nodes: seq<Node<T>>)
    requires Distinct(nodes)
    ensures Distinct(Rev(nodes))
  {
    var r, n := Rev(nodes), |nodes|;
    forall i, j | 0 <= i < j < n
      ensures r[i] != r[j]
    {
      assert r[i] == nodes[n - 1 - i] && r[j] == nodes[n - 1 - j];
    }
  }

  lemma {:induction false} RevData<T>(nodes: seq<Node<T>>)
    ensures Data(Rev(nodes)) == Rev(Data(nodes))
  {
  }

  /** When every link has been turned around, the same nodes are linked in reverse. */
  lemma {:induction false} TurnedAround<T>(head: Node?<T>, nodes: seq<Node<T>>)
    requires Turned(nodes, |nodes|) && head == Before(nodes, |nodes|)
    ensures Linked(head, Rev(nodes)) && Data(Rev(nodes)) == Rev(Data(nodes))
  {
    var r, n := Rev(nodes), |nodes|;
    RevDistinct(nodes);
    RevData(nodes);
    forall k | 0 <= k < n
      ensures r[k].next == At(r, k + 1)
    {
      assert r[k] == nodes[n - 1 - k] && nodes[n - 1 - k].next == Before(nodes, n - 1 - k);
    }
  }

  lemma {:induction false} DataAppend<T>(nodes: seq<Node<T>>, node: Node<T>)
    ensures Data(nodes + [node]) == Data(nodes) + [node.data]
  {
    var longer := nodes + [node];
    forall i | 0 <= i < |longer|
      ensures Data(longer)[i] == (Data(nodes) + [node.data])[i]
    {
    }
  }

  /** When the link into node `k` has been led past it, the other nodes are linked. */
  lemma {:induction false} Closed<T>(nodes: seq<Node<T>>, k: nat, head: Node?<T>)
    requires k < |nodes| && Distinct(nodes)
    requires forall i {:trigger nodes[i].next} :: 0 <= i < |nodes| && i + 1 != k ==> nodes[i].next == At(nodes, i + 1)
    requires k > 0 ==> nodes[k - 1].next == At(nodes, k + 1) && head == nodes[0]
    requires k == 0 ==> head == At(nodes, 1)
    ensures Linked(head, Without(nodes, k)) && Data(Without(nodes, k)) == Without(Data(nodes), k)
  {
    var w := Without(nodes, k);
    forall i | 0 <= i < |w|
      ensures w[i].next == At(w, i + 1)
    {
      if i < k {
        assert w[i] == nodes[i];
      } else {
        assert w[i] == nodes[i + 1];
      }
    }
  }

  class Slist<T> {
    var head: Node?<T>
    ghost var nodes: seq<Node<T>>

    ghost predicate Valid()
      reads this, nodes
    {
      Linked(head, nodes)
    }

    ghost function Items(): seq<T>
      reads this, nodes
    {
      Data(nodes)
    }

    constructor ()
      ensures Valid() && nodes == []
    {
      head, nodes := null, [];
    }

    method Last() returns (p: Node<T>)
      requires Valid() && head != null
      ensures p == nodes[|nodes| - 1]
    {
      p := head;
      ghost var i := 0;
      while p.next != null
        invariant i < |nodes| && p == nodes[i]
        decreases |nodes| - i
      {
        p := p.next;
        i := i + 1;
      }
    }

    /** Adds at the end, walking the whole list to get there. */
    method Add(data: T)
      requires Valid()
      modifies this, nodes`next
      ensures Valid() && Items() == old(Items()) + [data]
      ensures |nodes| == |old(nodes)| + 1 && nodes[..|nodes| - 1] == old(nodes) && fresh(nodes[|nodes| - 1])
    {
      var node := new Node(data, null);
      if head == null {
        head := node;
        nodes := [node];
        assert Items() == [data] && old(Items()) == [];
      } else {
        var last := Last();
        ghost var ns := nodes;
        assert forall k :: 0 <= k < |ns| - 1 ==> ns[k] != last;
        last.next := node;
        nodes := ns + [node];
        assert Data(ns) == old(Items());
        DataAppend(ns, node);
      }
    }

    /** Adds at the front. */
    method Preadd(data: T)
      requires Valid()
      modifies this
      ensures Valid() && Items() == [data] + old(Items())
      ensures |nodes| == |old(nodes)| + 1 && nodes[1..] == old(nodes) && fresh(nodes[0])
    {
      var node := new Node(data, head);
      head := node;
      nodes := [node] + nodes;
    }

    /** Walks to the first item that satisfies `p`, remembering the node before. */
    method Locate(p: T -> bool) returns (prev: Node?<T>, q: Node?<T>)
      requires Valid()
      ensures var k := FirstIndex(Items(), p);
              k <= |nodes| && q == At(nodes, k) && prev == Before(nodes, k)
    {
      prev, q := null, head;
      ghost var k := 0;
      while q != null && !p(q.data)
        invariant k <= |nodes| && q == At(nodes, k) && prev == Before(nodes, k)
        invariant forall i :: 0 <= i < k ==> !p(nodes[i].data)
        decreases |nodes| - k
      {
        prev, q := q, q.next;
        k := k + 1;
      }
      FirstIndexIs(Items(), p, k);
    }

    /** Relinks around node `k`. */
    method Unlink(prev: Node?<T>, q: Node<T>, ghost k: nat)
      requires Valid() && k < |nodes| && q == nodes[k] && prev == Before(nodes, k)
      modifies this, nodes`next
      ensures Valid() && nodes == Without(old(nodes), k) && Items() == Without(old(Items()), k)
    {
      ghost var ns, shorter := nodes, Without(nodes, k);
      if prev == null {
        head := q.next;
      } else {
        prev.next := q.next;
      }
      nodes := shorter;
      Closed(ns, k, head);
      assert Data(ns) == old(Items());
    }

    /** Takes out the first item that satisfies `p`. */
    method RemoveFirst(p: T -> bool) returns (removed: Option<T>)
      requires Valid()
      modifies this, nodes`next
      ensures Valid()
      ensures var k := FirstIndex(old(Items()), p);
              nodes == Without(old(nodes), k) && Items() == Without(old(Items()), k)
              && removed == (if k < |old(Items())| then Some(old(Items())[k]) else None)
    {
      var prev, q := Locate(p);
      if q == null {
        return None;
      }
      removed := Some(q.data);
      Unlink(prev, q, FirstIndex(Items(), p));
    }

    /** The first item that satisfies `p`. */
    method Find(p: T -> bool) returns (found: Option<T>)
      requires Valid()
      ensures var k := FirstIndex(Items(), p); found == if k < |Items()| then Some(Items()[k]) else None
    {
      var _, q := Locate(p);
      found := if q == null then None else Some(q.data);
    }

    /** Turns the link of the first node not yet turned, and moves on. */
    method TurnNext(before: Node?<T>, ghost ns: seq<Node<T>>, ghost i: nat) returns (prev: Node?<T>)
      requires i < |ns| && head == ns[i] && before == Before(ns, i) && Turned(ns, i)
      modifies this`head, head`next
      ensures head == At(ns, i + 1) && prev == Before(ns, i + 1) && Turned(ns, i + 1)
    {
      assert forall k :: 0 <= k < |ns| && k != i ==> ns[k] != head;
      var next := head.next;
      head.next := before;
      prev := head;
      head := next;
    }

    /** Turns every link around, and returns the last node. */
    method TurnAll() returns (prev: Node?<T>)
      requires Valid()
      modifies this`head, nodes`next
      ensures prev == Before(nodes, |nodes|) && Turned(nodes, |nodes|) && Items() == old(Items())
    {
      prev := null;
      ghost var i, ns := 0, nodes;
      while head != null
        invariant i <= |ns| && head == At(ns, i) && prev == Before(ns, i) && Turned(ns, i)
        decreases |ns| - i
      {
        prev := TurnNext(prev, ns, i);
        i := i + 1;
      }
    }

    /** Reverses the same nodes in place. */
    method Reverse()
      requires Valid()
      modifies this, nodes`next
      ensures Valid() && nodes == Rev(old(nodes)) && Items() == Rev(old(Items()))
    {
      var last := TurnAll();
      ghost var ns := nodes;
      head, nodes := last, Rev(ns);
      TurnedAround(head, ns);
      assert Data(ns) == old(Items());
    }

    /** The items an action is called on, in order. */
    method Foreach() returns (visited: seq<T>)
      requires Valid()
      ensures visited == Items()
    {
      visited := [];
      var q := head;
      while q != null
        invariant |visited| <= |nodes| && q == At(nodes, |visited|) && visited == Items()[..|visited|]
        decreases |nodes| - |visited|
      {
        visited := visited + [q.data];
        q := q.next;
      }
    }
  }

  /** Puts items in front of a new list, one after another, and reverses it. */
  method PreaddThenReverse<T>(items: seq<T>) returns (list: Slist<T>)
    ensures fresh(list) && list.Valid() && list.Items() == items
  {
    list := new Slist();
    assert items[0..] == items;
    for k := 0 to |items|
      invariant fresh(list) && list.Valid() && (forall i :: 0 <= i < |list.nodes| ==> fresh(list.nodes[i]))
      invariant Prepended(items[k..], list.Items()) == Prepended(items, [])
    {
      assert items[k..][0] == items[k] && items[k..][1..] == items[k + 1..];
      ghost var ns := list.nodes;
      list.Preadd(items[k]);
      assert forall i :: 0 < i < |list.nodes| ==> list.nodes[i] == ns[i - 1];
    }
    PrependAndReverse(items);
    list.Reverse();
  }
}
