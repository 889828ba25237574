/**
  Doubly linked lists: nodes changed in place through the head pointer and the links.
 */
module List {
  import opened Common
  import opened ListSpec

  class Node<T> {
    var data: T
    var next: Node?<T>
    var prev: Node?<T>

    constructor (data: T, next: Node?<T>)
      ensures this.data == data && this.next == next && prev == null
    {
      this.data, this.next, prev := data, next, null;
    }
  }

  function At<T>(nodes: seq<Node<T>>, i: nat): Node?<T> {
    if i < |nodes| then nodes[i] else null
  }

  function Before<T>(nodes: seq<Node<T>>, i: nat): Node?<T>
    requires i <= |nodes|
  {
    if i == 0 then null else nodes[i - 1]
  }

  /** The `next` links are exact; each `prev` link is exact or null. */
  ghost predicate Linked<T>(head: Node?<T>, nodes: seq<Node<T>>)
    reads nodes
  {
    && head == At(nodes, 0)
    && Distinct(nodes)
    && (forall i {:trigger nodes[i].next} :: 0 <= i < |nodes| ==> nodes[i].next == At(nodes, i + 1))
    && (forall i {:trigger nodes[i].prev} :: 0 <= i < |nodes| ==>
          nodes[i].prev == null || nodes[i].prev == Before(nodes, i))
  }

  ghost function Cells<T>(nodes: seq<Node<T>>): (c: seq<Cell<T>>)
    reads nodes
    ensures |c| == |nodes|
  {
    seq(|nodes|, i requires 0 <= i < |nodes| reads nodes => Cell(nodes[i].data, nodes[i].prev != null))
  }

  /** When a new node has been linked to and from the last one, it is part of the list. */
  lemma {:induction false} Grown<T>(head: Node?<T>, nodes: seq<Node<T>>, node: Node<T>, cells: seq<Cell<T>>)
    requires |nodes| == |cells| && Distinct(nodes) && node !in nodes && Proper(cells)
    requires head == (if nodes == [] then node else nodes[0])
    requires node.next == null && node.prev == Before(nodes, |nodes|)
    requires forall i :: 0 <= i < |nodes| ==> nodes[i].next == if i + 1 < |nodes| then nodes[i + 1] else node
    requires forall i :: 0 <= i < |nodes| ==> nodes[i].prev == if cells[i].back then Before(nodes, i) else null
    requires forall i :: 0 <= i < |nodes| ==> nodes[i].data == cells[i].data
    ensures Linked(head, nodes + [node]) && Cells(nodes + [node]) == Added(cells, node.data)
  {
    var longer := nodes + [node];
    forall i | 0 <= i < |longer|
      ensures longer[i].next == At(longer, i + 1)
    {
      if i < |nodes| {
        assert longer[i] == nodes[i];
        assert nodes[i].next == if i + 1 < |nodes| then nodes[i + 1] else node;
        assert At(longer, i + 1) == longer[i + 1];
        assert longer[i + 1] == if i + 1 < |nodes| then nodes[i + 1] else node;
      } else {
        assert longer[i] == node;
        assert At(longer, i + 1) == null;
        assert longer[i].next == null;
      }
    }
    forall i | 0 <= i < |longer|
      ensures longer[i].prev == if Added(cells, node.data)[i].back then Before(longer, i) else null
    {
    }
  }

  /** The first `i` nodes have exchanged their links, the others have not. */
  ghost predicate Exchanged<T>(nodes: seq<Node<T>>, prevs: seq<Node?<T>>, i: nat)
    requires i <= |nodes| == |prevs|
    reads nodes
  {
    && (forall k {:trigger nodes[k].next} :: 0 <= k < |nodes| ==>
          nodes[k].next == if k < i then prevs[k] else At(nodes, k + 1))
    && (forall k {:trigger nodes[k].prev} :: 0 <= k < |nodes| ==>
          nodes[k].prev == if k < i then At(nodes, k + 1) else prevs[k])
  }

  lemma {:induction false} TailReversed<T>(nodes: seq<Node<T>>, s: nat, k: nat)
    requires s <= |nodes| && k <= |nodes| - s
    ensures At(Backwards(nodes, s), k) == if k < |nodes| - s then nodes[|nodes| - 1 - k] else null
    ensures Before(Backwards(nodes, s), k) == if k == 0 then null else nodes[|nodes| - k]
  {
  }

  lemma {:induction false} TailDistinct<T>(nodes: seq<Node<T>>, s: nat)
    requires s <= |nodes| && Distinct(nodes)
    ensures Distinct(Backwards(nodes, s))
  {
    var r, n := Backwards(nodes, s), |nodes|;
    forall i, j | 0 <= i < j < n - s
      ensures r[i] != r[j]
    {
      assert r[i] == nodes[n - 1 - i] && r[j] == nodes[n - 1 - j];
    }
  }

  /** When all nodes have exchanged their links, those from the last back to `s` are linked. */
  lemma {:induction false} TurnedAt<T>(nodes: seq<Node<T>>, prevs: seq<Node?<T>>, s: nat, k: nat)
    requires |nodes| == |prevs| && Exchanged(nodes, prevs, |nodes|) && s <= |nodes| && k < |nodes| - s
    requires forall i :: s <= i < |nodes| ==> prevs[i] == if i == s then null else nodes[i - 1]
    ensures var r := Backwards(nodes, s);
            r[k] == nodes[|nodes| - 1 - k] && r[k].next == At(r, k + 1) && r[k].prev == Before(r, k)
  {
    var j := |nodes| - 1 - k;
    TailReversed(nodes, s, k);
    TailReversed(nodes, s, k + 1);
    assert nodes[j].next == prevs[j] && nodes[j].prev == At(nodes, j + 1);
  }

  lemma {:induction false} TurnedPrevs<T>(nodes: seq<Node<T>>, prevs: seq<Node?<T>>, cells: seq<Cell<T>>)
    requires |nodes| == |prevs| == |cells|
    requires forall i :: 0 <= i < |nodes| ==> prevs[i] == if cells[i].back then Before(nodes, i) else null
    ensures var s := Start(cells);
            forall i :: s <= i < |nodes| ==> prevs[i] == if i == s then null else nodes[i - 1]
  {
  }

  lemma {:induction false} TurnedLinks<T>(head: Node?<T>, nodes: seq<Node<T>>, prevs: seq<Node?<T>>, s: nat)
    requires Distinct(nodes) && |nodes| == |prevs| && Exchanged(nodes, prevs, |nodes|)
    requires head == Before(nodes, |nodes|) && s <= |nodes| && (nodes != [] ==> s < |nodes|)
    requires forall i :: s <= i < |nodes| ==> prevs[i] == if i == s then null else nodes[i - 1]
    ensures Linked(head, Backwards(nodes, s))
  {
    var r := Backwards(nodes, s);
    TailDistinct(nodes, s);
    TailReversed(nodes, s, 0);
    forall k | 0 <= k < |r|
      ensures r[k].next == At(r, k + 1) && r[k].prev == Before(r, k)
    {
      TurnedAt(nodes, prevs, s, k);
    }
  }

  lemma {:induction false} TurnedCells<T>(nodes: seq<Node<T>>, prevs: seq<Node?<T>>, cells: seq<Cell<T>>, s: nat)
    requires |nodes| == |prevs| == |cells| && Exchanged(nodes, prevs, |nodes|) && s <= |nodes|
    requires forall i :: s <= i < |nodes| ==> prevs[i] == if i == s then null else nodes[i - 1]
    requires forall i :: 0 <= i < |nodes| ==> nodes[i].data == cells[i].data
    ensures Cells(Backwards(nodes, s)) == TurnedBack(cells, s)
  {
    forall k | 0 <= k < |nodes| - s
      ensures Cells(Backwards(nodes, s))[k] == TurnedBack(cells, s)[k]
    {
      TurnedAt(nodes, prevs, s, k);
    }
  }

  lemma {:induction false} TurnedAround<T>(head: Node?<T>, nodes: seq<Node<T>>, prevs: seq<Node?<T>>,
                                           cells: seq<Cell<T>>)
    requires Distinct(nodes) && |nodes| == |prevs| == |cells| && Exchanged(nodes, prevs, |nodes|)
    requires head == Before(nodes, |nodes|)
    requires forall i :: 0 <= i < |nodes| ==> prevs[i] == if cells[i].back then Before(nodes, i) else null
    requires forall i :: 0 <= i < |nodes| ==> nodes[i].data == cells[i].data
    ensures Linked(head, Backwards(nodes, Start(cells))) && Cells(Backwards(nodes, Start(cells))) == Reversed(cells)
  {
    var s := Start(cells);
    TurnedPrevs(nodes, prevs, cells);
    TurnedLinks(head, nodes, prevs, s);
    TurnedCells(nodes, prevs, cells, s);
  }

  lemma {:induction false} WithoutDistinct<T>(nodes: seq<Node<T>>, k: nat)
    requires Distinct(nodes)
    ensures Distinct(Without(nodes, k))
  {
  }

  /** When the links into and out of node `k` have been led past it, the other nodes are linked. */
  lemma {:induction false} Closed<T>(head: Node?<T>, nodes: seq<Node<T>>, k: nat, cells: seq<Cell<T>>)
    requires k < |nodes| == |cells| && Distinct(nodes) && Proper(cells)
    requires head == if k == 0 then At(nodes, 1) else nodes[0]
    requires forall i {:trigger nodes[i].next} :: 0 <= i < |nodes| && i != k ==>
               nodes[i].next == At(nodes, if i + 1 == k then k + 1 else i + 1)
    requires forall i {:trigger nodes[i].prev} :: 0 <= i < |nodes| && i != k && i != k + 1 ==>
               nodes[i].prev == if cells[i].back then Before(nodes, i) else null
    requires k + 1 < |nodes| ==> nodes[k + 1].prev == if cells[k].back then Before(nodes, k) else null
    requires forall i :: 0 <= i < |nodes| ==> nodes[i].data == cells[i].data
    ensures Linked(head, Without(nodes, k)) && Cells(Without(nodes, k)) == Removed(cells, k)
  {
    var w, r := Without(nodes, k), Removed(cells, k);
    WithoutDistinct(nodes, k);
    assert |w| == |r| && head == At(w, 0);
    forall i | 0 <= i < |w|
      ensures w[i].next == At(w, i + 1) && w[i].data == r[i].data
      ensures w[i].prev == if r[i].back then Before(w, i) else null
    {
      WithoutIndex(nodes, k, i);
      if i + 1 < |w| {
        WithoutIndex(nodes, k, i + 1);
      }
      if i > 0 {
        WithoutIndex(nodes, k, i - 1);
      }
    }
  }

  class List<T(==)> {
    var head: Node?<T>
    ghost var nodes: seq<Node<T>>

    ghost predicate Valid()
      reads this, nodes
    {
      Linked(head, nodes)
    }

    /** The items with their back links. */
    ghost function Value(): seq<Cell<T>>
      reads this, nodes
    {
      Cells(nodes)
    }

    constructor ()
      ensures Valid() && nodes == []
    {
      head, nodes := null, [];
    }

    method Last() returns (p: Node<T>)
      requires Valid() && head != null
      ensures p == nodes[|nodes| - 1]
    {
      p := head;
      ghost var i := 0;
      while p.next != null
        invariant i < |nodes| && p == nodes[i]
        decreases |nodes| - i
      {
        p := p.next;
        i := i + 1;
      }
    }

    /** Links a new node behind the last one. */
    method Append(last: Node<T>, node: Node<T>)
      requires Valid() && nodes != [] && last == nodes[|nodes| - 1]
      requires node !in nodes && node.next == null && node.prev == null
      modifies this`nodes, last`next, node`prev
      ensures Valid() && Value() == Added(old(Value()), node.data) && nodes == old(nodes) + [node]
    {
      ghost var ns, cells := nodes, Value();
      last.next := node;
      node.prev := last;
      nodes := ns + [node];
      Grown(head, ns, node, cells);
    }

    /** Adds at the end. */
    method Add(data: T)
      requires Valid()
      modifies this, nodes`next
      ensures Valid() && Value() == Added(old(Value()), data)
      ensures Data(Value()) == Data(old(Value())) + [data]
      ensures |nodes| == |old(nodes)| + 1 && nodes[..|nodes| - 1] == old(nodes) && fresh(nodes[|nodes| - 1])
    {
      var node := new Node(data, null);
      if head != null {
        var last := Last();
        Append(last, node);
      } else {
        head := node;
        nodes := [node];
      }
    }

    /** Adds at the front; the old first node is not linked back. */
    method Preadd(data: T)
      requires Valid()
      modifies this
      ensures Valid() && Value() == Preadded(old(Value()), data)
      ensures Data(Value()) == [data] + Data(old(Value()))
      ensures |nodes| == |old(nodes)| + 1 && nodes[1..] == old(nodes) && fresh(nodes[0])
    {
      var node := new Node(data, head);
      head := node;
      nodes := [node] + nodes;
    }

    /** Walks to the first item that satisfies `p`, remembering the node before. */
    method Locate(p: T -> bool) returns (before: Node?<T>, q: Node?<T>)
      requires Valid()
      ensures var k := FirstIndex(Data(Value()), p);
              k <= |nodes| && q == At(nodes, k) && before == Before(nodes, k)
    {
      before, q := null, head;
      ghost var k := 0;
      while q != null && !p(q.data)
        invariant k <= |nodes| && q == At(nodes, k) && before == Before(nodes, k)
        invariant forall i :: 0 <= i < k ==> !p(nodes[i].data)
        decreases |nodes| - k
      {
        before, q := q, q.next;
        k := k + 1;
      }
      FirstIndexIs(Data(Value()), p, k);
    }

    /** Leads the links past node `k`. */
    method Unlink(before: Node?<T>, p: Node<T>, ghost k: nat)
      requires Valid() && k < |nodes| && p == nodes[k] && before == Before(nodes, k)
      modifies this, nodes`next, nodes`prev
      ensures Valid() && Value() == Removed(old(Value()), k) && nodes == Without(old(nodes), k)
    {
      ghost var ns, cells := nodes, Value();
      var prev, next := p.prev, p.next;
      if before == null {
        head := next;
      } else {
        before.next := next;
      }
      if next != null {
        next.prev := prev;
      }
      nodes := Without(ns, k);
      Closed(head, ns, k, cells);
    }

    /** Takes out the first item equal to `data`. */
    method Remove(data: T) returns (removed: bool)
      requires Valid()
      modifies this, nodes`next, nodes`prev
      ensures var k := FirstIndex(Data(old(Value())), d => d == data);
              Valid() && Value() == Removed(old(Value()), k) && nodes == Without(old(nodes), k)
              && (removed <==> k < |old(Value())|)
              && Data(Value()) == Without(Data(old(Value())), k)
    {
      removed := RemoveCustom(d => d == data);
    }

    /** Takes out the first item the comparison finds. */
    method RemoveCustom(p: T -> bool) returns (removed: bool)
      requires Valid()
      modifies this, nodes`next, nodes`prev
      ensures var k := FirstIndex(Data(old(Value())), p);
              Valid() && Value() == Removed(old(Value()), k) && nodes == Without(old(nodes), k)
              && (removed <==> k < |old(Value())|)
              && Data(Value()) == Without(Data(old(Value())), k)
    {
      RemovedData(Value(), FirstIndex(Data(Value()), p));
      var before, q := Locate(p);
      removed := q != null;
      if removed {
        Unlink(before, q, FirstIndex(Data(Value()), p));
      }
    }

    /** Takes out item `n`, counted from zero. */
    method RemoveNth(n: int) returns (removed: bool)
      requires Valid()
      modifies this, nodes`next, nodes`prev
      ensures Valid() && Value() == Removed(old(Value()), n)
      ensures nodes == (if n >= 0 then Without(old(nodes), n) else old(nodes))
      ensures removed <==> 0 <= n < |old(Value())|
      ensures Data(Value()) == if n >= 0 then Without(Data(old(Value())), n) else Data(old(Value()))
    {
      RemovedData(Value(), if n >= 0 then n else 0);
      var i, before, p := 0, null, head;
      while p != null && i != n
        invariant 0 <= i <= |nodes| && p == At(nodes, i) && before == Before(nodes, i)
        invariant 0 <= n ==> i <= n
        decreases |nodes| - i
      {
        before, p := p, p.next;
        i := i + 1;
      }
      removed := p != null;
      if removed {
        Unlink(before, p, i);
      }
    }

    /** Exchanges the links of the first node left, and moves on. */
    method ExchangeNext(ghost ns: seq<Node<T>>, ghost prevs: seq<Node?<T>>, ghost i: nat) returns (last: Node<T>)
      requires i < |ns| == |prevs| && head == ns[i] && Distinct(ns) && Exchanged(ns, prevs, i)
      modifies this`head, head`next, head`prev
      ensures head == At(ns, i + 1) && last == ns[i] && Exchanged(ns, prevs, i + 1)
    {
      assert forall k :: 0 <= k < |ns| && k != i ==> ns[k] != head;
      last := head;
      head := last.next;
      last.next := last.prev;
      last.prev := head;
    }

    /** Exchanges the links of every node. What is then linked from the last node is the list. */
    method ExchangeAll() returns (last: Node?<T>)
      requires Valid()
      modifies this`head, nodes`next, nodes`prev
      ensures var cells := old(Value()); var left := Backwards(nodes, Start(cells));
              Linked(last, left) && Cells(left) == Reversed(cells)
    {
      ghost var ns, cells, i := nodes, Value(), 0;
      ghost var prevs := seq(|ns|, k requires 0 <= k < |ns| reads ns => ns[k].prev);
      last := null;
      while head != null
        invariant i <= |ns| && head == At(ns, i) && last == Before(ns, i) && Exchanged(ns, prevs, i)
        decreases |ns| - i
      {
        last := ExchangeNext(ns, prevs, i);
        i := i + 1;
      }
      TurnedAround(last, ns, prevs, cells);
    }

    /** Reverses what the back links reach from the last node. */
    method Reverse()
      requires Valid()
      modifies this, nodes`next, nodes`prev
      ensures Valid() && Value() == Reversed(old(Value()))
      ensures Data(Value()) == Backwards(Data(old(Value())), Start(old(Value())))
      ensures nodes == Backwards(old(nodes), Start(old(Value())))
    {
      ghost var ns, cells := nodes, Value();
      ReversedData(cells);
      var last := ExchangeAll();
      head := last;
      nodes := Backwards(ns, Start(cells));
    }

    /** The items an action is called on, in order. */
    method Foreach() returns (visited: seq<T>)
      requires Valid()
      ensures visited == Data(Value())
    {
      visited := [];
      var q := head;
      while q != null
        invariant |visited| <= |nodes| && q == At(nodes, |visited|) && visited == Data(Value())[..|visited|]
        decreases |nodes| - |visited|
      {
        visited := visited + [q.data];
        q := q.next;
      }
    }

    /** The items visited backwards from the last: all of them when the links are mirrors. */
    method RevForeach() returns (visited: seq<T>)
      requires Valid()
      ensures visited == Backwards(Data(Value()), Start(Value()))
    {
      visited := [];
      if head == null {
        return;
      }
      var p := Last();
      ghost var items, n, s := Data(Value()), |nodes|, Start(Value());
      while p != null
        invariant |visited| <= n - s && p == (if |visited| == n - s then null else nodes[n - 1 - |visited|])
        invariant forall i :: 0 <= i < |visited| ==> visited[i] == items[n - 1 - i]
        decreases n - |visited|
      {
        assert Value()[n - 1 - |visited|].back <==> p.prev != null;
        visited := visited + [p.data];
        p := p.prev;
      }
    }
  }

  /** Puts items in front of a new list, one after another, and reverses it: all but the first of
      them are lost. */
  method PreaddThenReverse<T(==)>(items: seq<T>) returns (list: List<T>)
    ensures fresh(list) && list.Valid() && Data(list.Value()) == if items == [] then [] else [items[0]]
  {
    list := new List();
    assert items[0..] == items;
    for k := 0 to |items|
      invariant fresh(list) && list.Valid() && (forall i :: 0 <= i < |list.nodes| ==> fresh(list.nodes[i]))
      invariant AllPreadded(list.Value(), items[k..]) == AllPreadded([], items)
    {
      assert items[k..][0] == items[k] && items[k..][1..] == items[k + 1..];
      ghost var ns := list.nodes;
      list.Preadd(items[k]);
      assert forall i :: 0 < i < |list.nodes| ==> list.nodes[i] == ns[i - 1];
    }
    PreaddAndReverseIff(items);
    list.Reverse();
  }
}
