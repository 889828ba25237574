/**
  The queue: a singly linked list with its last node remembered. The remembered node is stale
  while the queue is empty.
 */
module Queue {
  import opened Common
  import opened Slist

  function Inc(n: U32): U32 {
    if n + 1 == TWO32 then 0 else n + 1
  }

  function Dec(n: U32): U32 {
    if n == 0 then TWO32 - 1 else n - 1
  }

  /** A 32-bit counter after counting to `n`. */
  function Counted(n: nat): U32 {
    if n == 0 then 0 else Inc(Counted(n - 1))
  }

  lemma {:induction false} CountedIs(n: nat)
    ensures Counted(n) == n % TWO32
  {
    if n > 0 {
      CountedIs(n - 1);
    }
  }

  /** The count reads zero at 2^32 items, though the queue is far from empty. */
  lemma {:induction false} CountedWraps()
    ensures Counted(TWO32) == 0
  {
    CountedIs(TWO32);
  }

  // ---------------------------------------------------------------- what calls mean

  datatype Op<T> = DoPush(item: T) | DoPop

  /** What is in the queue and what has been popped. */
  datatype State<T> = State(contents: seq<T>, popped: seq<T>)

  function Step<T>(s: State<T>, op: Op<T>): State<T> {
    if op.DoPush? then s.(contents := s.contents + [op.item])
    else if s.contents == [] then s
    else State(s.contents[1..], s.popped + [s.contents[0]])
  }

  // ---------------------------------------------------------------- the queue

  class Queue<T> {
    var queue: Node?<T>
    var tail: Node?<T>
    var items: U32
    ghost var nodes: seq<Node<T>>

    /** The tail is the last node whenever there is one; otherwise it may be anything. */
    ghost predicate Valid()
      reads this, nodes
    {
      && Linked(queue, nodes)
      && (nodes != [] ==> tail == nodes[|nodes| - 1])
      && items == Counted(|nodes|)
    }

    ghost function Contents(): seq<T>
      reads this, nodes
    {
      Data(nodes)
    }

    constructor ()
      ensures Valid() && Contents() == []
    {
      queue, tail, items, nodes := null, null, 0, [];
    }

    /** Appends without walking: the same effect on the items as the list's own append. */
    method Push(item: T)
      requires Valid()
      modifies this, nodes`next
      ensures Valid() && Contents() == old(Contents()) + [item]
      ensures |nodes| == |old(nodes)| + 1 && nodes[..|nodes| - 1] == old(nodes) && fresh(nodes[|nodes| - 1])
    {
      var node := new Node(item, null);
      ghost var ns := nodes;
      assert forall k :: 0 <= k < |ns| - 1 ==> ns[k] != ns[|ns| - 1];
      if queue != null {
        tail.next := node;
      } else {
        queue := node;
      }
      nodes := ns + [node];
      assert Data(ns) == old(Contents());
      DataAppend(ns, node);
      tail := node;
      items := Inc(items);
    }

    method Pop() returns (item: Option<T>)
      requires Valid()
      modifies this
      ensures Valid()
      ensures item == if old(Contents()) == [] then None else Some(old(Contents())[0])
      ensures Contents() == if old(Contents()) == [] then [] else old(Contents())[1..]
      ensures forall n <- nodes :: n in old(nodes)
    {
      if queue == null {
        return None;
      }
      var p := queue;
      queue := p.next;
      item := Some(p.data);
      items := Dec(items);
      nodes := nodes[1..];
    }

    method NrItems() returns (n: U32)
      requires Valid()
      ensures n == |Contents()| % TWO32
    {
      CountedIs(|nodes|);
      n := items;
    }

    /** Visits every item in order, unless the 32-bit count reads zero. */
    method Foreach() returns (visited: seq<T>)
      requires Valid()
      ensures visited == if |Contents()| % TWO32 == 0 then [] else Contents()
    {
      CountedIs(|nodes|);
      visited := [];
      if items == 0 {
        return;
      }
      var q := queue;
      while q != null
        invariant |visited| <= |nodes| && q == At(nodes, |visited|) && visited == Contents()[..|visited|]
        decreases |nodes| - |visited|
      {
        visited := visited + [q.data];
        q := q.next;
      }
    }
  }

  // ---------------------------------------------------------------- runs

  function Run<T>(s: State<T>, ops: seq<Op<T>>): State<T>
    decreases |ops|
  {
    if ops == [] then s else Run(Step(s, ops[0]), ops[1..])
  }

  function Pushed<T>(ops: seq<Op<T>>): seq<T> {
    if ops == [] then []
    else (if ops[0].DoPush? then [ops[0].item] else []) + Pushed(ops[1..])
  }

  lemma {:induction false} StepConserves<T>(s: State<T>, op: Op<T>, later: seq<T>)
    ensures s.popped + s.contents + ((if op.DoPush? then [op.item] else []) + later)
         == Step(s, op).popped + Step(s, op).contents + later
  {
    if op.DoPop? && s.contents != [] {
      assert s.contents == [s.contents[0]] + s.contents[1..];
      assert s.popped + ([s.contents[0]] + s.contents[1..]) == s.popped + [s.contents[0]] + s.contents[1..];
    }
  }

  /** Over every run, what was pushed comes out in that order: first the items popped, then
      those left. */
  lemma {:induction false} RunConserves<T>(s: State<T>, ops: seq<Op<T>>)
    ensures s.popped + s.contents + Pushed(ops) == Run(s, ops).popped + Run(s, ops).contents
    decreases |ops|
  {
    if ops != [] {
      StepConserves(s, ops[0], Pushed(ops[1..]));
      RunConserves(Step(s, ops[0]), ops[1..]);
    }
  }

  lemma {:induction false} Conserved<T>(ops: seq<Op<T>>)
    ensures var s := Run(State([], []), ops); s.popped + s.contents == Pushed(ops)
  {
    RunConserves(State([], []), ops);
    assert [] + [] + Pushed(ops) == Pushed(ops);
  }

  /** How many items a run leaves of `n`: a push adds one, a pop takes one if there is one. */
  function Level<T>(n: nat, ops: seq<Op<T>>): nat
    decreases |ops|
  {
    if ops == [] then n else Level(if ops[0].DoPush? then n + 1 else if n == 0 then 0 else n - 1, ops[1..])
  }

  lemma {:induction false} RunLevel<T>(s: State<T>, ops: seq<Op<T>>)
    ensures |Run(s, ops).contents| == Level(|s.contents|, ops)
    decreases |ops|
  {
    if ops != [] {
      RunLevel(Step(s, ops[0]), ops[1..]);
    }
  }

  function Pushes<T>(items: seq<T>): (ops: seq<Op<T>>)
    ensures |ops| == |items|
  {
    seq(|items|, k requires 0 <= k < |items| => DoPush(items[k]))
  }

  function Pops<T>(n: nat): (ops: seq<Op<T>>)
    ensures |ops| == n
  {
    seq(n, _ => DoPop)
  }

  lemma {:induction false} RunPushes<T>(s: State<T>, items: seq<T>, later: seq<Op<T>>)
    ensures Run(s, Pushes(items) + later) == Run(s.(contents := s.contents + items), later)
    decreases |items|
  {
    if items == [] {
      assert Pushes(items) + later == later && s.contents + items == s.contents;
    } else {
      var next := s.(contents := s.contents + [items[0]]);
      assert (Pushes(items) + later)[1..] == Pushes(items[1..]) + later;
      assert s.contents + [items[0]] + items[1..] == s.contents + items;
      assert Step(s, (Pushes(items) + later)[0]) == next;
      RunPushes(next, items[1..], later);
    }
  }

  lemma {:induction false} RunPops<T>(s: State<T>, n: nat)
    ensures var k := if n < |s.contents| then n else |s.contents|;
            Run(s, Pops(n)) == State(s.contents[k..], s.popped + s.contents[..k])
    decreases n
  {
    if n == 0 {
      assert s.popped + s.contents[..0] == s.popped;
    } else {
      assert Pops<T>(n)[1..] == Pops<T>(n - 1);
      RunPops(Step(s, DoPop), n - 1);
      if s.contents == [] {
        assert s.popped + s.contents[..0] == s.popped;
      } else {
        var k := if n < |s.contents| then n else |s.contents|;
        assert s.contents[1..][..k - 1] == s.contents[..k][1..] && s.contents[1..][k - 1..] == s.contents[k..];
        assert s.popped + [s.contents[0]] + s.contents[..k][1..] == s.popped + s.contents[..k];
      }
    }
  }

  /** Items pushed on an empty queue come out by as many pops, in order; more pops give nothing. */
  lemma {:induction false} PushesThenPops<T>(items: seq<T>, n: nat)
    ensures Run(State([], []), Pushes(items) + Pops(n))
         == if n < |items| then State(items[n..], items[..n]) else State([], items)
  {
    RunPushes(State([], []), items, Pops(n));
    assert [] + items == items;
    RunPops(State(items, []), n);
    assert items[..|items|] == items && items[|items|..] == [] && [] + items == items;
    assert n < |items| ==> [] + items[..n] == items[..n];
  }

  // ---------------------------------------------------------------- the queue and the walking append

  method Act<T>(q: Queue<T>, op: Op<T>) returns (popped: seq<T>)
    requires q.Valid()
    modifies q, q.nodes`next
    ensures q.Valid() && (forall i :: 0 <= i < |q.nodes| ==> q.nodes[i] in old(q.nodes) || fresh(q.nodes[i]))
    ensures State(q.Contents(), popped) == Step(State(old(q.Contents()), []), op)
  {
    popped := [];
    if op.DoPush? {
      ghost var ns := q.nodes;
      q.Push(op.item);
      assert forall i :: 0 <= i < |ns| ==> q.nodes[i] == q.nodes[..|ns|][i];
    } else {
      var item := q.Pop();
      popped := if item.None? then [] else [item.value];
    }
  }

  /** The same on a list, appending by walking. */
  method ActOnList<T>(l: Slist<T>, op: Op<T>) returns (popped: seq<T>)
    requires l.Valid()
    modifies l, l.nodes`next
    ensures l.Valid() && (forall i :: 0 <= i < |l.nodes| ==> l.nodes[i] in old(l.nodes) || fresh(l.nodes[i]))
    ensures State(l.Items(), popped) == Step(State(old(l.Items()), []), op)
  {
    popped := [];
    ghost var ns := l.nodes;
    if op.DoPush? {
      l.Add(op.item);
      assert forall i :: 0 <= i < |ns| ==> l.nodes[i] == l.nodes[..|ns|][i];
    } else {
      var item := l.RemoveFirst(_ => true);
      WithoutIn(ns, 0);
      popped := if item.None? then [] else [item.value];
    }
  }

  lemma {:induction false} RunStep<T>(s: State<T>, t: State<T>, out: seq<T>, ops: seq<Op<T>>, k: nat)
    requires k < |ops| && State(t.contents, out) == Step(State(s.contents, []), ops[k]) && t.popped == s.popped + out
    ensures Run(s, ops[k..]) == Run(t, ops[k + 1..])
  {
    assert ops[k..][0] == ops[k] && ops[k..][1..] == ops[k + 1..];
    if ops[k].DoPop? && s.contents != [] {
      assert out == [s.contents[0]];
    } else {
      assert s.popped + [] == s.popped;
    }
    assert Step(s, ops[k]) == t;
  }

  /** A run on a new queue. */
  method OnQueue<T>(ops: seq<Op<T>>) returns (q: Queue<T>, popped: seq<T>)
    ensures fresh(q) && q.Valid() && State(q.Contents(), popped) == Run(State([], []), ops)
    ensures popped + q.Contents() == Pushed(ops) && |q.Contents()| == Level(0, ops)
  {
    RunLevel(State([], []), ops);
    Conserved(ops);
    q := new Queue();
    popped := [];
    assert ops[0..] == ops;
    for k := 0 to |ops|
      invariant fresh(q) && q.Valid() && (forall i :: 0 <= i < |q.nodes| ==> fresh(q.nodes[i]))
      invariant Run(State(q.Contents(), popped), ops[k..]) == Run(State([], []), ops)
    {
      ghost var s := State(q.Contents(), popped);
      var out := Act(q, ops[k]);
      popped := popped + out;
      RunStep(s, State(q.Contents(), popped), out, ops, k);
    }
  }

  /** The same run on a new list: as both meet the same specification, the queue agrees with the
      walking append over every run. */
  method OnList<T>(ops: seq<Op<T>>) returns (l: Slist<T>, popped: seq<T>)
    ensures fresh(l) && l.Valid() && State(l.Items(), popped) == Run(State([], []), ops)
    ensures popped + l.Items() == Pushed(ops) && |l.Items()| == Level(0, ops)
  {
    RunLevel(State([], []), ops);
    Conserved(ops);
    l := new Slist();
    popped := [];
    assert ops[0..] == ops;
    for k := 0 to |ops|
      invariant fresh(l) && l.Valid() && (forall i :: 0 <= i < |l.nodes| ==> fresh(l.nodes[i]))
      invariant Run(State(l.Items(), popped), ops[k..]) == Run(State([], []), ops)
    {
      ghost var s := State(l.Items(), popped);
      var out := ActOnList(l, ops[k]);
      popped := popped + out;
      RunStep(s, State(l.Items(), popped), out, ops, k);
    }
  }
}
