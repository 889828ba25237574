/**
  Walking a binary tree: the events the recursive walk reports, and what they tell about the
  tree. The colour bits of the underlying red-black nodes play no part in the walk.
 */
module TreeWalk {

  datatype Tree<T> = Null | Node(item: T, left: Tree<T>, right: Tree<T>)

  datatype Visit = Preorder | Postorder | Endorder | Leaf

  datatype Event<T> = Event(item: T, visit: Visit)

  /** The events of a walk, in order. */
  function Recurse<T>(t: Tree<T>): (events: seq<Event<T>>)
    requires t.Node?
    ensures events != []
    decreases t, 0
  {
    if t.left.Null? && t.right.Null? then [Event(t.item, Leaf)]
    else
      [Event(t.item, Preorder)] + Walk(t.left) + [Event(t.item, Postorder)] + Walk(t.right) + [Event(t.item, Endorder)]
  }

  /** A walk of no tree reports nothing. */
  function Walk<T>(t: Tree<T>): seq<Event<T>>
    decreases t, 1
  {
    if t.Null? then [] else Recurse(t)
  }

  // ---------------------------------------------------------------- reading events back

  datatype Parsed<T> = Fail | Parsed(tree: Tree<T>, rest: seq<Event<T>>)

  /** Reads one tree off the front of a list of events. A subtree starts with a leaf or
      preorder event; any other event in its place means there is none. */
  function Parse<T(==)>(events: seq<Event<T>>): (r: Parsed<T>)
    ensures r.Parsed? ==> |r.rest| <= |events|
    ensures r.Parsed? && r.tree.Node? ==> |r.rest| < |events|
    decreases |events|
  {
    if events == [] || events[0].visit.Postorder? || events[0].visit.Endorder? then Parsed(Null, events)
    else if events[0].visit.Leaf? then Parsed(Node(events[0].item, Null, Null), events[1..])
    else
      var x := events[0].item;
      var l := Parse(events[1..]);
      if l.Fail? || l.rest == [] || l.rest[0] != Event(x, Postorder) then Fail
      else
        var r := Parse(l.rest[1..]);
        if r.Fail? || r.rest == [] || r.rest[0] != Event(x, Endorder) then Fail
        else if l.tree.Null? && r.tree.Null? then Fail
        else Parsed(Node(x, l.tree, r.tree), r.rest[1..])
  }

  predicate Stops<T>(rest: seq<Event<T>>) {
    rest == [] || rest[0].visit.Postorder? || rest[0].visit.Endorder?
  }

  lemma {:induction false} Assoc<T>(a: seq<T>, b: seq<T>, c: seq<T>, d: seq<T>, e: seq<T>, f: seq<T>)
    ensures a + b + c + d + e + f == a + (b + (c + (d + (e + f))))
  {
  }

  lemma {:induction false} ParseNode<T>(x: T, l: Tree<T>, r: Tree<T>,
                                        more: seq<Event<T>>, mid: seq<Event<T>>, rest: seq<Event<T>>)
    requires l.Node? || r.Node?
    requires Parse(more) == Parsed(l, [Event(x, Postorder)] + mid)
    requires Parse(mid) == Parsed(r, [Event(x, Endorder)] + rest)
    ensures Parse([Event(x, Preorder)] + more) == Parsed(Node(x, l, r), rest)
  {
    var events := [Event(x, Preorder)] + more;
    assert events[1..] == more;
    assert ([Event(x, Postorder)] + mid)[1..] == mid && ([Event(x, Endorder)] + rest)[1..] == rest;
  }

  /** The reader undoes the walk. */
  lemma {:induction false} ParseWalk<T>(t: Tree<T>, rest: seq<Event<T>>)
    requires t.Null? ==> Stops(rest)
    ensures Parse(Walk(t) + rest) == Parsed(t, rest)
  {
    if t.Null? {
      assert Walk(t) + rest == rest;
    } else if t.left.Null? && t.right.Null? {
      assert (Walk(t) + rest)[1..] == rest;
    } else {
      var post, end := [Event(t.item, Postorder)], [Event(t.item, Endorder)];
      var mid := Walk(t.right) + (end + rest);
      ParseWalk(t.left, post + mid);
      ParseWalk(t.right, end + rest);
      ParseNode(t.item, t.left, t.right, Walk(t.left) + (post + mid), mid, rest);
      Assoc([Event(t.item, Preorder)], Walk(t.left), post, Walk(t.right), end, rest);
    }
  }

  lemma {:induction false} WalkNode<T>(x: T, l: Tree<T>, r: Tree<T>,
                                       a: seq<Event<T>>, b: seq<Event<T>>, rest: seq<Event<T>>)
    requires l.Node? || r.Node?
    requires a == Walk(l) + ([Event(x, Postorder)] + b) && b == Walk(r) + ([Event(x, Endorder)] + rest)
    ensures [Event(x, Preorder)] + a == Walk(Node(x, l, r)) + rest
  {
    Assoc([Event(x, Preorder)], Walk(l), [Event(x, Postorder)], Walk(r), [Event(x, Endorder)], rest);
  }

  /** The parts of an accepted list that begins with a preorder event. */
  lemma {:induction false} ParsedParts<T>(events: seq<Event<T>>)
    returns (l: Parsed<T>, mid: seq<Event<T>>, r: Parsed<T>)
    requires events != [] && events[0].visit.Preorder? && Parse(events).Parsed?
    ensures l == Parse(events[1..]) && l.Parsed?
    ensures l.rest == [Event(events[0].item, Postorder)] + mid && |mid| < |events|
    ensures r == Parse(mid) && r.Parsed? && r.rest == [Event(events[0].item, Endorder)] + Parse(events).rest
    ensures (l.tree.Node? || r.tree.Node?) && Parse(events).tree == Node(events[0].item, l.tree, r.tree)
  {
    l := Parse(events[1..]);
    mid := l.rest[1..];
    r := Parse(mid);
    assert l.rest == [l.rest[0]] + mid && r.rest == [r.rest[0]] + r.rest[1..];
  }

  /** Whatever the reader accepts is the walk of the tree it returns. */
  lemma {:induction false} ParsedWalk<T>(events: seq<Event<T>>)
    ensures var r := Parse(events); r.Parsed? ==> events == Walk(r.tree) + r.rest
    decreases |events|
  {
    if events == [] || !events[0].visit.Preorder? {
      assert events == [] + events;
      if events != [] {
        assert events == [events[0]] + events[1..];
      }
    } else if Parse(events).Parsed? {
      var l, mid, r := ParsedParts(events);
      ParsedWalk(events[1..]);
      ParsedWalk(mid);
      WalkNode(events[0].item, l.tree, r.tree, events[1..], mid, Parse(events).rest);
      assert events == [Event(events[0].item, Preorder)] + events[1..];
    }
  }

  /** The stream of events determines the tree. */
  lemma {:induction false} WalkInjective<T>(t: Tree<T>, u: Tree<T>)
    requires Walk(t) == Walk(u)
    ensures t == u
  {
    ParseWalk(t, []);
    ParseWalk(u, []);
    assert Walk(t) + [] == Walk(u) + [];
  }

  /** A list of events is a walk exactly when the reader takes all of it. */
  lemma {:induction false} IsWalkIff<T>(events: seq<Event<T>>)
    ensures (exists t :: Walk<T>(t) == events) <==> Parse(events).Parsed? && Parse(events).rest == []
  {
    if t :| Walk<T>(t) == events {
      ParseWalk(t, []);
      assert events + [] == events;
    }
    if Parse(events).Parsed? && Parse(events).rest == [] {
      ParsedWalk(events);
      assert Walk(Parse(events).tree) + [] == Walk(Parse(events).tree);
    }
  }

  // ---------------------------------------------------------------- the orders

  function PreOrder<T>(t: Tree<T>): seq<T> {
    if t.Null? then [] else [t.item] + PreOrder(t.left) + PreOrder(t.right)
  }

  function InOrder<T>(t: Tree<T>): seq<T> {
    if t.Null? then [] else InOrder(t.left) + [t.item] + InOrder(t.right)
  }

  function EndOrder<T>(t: Tree<T>): seq<T> {
    if t.Null? then [] else EndOrder(t.left) + EndOrder(t.right) + [t.item]
  }

  /** The items of the events of one kind, and of leaves. */
  function Kept<T>(events: seq<Event<T>>, visit: Visit): seq<T> {
    if events == [] then [] else KeptOf(events[0], visit) + Kept(events[1..], visit)
  }

  function KeptOf<T>(e: Event<T>, visit: Visit): seq<T> {
    if e.visit == visit || e.visit.Leaf? then [e.item] else []
  }

  lemma {:induction false} KeptCons<T>(e: Event<T>, events: seq<Event<T>>, visit: Visit)
    ensures Kept([e] + events, visit) == KeptOf(e, visit) + Kept(events, visit)
  {
    assert ([e] + events)[1..] == events;
  }

  lemma {:induction false} KeptConcat<T>(a: seq<Event<T>>, b: seq<Event<T>>, visit: Visit)
    ensures Kept(a + b, visit) == Kept(a, visit) + Kept(b, visit)
  {
    if a == [] {
      assert a + b == b;
    } else {
      var e, rest := a[0], a[1..];
      assert a == [e] + rest && a + b == [e] + (rest + b);
      KeptConcat(rest, b, visit);
      KeptCons(e, rest + b, visit);
    }
  }

  lemma {:induction false} KeptOne<T>(e: Event<T>, visit: Visit)
    ensures Kept([e], visit) == KeptOf(e, visit)
  {
    assert [e][1..] == [];
  }

  lemma {:induction false} KeptNode<T>(t: Tree<T>, visit: Visit)
    requires t.Node? && (t.left.Node? || t.right.Node?) && !visit.Leaf?
    ensures Kept(Walk(t), visit)
         == (if visit.Preorder? then [t.item] else []) + Kept(Walk(t.left), visit)
            + (if visit.Postorder? then [t.item] else []) + Kept(Walk(t.right), visit)
            + (if visit.Endorder? then [t.item] else [])
  {
    var pre, post, end := [Event(t.item, Preorder)], [Event(t.item, Postorder)], [Event(t.item, Endorder)];
    KeptConcat(pre + Walk(t.left) + post + Walk(t.right), end, visit);
    KeptConcat(pre + Walk(t.left) + post, Walk(t.right), visit);
    KeptConcat(pre + Walk(t.left), post, visit);
    KeptConcat(pre, Walk(t.left), visit);
    KeptOne(pre[0], visit);
    KeptOne(post[0], visit);
    KeptOne(end[0], visit);
  }

  lemma {:induction false} KeptLeaf<T>(t: Tree<T>, visit: Visit)
    requires t.Node? && t.left.Null? && t.right.Null?
    ensures Kept(Walk(t), visit) == [t.item]
  {
    KeptOne(Event(t.item, Leaf), visit);
  }

  lemma {:induction false} KeptCat<T>(a: seq<T>, b: seq<T>, c: seq<T>)
    ensures a + b + [] + c + [] == a + b + c && [] + a + [] + b + c == a + b + c && [] + a + b + c + [] == a + b + c
  {
  }

  /** Keeping postorder and leaf events lists the tree in order. */
  lemma {:induction false} ListedIsInOrder<T>(t: Tree<T>)
    ensures Kept(Walk(t), Postorder) == InOrder(t)
  {
    if t.Node? && t.left.Null? && t.right.Null? {
      KeptLeaf(t, Postorder);
    } else if t.Node? {
      KeptNode(t, Postorder);
      ListedIsInOrder(t.left);
      ListedIsInOrder(t.right);
      KeptCat(InOrder(t.left), [t.item], InOrder(t.right));
    }
  }

  /** Keeping preorder and leaf events lists each node before the nodes under it. */
  lemma {:induction false} ListedIsPreOrder<T>(t: Tree<T>)
    ensures Kept(Walk(t), Preorder) == PreOrder(t)
  {
    if t.Node? && t.left.Null? && t.right.Null? {
      KeptLeaf(t, Preorder);
    } else if t.Node? {
      KeptNode(t, Preorder);
      ListedIsPreOrder(t.left);
      ListedIsPreOrder(t.right);
      KeptCat([t.item], PreOrder(t.left), PreOrder(t.right));
    }
  }

  /** Keeping endorder and leaf events lists each node after the nodes under it. */
  lemma {:induction false} ListedIsEndOrder<T>(t: Tree<T>)
    ensures Kept(Walk(t), Endorder) == EndOrder(t)
  {
    if t.Node? && t.left.Null? && t.right.Null? {
      KeptLeaf(t, Endorder);
    } else if t.Node? {
      KeptNode(t, Endorder);
      ListedIsEndOrder(t.left);
      ListedIsEndOrder(t.right);
      KeptCat(EndOrder(t.left), EndOrder(t.right), [t.item]);
    }
  }

  /** The number of nodes. */
  function Size<T>(t: Tree<T>): nat {
    if t.Null? then 0 else 1 + Size(t.left) + Size(t.right)
  }

  lemma {:induction false} InOrderSize<T>(t: Tree<T>)
    ensures |InOrder(t)| == Size(t)
  {
    if t.Node? {
      InOrderSize(t.left);
      InOrderSize(t.right);
    }
  }

  /** The in-order listing is as long as the tree has nodes. */
  lemma {:induction false} ListedOnce<T>(t: Tree<T>)
    ensures |Kept(Walk(t), Postorder)| == Size(t)
  {
    ListedIsInOrder(t);
    InOrderSize(t);
  }
}
