/**
  The hash table: an array of 2048 singly linked lists changed in place.
 */
module HTable {
  import opened Common
  import opened Slist
  import opened TableSpec
  import opened TableRuns

  // ---------------------------------------------------------------- lists side by side

  /** A list in order, its head and its nodes all owned by the same bucket. */
  ghost predicate Owns<T>(list: Slist<T>, owner: map<object, nat>, b: nat)
    reads list, owner.Keys
  {
    && list in owner && owner[list] == b
    && (forall n <- list.nodes :: n in owner && owner[n] == b)
    && list.Valid()
  }

  /** No two buckets share anything. */
  ghost predicate Apart<T>(lists: seq<Slist<T>>, owner: map<object, nat>)
    reads lists, owner.Keys
  {
    forall b :: 0 <= b < |lists| ==> Owns(lists[b], owner, b)
  }

  ghost function Contents<T>(lists: seq<Slist<T>>, owner: map<object, nat>): (c: seq<seq<T>>)
    requires Apart(lists, owner)
    reads lists, owner.Keys
    ensures |c| == |lists|
  {
    seq(|lists|, b requires 0 <= b < |lists| && Apart(lists, owner) reads lists, owner.Keys => lists[b].Items())
  }

  /** Takes the first item that satisfies `p` out of one list. */
  method RemoveAt<T>(lists: seq<Slist<T>>, ghost owner: map<object, nat>, b: nat, p: T -> bool)
    returns (removed: Option<T>)
    requires Apart(lists, owner) && b < |lists|
    modifies owner.Keys
    ensures Apart(lists, owner)
    ensures var was := old(Contents(lists, owner));
            Contents(lists, owner) == was[b := Without(was[b], FirstIndex(was[b], p))]
    ensures var was := old(Contents(lists, owner))[b];
            removed == (if FirstIndex(was, p) < |was| then Some(was[FirstIndex(was, p)]) else None)
  {
    ghost var was, nodes := lists[b].Items(), lists[b].nodes;
    assert Owns(lists[b], owner, b);
    removed := lists[b].RemoveFirst(p);
    WithoutIn(nodes, FirstIndex(was, p));
    assert Owns(lists[b], owner, b) by {
      assert forall n <- lists[b].nodes :: n in nodes;
    }
    forall c | 0 <= c < |lists| && c != b
      ensures Owns(lists[c], owner, c) && lists[c].Items() == old(lists[c].Items())
    {
      var list := lists[c];
      assert old(Owns(list, owner, c));
      assert list.head == old(list.head) && list.nodes == old(list.nodes);
      forall i | 0 <= i < |list.nodes|
        ensures list.nodes[i].next == old(list.nodes[i].next) && list.nodes[i].data == old(list.nodes[i].data)
      {
        assert owner[list.nodes[i]] == c;
      }
    }
  }

  /** Puts an item in front of one list. */
  method PreaddAt<T>(lists: seq<Slist<T>>, ghost owner: map<object, nat>, b: nat, item: T)
    returns (ghost bigger: map<object, nat>)
    requires Apart(lists, owner) && b < |lists|
    modifies owner.Keys
    ensures Apart(lists, bigger) && fresh(bigger.Keys - owner.Keys)
    ensures var was := old(Contents(lists, owner));
            Contents(lists, bigger) == was[b := [item] + was[b]]
  {
    lists[b].Preadd(item);
    bigger := owner[lists[b].nodes[0] := b];
    forall c | 0 <= c < |lists|
      ensures Owns(lists[c], bigger, c) && (c != b ==> lists[c].Items() == old(lists[c].Items()))
    {
      assert old(Owns(lists[c], owner, c));
    }
  }

  /** Empty lists, one a bucket. */
  method Calloc<T>(n: nat) returns (buckets: array<Slist<T>>, ghost owner: map<object, nat>)
    ensures buckets.Length == n && fresh(buckets) && fresh(owner.Keys) && buckets !in owner
    ensures Apart(buckets[..], owner) && Contents(buckets[..], owner) == seq(n, b => [])
  {
    var none := new Slist<T>();
    buckets := new Slist<T>[n](b => none);
    owner := map[];
    var b := 0;
    while b < n
      invariant 0 <= b <= n && fresh(owner.Keys) && buckets !in owner
      invariant forall c :: 0 <= c < b ==> Owns(buckets[c], owner, c) && buckets[c].nodes == []
    {
      var list := new Slist<T>();
      buckets[b] := list;
      owner := owner[list := b];
      b := b + 1;
    }
  }

  // ---------------------------------------------------------------- the table

  class HTable<K(!new), V> {
    const keys: Keys<K>
    const buckets: array<Slist<Entry<K, V>>>
    var count: int
    /** The entries handed to the user's free functions, in order. */
    ghost var released: seq<Entry<K, V>>
    ghost var owner: map<object, nat>

    ghost predicate Valid()
      reads this, buckets, buckets[..], owner.Keys
    {
      && buckets.Length == HTABLE_SZ
      && this !in owner && buckets !in owner
      && Apart(buckets[..], owner)
    }

    ghost function Chains(): Table<K, V>
      requires Valid()
      reads this, buckets, buckets[..], owner.Keys
    {
      Contents(buckets[..], owner)
    }

    /** The value the table stands for. */
    ghost function Value(): State<K, V>
      requires Valid()
      reads this, buckets, buckets[..], owner.Keys
    {
      State(Chains(), count, released)
    }

    constructor (keys: Keys<K>)
      ensures Valid() && fresh(buckets) && fresh(owner.Keys) && this.keys == keys
      ensures Value() == Start()
    {
      var lists, cells := Calloc<Entry<K, V>>(HTABLE_SZ);
      this.keys, buckets, count, released, owner := keys, lists, 0, [], cells;
    }

    /** Takes the entry with the same key out of a bucket and releases it. */
    method BucketListRemove(b: nat, key: K) returns (removed: bool)
      requires Valid() && b == BucketOf(keys, key)
      modifies this`released, owner.Keys
      ensures Valid() && Chains() == TableRuns.Remove(keys, old(Chains()), key)
      ensures released == old(released) + Taken(keys, old(Chains()), key)
      ensures removed <==> Taken(keys, old(Chains()), key) != []
    {
      var taken := RemoveAt(buckets[..], owner, b, Matches(keys, key));
      removed := taken.Some?;
      if removed {
        released := released + [taken.value];
      }
    }

    method AddToCount(n: int)
      requires Valid()
      modifies this`count
      ensures Valid() && Value() == old(Value()).(count := old(count) + n)
    {
      ghost var lists := buckets[..];
      count := count + n;
      assert buckets[..] == lists && Apart(lists, owner);
    }

    /** The first half of an insertion: makes room for the key. */
    method Evict(b: nat, key: K)
      requires Valid() && b == BucketOf(keys, key)
      modifies this`released, this`count, owner.Keys
      ensures Valid() && Value() == Step(keys, old(Value()), DoRemove(key))
    {
      var item := buckets[b].Find(Matches(keys, key));
      assert Chains()[b] == buckets[b].Items();
      if item.Some? {
        var _ := BucketListRemove(b, key);
        AddToCount(-1);
      }
    }

    /** The second half: puts the new entry in front of its bucket. */
    method BucketPreadd(b: nat, entry: Entry<K, V>)
      requires Valid() && b < HTABLE_SZ
      modifies this`owner, owner.Keys
      ensures Valid() && fresh(owner.Keys - old(owner.Keys))
      ensures var t := old(Chains()); Value() == old(Value()).(table := t[b := [entry] + t[b]])
    {
      ghost var bigger := PreaddAt(buckets[..], owner, b, entry);
      owner := bigger;
    }

    /** Replaces the entry with the same key, or adds one. */
    method Insert(key: K, data: V)
      requires Valid()
      modifies this, owner.Keys
      ensures Valid() && fresh(owner.Keys - old(owner.Keys))
      ensures Value() == Step(keys, old(Value()), DoInsert(key, data))
    {
      var b := BucketOf(keys, key);
      Evict(b, key);
      BucketPreadd(b, Entry(key, data));
      AddToCount(1);
    }

    method Remove(key: K) returns (removed: bool)
      requires Valid()
      modifies this, owner.Keys
      ensures Valid() && owner == old(owner)
      ensures Value() == Step(keys, old(Value()), DoRemove(key))
      ensures removed <==> TableRuns.Lookup(keys, old(Chains()), key).Some?
    {
      removed := BucketListRemove(BucketOf(keys, key), key);
      if removed {
        count := count - 1;
      }
    }

    method Lookup(key: K) returns (found: Option<V>)
      requires Valid()
      ensures found == TableRuns.Lookup(keys, Chains(), key)
    {
      var b := BucketOf(keys, key);
      var item := buckets[b].Find(Matches(keys, key));
      assert Chains()[b] == buckets[b].Items();
      found := if item.Some? then Some(item.value.data) else None;
    }

    method BucketForeach(b: nat) returns (visited: seq<Entry<K, V>>)
      requires Valid() && b < HTABLE_SZ
      ensures visited == Chains()[b]
    {
      ghost var lists := buckets[..];
      assert buckets[b] == lists[b] && Chains()[b] == lists[b].Items();
      visited := buckets[b].Foreach();
    }

    /** The entries an action is called on, in order. */
    method Foreach() returns (visited: seq<Entry<K, V>>)
      requires Valid()
      ensures visited == All(Chains())
    {
      visited := [];
      var b := 0;
      ghost var t := Chains();
      while b < HTABLE_SZ
        invariant 0 <= b <= HTABLE_SZ && visited + AllFrom(t, b) == All(t)
      {
        var entries := BucketForeach(b);
        NextChain(t, b, visited, entries);
        visited := visited + entries;
        b := b + 1;
      }
    }

    /** Releases every entry left; the table may not be used afterwards. */
    method Destroy()
      requires Valid()
      modifies this`released
      ensures released == old(released) + All(old(Chains()))
    {
      var b := 0;
      ghost var lists, t := buckets[..], Chains();
      while b < HTABLE_SZ
        invariant 0 <= b <= HTABLE_SZ && buckets[..] == lists && Apart(lists, owner) && Contents(lists, owner) == t
        invariant released + AllFrom(t, b) == old(released) + All(t)
      {
        assert buckets[b] == lists[b] && t[b] == lists[b].Items();
        var entries := buckets[b].Foreach();
        NextChain(t, b, released, entries);
        released := released + entries;
        b := b + 1;
      }
    }
  }
}
