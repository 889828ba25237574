/**
  Runs of the hash table: what every sequence of insertions and removals leaves in the
  2048 chains, in the count, and with the user's free functions.
 */
module TableRuns {
  import opened Common
  import opened TableSpec

  type Table<K, V> = t: seq<Chain<K, V>> | |t| == HTABLE_SZ witness seq(HTABLE_SZ, i => [])

  ghost predicate TableOk<K, V>(ks: Keys<K>, t: Table<K, V>) {
    forall b :: 0 <= b < HTABLE_SZ ==> ChainOk(ks, t[b], b)
  }

  function Lookup<K, V>(ks: Keys<K>, t: Table<K, V>, key: K): Option<V> {
    ChainGet(ks, t[BucketOf(ks, key)], key)
  }

  function Insert<K, V>(ks: Keys<K>, t: Table<K, V>, key: K, data: V): Table<K, V> {
    var b := BucketOf(ks, key);
    t[b := ChainInsert(ks, t[b], key, data)]
  }

  function Remove<K, V>(ks: Keys<K>, t: Table<K, V>, key: K): Table<K, V> {
    var b := BucketOf(ks, key);
    t[b := ChainRemove(ks, t[b], key)]
  }

  /** The entry an operation on `key` takes out, if there is one. */
  function Taken<K, V>(ks: Keys<K>, t: Table<K, V>, key: K): seq<Entry<K, V>> {
    var chain := t[BucketOf(ks, key)];
    var p := Place(ks, chain, key);
    if p < |chain| then [chain[p]] else []
  }

  /** All entries from bucket `b` on, in the order they are visited. */
  function AllFrom<K, V>(t: seq<Chain<K, V>>, b: nat): Chain<K, V>
    decreases |t| - b
  {
    if b >= |t| then [] else t[b] + AllFrom(t, b + 1)
  }

  function All<K, V>(t: Table<K, V>): Chain<K, V> {
    AllFrom(t, 0)
  }

  lemma {:induction false} NextChain<K, V>(t: Table<K, V>, b: nat, before: Chain<K, V>, chain: Chain<K, V>)
    requires b < HTABLE_SZ && chain == t[b]
    ensures before + AllFrom(t, b) == before + chain + AllFrom(t, b + 1)
  {
    assert before + (chain + AllFrom(t, b + 1)) == before + chain + AllFrom(t, b + 1);
  }

  // ---------------------------------------------------------------- one operation

  lemma {:induction false} InsertKeeps<K(!new), V>(ks: Keys<K>, t: Table<K, V>, key: K, data: V, other: K)
    requires Lawful(ks) && TableOk(ks, t)
    ensures TableOk(ks, Insert(ks, t, key, data))
    ensures Lookup(ks, Insert(ks, t, key, data), other)
         == if ks.same(key, other) then Some(data) else Lookup(ks, t, other)
  {
    var b := BucketOf(ks, key);
    ChainInsertOk(ks, t[b], key, data);
    ChainInsertGet(ks, t[b], key, data, other);
  }

  lemma {:induction false} RemoveKeeps<K(!new), V>(ks: Keys<K>, t: Table<K, V>, key: K, other: K)
    requires Lawful(ks) && TableOk(ks, t)
    ensures TableOk(ks, Remove(ks, t, key))
    ensures Lookup(ks, Remove(ks, t, key), other)
         == if ks.same(key, other) then None else Lookup(ks, t, other)
  {
    var b := BucketOf(ks, key);
    ChainRemoveOk(ks, t[b], key, b);
    ChainRemoveGet(ks, t[b], key, b, other);
  }

  // ---------------------------------------------------------------- the listing

  /** Where in the table an entry of the listing sits. */
  lemma {:induction false} FindListed<K, V>(t: seq<Chain<K, V>>, b: nat, i: nat) returns (c: nat, j: nat)
    requires i < |AllFrom(t, b)|
    ensures b <= c < |t| && j < |t[c]| && t[c][j] == AllFrom(t, b)[i]
    decreases |t| - b
  {
    if i < |t[b]| {
      c, j := b, i;
    } else {
      c, j := FindListed(t, b + 1, i - |t[b]|);
    }
  }

  /** Where in the listing an entry of the table appears. */
  lemma {:induction false} Listed<K, V>(t: seq<Chain<K, V>>, b: nat, c: nat, j: nat) returns (i: nat)
    requires b <= c < |t| && j < |t[c]|
    ensures i < |AllFrom(t, b)| && AllFrom(t, b)[i] == t[c][j]
    decreases |t| - b
  {
    if c == b {
      i := j;
    } else {
      i := Listed(t, b + 1, c, j);
      i := i + |t[b]|;
    }
  }

  /** No key is visited twice. */
  lemma {:induction false} ListedOnce<K(!new), V>(ks: Keys<K>, t: Table<K, V>, b: nat, i: nat, j: nat)
    requires Lawful(ks) && TableOk(ks, t) && i < j < |AllFrom(t, b)|
    ensures !ks.same(AllFrom(t, b)[i].key, AllFrom(t, b)[j].key)
    decreases HTABLE_SZ - b
  {
    if i >= |t[b]| {
      ListedOnce(ks, t, b + 1, i - |t[b]|, j - |t[b]|);
    } else if j >= |t[b]| {
      var c, k := FindListed(t, b + 1, j - |t[b]|);
      assert BucketOf(ks, t[b][i].key) == b && BucketOf(ks, t[c][k].key) == c;
    }
  }

  /** The visit goes from bucket to bucket. */
  lemma {:induction false} ListedByBucket<K(!new), V>(ks: Keys<K>, t: Table<K, V>, b: nat, i: nat, j: nat)
    requires TableOk(ks, t) && i < j < |AllFrom(t, b)|
    ensures ks.hash(AllFrom(t, b)[i].key) % 2048 <= ks.hash(AllFrom(t, b)[j].key) % 2048
    decreases HTABLE_SZ - b
  {
    if i >= |t[b]| {
      ListedByBucket(ks, t, b + 1, i - |t[b]|, j - |t[b]|);
    } else {
      var c, k := FindListed(t, b, j);
      assert BucketOf(ks, t[b][i].key) == b && BucketOf(ks, t[c][k].key) == c;
    }
  }

  /** A visit to all entries sees exactly the bindings that lookups find. */
  lemma {:induction false} ListedIff<K(!new), V>(ks: Keys<K>, t: Table<K, V>, key: K, data: V)
    requires Lawful(ks) && TableOk(ks, t)
    ensures Lookup(ks, t, key) == Some(data) <==>
            exists i :: 0 <= i < |All(t)| && ks.same(All(t)[i].key, key) && All(t)[i].data == data
  {
    var b := BucketOf(ks, key);
    ChainGetIff(ks, t[b], key, b, data);
    if Lookup(ks, t, key) == Some(data) {
      var j :| 0 <= j < |t[b]| && ks.same(t[b][j].key, key) && t[b][j].data == data;
      var i := Listed(t, 0, b, j);
      assert All(t)[i] == t[b][j];
    }
    if i :| 0 <= i < |All(t)| && ks.same(All(t)[i].key, key) && All(t)[i].data == data {
      var c, j := FindListed(t, 0, i);
      assert BucketOf(ks, t[c][j].key) == c;
    }
  }

  lemma {:induction false} AllSame<K, V>(t: seq<Chain<K, V>>, u: seq<Chain<K, V>>, b: nat)
    requires |t| == |u| && forall i :: b <= i < |t| ==> t[i] == u[i]
    ensures AllFrom(t, b) == AllFrom(u, b)
    decreases |t| - b
  {
    if b < |t| {
      AllSame(t, u, b + 1);
    }
  }

  lemma {:induction false} MultisetCat<T>(a: seq<T>, b: seq<T>)
    ensures multiset(a + b) == multiset(a) + multiset(b)
  {
  }

  lemma {:induction false} Grow<T>(a: multiset<T>, x: multiset<T>, y: multiset<T>, c: multiset<T>, d: multiset<T>)
    requires x + c == y + d
    ensures (a + x) + c == (a + y) + d
  {
    forall e
      ensures ((a + x) + c)[e] == ((a + y) + d)[e]
    {
      assert (x + c)[e] == (y + d)[e];
    }
  }

  /** Exchanging one chain exchanges its entries in the listing. */
  lemma {:induction false} AllExchange<K, V>(t: seq<Chain<K, V>>, b: nat, k: nat, chain: Chain<K, V>)
    requires b <= k < |t|
    ensures multiset(AllFrom(t[k := chain], b)) + multiset(t[k]) == multiset(AllFrom(t, b)) + multiset(chain)
    decreases |t| - b
  {
    var u := t[k := chain];
    MultisetCat(t[b], AllFrom(t, b + 1));
    MultisetCat(u[b], AllFrom(u, b + 1));
    if b == k {
      AllSame(t, u, b + 1);
    } else {
      AllExchange(t, b + 1, k, chain);
      Grow(multiset(t[b]), multiset(AllFrom(u, b + 1)), multiset(AllFrom(t, b + 1)), multiset(t[k]), multiset(chain));
    }
  }

  lemma {:induction false} MultisetWithout<T>(s: seq<T>, k: nat)
    requires k < |s|
    ensures multiset(s) == multiset(Without(s, k)) + multiset([s[k]])
  {
    assert s == s[..k] + ([s[k]] + s[k + 1..]);
  }

  lemma {:induction false} TakenFrom<K, V>(ks: Keys<K>, t: Table<K, V>, key: K)
    ensures multiset(t[BucketOf(ks, key)])
         == multiset(ChainRemove(ks, t[BucketOf(ks, key)], key)) + multiset(Taken(ks, t, key))
  {
    var chain := t[BucketOf(ks, key)];
    var p := Place(ks, chain, key);
    if p < |chain| {
      MultisetWithout(chain, p);
    }
  }

  lemma {:induction false} Cancel<T>(a: multiset<T>, b: multiset<T>, c: multiset<T>, d: multiset<T>, e: multiset<T>)
    requires a + (b + c) == d + (b + e)
    ensures a + c == d + e
  {
    forall x
      ensures (a + c)[x] == (d + e)[x]
    {
      assert (a + (b + c))[x] == (d + (b + e))[x];
    }
  }

  lemma {:induction false} RemoveConserves<K, V>(ks: Keys<K>, t: Table<K, V>, key: K)
    ensures multiset(All(Remove(ks, t, key))) + multiset(Taken(ks, t, key)) == multiset(All(t))
  {
    var b := BucketOf(ks, key);
    var r := ChainRemove(ks, t[b], key);
    AllExchange(t, 0, b, r);
    TakenFrom(ks, t, key);
    Cancel(multiset(All(Remove(ks, t, key))), multiset(r), multiset(Taken(ks, t, key)), multiset(All(t)), multiset{});
  }

  lemma {:induction false} InsertConserves<K, V>(ks: Keys<K>, t: Table<K, V>, key: K, data: V)
    ensures multiset(All(Insert(ks, t, key, data))) + multiset(Taken(ks, t, key))
         == multiset(All(t)) + multiset([Entry(key, data)])
  {
    var b := BucketOf(ks, key);
    var r := ChainRemove(ks, t[b], key);
    AllExchange(t, 0, b, ChainInsert(ks, t[b], key, data));
    MultisetCat([Entry(key, data)], r);
    TakenFrom(ks, t, key);
    Cancel(multiset(All(Insert(ks, t, key, data))), multiset(r), multiset(Taken(ks, t, key)),
           multiset(All(t)), multiset([Entry(key, data)]));
  }

  // ---------------------------------------------------------------- an operation in full

  /** The entries of a chain whose key is, or is not, the same as `key`. */
  function Having<K, V>(ks: Keys<K>, chain: Chain<K, V>, key: K, same: bool): Chain<K, V> {
    if chain == [] then []
    else
      (if ks.same(chain[0].key, key) == same then [chain[0]] else []) + Having(ks, chain[1..], key, same)
  }

  lemma {:induction false} NoneHaving<K, V>(ks: Keys<K>, chain: Chain<K, V>, key: K)
    requires forall i :: 0 <= i < |chain| ==> !ks.same(chain[i].key, key)
    ensures Having(ks, chain, key, true) == [] && Having(ks, chain, key, false) == chain
    ensures Place(ks, chain, key) == |chain|
  {
    FirstIndexIs(chain, Matches(ks, key), |chain|);
    if chain != [] {
      assert forall i :: 0 <= i < |chain[1..]| ==> chain[1..][i] == chain[i + 1];
      NoneHaving(ks, chain[1..], key);
      assert chain == [chain[0]] + chain[1..];
    }
  }

  lemma {:induction false} ChainTail<K(!new), V>(ks: Keys<K>, chain: Chain<K, V>, bucket: nat)
    requires ChainOk(ks, chain, bucket) && chain != []
    ensures ChainOk(ks, chain[1..], bucket)
    ensures forall i :: 0 <= i < |chain[1..]| ==> !ks.same(chain[0].key, chain[1..][i].key)
  {
    assert forall i :: 0 <= i < |chain[1..]| ==> chain[1..][i] == chain[i + 1];
  }

  lemma {:induction false} Differ<K(!new)>(ks: Keys<K>, a: K, b: K, key: K)
    requires Lawful(ks) && ks.same(a, key) && !ks.same(a, b)
    ensures !ks.same(b, key)
  {
    var there, back := ks.same(b, key), ks.same(key, b);
  }

  lemma {:induction false} RemoveHead<K(!new), V>(ks: Keys<K>, chain: Chain<K, V>, key: K, bucket: nat)
    requires Lawful(ks) && ChainOk(ks, chain, bucket) && chain != [] && ks.same(chain[0].key, key)
    ensures ChainRemove(ks, chain, key) == Having(ks, chain, key, false) == chain[1..]
    ensures Place(ks, chain, key) == 0 && Having(ks, chain, key, true) == [chain[0]]
  {
    var rest := chain[1..];
    ChainTail(ks, chain, bucket);
    assert Matches<K, V>(ks, key)(chain[0]);
    forall i | 0 <= i < |rest|
      ensures !ks.same(rest[i].key, key)
    {
      Differ(ks, chain[0].key, rest[i].key, key);
    }
    NoneHaving(ks, rest, key);
    assert chain[..0] + rest == rest && [] + rest == rest;
  }

  lemma {:induction false} WithoutTail<T>(s: seq<T>, k: nat)
    requires s != []
    ensures Without(s, k + 1) == [s[0]] + Without(s[1..], k)
  {
  }

  /** Removing takes out the entries with the key, of which there is at most one, and leaves the
      others in their order. */
  lemma {:induction false} RemovedHaving<K(!new), V>(ks: Keys<K>, chain: Chain<K, V>, key: K, bucket: nat)
    requires Lawful(ks) && ChainOk(ks, chain, bucket)
    ensures ChainRemove(ks, chain, key) == Having(ks, chain, key, false)
    ensures var p := Place(ks, chain, key);
            Having(ks, chain, key, true) == if p < |chain| then [chain[p]] else []
  {
    if chain != [] {
      if ks.same(chain[0].key, key) {
        RemoveHead(ks, chain, key, bucket);
      } else {
        ChainTail(ks, chain, bucket);
        RemovedHaving(ks, chain[1..], key, bucket);
        assert !Matches<K, V>(ks, key)(chain[0]);
        WithoutTail(chain, Place(ks, chain[1..], key));
      }
    }
  }

  // ---------------------------------------------------------------- runs

  datatype Op<K, V> = DoInsert(key: K, data: V) | DoRemove(key: K)

  /** The chains, the count, and the entries handed to the free functions. */
  datatype State<K, V> = State(table: Table<K, V>, count: int, released: seq<Entry<K, V>>)

  function Start<K, V>(): State<K, V> {
    State(seq(HTABLE_SZ, i => []), 0, [])
  }

  function Step<K, V>(ks: Keys<K>, s: State<K, V>, op: Op<K, V>): State<K, V> {
    var taken := Taken(ks, s.table, op.key);
    if op.DoInsert? then
      State(Insert(ks, s.table, op.key, op.data), s.count - |taken| + 1, s.released + taken)
    else
      State(Remove(ks, s.table, op.key), s.count - |taken|, s.released + taken)
  }

  /** What one operation does, without reference to how: in the bucket that the hash selects, the
      entries with another key keep their order, and an inserted entry comes in front of them; the
      entry with the key, if any, is released after those released before; no other bucket
      changes; and the count goes by what lookups find. */
  lemma {:induction false} StepIs<K(!new), V>(ks: Keys<K>, s: State<K, V>, op: Op<K, V>)
    requires Lawful(ks) && TableOk(ks, s.table)
    ensures var s', b := Step(ks, s, op), ks.hash(op.key) % 2048;
            && s'.table[b] == (if op.DoInsert? then [Entry(op.key, op.data)] else [])
                              + Having(ks, s.table[b], op.key, false)
            && (forall c :: 0 <= c < 2048 && c != b ==> s'.table[c] == s.table[c])
            && s'.released == s.released + Having(ks, s.table[b], op.key, true)
            && s'.count == s.count + (if op.DoInsert? then 1 else 0)
                           - (if Lookup(ks, s.table, op.key).Some? then 1 else 0)
  {
    var b := BucketOf(ks, op.key);
    RemovedHaving(ks, s.table[b], op.key, b);
    assert [] + Having(ks, s.table[b], op.key, false) == Having(ks, s.table[b], op.key, false);
  }

  function Run<K, V>(ks: Keys<K>, ops: seq<Op<K, V>>): State<K, V>
    decreases |ops|
  {
    if ops == [] then Start() else Step(ks, Run(ks, ops[..|ops| - 1]), ops[|ops| - 1])
  }

  /** The binding the last operation on the same key leaves. */
  function Bound<K, V>(ks: Keys<K>, ops: seq<Op<K, V>>, key: K): Option<V>
    decreases |ops|
  {
    if ops == [] then None
    else
      var op := ops[|ops| - 1];
      if !ks.same(op.key, key) then Bound(ks, ops[..|ops| - 1], key)
      else if op.DoInsert? then Some(op.data)
      else None
  }

  function Added<K, V>(op: Op<K, V>): seq<Entry<K, V>> {
    if op.DoInsert? then [Entry(op.key, op.data)] else []
  }

  function Inserted<K, V>(ops: seq<Op<K, V>>): seq<Entry<K, V>>
    decreases |ops|
  {
    if ops == [] then [] else Inserted(ops[..|ops| - 1]) + Added(ops[|ops| - 1])
  }

  lemma {:induction false} EmptyListing<K, V>(t: seq<Chain<K, V>>, b: nat)
    requires forall i :: 0 <= i < |t| ==> t[i] == []
    ensures AllFrom(t, b) == []
    decreases |t| - b
  {
    if b < |t| {
      EmptyListing(t, b + 1);
    }
  }

  /** After every run each chain holds only keys of its bucket, no key twice, and a lookup
      finds what the last operation on its key left. */
  lemma {:induction false} RunIsAMap<K(!new), V>(ks: Keys<K>, ops: seq<Op<K, V>>, key: K)
    requires Lawful(ks)
    ensures TableOk(ks, Run(ks, ops).table)
    ensures Lookup(ks, Run(ks, ops).table, key) == Bound(ks, ops, key)
    decreases |ops|
  {
    if ops == [] {
      var empty: Chain<K, V> := [];
      Absent(ks, empty, key);
    } else {
      var op, s := ops[|ops| - 1], Run(ks, ops[..|ops| - 1]);
      RunIsAMap(ks, ops[..|ops| - 1], key);
      if op.DoInsert? {
        InsertKeeps(ks, s.table, op.key, op.data, key);
      } else {
        RemoveKeeps(ks, s.table, op.key, key);
      }
    }
  }

  lemma {:induction false} Sum<T>(inserted: multiset<T>, released: multiset<T>, all: multiset<T>,
                                  added: multiset<T>, taken: multiset<T>, after: multiset<T>)
    requires inserted == released + all && after + taken == all + added
    ensures inserted + added == (released + taken) + after
  {
    forall x
      ensures (inserted + added)[x] == ((released + taken) + after)[x]
    {
      assert (after + taken)[x] == (all + added)[x];
    }
  }

  /** After every run each inserted entry is still in the table or has been released, exactly
      once, and the count is the number of entries in the table. */
  lemma {:induction false} RunConserves<K, V>(ks: Keys<K>, ops: seq<Op<K, V>>)
    ensures multiset(Inserted(ops)) == multiset(Run(ks, ops).released) + multiset(All(Run(ks, ops).table))
    ensures Run(ks, ops).count == |All(Run(ks, ops).table)|
    decreases |ops|
  {
    if ops == [] {
      EmptyListing(Run(ks, ops).table, 0);
    } else {
      StepConserves(ks, ops);
    }
  }

  lemma {:induction false} StepConserves<K, V>(ks: Keys<K>, ops: seq<Op<K, V>>)
    requires ops != []
    ensures multiset(Inserted(ops)) == multiset(Run(ks, ops).released) + multiset(All(Run(ks, ops).table))
    ensures Run(ks, ops).count == |All(Run(ks, ops).table)|
    decreases |ops|, 0
  {
    var before, op := ops[..|ops| - 1], ops[|ops| - 1];
    var s, added := Run(ks, before), Added(op);
    var taken, after := Taken(ks, s.table, op.key), All(Step(ks, s, op).table);
    RunConserves(ks, before);
    if op.DoInsert? {
      InsertConserves(ks, s.table, op.key, op.data);
    } else {
      RemoveConserves(ks, s.table, op.key);
    }
    assert multiset(after) + multiset(taken) == multiset(All(s.table)) + multiset(added);
    assert |after| + |taken| == |All(s.table)| + |added| by {
      assert |multiset(after) + multiset(taken)| == |after| + |taken|;
      assert |multiset(All(s.table)) + multiset(added)| == |All(s.table)| + |added|;
    }
    MultisetCat(Inserted(before), added);
    MultisetCat(s.released, taken);
    Sum(multiset(Inserted(before)), multiset(s.released), multiset(All(s.table)),
        multiset(added), multiset(taken), multiset(after));
  }

  /** Destroying the table releases the rest: every inserted entry has then been released
      exactly once. */
  lemma {:induction false} DestroyedReleasesAll<K, V>(ks: Keys<K>, ops: seq<Op<K, V>>)
    ensures multiset(Run(ks, ops).released + All(Run(ks, ops).table)) == multiset(Inserted(ops))
  {
    RunConserves(ks, ops);
    MultisetCat(Run(ks, ops).released, All(Run(ks, ops).table));
  }
}
