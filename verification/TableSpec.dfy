/**
  The hash table as a value: 2048 chains of entries, and the finite map they stand for.
 */
module TableSpec {
  import opened Common

  const HTABLE_SZ: nat := 2048

  datatype Entry<K, V> = Entry(key: K, data: V)

  /** A hash function and a comparison supplied by the user; the comparison is true where the
      user's function returns zero. */
  datatype Keys<!K> = Keys(hash: K -> nat, same: (K, K) -> bool)

  /** Sameness is an equivalence, and same keys have the same hash. */
  ghost predicate Lawful<K(!new)>(ks: Keys<K>) {
    && (forall a :: ks.same(a, a))
    && (forall a, b :: ks.same(a, b) ==> ks.same(b, a) && ks.hash(a) == ks.hash(b))
    && (forall a, b, c :: ks.same(a, b) && ks.same(b, c) ==> ks.same(a, c))
  }

  type Chain<K, V> = seq<Entry<K, V>>

  function BucketOf<K>(ks: Keys<K>, key: K): (b: nat)
    ensures b < HTABLE_SZ
  {
    ks.hash(key) % HTABLE_SZ
  }

  function Matches<K, V>(ks: Keys<K>, key: K): Entry<K, V> -> bool {
    (e: Entry<K, V>) => ks.same(e.key, key)
  }

  /** Where a chain has `key`, or its length. */
  function Place<K, V>(ks: Keys<K>, chain: Chain<K, V>, key: K): nat {
    FirstIndex(chain, Matches(ks, key))
  }

  // ---------------------------------------------------------------- one chain

  /** Entries of one bucket: all hash there, and no two have the same key. */
  ghost predicate ChainOk<K, V>(ks: Keys<K>, chain: Chain<K, V>, bucket: nat) {
    && (forall i :: 0 <= i < |chain| ==> BucketOf(ks, chain[i].key) == bucket)
    && (forall i, j :: 0 <= i < j < |chain| ==> !ks.same(chain[i].key, chain[j].key))
  }

  function ChainGet<K, V>(ks: Keys<K>, chain: Chain<K, V>, key: K): Option<V> {
    var k := Place(ks, chain, key);
    if k < |chain| then Some(chain[k].data) else None
  }

  function ChainRemove<K, V>(ks: Keys<K>, chain: Chain<K, V>, key: K): Chain<K, V> {
    Without(chain, Place(ks, chain, key))
  }

  function ChainInsert<K, V>(ks: Keys<K>, chain: Chain<K, V>, key: K, data: V): Chain<K, V> {
    [Entry(key, data)] + ChainRemove(ks, chain, key)
  }

  /** The place of a key in a chain is the only place with the same key. */
  lemma {:induction false} PlaceIs<K(!new), V>(ks: Keys<K>, chain: Chain<K, V>, key: K, bucket: nat, k: nat)
    requires Lawful(ks) && ChainOk(ks, chain, bucket) && k < |chain|
    ensures ks.same(chain[k].key, key) <==> Place(ks, chain, key) == k
  {
    var p := Place(ks, chain, key);
    if ks.same(chain[k].key, key) {
      assert Matches<K, V>(ks, key)(chain[k]) && ks.same(key, chain[k].key);
      if p < k {
        assert false;
      }
    }
  }

  /** A lookup finds exactly the data stored under the same key. */
  lemma {:induction false} ChainGetIff<K(!new), V>(ks: Keys<K>, chain: Chain<K, V>, key: K, bucket: nat, data: V)
    requires Lawful(ks) && ChainOk(ks, chain, bucket)
    ensures ChainGet(ks, chain, key) == Some(data) <==>
            exists i :: 0 <= i < |chain| && ks.same(chain[i].key, key) && chain[i].data == data
  {
    forall i | 0 <= i < |chain| && ks.same(chain[i].key, key)
      ensures Place(ks, chain, key) == i
    {
      PlaceIs(ks, chain, key, bucket, i);
    }
    var p := Place(ks, chain, key);
    if p < |chain| {
      assert Matches<K, V>(ks, key)(chain[p]);
    }
  }

  lemma {:induction false} ChainRemoveOk<K(!new), V>(ks: Keys<K>, chain: Chain<K, V>, key: K, bucket: nat)
    requires Lawful(ks) && ChainOk(ks, chain, bucket)
    ensures ChainOk(ks, ChainRemove(ks, chain, key), bucket)
    ensures forall i :: 0 <= i < |ChainRemove(ks, chain, key)| ==> !ks.same(ChainRemove(ks, chain, key)[i].key, key)
  {
    var p, r := Place(ks, chain, key), ChainRemove(ks, chain, key);
    forall i | 0 <= i < |r|
      ensures !ks.same(r[i].key, key) && BucketOf(ks, r[i].key) == bucket
    {
      WithoutIndex(chain, p, i);
      PlaceIs(ks, chain, key, bucket, if i < p then i else i + 1);
    }
    forall i, j | 0 <= i < j < |r|
      ensures !ks.same(r[i].key, r[j].key)
    {
      WithoutIndex(chain, p, i);
      WithoutIndex(chain, p, j);
    }
  }

  lemma {:induction false} ChainInsertOk<K(!new), V>(ks: Keys<K>, chain: Chain<K, V>, key: K, data: V)
    requires Lawful(ks) && ChainOk(ks, chain, BucketOf(ks, key))
    ensures ChainOk(ks, ChainInsert(ks, chain, key, data), BucketOf(ks, key))
  {
    var r, c := ChainRemove(ks, chain, key), ChainInsert(ks, chain, key, data);
    ChainRemoveOk(ks, chain, key, BucketOf(ks, key));
    forall i, j | 0 <= i < j < |c|
      ensures !ks.same(c[i].key, c[j].key)
    {
      assert c[j] == r[j - 1];
      if i == 0 {
        assert !ks.same(r[j - 1].key, key);
      } else {
        assert c[i] == r[i - 1];
      }
    }
  }

  lemma {:induction false} Absent<K, V>(ks: Keys<K>, chain: Chain<K, V>, key: K)
    requires forall i :: 0 <= i < |chain| ==> !ks.same(chain[i].key, key)
    ensures ChainGet(ks, chain, key) == None
  {
    FirstIndexIs(chain, Matches(ks, key), |chain|);
  }

  /** Removal forgets one key. */
  lemma {:induction false} ChainRemoveGet<K(!new), V>(ks: Keys<K>, chain: Chain<K, V>, key: K, bucket: nat, other: K)
    requires Lawful(ks) && ChainOk(ks, chain, bucket)
    ensures ChainGet(ks, ChainRemove(ks, chain, key), other)
         == if ks.same(key, other) then None else ChainGet(ks, chain, other)
  {
    var p, o, r := Place(ks, chain, key), Place(ks, chain, other), ChainRemove(ks, chain, key);
    ChainRemoveOk(ks, chain, key, bucket);
    if ks.same(key, other) {
      forall i | 0 <= i < |r|
        ensures !ks.same(r[i].key, other)
      {
        assert ks.same(other, key) && !ks.same(r[i].key, key);
      }
      Absent(ks, r, other);
    } else if o < |chain| {
      assert Matches<K, V>(ks, other)(chain[o]);
      assert p < |chain| ==> Matches<K, V>(ks, key)(chain[p]) && ks.same(key, chain[p].key);
      var q := if o < p then o else o - 1;
      WithoutIndex(chain, p, q);
      PlaceIs(ks, r, other, bucket, q);
    } else {
      forall i | 0 <= i < |r|
        ensures !ks.same(r[i].key, other)
      {
        WithoutIndex(chain, p, i);
        PlaceIs(ks, chain, other, bucket, if i < p then i else i + 1);
      }
      Absent(ks, r, other);
    }
  }

  /** Insertion binds one key. */
  lemma {:induction false} ChainInsertGet<K(!new), V>(ks: Keys<K>, chain: Chain<K, V>, key: K, data: V, other: K)
    requires Lawful(ks) && ChainOk(ks, chain, BucketOf(ks, key))
    ensures ChainGet(ks, ChainInsert(ks, chain, key, data), other)
         == if ks.same(key, other) then Some(data) else ChainGet(ks, chain, other)
  {
    var r, c := ChainRemove(ks, chain, key), ChainInsert(ks, chain, key, data);
    assert c[0] == Entry(key, data) && c[1..] == r;
    assert Matches<K, V>(ks, other)(c[0]) == ks.same(key, other);
    ChainRemoveGet(ks, chain, key, BucketOf(ks, key), other);
  }
}
