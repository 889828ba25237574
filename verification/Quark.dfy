/**
  Quarks: strings numbered in the order they are first seen. The search tree is represented by
  the set of nodes it holds; a lookup finds a node that compares equal.
 */
module Quark {
  import opened Common

  /** The bytes of a C string, without the NUL that ends it. */
  type CString = s: seq<int> | forall i :: 0 <= i < |s| ==> 0 < s[i] < 256

  /** The first unequal bytes decide, the ending NUL among them. */
  function Strcmp(a: CString, b: CString): (r: int)
  {
    if a == [] && b == [] then 0
    else if a == [] then -b[0]
    else if b == [] then a[0]
    else if a[0] != b[0] then a[0] - b[0]
    else Strcmp(a[1..], b[1..])
  }

  lemma {:induction false} StrcmpZeroIff(a: CString, b: CString)
    ensures Strcmp(a, b) == 0 <==> a == b
  {
    if a != [] && b != [] && a[0] == b[0] {
      StrcmpZeroIff(a[1..], b[1..]);
      assert a == [a[0]] + a[1..] && b == [b[0]] + b[1..];
    }
  }

  /** The comparison is an order, as a search tree needs. */
  lemma {:induction false} StrcmpOrders(a: CString, b: CString, c: CString)
    ensures Strcmp(b, a) == -Strcmp(a, b)
    ensures Strcmp(a, b) <= 0 && Strcmp(b, c) <= 0 ==> Strcmp(a, c) <= 0
  {
    if a != [] && b != [] && a[0] == b[0] {
      StrcmpOrders(a[1..], b[1..], if c == [] then [] else c[1..]);
    }
  }

  /** Less means: a proper prefix, or a smaller byte at the first difference. */
  lemma {:induction false} StrcmpLessIff(a: CString, b: CString)
    ensures Strcmp(a, b) < 0 <==>
            exists k :: 0 <= k <= |a| && k < |b| && a[..k] == b[..k] && (k == |a| || a[k] < b[k])
  {
    if a != [] && b != [] && a[0] == b[0] {
      StrcmpLessIff(a[1..], b[1..]);
      if k :| 0 <= k <= |a[1..]| && k < |b[1..]| && a[1..][..k] == b[1..][..k]
              && (k == |a[1..]| || a[1..][k] < b[1..][k]) {
        assert a[..k + 1] == [a[0]] + a[1..][..k] && b[..k + 1] == [b[0]] + b[1..][..k];
      }
      if k :| 0 <= k <= |a| && k < |b| && a[..k] == b[..k] && (k == |a| || a[k] < b[k]) {
        assert k > 0;
        assert a[1..][..k - 1] == a[..k][1..] && b[1..][..k - 1] == b[..k][1..];
      }
    } else if Strcmp(a, b) < 0 {
      assert a[..0] == b[..0];
    } else {
      forall k | 0 <= k <= |a| && k < |b| && (k == |a| || a[k] < b[k])
        ensures a[..k] != b[..k]
      {
        if k > 0 {
          assert a[..k][0] == a[0] && b[..k][0] == b[0];
        }
      }
    }
  }

  // ---------------------------------------------------------------- names in order of number

  function Is(s: CString): CString -> bool {
    (t: CString) => t == s
  }

  /** The number of a string, or the next number if it has none. */
  function NumberOf(names: seq<CString>, s: CString): nat {
    FirstIndex(names, Is(s))
  }

  function Interned(names: seq<CString>, s: CString): seq<CString> {
    if NumberOf(names, s) < |names| then names else names + [s]
  }

  /** Names after a run of calls. */
  function Run(names: seq<CString>, calls: seq<CString>): seq<CString>
    decreases |calls|
  {
    if calls == [] then names else Run(Interned(names, calls[0]), calls[1..])
  }

  /** The numbers the calls of a run return. */
  function Issued(names: seq<CString>, calls: seq<CString>): seq<nat>
    decreases |calls|
  {
    if calls == [] then []
    else [NumberOf(names, calls[0])] + Issued(Interned(names, calls[0]), calls[1..])
  }

  lemma {:induction false} InternedIs(names: seq<CString>, s: CString)
    requires Distinct(names)
    ensures Distinct(Interned(names, s)) && names <= Interned(names, s)
    ensures NumberOf(names, s) < |Interned(names, s)| && Interned(names, s)[NumberOf(names, s)] == s
  {
  }

  lemma {:induction false} NumberIs(names: seq<CString>, k: nat)
    requires Distinct(names) && k < |names|
    ensures NumberOf(names, names[k]) == k
  {
    FirstIndexIs(names, Is(names[k]), k);
  }

  /** No later call changes an earlier mapping, and no string gets two numbers. */
  lemma {:induction false} RunExtends(names: seq<CString>, calls: seq<CString>)
    requires Distinct(names)
    ensures Distinct(Run(names, calls)) && names <= Run(names, calls)
    decreases |calls|
  {
    if calls != [] {
      InternedIs(names, calls[0]);
      RunExtends(Interned(names, calls[0]), calls[1..]);
    }
  }

  /** Every number a run returns stands for its string when the run is over, and interning the
      string again returns it again. */
  lemma {:induction false} RunRoundTrips(names: seq<CString>, calls: seq<CString>, i: nat)
    requires Distinct(names) && i < |calls|
    ensures |Issued(names, calls)| == |calls|
    ensures var id, after := Issued(names, calls)[i], Run(names, calls);
            id < |after| && after[id] == calls[i] && NumberOf(after, calls[i]) == id
    decreases |calls|
  {
    var next := Interned(names, calls[0]);
    InternedIs(names, calls[0]);
    RunExtends(next, calls[1..]);
    if i == 0 {
      IssuedLength(names, calls);
      NumberIs(Run(names, calls), NumberOf(names, calls[0]));
    } else {
      RunRoundTrips(next, calls[1..], i - 1);
    }
  }

  lemma {:induction false} IssuedLength(names: seq<CString>, calls: seq<CString>)
    ensures |Issued(names, calls)| == |calls|
    decreases |calls|
  {
    if calls != [] {
      IssuedLength(Interned(names, calls[0]), calls[1..]);
    }
  }

  /** Two calls of a run return the same number exactly when they are given the same string. */
  lemma {:induction false} NumbersIdentify(calls: seq<CString>, i: nat, j: nat)
    requires i < |calls| && j < |calls|
    ensures |Issued([], calls)| == |calls|
    ensures Issued([], calls)[i] == Issued([], calls)[j] <==> calls[i] == calls[j]
  {
    RunRoundTrips([], calls, i);
    RunRoundTrips([], calls, j);
  }

  /** Every number in use was returned by some call. */
  lemma {:induction false} EveryNumberIssued(names: seq<CString>, calls: seq<CString>, k: nat) returns (i: nat)
    requires Distinct(names) && |names| <= k < |Run(names, calls)|
    ensures i < |calls| == |Issued(names, calls)| && Issued(names, calls)[i] == k
    decreases |calls|
  {
    var next := Interned(names, calls[0]);
    InternedIs(names, calls[0]);
    IssuedLength(names, calls);
    if |next| == k + 1 {
      i := 0;
    } else {
      i := EveryNumberIssued(next, calls[1..], k);
      i := i + 1;
    }
  }

  /** From an empty start, the numbers returned are exactly those below the number of names. */
  lemma {:induction false} IssuedExactly(calls: seq<CString>, k: nat)
    ensures k in Issued([], calls) <==> k < |Run([], calls)|
  {
    IssuedLength([], calls);
    if k < |Run([], calls)| {
      var i := EveryNumberIssued([], calls, k);
    }
    if i :| 0 <= i < |calls| && Issued([], calls)[i] == k {
      RunRoundTrips([], calls, i);
    }
  }

  // ---------------------------------------------------------------- the table

  datatype Node = Node(id: int, text: CString)

  datatype Answer = Text(text: CString) | Null | OutOfBounds

  class Quark {
    /** The search tree. */
    var qt: set<Node>
    /** The nodes by number. */
    var quarks: seq<Node>
    var last: int

    ghost predicate Valid()
      reads this
    {
      && |quarks| == last + 1
      && (forall i :: 0 <= i < |quarks| ==> quarks[i].id == i)
      && (forall n :: n in qt <==> n in quarks)
      && Distinct(Names())
    }

    ghost function Names(): (n: seq<CString>)
      reads this
      ensures |n| == |quarks|
    {
      seq(|quarks|, i requires 0 <= i < |quarks| reads this => quarks[i].text)
    }

    constructor ()
      ensures Valid() && Names() == []
    {
      qt, quarks, last := {}, [], -1;
    }

    /** A node of the tree that compares equal. */
    method Find(str: CString) returns (found: Option<Node>)
      requires Valid()
      ensures var k := NumberOf(Names(), str); found == if k < |quarks| then Some(quarks[k]) else None
    {
      if exists n <- qt :: Strcmp(str, n.text) == 0 {
        var n :| n in qt && Strcmp(str, n.text) == 0;
        StrcmpZeroIff(str, n.text);
        NumberIs(Names(), n.id);
        found := Some(n);
      } else {
        found := None;
        forall i | 0 <= i < |quarks|
          ensures Names()[i] != str
        {
          assert quarks[i] in qt;
          StrcmpZeroIff(str, quarks[i].text);
        }
        FirstIndexIs(Names(), Is(str), |quarks|);
      }
    }

    /** The number of a string, new if the string is. */
    method FromString(str: CString) returns (id: int)
      requires Valid() && (last < 0x7fff_ffff || str in Names())
      modifies this
      ensures Valid() && Names() == Interned(old(Names()), str)
      ensures id == NumberOf(old(Names()), str) && last == |Names()| - 1
      ensures Names() == if str in old(Names()) then old(Names()) else old(Names()) + [str]
      ensures 0 <= id < |Names()| && Names()[id] == str
    {
      var qn := Find(str);
      if qn.None? {
        last := last + 1;
        var node := Node(last, str);
        qt := qt + {node};
        quarks := quarks + [node];
        assert Names() == old(Names()) + [str];
        InternedIs(old(Names()), str);
        return last;
      }
      InternedIs(Names(), str);
      return qn.value.id;
    }

    /** The string of a number, or NULL above the last. Nothing is before the first: a negative
        number reads in front of the array. */
    method ToString(id: int) returns (answer: Answer)
      requires Valid()
      ensures answer == if id >= |Names()| then Null else if id < 0 then OutOfBounds else Text(Names()[id])
    {
      answer := if id > last then Null else if id < 0 then OutOfBounds else Text(quarks[id].text);
    }
  }
}
