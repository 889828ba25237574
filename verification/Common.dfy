/**
  What several models share: optional values, 32-bit words and a few facts about sequences.
 */
module Common {

  datatype Option<+T> = None | Some(value: T)

  const TWO32: nat := 0x1_0000_0000

  type U32 = x: nat | x < TWO32

  ghost predicate Distinct<T>(s: seq<T>) {
    forall i, j :: 0 <= i < j < |s| ==> s[i] != s[j]
  }

  function Rev<T>(s: seq<T>): (r: seq<T>)
    ensures |r| == |s| && forall i :: 0 <= i < |s| ==> r[i] == s[|s| - 1 - i]
  {
    seq(|s|, i requires 0 <= i < |s| => s[|s| - 1 - i])
  }

  /** What is left from place `from` on, in reverse. */
  function Backwards<T>(s: seq<T>, from: nat): (r: seq<T>)
    requires from <= |s|
    ensures |r| == |s| - from && forall i :: 0 <= i < |r| ==> r[i] == s[|s| - 1 - i]
  {
    seq(|s| - from, i requires 0 <= i < |s| - from => s[|s| - 1 - i])
  }

  lemma {:induction false} RevTwice<T>(s: seq<T>)
    ensures Rev(Rev(s)) == s
  {
  }

  /** The place of the first item that satisfies `p`, or the length. */
  function FirstIndex<T>(items: seq<T>, p: T -> bool): (k: nat)
    ensures k <= |items| && (k < |items| ==> p(items[k])) && forall i :: 0 <= i < k ==> !p(items[i])
  {
    if items == [] || p(items[0]) then 0 else 1 + FirstIndex(items[1..], p)
  }

  lemma {:induction false} FirstIndexIs<T>(items: seq<T>, p: T -> bool, k: nat)
    requires k <= |items| && (k < |items| ==> p(items[k])) && forall i :: 0 <= i < k ==> !p(items[i])
    ensures FirstIndex(items, p) == k
  {
  }

  function Without<T>(items: seq<T>, k: nat): seq<T> {
    if k < |items| then items[..k] + items[k + 1..] else items
  }

  lemma {:induction false} WithoutIn<T>(items: seq<T>, k: nat)
    ensures forall x <- Without(items, k) :: x in items
  {
  }

  /** The items left after a removal, by their old places. */
  lemma {:induction false} WithoutIndex<T>(items: seq<T>, k: nat, i: nat)
    requires i < |Without(items, k)|
    ensures Without(items, k)[i] == if i < k then items[i] else items[i + 1]
  {
  }
}
