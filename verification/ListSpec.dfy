/**
  The doubly linked list as a value. Putting an item in front does not set the `prev` link of
  the old first item, so a list's value is its items in order, each with whether it links back
  to the one before.
 */
module ListSpec {
  import opened Common

  datatype Cell<T> = Cell(data: T, back: bool)

  /** The first item never links back. */
  predicate Proper<T>(cells: seq<Cell<T>>) {
    cells != [] ==> !cells[0].back
  }

  /** Every item but the first links back: the links are mirrors of each other. */
  predicate Whole<T>(cells: seq<Cell<T>>) {
    && Proper(cells)
    && forall i :: 0 < i < |cells| ==> cells[i].back
  }

  function Data<T>(cells: seq<Cell<T>>): (d: seq<T>)
    ensures |d| == |cells|
  {
    seq(|cells|, i requires 0 <= i < |cells| => cells[i].data)
  }

  /** Where the back links that start at the last item come to an end. */
  function Start<T>(cells: seq<Cell<T>>): (s: nat)
    ensures s <= |cells| && (cells != [] ==> s < |cells|)
    ensures forall i :: s < i < |cells| ==> cells[i].back
    ensures cells != [] && s > 0 ==> !cells[s].back
  {
    if cells == [] then 0
    else if !cells[|cells| - 1].back then |cells| - 1
    else Start(cells[..|cells| - 1])
  }

  lemma {:induction false} StartIs<T>(cells: seq<Cell<T>>, s: nat)
    requires s < |cells| && (s > 0 ==> !cells[s].back) && forall i :: s < i < |cells| ==> cells[i].back
    requires Proper(cells)
    ensures Start(cells) == s
  {
  }

  lemma {:induction false} WholeIff<T>(cells: seq<Cell<T>>)
    requires Proper(cells)
    ensures Whole(cells) <==> Start(cells) == 0
  {
  }

  // ---------------------------------------------------------------- operations

  function Added<T>(cells: seq<Cell<T>>, data: T): seq<Cell<T>> {
    cells + [Cell(data, cells != [])]
  }

  function Preadded<T>(cells: seq<Cell<T>>, data: T): seq<Cell<T>> {
    [Cell(data, false)] + cells
  }

  /** The item after the one removed takes over its back link. */
  function Removed<T>(cells: seq<Cell<T>>, k: int): seq<Cell<T>> {
    if !(0 <= k < |cells|) then cells
    else if k + 1 == |cells| then cells[..k]
    else cells[..k] + [Cell(cells[k + 1].data, cells[k].back)] + cells[k + 2..]
  }

  /** Only the items that the back links reach from the end are left, now all linked both ways. */
  function Reversed<T>(cells: seq<Cell<T>>): seq<Cell<T>> {
    TurnedBack(cells, Start(cells))
  }

  /** The cells from the last back to `s`, linked both ways. */
  function TurnedBack<T>(cells: seq<Cell<T>>, s: nat): (t: seq<Cell<T>>)
    requires s <= |cells|
  {
    seq(|cells| - s, i requires 0 <= i < |cells| - s => Cell(cells[|cells| - 1 - i].data, i > 0))
  }

  lemma {:induction false} RemovedData<T>(cells: seq<Cell<T>>, k: nat)
    ensures Data(Removed(cells, k)) == Without(Data(cells), k)
  {
  }

  /** Which items are left, and which of them link back: each as before, but the one after the item
      removed as that item did. */
  lemma {:induction false} RemovedAt<T>(cells: seq<Cell<T>>, k: nat, i: nat)
    requires k < |cells| && i + 1 < |cells|
    ensures |Removed(cells, k)| + 1 == |cells|
    ensures Removed(cells, k)[i].data == cells[if i < k then i else i + 1].data
    ensures Removed(cells, k)[i].back == cells[if i <= k then i else i + 1].back
  {
  }

  lemma {:induction false} ReversedData<T>(cells: seq<Cell<T>>)
    ensures Data(Reversed(cells)) == Backwards(Data(cells), Start(cells))
  {
  }

  // ---------------------------------------------------------------- what operations keep

  lemma {:induction false} RemovedKeeps<T>(cells: seq<Cell<T>>, k: int)
    requires Proper(cells)
    ensures Proper(Removed(cells, k)) && (Whole(cells) ==> Whole(Removed(cells, k)))
  {
  }

  /** Reversing yields the items in reverse, all of them, exactly when the links are mirrors. */
  lemma {:induction false} ReversesIff<T>(cells: seq<Cell<T>>)
    requires Proper(cells)
    ensures Whole(cells) <==> Data(Reversed(cells)) == Rev(Data(cells))
    ensures Whole(Reversed(cells))
  {
    var s := Start(cells);
    ReversedData(cells);
    WholeIff(cells);
    if s == 0 {
      assert Backwards(Data(cells), 0) == Rev(Data(cells));
    } else {
      assert |Backwards(Data(cells), s)| != |Rev(Data(cells))|;
    }
  }

  /** A backward visit sees all items in reverse exactly when the links are mirrors. */
  lemma {:induction false} BackwardVisitIff<T>(cells: seq<Cell<T>>)
    requires Proper(cells)
    ensures Whole(cells) <==> Backwards(Data(cells), Start(cells)) == Rev(Data(cells))
  {
    ReversedData(cells);
    ReversesIff(cells);
  }

  /** Reversing twice restores a list exactly when its links are mirrors. */
  lemma {:induction false} ReversesTwiceIff<T>(cells: seq<Cell<T>>)
    requires Proper(cells)
    ensures Whole(cells) <==> Reversed(Reversed(cells)) == cells
  {
    var r := Reversed(cells);
    ReversesIff(cells);
    ReversesIff(r);
    WholeIff(r);
    if Whole(cells) {
      var t := Reversed(r);
      WholeIff(cells);
      forall i | 0 <= i < |cells|
        ensures t[i] == cells[i]
      {
      }
    } else {
      WholeIff(cells);
      assert |r| < |cells| && |Reversed(r)| <= |r|;
    }
  }

  // ---------------------------------------------------------------- runs

  datatype Op<T> = DoAdd(data: T) | DoPreadd(data: T) | DoRemove(k: int) | DoReverse

  function Step<T>(cells: seq<Cell<T>>, op: Op<T>): seq<Cell<T>> {
    match op
    case DoAdd(data) => Added(cells, data)
    case DoPreadd(data) => Preadded(cells, data)
    case DoRemove(k) => Removed(cells, k)
    case DoReverse => Reversed(cells)
  }

  function Run<T>(cells: seq<Cell<T>>, ops: seq<Op<T>>): seq<Cell<T>>
    decreases |ops|
  {
    if ops == [] then cells else Run(Step(cells, ops[0]), ops[1..])
  }

  /** No item is put in front of others. */
  predicate FrontOnlyOnEmpty<T>(cells: seq<Cell<T>>, ops: seq<Op<T>>)
    decreases |ops|
  {
    ops == [] || ((ops[0].DoPreadd? ==> cells == []) && FrontOnlyOnEmpty(Step(cells, ops[0]), ops[1..]))
  }

  /** A step leaves mirrored links mirrored unless it puts an item in front of others. */
  lemma {:induction false} StepKeepsIff<T>(cells: seq<Cell<T>>, op: Op<T>)
    requires Whole(cells)
    ensures Whole(Step(cells, op)) <==> (op.DoPreadd? ==> cells == [])
  {
    match op
    case DoAdd(data) =>
    case DoPreadd(data) =>
      if cells != [] {
        assert !Preadded(cells, data)[1].back;
      }
    case DoRemove(k) => RemovedKeeps(cells, k);
    case DoReverse => ReversesIff(cells);
  }

  /** What a run means for the items when the list is taken as a plain sequence. */
  function PlainStep<T>(items: seq<T>, op: Op<T>): seq<T> {
    match op
    case DoAdd(data) => items + [data]
    case DoPreadd(data) => [data] + items
    case DoRemove(k) => if k < 0 then items else Without(items, k)
    case DoReverse => Rev(items)
  }

  function PlainRun<T>(items: seq<T>, ops: seq<Op<T>>): seq<T>
    decreases |ops|
  {
    if ops == [] then items else PlainRun(PlainStep(items, ops[0]), ops[1..])
  }

  lemma {:induction false} StepIsPlain<T>(cells: seq<Cell<T>>, op: Op<T>)
    requires Proper(cells) && (op.DoReverse? ==> Whole(cells))
    ensures Data(Step(cells, op)) == PlainStep(Data(cells), op)
  {
    match op
    case DoAdd(data) =>
    case DoPreadd(data) =>
    case DoRemove(k) => if k >= 0 { RemovedData(cells, k); }
    case DoReverse => ReversesIff(cells);
  }

  /** Over every run that puts items in front only of an empty list, the links stay mirrors and
      the items are those of a plain sequence. */
  lemma {:induction false} RunKeeps<T>(cells: seq<Cell<T>>, ops: seq<Op<T>>)
    requires Whole(cells) && FrontOnlyOnEmpty(cells, ops)
    ensures Whole(Run(cells, ops)) && Data(Run(cells, ops)) == PlainRun(Data(cells), ops)
    decreases |ops|
  {
    if ops != [] {
      StepKeepsIff(cells, ops[0]);
      StepIsPlain(cells, ops[0]);
      RunKeeps(Step(cells, ops[0]), ops[1..]);
    }
  }

  /** Items put in front one after another. */
  function AllPreadded<T>(cells: seq<Cell<T>>, items: seq<T>): seq<Cell<T>>
    decreases |items|
  {
    if items == [] then cells else AllPreadded(Preadded(cells, items[0]), items[1..])
  }

  lemma {:induction false} AllPreaddedIs<T>(cells: seq<Cell<T>>, items: seq<T>)
    ensures |AllPreadded(cells, items)| == |items| + |cells|
    ensures AllPreadded(cells, items)[|items|..] == cells
    ensures forall i :: 0 <= i < |items| ==> AllPreadded(cells, items)[i] == Cell(items[|items| - 1 - i], false)
    decreases |items|
  {
    if items != [] {
      var one := Preadded(cells, items[0]);
      AllPreaddedIs(one, items[1..]);
      var all := AllPreadded(cells, items);
      assert all[|items| - 1] == all[|items| - 1..][0];
      assert all[|items|..] == all[|items| - 1..][1..];
    }
  }

  /** Putting items in front of an empty list and reversing it keeps only the first of them, so
      it amounts to adding them in order exactly when there is at most one. */
  lemma {:induction false} PreaddAndReverseIff<T>(items: seq<T>)
    ensures Data(Reversed(AllPreadded([], items))) == if items == [] then [] else [items[0]]
    ensures Data(Reversed(AllPreadded([], items))) == items <==> |items| <= 1
  {
    var all: seq<Cell<T>> := AllPreadded([], items);
    AllPreaddedIs([], items);
    if items != [] {
      assert all[|items| - 1] == Cell(items[0], false);
      StartIs(all, |items| - 1);
      ReversedData(all);
    }
  }
}
