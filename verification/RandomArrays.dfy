/**
  One generator object serving several state arrays: switches and draws in any order, carried
  out by its own methods, give each array the numbers of its own stream.
 */
module RandomArrays {
  import opened RandomStream
  import opened RandomR

  ghost predicate Apart(arrays: seq<array<Int32>>) {
    forall i, j :: 0 <= i < j < |arrays| ==> arrays[i] != arrays[j]
  }

  /** The object uses array `cur`, and the others have been put away. */
  ghost predicate Serves(rnd: RandomData, arrays: seq<array<Int32>>, cur: nat)
    reads rnd, rnd.state, arrays
  {
    && Apart(arrays) && cur < |arrays| && rnd.Valid() && rnd.state == arrays[cur]
    && forall id :: 0 <= id < |arrays| && id != cur ==> Saved(arrays[id][..])
  }

  ghost function Images(arrays: seq<array<Int32>>): (images: map<nat, seq<Int32>>)
    reads arrays
    ensures forall id: nat :: id in images <==> id < |arrays|
  {
    map id: nat | id < |arrays| :: arrays[id][..]
  }

  /** Every array switched to is one of `n`. */
  predicate Within(actions: seq<Action>, n: nat) {
    forall k :: 0 <= k < |actions| && actions[k].SwitchTo? ==> actions[k].id < n
  }

  /** The system of state arrays that the object and the arrays are. */
  ghost function SystemOf(rnd: RandomData, arrays: seq<array<Int32>>, cur: nat): (s: System)
    reads rnd, rnd.state, arrays
    requires Serves(rnd, arrays, cur)
    ensures ValidSystem(s) && forall id: nat :: id in s.images <==> id < |arrays|
  {
    var l := rnd.Current();
    System(Images(arrays), cur, l.t, l.rear)
  }

  method SwitchArray(rnd: RandomData, arrays: seq<array<Int32>>, cur: nat, id: nat)
    requires Serves(rnd, arrays, cur) && id < |arrays|
    modifies rnd, arrays
    ensures Serves(rnd, arrays, id)
    ensures SystemOf(rnd, arrays, id) == Switch(old(SystemOf(rnd, arrays, cur)), id)
  {
    ghost var s := SystemOf(rnd, arrays, cur);
    ghost var was := rnd.Current();
    SaveLoad(was);
    var _ := rnd.SetStateR(arrays[id]);
    assert Images(arrays) == s.images[cur := Save(was)];
  }

  method DrawFrom(rnd: RandomData, ghost arrays: seq<array<Int32>>, ghost cur: nat) returns (v: Int32)
    requires Serves(rnd, arrays, cur)
    modifies rnd, rnd.state
    ensures Serves(rnd, arrays, cur)
    ensures (SystemOf(rnd, arrays, cur), v) == DrawCurrent(old(SystemOf(rnd, arrays, cur)))
  {
    ghost var s := SystemOf(rnd, arrays, cur);
    v := rnd.RandomR();
    assert Images(arrays) == s.images[cur := rnd.state[..]];
  }

  /** Each array's numbers so far are followed by those the rest of the run will draw from it. */
  ghost predicate Continues(s: System, actions: seq<Action>, s': System, later: seq<Action>, numbers: seq<seq<Int32>>)
    requires ValidSystem(s) && Known(actions, s.images.Keys) && ValidSystem(s') && Known(later, s'.images.Keys)
  {
    forall id :: 0 <= id < |numbers| ==> DrawnFrom(s, actions, id) == numbers[id] + DrawnFrom(s', later, id)
  }

  lemma {:induction false} ContinuesSwitch(s: System, actions: seq<Action>, s': System, later: seq<Action>,
                                           numbers: seq<seq<Int32>>)
    requires ValidSystem(s) && Known(actions, s.images.Keys) && ValidSystem(s') && Known(later, s'.images.Keys)
    requires Continues(s, actions, s', later, numbers) && later != [] && later[0].SwitchTo?
    ensures var next := Switch(s', later[0].id);
            ValidSystem(next) && next.images.Keys == s'.images.Keys && Known(later[1..], next.images.Keys)
            && Continues(s, actions, next, later[1..], numbers)
  {
    SwitchKeeps(s', later[0].id);
  }

  lemma {:induction false} ContinuesDraw(s: System, actions: seq<Action>, s': System, later: seq<Action>,
                                         numbers: seq<seq<Int32>>, numbers': seq<seq<Int32>>)
    requires ValidSystem(s) && Known(actions, s.images.Keys) && ValidSystem(s') && Known(later, s'.images.Keys)
    requires Continues(s, actions, s', later, numbers) && later != [] && later[0].DrawNumber?
    requires s'.current < |numbers|
    requires numbers' == numbers[s'.current := numbers[s'.current] + [DrawCurrent(s').1]]
    ensures var next := DrawCurrent(s').0;
            ValidSystem(next) && next.images.Keys == s'.images.Keys && Known(later[1..], next.images.Keys)
            && Continues(s, actions, next, later[1..], numbers')
  {
    DrawKeeps(s');
    var (next, v) := DrawCurrent(s');
    forall id | 0 <= id < |numbers'|
      ensures DrawnFrom(s, actions, id) == numbers'[id] + DrawnFrom(next, later[1..], id)
    {
      assert DrawnFrom(s, actions, id) == numbers[id] + DrawnFrom(s', later, id);
      Reassociate(numbers[id], if id == s'.current then [v] else [], DrawnFrom(next, later[1..], id));
    }
  }

  lemma {:induction false} Reassociate(a: seq<Int32>, b: seq<Int32>, c: seq<Int32>)
    ensures a + (b + c) == a + b + c && a + [] == a
  {
  }

  lemma {:induction false} ContinuesStart(s: System, actions: seq<Action>, numbers: seq<seq<Int32>>)
    requires ValidSystem(s) && Known(actions, s.images.Keys) && forall id :: 0 <= id < |numbers| ==> numbers[id] == []
    ensures Continues(s, actions, s, actions, numbers)
  {
    forall id | 0 <= id < |numbers|
      ensures DrawnFrom(s, actions, id) == numbers[id] + DrawnFrom(s, actions, id)
    {
      assert [] + DrawnFrom(s, actions, id) == DrawnFrom(s, actions, id);
    }
  }

  lemma {:induction false} ContinuesEnd(s: System, actions: seq<Action>, s': System, numbers: seq<seq<Int32>>, id: nat)
    requires ValidSystem(s) && Known(actions, s.images.Keys) && ValidSystem(s')
    requires Continues(s, actions, s', [], numbers) && id < |numbers| && id in s.images
    ensures numbers[id] == DrawnFrom(s, actions, id) == Stream(GenAt(s, id), |numbers[id]|)
  {
    assert numbers[id] + [] == numbers[id];
    StreamsAreIndependent(s, actions, id);
  }

  /** A run of switches and draws. Whatever the interleaving, each array's numbers are those its
      stream would yield alone. */
  method OnArrays(rnd: RandomData, arrays: seq<array<Int32>>, start: nat, actions: seq<Action>)
    returns (numbers: seq<seq<Int32>>, cur: nat)
    requires Serves(rnd, arrays, start) && Within(actions, |arrays|)
    modifies rnd, arrays
    ensures Serves(rnd, arrays, cur) && |numbers| == |arrays|
    ensures forall id :: 0 <= id < |arrays| ==>
              && numbers[id] == DrawnFrom(old(SystemOf(rnd, arrays, start)), actions, id)
              && numbers[id] == Stream(GenAt(old(SystemOf(rnd, arrays, start)), id), |numbers[id]|)
  {
    ghost var s := SystemOf(rnd, arrays, start);
    numbers, cur := seq(|arrays|, _ => []), start;
    ContinuesStart(s, actions, numbers);
    ghost var later := actions;
    for k := 0 to |actions|
      invariant Serves(rnd, arrays, cur) && |numbers| == |arrays|
      invariant later == actions[k..] && Within(later, |arrays|)
      invariant Continues(s, actions, SystemOf(rnd, arrays, cur), later, numbers)
    {
      ghost var s' := SystemOf(rnd, arrays, cur);
      match actions[k] {
        case SwitchTo(id) =>
          ContinuesSwitch(s, actions, s', later, numbers);
          SwitchArray(rnd, arrays, cur, id);
          cur := id;
        case DrawNumber =>
          var v := DrawFrom(rnd, arrays, cur);
          ContinuesDraw(s, actions, s', later, numbers, numbers[cur := numbers[cur] + [v]]);
          numbers := numbers[cur := numbers[cur] + [v]];
      }
      later := later[1..];
    }
    assert later == [];
    forall id | 0 <= id < |arrays|
      ensures numbers[id] == DrawnFrom(s, actions, id) == Stream(GenAt(s, id), |numbers[id]|)
    {
      ContinuesEnd(s, actions, SystemOf(rnd, arrays, cur), numbers, id);
    }
  }
}
