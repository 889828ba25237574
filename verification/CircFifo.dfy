/**
  What the circular buffer is to its callers: a first-in first-out queue of at most
  `size - 1` items that remembers where in the ring its first item lies, since bulk operations
  need contiguous room.
 */
module CircFifo {
  import opened Common
  import CircAddress

  datatype Fifo<T> = Fifo(size: nat, first: nat, items: seq<T>)

  ghost predicate ValidFifo<T>(f: Fifo<T>) {
    f.first < f.size && |f.items| < f.size
  }

  function Min(a: nat, b: nat): nat {
    if a < b then a else b
  }

  /** Free places in a row from the head, one place of the ring being kept free. */
  function SpaceRun<T>(f: Fifo<T>): nat
    requires f.first < f.size && |f.items| < f.size
  {
    Min(f.size - 1 - |f.items|, f.size - CircAddress.Wrap(f.first + |f.items|, f.size))
  }

  /** Items in a row from the tail. */
  function ItemRun<T>(f: Fifo<T>): nat
    requires f.first < f.size
  {
    Min(|f.items|, f.size - f.first)
  }

  function Push<T>(f: Fifo<T>, x: T): (Fifo<T>, bool) {
    if |f.items| + 1 == f.size then (f, false) else (f.(items := f.items + [x]), true)
  }

  /** A bulk push needs the room in a row, unless the queue is empty: then the ring starts
      afresh and takes anything up to its size. Exactly its size is one too many: the head
      comes round to the tail and everything just pushed is gone. */
  function PushM<T>(f: Fifo<T>, xs: seq<T>): (Fifo<T>, bool)
    requires f.first < f.size && |f.items| < f.size
  {
    if |xs| <= SpaceRun(f) then (f.(items := f.items + xs), true)
    else if f.items == [] && |xs| <= f.size then (Fifo(f.size, 0, if |xs| < f.size then xs else []), true)
    else (f, false)
  }

  function Pop<T>(f: Fifo<T>): (Fifo<T>, Option<T>)
    requires f.first < f.size
  {
    if f.items == [] then (f, None)
    else (f.(first := CircAddress.Wrap(f.first + 1, f.size), items := f.items[1..]), Some(f.items[0]))
  }

  /** A bulk pop takes items only as far as they lie in a row. */
  function PopM<T>(f: Fifo<T>, count: nat): (Fifo<T>, Option<seq<T>>)
    requires f.first < f.size
  {
    if ItemRun(f) < count then (f, None)
    else (f.(first := CircAddress.Wrap(f.first + count, f.size), items := f.items[count..]), Some(f.items[..count]))
  }

  function Reset<T>(f: Fifo<T>): Fifo<T> {
    Fifo(f.size, 0, [])
  }

  // ---------------------------------------------------------------- runs

  datatype Op<T> = DoPush(x: T) | DoPushM(xs: seq<T>) | DoPop | DoPopM(count: nat) | DoReset

  /** A queue with the items accepted and popped since it was new or last reset. */
  datatype History<T> = History(fifo: Fifo<T>, accepted: seq<T>, popped: seq<T>)

  function Step<T>(h: History<T>, op: Op<T>): History<T>
    requires h.fifo.first < h.fifo.size && |h.fifo.items| < h.fifo.size
  {
    match op
    case DoPush(x) =>
      var (f, ok) := Push(h.fifo, x);
      History(f, if ok then h.accepted + [x] else h.accepted, h.popped)
    case DoPushM(xs) =>
      var (f, ok) := PushM(h.fifo, xs);
      History(f, if ok then h.accepted + xs else h.accepted, h.popped)
    case DoPop =>
      var (f, item) := Pop(h.fifo);
      History(f, h.accepted, if item.Some? then h.popped + [item.value] else h.popped)
    case DoPopM(count) =>
      var (f, items) := PopM(h.fifo, count);
      History(f, h.accepted, if items.Some? then h.popped + items.value else h.popped)
    case DoReset => History(Reset(h.fifo), [], [])
  }

  /** Nothing lost, nothing out of order. */
  ghost predicate Conserved<T>(h: History<T>) {
    h.accepted == h.popped + h.fifo.items
  }

  /** The one call that loses items: a bulk push of a whole ring onto an empty queue. */
  predicate Overfills<T>(h: History<T>, op: Op<T>) {
    op.DoPushM? && |op.xs| == h.fifo.size && h.fifo.items == []
  }

  lemma {:induction false} StepKeepsValid<T>(h: History<T>, op: Op<T>)
    requires ValidFifo(h.fifo)
    ensures ValidFifo(Step(h, op).fifo) && Step(h, op).fifo.size == h.fifo.size
  {
  }

  /** A call conserves the items exactly when it is not the overfilling bulk push. */
  lemma {:induction false} StepConservesIff<T>(h: History<T>, op: Op<T>)
    requires ValidFifo(h.fifo) && Conserved(h)
    ensures Conserved(Step(h, op)) <==> !Overfills(h, op)
  {
    match op
    case DoPush(x) =>
      assert h.popped + h.fifo.items + [x] == h.popped + (h.fifo.items + [x]);
    case DoPushM(xs) =>
      var f := h.fifo;
      assert h.popped + f.items + xs == h.popped + (f.items + xs);
      if Overfills(h, op) {
        assert |h.accepted + xs| > |h.popped|;
      } else if f.items == [] {
        assert h.popped + [] == h.popped && [] + xs == xs;
      }
    case DoPop =>
      if h.fifo.items != [] {
        assert h.fifo.items == [h.fifo.items[0]] + h.fifo.items[1..];
        assert h.popped + ([h.fifo.items[0]] + h.fifo.items[1..]) == h.popped + [h.fifo.items[0]] + h.fifo.items[1..];
      }
    case DoPopM(count) =>
      if count <= ItemRun(h.fifo) {
        var front, back := h.fifo.items[..count], h.fifo.items[count..];
        assert h.fifo.items == front + back;
        assert h.popped + (front + back) == h.popped + front + back;
      }
    case DoReset =>
  }

  function Run<T>(h: History<T>, ops: seq<Op<T>>): History<T>
    requires h.fifo.first < h.fifo.size && |h.fifo.items| < h.fifo.size
    decreases |ops|
  {
    if ops == [] then h
    else
      StepKeepsValid(h, ops[0]);
      Run(Step(h, ops[0]), ops[1..])
  }

  /** No call since the last reset overfills, where `kept` says whether none has before the run. */
  predicate Kept<T>(h: History<T>, ops: seq<Op<T>>, kept: bool)
    requires h.fifo.first < h.fifo.size && |h.fifo.items| < h.fifo.size
    decreases |ops|
  {
    if ops == [] then kept
    else
      StepKeepsValid(h, ops[0]);
      Kept(Step(h, ops[0]), ops[1..], ops[0].DoReset? || (kept && !Overfills(h, ops[0])))
  }

  /** More was accepted than can be accounted for. */
  ghost predicate Short<T>(h: History<T>) {
    |h.accepted| > |h.popped| + |h.fifo.items|
  }

  lemma {:induction false} StepLoses<T>(h: History<T>, op: Op<T>)
    requires ValidFifo(h.fifo) && Conserved(h) && Overfills(h, op)
    ensures Short(Step(h, op))
  {
    assert h.popped + [] == h.popped;
  }

  /** Lost items stay lost until a reset. */
  lemma {:induction false} StepStaysShort<T>(h: History<T>, op: Op<T>)
    requires ValidFifo(h.fifo) && Short(h) && !op.DoReset?
    ensures Short(Step(h, op))
  {
  }

  lemma {:induction false} RunAccounts<T>(h: History<T>, ops: seq<Op<T>>, kept: bool)
    requires ValidFifo(h.fifo) && (if kept then Conserved(h) else Short(h))
    ensures ValidFifo(Run(h, ops).fifo) && Run(h, ops).fifo.size == h.fifo.size
    ensures if Kept(h, ops, kept) then Conserved(Run(h, ops)) else Short(Run(h, ops))
    decreases |ops|
  {
    if ops != [] {
      var op := ops[0];
      StepKeepsValid(h, op);
      if kept {
        StepConservesIff(h, op);
        if Overfills(h, op) {
          StepLoses(h, op);
        }
      } else if !op.DoReset? {
        StepStaysShort(h, op);
      }
      RunAccounts(Step(h, op), ops[1..], op.DoReset? || (kept && !Overfills(h, op)));
    }
  }

  /** Over every interleaving of calls, what was accepted since the last reset is what was popped
      followed by what is still queued exactly when no call since then overfills, and the queue
      stays within its capacity either way. */
  lemma {:induction false} RunConserves<T>(h: History<T>, ops: seq<Op<T>>)
    requires ValidFifo(h.fifo) && Conserved(h)
    ensures ValidFifo(Run(h, ops).fifo) && Run(h, ops).fifo.size == h.fifo.size
    ensures Conserved(Run(h, ops)) <==> Kept(h, ops, true)
  {
    RunAccounts(h, ops, true);
  }

  function Pops<T>(n: nat): (ops: seq<Op<T>>)
    ensures |ops| == n
  {
    seq(n, _ => DoPop)
  }

  lemma {:induction false} PopsTakeAll<T>(h: History<T>, n: nat)
    requires ValidFifo(h.fifo) && n >= |h.fifo.items|
    ensures var after := Run(h, Pops(n));
            after.popped == h.popped + h.fifo.items && after.fifo.items == [] && after.accepted == h.accepted
    decreases n
  {
    if n > 0 {
      var items := h.fifo.items;
      assert Pops<T>(n)[1..] == Pops<T>(n - 1);
      StepKeepsValid(h, DoPop);
      PopsTakeAll(Step(h, DoPop), n - 1);
      if items != [] {
        assert items == [items[0]] + items[1..];
        assert h.popped + ([items[0]] + items[1..]) == h.popped + [items[0]] + items[1..];
      }
    } else {
      assert h.popped + [] == h.popped;
    }
  }

  /** After any run in which nothing has overfilled since the last reset, enough pops of one item
      give back every item accepted since, in order. */
  lemma {:induction false} RunDrains<T>(h: History<T>, ops: seq<Op<T>>, n: nat)
    requires ValidFifo(h.fifo) && Conserved(h) && Kept(h, ops, true)
    requires n >= |Run(h, ops).fifo.items|
    ensures ValidFifo(Run(h, ops).fifo) && Run(Run(h, ops), Pops(n)).popped == Run(h, ops).accepted
  {
    RunConserves(h, ops);
    PopsTakeAll(Run(h, ops), n);
  }
}
