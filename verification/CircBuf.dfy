/**
  The circular buffer: cells addressed by 32-bit offsets, refining the queue of CircFifo.dfy.
  An element is `elemSz` cells: one pointer, or the bytes of a copied item.
 */
module CircBuf {
  import opened Common
  import opened Bits
  import opened CircAddress
  import CircFifo

  // ---------------------------------------------------------------- elements in cells

  lemma {:induction false} SlotBounds(k: nat, m: nat, e: nat)
    requires k < m
    ensures k * e <= (k + 1) * e <= m * e && (k + 1) * e == k * e + e
  {
    MulMono(e, k + 1, m);
    assert (k + 1) * e == k * e + e;
  }

  /** Element `k` of cells holding `m` of them. */
  function Slot<T>(cells: seq<T>, e: nat, m: nat, k: nat): (s: seq<T>)
    requires |cells| == m * e && k < m
    ensures |s| == e
  {
    SlotBounds(k, m, e);
    cells[k * e..(k + 1) * e]
  }

  function Slots<T>(cells: seq<T>, e: nat, m: nat): (s: seq<seq<T>>)
    requires |cells| == m * e
    ensures |s| == m && forall k :: 0 <= k < m ==> s[k] == Slot(cells, e, m, k)
  {
    seq(m, k requires 0 <= k < m => Slot(cells, e, m, k))
  }

  /** The part of a ring of elements from position `t` on, `count` long. */
  function Ring<T>(slots: seq<T>, t: nat, count: nat): (r: seq<T>)
    requires t <= |slots| && count <= |slots|
    ensures |r| == count
  {
    if t + count <= |slots| then slots[t..t + count] else slots[t..] + slots[..t + count - |slots|]
  }

  lemma {:induction false} RingIndex<T>(slots: seq<T>, t: nat, count: nat, i: nat)
    requires t < |slots| && count <= |slots| && i < count
    ensures Ring(slots, t, count)[i] == slots[Wrap(t + i, |slots|)]
  {
  }

  /** Overwriting `m` elements from position `h` in a row. */
  ghost predicate Overwritten<T>(cells: seq<T>, cells': seq<T>, data: seq<T>, e: nat, n: nat, h: nat, m: nat)
    requires |cells| == n * e && h + m <= n && |data| == m * e
  {
    && |cells'| == n * e
    && h * e + m * e <= n * e
    && cells' == cells[..h * e] + data + cells[h * e + m * e..]
  }

  lemma {:induction false} CopyStep<T>(cells: seq<T>, data: seq<T>, at: nat, k: nat)
    requires k < |data| && at + |data| <= |cells|
    ensures (cells[..at] + data[..k] + cells[at + k..])[at + k := data[k]]
         == cells[..at] + data[..k + 1] + cells[at + k + 1..]
  {
  }

  /** A stretch of cells wholly before, inside or after an overwritten one. */
  lemma {:induction false} Stretch<T>(cells: seq<T>, cells': seq<T>, data: seq<T>, at: nat, p: nat, q: nat)
    requires at + |data| <= |cells| && p <= q <= |cells|
    requires cells' == cells[..at] + data + cells[at + |data|..]
    ensures q <= at ==> cells'[p..q] == cells[p..q]
    ensures at <= p && q <= at + |data| ==> cells'[p..q] == data[p - at..q - at]
    ensures at + |data| <= p ==> cells'[p..q] == cells[p..q]
  {
  }

  /** Where element `k` lies, relative to the overwritten stretch from `at` to `end`. */
  lemma {:induction false} SlotPlace(e: nat, n: nat, h: nat, m: nat, k: nat, at: nat, end: nat)
    requires h + m <= n && k < n && at == h * e && end == h * e + m * e
    ensures k < h ==> (k + 1) * e <= at
    ensures h <= k < h + m ==> at <= k * e && (k + 1) * e <= end && (k - h) * e == k * e - at
    ensures h + m <= k ==> end <= k * e
  {
    if k < h {
      SlotBounds(k, h, e);
    } else if k < h + m {
      SlotBounds(k - h, m, e);
      TimesSum(h, k - h, e);
      TimesSum(k, 1, e);
    } else {
      MulMono(e, h + m, k);
      TimesSum(h, m, e);
    }
  }

  lemma {:induction false} OverwrittenSlot<T>(cells: seq<T>, cells': seq<T>, data: seq<T>,
                                              e: nat, n: nat, h: nat, m: nat, k: nat)
    requires |cells| == n * e && h + m <= n && |data| == m * e && Overwritten(cells, cells', data, e, n, h, m) && k < n
    ensures Slot(cells', e, n, k) == if h <= k < h + m then Slot(data, e, m, k - h) else Slot(cells, e, n, k)
  {
    var at, p, q := h * e, k * e, (k + 1) * e;
    SlotBounds(k, n, e);
    SlotPlace(e, n, h, m, k, at, at + |data|);
    Stretch(cells, cells', data, at, p, q);
    if h <= k < h + m {
      SlotBounds(k - h, m, e);
      assert (k - h) * e == p - at && (k - h + 1) * e == q - at;
    }
  }

  lemma {:induction false} TimesSum(a: nat, b: nat, e: nat)
    ensures (a + b) * e == a * e + b * e
  {
  }

  lemma {:induction false} OverwrittenSlots<T>(cells: seq<T>, cells': seq<T>, data: seq<T>,
                                               e: nat, n: nat, h: nat, m: nat)
    requires |cells| == n * e && h + m <= n && |data| == m * e && Overwritten(cells, cells', data, e, n, h, m)
    ensures Slots(cells', e, n) == Slots(cells, e, n)[..h] + Slots(data, e, m) + Slots(cells, e, n)[h + m..]
  {
    forall k | 0 <= k < n
      ensures Slots(cells', e, n)[k] == (Slots(cells, e, n)[..h] + Slots(data, e, m) + Slots(cells, e, n)[h + m..])[k]
    {
      OverwrittenSlot(cells, cells', data, e, n, h, m, k);
    }
  }

  /** New elements behind the old ones. */
  lemma {:induction false} RingPush<T>(slots: seq<T>, slots': seq<T>, xs: seq<T>, t: nat, count: nat)
    requires t < |slots| && count < |slots|
    requires var h := Wrap(t + count, |slots|);
             h + |xs| <= |slots| && count + |xs| < |slots| && slots' == slots[..h] + xs + slots[h + |xs|..]
    ensures |slots'| == |slots| && Ring(slots', t, count + |xs|) == Ring(slots, t, count) + xs
  {
    var r, q := Ring(slots', t, count + |xs|), Ring(slots, t, count) + xs;
    forall i | 0 <= i < |r|
      ensures r[i] == q[i]
    {
      if i < count {
        RingPushOld(slots, slots', xs, t, count, i);
      } else {
        RingPushNew(slots, slots', xs, t, count, i);
      }
    }
  }

  lemma {:induction false} RingPushOld<T>(slots: seq<T>, slots': seq<T>, xs: seq<T>, t: nat, count: nat, i: nat)
    requires t < |slots| && i < count < |slots|
    requires var h := Wrap(t + count, |slots|);
             h + |xs| <= |slots| && count + |xs| < |slots| && slots' == slots[..h] + xs + slots[h + |xs|..]
    ensures Ring(slots', t, count + |xs|)[i] == Ring(slots, t, count)[i]
  {
    RingIndex(slots', t, count + |xs|, i);
    RingIndex(slots, t, count, i);
  }

  lemma {:induction false} RingPushNew<T>(slots: seq<T>, slots': seq<T>, xs: seq<T>, t: nat, count: nat, i: nat)
    requires t < |slots| && count <= i < count + |xs| < |slots|
    requires var h := Wrap(t + count, |slots|);
             h + |xs| <= |slots| && slots' == slots[..h] + xs + slots[h + |xs|..]
    ensures Ring(slots', t, count + |xs|)[i] == xs[i - count]
  {
    RingIndex(slots', t, count + |xs|, i);
  }

  lemma {:induction false} RingPop<T>(slots: seq<T>, t: nat, count: nat, m: nat)
    requires t < |slots| && m <= count < |slots| && t + m <= |slots|
    ensures Ring(slots, t, count)[..m] == slots[t..t + m]
    ensures Ring(slots, t, count)[m..] == Ring(slots, Wrap(t + m, |slots|), count - m)
  {
    var n, u := |slots|, Wrap(t + m, |slots|);
    var r := Ring(slots, t, count);
    forall i | 0 <= i < count - m
      ensures r[m..][i] == Ring(slots, u, count - m)[i]
    {
      RingIndex(slots, t, count, m + i);
      RingIndex(slots, u, count - m, i);
    }
    forall i | 0 <= i < m
      ensures r[..m][i] == slots[t..t + m][i]
    {
      RingIndex(slots, t, count, i);
    }
  }

  lemma {:induction false} SliceSlice<T>(s: seq<T>, a: nat, b: nat, c: nat, d: nat)
    requires a <= b <= |s| && c <= d <= b - a
    ensures s[a..b][c..d] == s[a + c..a + d]
  {
    assert |s[a..b][c..d]| == |s[a + c..a + d]|;
    forall i | 0 <= i < d - c
      ensures s[a..b][c..d][i] == s[a + c..a + d][i]
    {
    }
  }

  lemma {:induction false} SliceSlots<T>(cells: seq<T>, e: nat, n: nat, t: nat, m: nat)
    requires |cells| == n * e && t + m <= n
    ensures t * e + m * e <= n * e
    ensures var data := cells[t * e..t * e + m * e];
            |data| == m * e && Slots(data, e, m) == Slots(cells, e, n)[t..t + m]
  {
    MulMono(e, t + m, n);
    TimesSum(t, m, e);
    var data := cells[t * e..t * e + m * e];
    forall k | 0 <= k < m
      ensures Slot(data, e, m, k) == Slot(cells, e, n, t + k)
    {
      SlotBounds(k, m, e);
      SlotBounds(t + k, n, e);
      TimesSum(t, k, e);
      SliceSlice(cells, t * e, t * e + m * e, k * e, (k + 1) * e);
    }
  }

  // ---------------------------------------------------------------- offsets

  function Mul32(a: nat, b: nat): U32 {
    (a * b) % TWO32
  }

  /** The 32-bit sum of an offset and a number of elements that do not pass the end: it wraps
      to zero only at the end of storage that fills 32 bits. */
  lemma {:induction false} OffsetSum(n: nat, e: nat, h: nat, m: nat)
    requires e >= 1 && n * e <= TWO32 && h < n && h + m <= n
    ensures h * e < TWO32
    ensures Add32(h * e, Mul32(m, e)) == if (h + m) * e < TWO32 then (h + m) * e else 0
    ensures (h + m) * e >= TWO32 ==> h + m == n
  {
    Offset(h, n, e);
    MulMono(e, h + m, n);
    TimesSum(h, m, e);
    if h + m < n {
      Offset(h + m, n, e);
    }
    if m * e < TWO32 {
      Quotient(m * e, TWO32, 0, m * e);
    } else {
      Quotient(m * e, TWO32, 1, 0);
    }
  }

  lemma {:induction false} MaskAt(n: nat, e: nat, k: nat, at: nat, mask: nat)
    requires Sound(n, e) && k <= n && at == (if k * e < TWO32 then k * e else 0) && mask == (n - 1) * e
    requires k * e >= TWO32 ==> k == n
    ensures And(at, mask) == Wrap(k, n) * e
  {
    SoundStep(n, e, k);
    assert 0 * e == 0;
  }

  /** The masked sum. */
  lemma {:induction false} Advance(n: nat, e: nat, h: nat, m: nat, at: U32, mask: nat)
    requires Sound(n, e) && h < n && h + m <= n && at == h * e && mask == (n - 1) * e
    ensures And(Add32(at, Mul32(m, e)), mask) == Wrap(h + m, n) * e
  {
    OffsetSum(n, e, h, m);
    MaskAt(n, e, h + m, Add32(at, Mul32(m, e)), mask);
  }

  /** Past the end, the sum may wrap in 32 bits before it is masked; no digit under the mask
      is lost by that. */
  lemma {:induction false} FarAdvance(n: nat, e: nat, t: nat, i: nat, at: U32, mask: U32)
    requires Sound(n, e) && t < n && i < n && t + i > n && at == t * e && mask == (n - 1) * e
    ensures And(Add32(at, Mul32(i, e)), mask) == Wrap(t + i, n) * e
  {
    Offset(i, n, e);
    Quotient(i * e, TWO32, 0, i * e);
    TimesSum(t, i, e);
    SoundStep(n, e, t + i);
    LostCarry(at, i * e, mask);
  }

  /** A digit above all of the mask's does not count. */
  lemma {:induction false} AboveMask(r: nat, mask: nat, j: nat)
    requires r < Pow2(j) && mask < Pow2(j)
    ensures And(r + Pow2(j), mask) == And(r, mask)
  {
    ShiftOne(j);
    AndShifted(r, 1, mask, 0, j);
  }

  lemma {:induction false} LostCarry(a: U32, b: U32, mask: U32)
    ensures And(Add32(a, b), mask) == And(a + b, mask)
  {
    if a + b >= TWO32 {
      Pow2At32();
      AboveMask(a + b - TWO32, mask, 32);
    }
  }

  /** The offset `count` elements on, under the mask. */
  function Moved(offset: U32, count: U32, n: U32, e: U32): U32
    requires n >= 1
  {
    AndAtMost(Add32(offset, Mul32(count, e)), Mul32(n - 1, e));
    And(Add32(offset, Mul32(count, e)), Mul32(n - 1, e))
  }

  lemma {:induction false} MaskFits(n: nat, e: nat)
    requires n >= 1 && e >= 1 && n * e <= TWO32
    ensures Mul32(n - 1, e) == (n - 1) * e
  {
    Offset(0, n, e);
    Quotient((n - 1) * e, TWO32, 0, (n - 1) * e);
  }

  lemma {:induction false} MovedIs(n: U32, e: U32, k: nat, count: U32)
    requires Sound(n, e) && k < n && k + count <= n
    ensures k * e < TWO32 && Moved(k * e, count, n, e) == Wrap(k + count, n) * e
  {
    MaskFits(n, e);
    Offset(k, n, e);
    Advance(n, e, k, count, k * e, (n - 1) * e);
  }

  lemma {:induction false} VisitedOffset(n: U32, e: U32, t: nat, i: U32)
    requires Sound(n, e) && t < n && i < n
    ensures t * e < TWO32 && Moved(t * e, i, n, e) == Wrap(t + i, n) * e
  {
    MaskFits(n, e);
    Offset(t, n, e);
    if t + i <= n {
      Advance(n, e, t, i, t * e, (n - 1) * e);
    } else {
      FarAdvance(n, e, t, i, t * e, (n - 1) * e);
    }
  }

  lemma {:induction false} RoomFor(k: nat, count: nat, n: nat, e: nat)
    requires k + count <= n
    ensures k * e + count * e <= n * e
  {
    MulMono(e, k + count, n);
    TimesSum(k, count, e);
  }

  /** The place before a place of the ring. */
  function Previous(k: nat, n: nat): (p: nat)
    requires k < n
    ensures p < n && Wrap(p + 1, n) == k
  {
    if k == 0 then n - 1 else k - 1
  }

  /** Elements put behind `c` others, with one place to spare, leave the place before them alone. */
  lemma {:induction false} SpareKept<T>(slots: seq<T>, xs: seq<T>, t: nat, c: nat)
    requires t < |slots| && c + |xs| < |slots| && Wrap(t + c, |slots|) + |xs| <= |slots|
    ensures var h, p := Wrap(t + c, |slots|), Previous(t, |slots|);
            (slots[..h] + xs + slots[h + |xs|..])[p] == slots[p]
  {
  }

  /** Once the tail has moved past it, the first element is the one before the tail. */
  lemma {:induction false} FirstIsSpare<T>(slots: seq<T>, t: nat, c: nat)
    requires t < |slots| && 1 <= c <= |slots|
    ensures Ring(slots, t, c)[0] == slots[Previous(Wrap(t + 1, |slots|), |slots|)]
  {
  }

  /** New elements behind the old ones, with a place to spare, leave the one before them alone. */
  lemma {:induction false} RingGrows<T>(slots: seq<T>, slots': seq<T>, xs: seq<T>, t: nat, c: nat)
    requires t < |slots| && c + |xs| < |slots|
    requires var h := Wrap(t + c, |slots|); h + |xs| <= |slots| && slots' == slots[..h] + xs + slots[h + |xs|..]
    ensures |slots'| == |slots| && Ring(slots', t, c + |xs|) == Ring(slots, t, c) + xs
    ensures slots'[Previous(t, |slots|)] == slots[Previous(t, |slots|)]
  {
    RingPush(slots, slots', xs, t, c);
    SpareKept(slots, xs, t, c);
  }

  lemma {:induction false} ContentsGrow<T>(cells: seq<T>, cells': seq<T>, data: seq<T>,
                                           e: nat, n: nat, t: nat, c: nat, m: nat)
    requires |cells| == n * e && t < n && c + m < n && |data| == m * e
    requires var h := Wrap(t + c, n); h + m <= n && Overwritten(cells, cells', data, e, n, h, m)
    ensures Ring(Slots(cells', e, n), t, c + m) == Ring(Slots(cells, e, n), t, c) + Slots(data, e, m)
    ensures Slots(cells', e, n)[Previous(t, n)] == Slots(cells, e, n)[Previous(t, n)]
  {
    var slots, slots', xs := Slots(cells, e, n), Slots(cells', e, n), Slots(data, e, m);
    assert slots' == slots[..Wrap(t + c, n)] + xs + slots[Wrap(t + c, n) + m..] by {
      OverwrittenSlots(cells, cells', data, e, n, Wrap(t + c, n), m);
    }
    RingGrows(slots, slots', xs, t, c);
  }

  /** What overwriting the cells behind the last element does to the contents. */
  lemma {:induction false} ContentsAppend<T>(cells: seq<T>, cells': seq<T>, data: seq<T>,
                                             e: nat, n: nat, t: nat, c: nat, m: nat)
    requires |cells| == n * e && t < n && c < n && |data| == m * e
    requires var h := Wrap(t + c, n); h + m <= n && Overwritten(cells, cells', data, e, n, h, m)
    ensures c + m < n ==>
              && Ring(Slots(cells', e, n), t, c + m) == Ring(Slots(cells, e, n), t, c) + Slots(data, e, m)
              && Slots(cells', e, n)[Previous(t, n)] == Slots(cells, e, n)[Previous(t, n)]
  {
    if c + m < n {
      ContentsGrow(cells, cells', data, e, n, t, c, m);
    }
  }

  lemma {:induction false} ContentsDrop<T>(cells: seq<T>, e: nat, n: nat, t: nat, c: nat, m: nat)
    requires |cells| == n * e && t < n && m <= c < n && t + m <= n
    ensures t * e + m * e <= n * e && |cells[t * e..t * e + m * e]| == m * e
    ensures Ring(Slots(cells, e, n), t, c)[..m] == Slots(cells[t * e..t * e + m * e], e, m)
    ensures Ring(Slots(cells, e, n), t, c)[m..] == Ring(Slots(cells, e, n), Wrap(t + m, n), c - m)
  {
    RoomFor(t, m, n, e);
    SliceSlots(cells, e, n, t, m);
    RingPop(Slots(cells, e, n), t, c, m);
  }

  lemma {:induction false} ContentsFirst<T>(cells: seq<T>, e: nat, n: nat, t: nat, c: nat)
    requires |cells| == n * e && t < n && 1 <= c < n
    ensures Slots(cells, e, n)[Previous(Wrap(t + 1, n), n)] == Ring(Slots(cells, e, n), t, c)[0]
  {
    FirstIsSpare(Slots(cells, e, n), t, c);
  }

  /** The cells at the offset of the `i`th element. */
  lemma {:induction false} RingElement<T>(cells: seq<T>, e: nat, n: nat, t: nat, c: nat, i: nat, k: nat)
    requires |cells| == n * e && t < n && c < n && i < c && k == Wrap(t + i, n) * e
    ensures k + e <= |cells| && cells[k..k + e] == Ring(Slots(cells, e, n), t, c)[i]
  {
    SlotBounds(Wrap(t + i, n), n, e);
    RingIndex(Slots(cells, e, n), t, c, i);
  }

  lemma {:induction false} VisitElement<T>(cells: seq<T>, e: U32, n: U32, t: nat, c: nat, i: U32)
    requires Sound(n, e) && |cells| == n * e && t < n && c < n && i < c
    ensures t * e < TWO32
    ensures var k := Moved(t * e, i, n, e); k + e <= |cells| && cells[k..k + e] == Ring(Slots(cells, e, n), t, c)[i]
  {
    VisitedOffset(n, e, t, i);
    RingElement(cells, e, n, t, c, i, Moved(t * e, i, n, e));
  }

  lemma {:induction false} OneSlot<T>(data: seq<T>, e: nat)
    requires |data| == e
    ensures |data| == 1 * e && Slots(data, e, 1) == [data]
  {
    assert Slot(data, e, 1, 0) == data by { assert 0 * e == 0; }
  }

  lemma {:induction false} OffsetPosition(n: nat, e: nat, k: nat)
    requires Sound(n, e) && k < n
    ensures (k * e) / e == k
  {
    Quotient(k * e, e, k, 0);
  }

  /** Masking a sum of two positions or distances. */
  lemma {:induction false} MaskedSum(n: U32, h: nat, t: nat)
    requires n >= 1 && IsPowerOf2(n) && h < n && t < n
    ensures And(Add32(h, n - t), n - 1) == Distance(h, t, n)
  {
    var j: nat :| n == Pow2(j);
    HalfRange(n, j);
    MaskedPosition(h + n - t, n, j);
  }

  lemma {:induction false} MaskedSpace(n: U32, h: nat, t: nat)
    requires n >= 1 && IsPowerOf2(n) && h < n && t < n
    ensures And(Add32(n - 1 - h, t), n - 1) == n - 1 - Distance(h, t, n)
  {
    var j: nat :| n == Pow2(j);
    HalfRange(n, j);
    MaskedPosition(n - 1 - h + t, n, j);
  }

  lemma {:induction false} HalfRange(n: U32, j: nat)
    requires n == Pow2(j)
    ensures 2 * n <= TWO32
  {
    Pow2At32();
    if j >= 32 {
      Pow2Mono(32, j);
    }
    Pow2Mono(j + 1, 32);
  }

  lemma {:induction false} DividesTimes(n: nat, e: nat)
    requires n >= 1 && e >= 1 && Counts(n, e)
    ensures (TWO32 / e) % n == 0
  {
    if n == 1 {
      Quotient(TWO32 / e, 1, TWO32 / e, 0);
    }
  }

  lemma {:induction false} BelowZero(n: nat, e: nat, t: nat, below: nat, j: nat)
    requires n == Pow2(j) && Sound(n, e) && t < n && below == (n - t) * e
    ensures below <= TWO32 && Elements(TWO32 - below, n, e) == t
  {
    WrappedQuotient(n, e, n - t, j);
    DividesTimes(n, e);
    MultipleMinus(TWO32 / e, n - t, n);
  }

  lemma {:induction false} SpaceAtEnd(n: nat, e: nat, end: nat, t: nat, j: nat)
    requires n == Pow2(j) && Sound(n, e) && t < n && end == n * e
    ensures t * e < TWO32
    ensures end < TWO32 ==> Steps(t * e, end, n, e) == t
    ensures Steps(t * e, 0, n, e) == t
  {
    Offset(t, n, e);
    ExactSteps(t, n, e, j);
    BelowZero(n, e, t, (n - t) * e, j);
    TimesSum(t, n - t, e);
    SlotBounds(t, n, e);
  }

  /** The count of free places, taken from the offset after the head. */
  lemma {:induction false} SpaceSteps(n: nat, e: nat, h: nat, t: nat)
    requires Sound(n, e) && e < TWO32 && h < n && t < n
    ensures h * e < TWO32 && t * e < TWO32
    ensures Steps(t * e, Add32(h * e, e), n, e) == n - 1 - Distance(h, t, n)
  {
    Offset(h, n, e);
    Offset(t, n, e);
    if h + 1 < n {
      Offset(h + 1, n, e);
      SoundSteps(n, e, t, h + 1);
    } else {
      var j: nat :| n == Pow2(j);
      SpaceAtEnd(n, e, h * e + e, t, j);
    }
  }

  // ---------------------------------------------------------------- the buffer

  /** The test `!(val & (val - 1))`, in 32 bits. */
  predicate IsPow2(val: U32) {
    And(val, Sub32(val, 1)) == 0
  }

  /** The test accepts zero as well as the powers of two. */
  lemma {:induction false} IsPow2Iff(val: U32)
    ensures IsPow2(val) <==> val == 0 || IsPowerOf2(val)
  {
    if val > 0 {
      ClearLowestIff(val);
    }
  }

  class CircBuf<T(0)> {
    var cells: array<T>
    var head: U32
    var tail: U32
    var size: U32
    var elemSz: U32
    ghost var next: nat
    ghost var first: nat

    ghost predicate Valid()
      reads this, cells
    {
      && Sound(size, elemSz)
      && cells.Length == size * elemSz
      && next < size && first < size
      && head == next * elemSz && tail == first * elemSz
    }

    ghost function Contents(): seq<seq<T>>
      reads this, cells
      requires Valid()
    {
      Ring(Slots(cells[..], elemSz, size), first, Distance(next, first, size))
    }

    /** The queue this buffer holds. */
    ghost function Queue(): (f: CircFifo.Fifo<seq<T>>)
      reads this, cells
      requires Valid()
      ensures CircFifo.ValidFifo(f) && Wrap(f.first + |f.items|, f.size) == next
    {
      CircFifo.Fifo(size, first, Contents())
    }

    /** The element in the place before the first item, which is kept free: where the item popped
        last still lies. */
    ghost function Spare(): seq<T>
      reads this, cells
      requires Valid()
    {
      Slots(cells[..], elemSz, size)[Previous(first, size)]
    }

    /** `elem` zero asks for a buffer of pointers: one cell an element. */
    static method New(size: U32, elem: U32) returns (c: CircBuf?<T>)
      ensures c == null <==> size != 0 && !IsPowerOf2(size)
      ensures c != null ==> fresh(c) && fresh(c.cells) && c.size == size && c.elemSz == (if elem == 0 then 1 else elem)
      ensures size >= 1 && IsPowerOf2(size) && Sound(size, if elem == 0 then 1 else elem) ==>
              c != null && c.Valid() && c.Queue() == CircFifo.Fifo(size, 0, [])
    {
      IsPow2Iff(size);
      if !IsPow2(size) {
        return null;
      }
      c := new CircBuf(size, if elem == 0 then 1 else elem);
    }

    constructor (size: U32, elemSz: U32)
      ensures fresh(cells) && this.size == size && this.elemSz == elemSz
      ensures Sound(size, elemSz) ==> Valid() && Queue() == CircFifo.Fifo(size, 0, [])
    {
      this.size, this.elemSz := size, elemSz;
      head, tail, next, first := 0, 0, 0, 0;
      cells := new T[size * elemSz];
      new;
      assert 0 * elemSz == 0;
    }

    // ------------------------------------------------------------ counts

    function CircCount(): (count: U32)
      reads this, cells
      requires Valid()
      ensures count == |Queue().items|
    {
      SoundSteps(size, elemSz, next, first);
      Steps(head, tail, size, elemSz)
    }

    function CircSpace(): (space: U32)
      reads this, cells
      requires Valid()
      ensures space == size - 1 - |Queue().items|
    {
      SpaceSteps(size, elemSz, next, first);
      Steps(tail, Add32(head, elemSz), size, elemSz)
    }

    function CircCountToEnd(): (run: U32)
      reads this, cells
      requires Valid()
      ensures run == CircFifo.ItemRun(Queue())
    {
      OffsetPosition(size, elemSz, first);
      OffsetPosition(size, elemSz, next);
      var end := size - tail / elemSz;
      MaskedSum(size, next, first);
      var n := And(Add32(head / elemSz, end), size - 1);
      if n < end then n else end
    }

    function CircSpaceToEnd(): (run: U32)
      reads this, cells
      requires Valid()
      ensures run == CircFifo.SpaceRun(Queue())
    {
      OffsetPosition(size, elemSz, first);
      OffsetPosition(size, elemSz, next);
      var end := size - 1 - head / elemSz;
      MaskedSpace(size, next, first);
      var n := And(Add32(end, tail / elemSz), size - 1);
      if n <= end then n else end + 1
    }

    // ------------------------------------------------------------ changing the buffer

    method Copy(data: seq<T>)
      requires head + |data| <= cells.Length
      modifies cells
      ensures cells[..] == old(cells[..head]) + data + old(cells[head + |data|..])
    {
      ghost var before := cells[..];
      for k := 0 to |data|
        invariant cells[..] == before[..head] + data[..k] + before[head + k..]
      {
        CopyStep(before, data, head, k);
        ghost var was := cells[..];
        cells[head + k] := data[k];
        assert cells[..] == was[head + k := data[k]];
      }
      assert data[..|data|] == data;
    }

    /** Copies elements in behind the last one, where there is room in a row, and moves the head. */
    method Append(buf: seq<T>, count: U32)
      requires Valid() && |buf| == count * elemSz && next + count <= size
      modifies this`head, this`next, cells
      ensures Valid() && next == Wrap(old(next) + count, size)
      ensures |old(Contents())| + count < size ==>
                Contents() == old(Contents()) + Slots(buf, elemSz, count) && Spare() == old(Spare())
    {
      ghost var before, h, n := cells[..], next, Distance(next, first, size);
      RoomFor(h, count, size, elemSz);
      Copy(buf);
      ContentsAppend(before, cells[..], buf, elemSz, size, first, n, count);
      MovedIs(size, elemSz, h, count);
      head := Moved(head, count, size, elemSz);
      next := Wrap(h + count, size);
    }

    /** Copies in the elements held by `buf`. It reports failure, changing nothing, exactly when
        the queue does. */
    method PushM(buf: seq<T>, count: U32) returns (r: int)
      requires Valid() && |buf| == count * elemSz
      modifies this`head, this`tail, this`next, this`first, cells
      ensures Valid()
      ensures var (f, ok) := CircFifo.PushM(old(Queue()), Slots(buf, elemSz, count));
              Queue() == f && r == (if ok then 0 else -1)
      ensures r != 0 ==> cells[..] == old(cells[..]) && head == old(head) && tail == old(tail)
      ensures var q := old(Queue()); var n := |q.items|;
              var fits := n + count < size && (q.first + n < size ==> q.first + n + count <= size);
              && (r == 0 <==> fits || (n == 0 && count <= size))
              && (r != 0 ==> Queue() == q)
              && (r == 0 && fits ==>
                    Queue().items == q.items + Slots(buf, elemSz, count) && first == q.first && Spare() == old(Spare()))
              && (r == 0 && !fits ==>
                    Queue().items == (if count < size then Slots(buf, elemSz, count) else []) && first == 0)
    {
      if CircSpaceToEnd() < count {
        if CircCount() == 0 && count <= size {
          Restart();
        } else {
          return -1;
        }
      }
      Append(buf, count);
      r := 0;
    }

    method Restart()
      requires Valid()
      modifies this`head, this`tail, this`next, this`first
      ensures Valid() && Queue() == CircFifo.Reset(old(Queue()))
    {
      head, tail := 0, 0;
      next, first := 0, 0;
      assert 0 * elemSz == 0;
    }

    method Push(buf: seq<T>) returns (r: int)
      requires Valid() && |buf| == elemSz
      modifies this`head, this`next, cells
      ensures Valid()
      ensures var (f, ok) := CircFifo.Push(old(Queue()), buf);
              Queue() == f && r == (if ok then 0 else -1)
      ensures r != 0 ==> cells[..] == old(cells[..]) && head == old(head)
      ensures r == 0 <==> |old(Queue()).items| + 1 < size
      ensures Queue().items == (if r == 0 then old(Queue()).items + [buf] else old(Queue()).items)
      ensures first == old(first) && Spare() == old(Spare())
    {
      if CircSpace() == 0 {
        return -1;
      }
      OneSlot(buf, elemSz);
      Append(buf, 1);
      r := 0;
    }

    /** The cells of `count` elements from the tail on. The tail moves past them. */
    method Take(count: U32) returns (buf: seq<T>)
      requires Valid() && count <= |Contents()| && first + count <= size
      modifies this`tail, this`first
      ensures Valid() && first == Wrap(old(first) + count, size) && next == old(next)
      ensures |buf| == count * elemSz && Slots(buf, elemSz, count) == old(Contents())[..count]
      ensures Contents() == old(Contents())[count..]
    {
      ghost var t, n := first, Distance(next, first, size);
      RoomFor(t, count, size, elemSz);
      ContentsDrop(cells[..], elemSz, size, t, n, count);
      buf := cells[tail..tail + count * elemSz];
      assert buf == cells[..][t * elemSz..t * elemSz + count * elemSz];
      MovedIs(size, elemSz, t, count);
      tail := Moved(tail, count, size, elemSz);
      first := Wrap(t + count, size);
    }

    /** Copies out `count` elements in a row, or fails, changing nothing. */
    method PopM(count: U32) returns (r: int, buf: seq<T>)
      requires Valid()
      modifies this`tail, this`first
      ensures Valid()
      ensures var (f, items) := CircFifo.PopM(old(Queue()), count);
              Queue() == f && r == (if items.Some? then 0 else -1)
              && (items.Some? ==> |buf| == count * elemSz && Slots(buf, elemSz, count) == items.value)
      ensures r != 0 ==> tail == old(tail) && buf == []
      ensures var q := old(Queue());
              && (r == 0 <==> count <= |q.items| && q.first + count <= size)
              && (r != 0 ==> Queue() == q)
              && (r == 0 ==>
                    && Queue().items == q.items[count..] && Slots(buf, elemSz, count) == q.items[..count]
                    && first == if q.first + count == size then 0 else q.first + count)
    {
      if CircCountToEnd() < count {
        return -1, [];
      }
      buf := Take(count);
      r := 0;
    }

    /** The cells of the first element. The tail moves past it. */
    method TakeFirst() returns (buf: seq<T>)
      requires Valid() && Contents() != []
      modifies this`tail, this`first
      ensures Valid() && first == Wrap(old(first) + 1, size) && next == old(next)
      ensures buf == old(Contents())[0] == Spare() && Contents() == old(Contents())[1..]
    {
      ghost var items, t := Contents(), first;
      buf := Take(1);
      assert 1 * elemSz == elemSz;
      OneSlot(buf, elemSz);
      assert items[..1] == [items[0]];
      ContentsFirst(cells[..], elemSz, size, t, |items|);
    }

    /** The item popped is the element at the tail, None when the buffer is empty. It stays where
        it was, in the place that is then the spare one. */
    method Pop() returns (item: Option<seq<T>>)
      requires Valid()
      modifies this`tail, this`first
      ensures Valid()
      ensures (Queue(), item) == CircFifo.Pop(old(Queue()))
      ensures item == if old(Queue()).items == [] then None else Some(old(Queue()).items[0])
      ensures Queue().items == if old(Queue()).items == [] then [] else old(Queue()).items[1..]
      ensures item.Some? ==> Spare() == item.value && first == if old(first) + 1 == size then 0 else old(first) + 1
    {
      if CircCount() == 0 {
        return None;
      }
      var buf := TakeFirst();
      item := Some(buf);
    }

    method Reset()
      requires Valid()
      modifies this`head, this`tail, this`next, this`first
      ensures Valid() && Queue() == CircFifo.Fifo(size, 0, [])
    {
      Restart();
    }

    /** The elements an action is called on, in order: the contents of the queue. */
    method Foreach() returns (visited: seq<seq<T>>)
      requires Valid()
      ensures visited == Queue().items
    {
      visited := [];
      var count := CircCount();
      ghost var items := Contents();
      var i := 0;
      while i < count
        invariant i <= count && visited == items[..i]
      {
        var k := Moved(tail, i, size, elemSz);
        VisitElement(cells[..], elemSz, size, first, count, i);
        visited := visited + [cells[k..k + elemSz]];
        i := i + 1;
      }
    }
  }
}
