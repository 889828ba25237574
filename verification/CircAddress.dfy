/**
  The address arithmetic of the circular buffer: 32-bit byte offsets, advanced under a mask,
  and the counts computed from them. It keeps the positions of a ring of `n` elements of `e`
  cells exactly when `n` and `e` satisfy `Sound`.
 */
module CircAddress {
  import opened Common
  import opened Bits

  function Add32(a: U32, b: U32): U32 {
    if a + b < TWO32 then a + b else a + b - TWO32
  }

  function Sub32(a: U32, b: U32): U32 {
    if a >= b then a - b else a - b + TWO32
  }

  /** The position after `k` steps round a ring, for at most one turn. */
  function Wrap(k: nat, n: nat): nat
    requires k < 2 * n
  {
    if k < n then k else k - n
  }

  // ---------------------------------------------------------------- stepping under the mask

  /** The set bits of `e` lie farther apart than n has low zero bits: after each set bit come
      at least that many clear ones. */
  predicate Spaced(e: nat, n: nat)
    requires n >= 1
    decreases e
  {
    if e == 0 then true
    else (e % 2 == 1 ==> (e / 2) % n == 0) && Spaced(e / 2, n)
  }

  /** Masking the offset of position `k` gives the offset of its place in the ring. */
  predicate StepRight(n: nat, e: nat, k: nat)
    requires n >= 1 && k < 2 * n
  {
    And(k * e, (n - 1) * e) == Wrap(k, n) * e
  }

  lemma {:induction false} TimesEven(w: nat, f: nat)
    ensures w * (2 * f) == 2 * (w * f)
    ensures w * (1 + 2 * f) == w + 2 * (w * f)
  {
  }

  lemma {:induction false} TimesShift(k: nat, g: nat, j: nat)
    ensures k * Shift(g, j) == Shift(k * g, j)
  {
    if j > 0 {
      TimesShift(k, g, j - 1);
      TimesEven(k, Shift(g, j - 1));
    }
  }

  lemma {:induction false} MultipleIsShift(f: nat, n: nat, j: nat) returns (g: nat)
    requires n == Pow2(j) && f % n == 0
    ensures f == Shift(g, j)
  {
    var r;
    g, r := Divide(f, n);
    ShiftIs(g, j);
  }

  lemma {:induction false} ShiftIsMultiple(g: nat, n: nat, j: nat)
    requires n == Pow2(j)
    ensures Shift(g, j) % n == 0
  {
    ShiftIs(g, j);
    Quotient(Shift(g, j), n, g, 0);
  }

  lemma {:induction false} MaskedPosition(k: nat, n: nat, j: nat)
    requires n == Pow2(j) && k < 2 * n
    ensures And(k, n - 1) == Wrap(k, n)
  {
    if k < n {
      AndOnes(k, j);
    } else {
      ShiftOne(j);
      AndMaskSum(k - n, 1, j);
    }
  }

  lemma {:induction false} Copies(k: nat, g: nat, j: nat) returns (x: nat)
    ensures k * Shift(g, j) == Shift(x, j)
    ensures k * (1 + 2 * Shift(g, j)) == k + Shift(x, j + 1)
  {
    x := k * g;
    TimesShift(k, g, j);
    TimesEven(k, Shift(g, j));
  }

  lemma {:induction false} HighCopies(k: nat, x: nat, m: nat, y: nat, j: nat)
    requires k < Pow2(j + 1) && m < Pow2(j + 1)
    ensures And(k + Shift(x, j + 1), m + Shift(y, j + 1)) == And(k, m) + 2 * And(Shift(x, j), Shift(y, j))
  {
    AndShifted(k, x, m, y, j + 1);
    AndHigh(x, y, j);
    ShiftStep(And(x, y), j + 1);
  }

  /** Multiplying by one plus a number far above makes a copy, which conjunction keeps apart. */
  lemma {:induction false} CopiesApart(k: nat, m: nat, g: nat, j: nat)
    requires k < Pow2(j + 1) && m < Pow2(j + 1)
    ensures And(k * (1 + 2 * Shift(g, j)), m * (1 + 2 * Shift(g, j)))
         == And(k, m) + 2 * And(k * Shift(g, j), m * Shift(g, j))
  {
    var x := Copies(k, g, j);
    var y := Copies(m, g, j);
    HighCopies(k, x, m, y, j);
  }

  /** One set bit of the element size contributes its own copy of the ring. */
  lemma {:induction false} OddIff(k: nat, g: nat, n: nat, j: nat)
    requires n == Pow2(j) && k < 2 * n
    ensures StepRight(n, 1 + 2 * Shift(g, j), k) <==> StepRight(n, Shift(g, j), k)
  {
    CopiesApart(k, n - 1, g, j);
    MaskedPosition(k, n, j);
    TimesEven(Wrap(k, n), Shift(g, j));
  }

  lemma {:induction false} EvenIff(k: nat, f: nat, n: nat)
    requires n >= 1 && k < 2 * n
    ensures StepRight(n, 2 * f, k) <==> StepRight(n, f, k)
  {
    TimesEven(k, f);
    TimesEven(n - 1, f);
    TimesEven(Wrap(k, n), f);
    AndDouble(k * f, (n - 1) * f, 0, 0);
  }

  lemma {:induction false} StepRightZero(n: nat, k: nat)
    requires n >= 1 && k < 2 * n
    ensures StepRight(n, 0, k)
  {
    assert k * 0 == 0 && Wrap(k, n) * 0 == 0;
  }

  lemma {:induction false} SpacedSteps(n: nat, e: nat, k: nat, j: nat)
    requires n == Pow2(j) && Spaced(e, n) && k < 2 * n
    ensures StepRight(n, e, k)
    decreases e
  {
    if e == 0 {
      StepRightZero(n, k);
    } else {
      var f, r := Divide(e, 2);
      SpacedSteps(n, f, k, j);
      if r == 1 {
        var g := MultipleIsShift(f, n, j);
        OddIff(k, g, n, j);
      } else {
        EvenIff(k, f, n);
      }
    }
  }

  /** Steps that never cross the end, and the one that does. */
  ghost predicate StepsRight(n: nat, e: nat)
    requires n >= 1
  {
    forall k: nat :: k <= n ==> StepRight(n, e, k)
  }

  lemma {:induction false} SpacedOne(e: nat)
    ensures Spaced(e, 1)
  {
    if e > 0 {
      SpacedOne(e / 2);
    }
  }

  /** Numbers without a common bit have none in their low digits. */
  lemma {:induction false} LowClear(a: nat, x: nat, b: nat, y: nat, j: nat)
    requires a < Pow2(j) && b < Pow2(j) && And(a + Shift(x, j), b + Shift(y, j)) == 0
    ensures And(a, b) == 0
  {
    AndShifted(a, x, b, y, j);
  }

  /** A mask disjoint from an odd multiple of `n` has no bit where `n` has its own. */
  lemma {:induction false} TurnClear(f: nat, s: nat, q: nat, j: nat)
    requires s < Pow2(j + 1) && And(Pow2(j) + Shift(f, j + 1), s + Shift(q, j + 1)) == 0
    ensures s < Pow2(j)
  {
    assert And(Pow2(j), s) == 0 by {
      LowClear(Pow2(j), f, s, q, j + 1);
    }
    if s >= Pow2(j) {
      AndTopBit(s, j);
    }
  }

  /** What a mask keeps whole is, in its low digits, no more than the mask. */
  lemma {:induction false} UnderMask(r: nat, x: nat, s: nat, q: nat, j: nat)
    requires r < Pow2(j + 1) && s < Pow2(j + 1)
    requires And(r + Shift(x, j + 1), s + Shift(q, j + 1)) == r + Shift(x, j + 1)
    ensures r <= s
  {
    AndShifted(r, x, s, q, j + 1);
    AndAtMost(r, s);
    SplitUnique(r, x, And(r, s), And(x, q), j + 1);
  }

  lemma {:induction false} OddMultiple(n: nat, e: nat, j: nat) returns (f: nat)
    requires n == Pow2(j) && e % 2 == 1
    ensures n * e == n + Shift(f, j + 1)
  {
    f := e / 2;
    TimesEven(n, f);
    ShiftIs(f, j);
  }

  lemma {:induction false} SmallMultiple(n: nat, r: nat) returns (k: nat, kr: nat)
    requires n >= 2 && 2 <= r < n
    ensures k < n && kr == k * r && n <= kr < 2 * n
  {
    var q, s := Divide(n + r - 1, r);
    k, kr := q, q * r;
    assert kr == r * q;
    if k >= n {
      MulMono(r, n, k);
      MulMono(n, 2, r);
    }
  }

  lemma {:induction false} MultipleSplit(k: nat, e: nat, r: nat, q: nat, j: nat)
    requires e == r + Shift(q, j + 1)
    ensures k * e == k * r + Shift(k * q, j + 1)
  {
    TimesShift(k, q, j);
    TimesEven(k, Shift(q, j));
    assert k * (r + Shift(q, j + 1)) == k * r + k * (Shift(q, j + 1));
  }

  lemma {:induction false} StepValue(n: nat, e: nat, k: nat)
    requires n >= 1 && StepsRight(n, e) && k <= n
    ensures And(k * e, (n - 1) * e) == if k == n then 0 else k * e
  {
    assert StepRight(n, e, k);
    assert 0 * e == 0;
  }

  /** No multiple of the low digits `r` short of a full turn reaches past the mask's own. */
  lemma {:induction false} MultipleUnderMask(n: nat, e: nat, k: nat, r: nat, kr: nat, q: nat, s: nat, p: nat, j: nat)
    requires n == Pow2(j) && StepsRight(n, e) && e == r + Shift(q, j + 1) && (n - 1) * e == s + Shift(p, j + 1)
    requires k < n && kr == k * r && kr < 2 * n && s < 2 * n
    ensures kr <= s
  {
    MultipleSplit(k, e, r, q, j);
    StepValue(n, e, k);
    UnderMask(kr, k * q, s, p, j);
  }

  lemma {:induction false} MaskLow(n: nat, e: nat, s: nat, p: nat, j: nat)
    requires n == Pow2(j) && e % 2 == 1 && StepsRight(n, e) && (n - 1) * e == s + Shift(p, j + 1) && s < 2 * n
    ensures s < n
  {
    var f := OddMultiple(n, e, j);
    StepValue(n, e, n);
    TurnClear(f, s, p, j);
  }

  /** The low digits of an odd element size that steps rightly: just one. */
  lemma {:induction false} LowDigitsOne(n: nat, e: nat, r: nat, q: nat, j: nat)
    requires n == Pow2(j) && n >= 2 && e % 2 == 1 && StepsRight(n, e) && e == r + Shift(q, j + 1) && r < 2 * n
    ensures r < 2
  {
    var p, s := SplitAt((n - 1) * e, j + 1);
    MaskLow(n, e, s, p, j);
    MultipleUnderMask(n, e, 1, r, r, q, s, p, j);
    if r >= 2 {
      var k, kr := SmallMultiple(n, r);
      MultipleUnderMask(n, e, k, r, kr, q, s, p, j);
    }
  }

  /** An odd element size that steps rightly has no other set bit near. */
  lemma {:induction false} OddSpaced(n: nat, e: nat, j: nat)
    requires n == Pow2(j) && n >= 2 && e % 2 == 1 && StepsRight(n, e)
    ensures (e / 2) % n == 0
  {
    var q, r := SplitAt(e, j + 1);
    LowDigitsOne(n, e, r, q, j);
    assert e / 2 == Shift(q, j);
    ShiftIsMultiple(q, n, j);
  }

  lemma {:induction false} HalfSteps(n: nat, e: nat, j: nat)
    requires n == Pow2(j) && StepsRight(n, e) && (e % 2 == 1 ==> (e / 2) % n == 0)
    ensures StepsRight(n, e / 2)
  {
    var f, r := Divide(e, 2);
    forall k: nat | k <= n
      ensures StepRight(n, f, k)
    {
      assert StepRight(n, e, k);
      if r == 1 {
        var g := MultipleIsShift(f, n, j);
        OddIff(k, g, n, j);
      } else {
        EvenIff(k, f, n);
      }
    }
  }

  lemma {:induction false} StepsSpaced(n: nat, e: nat, j: nat)
    requires n == Pow2(j) && StepsRight(n, e)
    ensures Spaced(e, n)
    decreases e
  {
    if n == 1 {
      SpacedOne(e);
    } else if e > 0 {
      if e % 2 == 1 {
        OddSpaced(n, e, j);
      }
      HalfSteps(n, e, j);
      StepsSpaced(n, e / 2, j);
    }
  }

  // ---------------------------------------------------------------- counting

  /** How many steps lead from position `t` to position `h`. */
  function Distance(h: nat, t: nat, n: nat): nat
    requires h < n && t < n
  {
    if h >= t then h - t else h + n - t
  }

  /** A number of cells, divided into elements and masked. */
  function Elements(difference: nat, n: nat, e: nat): nat
    requires n >= 1 && e >= 1
  {
    And(difference / e, n - 1)
  }

  /** The same of the 32-bit difference of two offsets. */
  function Steps(head: U32, tail: U32, n: nat, e: nat): nat
    requires n >= 1 && e >= 1
  {
    Elements(Sub32(head, tail), n, e)
  }

  lemma {:induction false} Representable(h: nat, n: nat, e: nat)
    requires h < n && (n - 1) * e < TWO32
    ensures h * e < TWO32
  {
    MulMono(e, h, n - 1);
  }

  /** The storage may reach past 32 bits, as long as each element's offset does not. */
  predicate CountRight(n: nat, e: nat, h: nat, t: nat)
    requires n >= 1 && e >= 1 && (n - 1) * e < TWO32 && h < n && t < n
  {
    Representable(h, n, e);
    Representable(t, n, e);
    Steps(h * e, t * e, n, e) == Distance(h, t, n)
  }

  lemma {:induction false} Offset(h: nat, n: nat, e: nat)
    requires h < n && e >= 1 && n * e <= TWO32
    ensures h * e < TWO32 && (h + 1) * e == h * e + e <= n * e
    ensures (n - 1) * e < TWO32
  {
    MulMono(e, h + 1, n);
    assert (h + 1) * e == h * e + e;
    assert n * e == (n - 1) * e + e;
  }

  lemma {:induction false} QuotientLess(total: nat, e: nat, d: nat)
    requires e >= 1 && d * e <= total
    ensures d <= total / e && (total - d * e) / e == total / e - d
  {
    var q, r := Divide(total, e);
    assert e * (q + 1) == e * q + e;
    if q < d {
      MulMono(e, q + 1, d);
    }
    assert e * (q - d) == e * q - e * d;
    Quotient(total - d * e, e, q - d, r);
  }

  /** The quotient of a difference that wrapped below zero by `d` elements. */
  lemma {:induction false} WrappedQuotient(n: nat, e: nat, d: nat, j: nat)
    requires n == Pow2(j) && e >= 1 && n * e <= TWO32 && 0 < d <= n
    ensures d * e <= TWO32 && n <= TWO32 / e
    ensures Elements(TWO32 - d * e, n, e) == (TWO32 / e - d) % n
  {
    MulMono(e, d, n);
    QuotientLess(TWO32, e, n);
    QuotientLess(TWO32, e, d);
    AndMask(TWO32 / e - d, j);
  }

  lemma {:induction false} MultipleMinus(q: nat, d: nat, n: nat)
    requires n >= 1 && q % n == 0 && 0 < d <= n <= q
    ensures (q - d) % n == if d == n then 0 else n - d
  {
    var c, r := Divide(q, n);
    assert c >= 1;
    if d == n {
      assert q - d == 0 + n * (c - 1);
      Quotient(q - d, n, c - 1, 0);
    } else {
      assert q - d == (n - d) + n * (c - 1);
      Quotient(q - d, n, c - 1, n - d);
    }
  }

  lemma {:induction false} ExactSteps(d: nat, n: nat, e: nat, j: nat)
    requires n == Pow2(j) && e >= 1 && d < n
    ensures Elements(d * e, n, e) == d
  {
    Quotient(d * e, e, d, 0);
    AndOnes(d, j);
  }

  /** What the element size must satisfy besides for the counts to be exact across a wrap. */
  predicate Counts(n: nat, e: nat)
    requires n >= 1 && e >= 1
  {
    n == 1 || (TWO32 / e) % n == 0
  }

  lemma {:induction false} CountsRight(n: nat, e: nat, h: nat, t: nat, j: nat)
    requires n == Pow2(j) && e >= 1 && n * e <= TWO32 && Counts(n, e) && h < n && t < n
    ensures (n - 1) * e < TWO32 && CountRight(n, e, h, t)
  {
    if h >= t {
      CountsAhead(n, e, h, t, j);
    } else {
      CountsBehind(n, e, h, t, j);
    }
  }

  lemma {:induction false} ProductDifference(h: nat, t: nat, e: nat)
    requires t <= h
    ensures t * e <= h * e && h * e - t * e == (h - t) * e
  {
    MulMono(e, t, h);
  }

  lemma {:induction false} CountsAhead(n: nat, e: nat, h: nat, t: nat, j: nat)
    requires n == Pow2(j) && e >= 1 && n * e <= TWO32 && t <= h < n
    ensures (n - 1) * e < TWO32 && CountRight(n, e, h, t)
  {
    Offset(h, n, e);
    Offset(t, n, e);
    ProductDifference(h, t, e);
    ExactSteps(h - t, n, e, j);
  }

  lemma {:induction false} CountsBehind(n: nat, e: nat, h: nat, t: nat, j: nat)
    requires n == Pow2(j) && e >= 1 && n * e <= TWO32 && Counts(n, e) && h < t < n
    ensures (n - 1) * e < TWO32 && CountRight(n, e, h, t)
  {
    Offset(h, n, e);
    Offset(t, n, e);
    MulMono(e, h + 1, t);
    ProductDifference(t, h, e);
    WrappedQuotient(n, e, t - h, j);
    MultipleMinus(TWO32 / e, t - h, n);
  }

  lemma {:induction false} RightCounts(n: nat, e: nat, j: nat)
    requires n == Pow2(j) && n >= 2 && e >= 1 && n * e <= TWO32 && (n - 1) * e < TWO32 && CountRight(n, e, 0, 1)
    ensures Counts(n, e)
  {
    Offset(0, n, e);
    Offset(1, n, e);
    WrappedQuotient(n, e, 1, j);
    var q := TWO32 / e;
    var c, r := Divide(q - 1, n);
    assert r == n - 1;
    assert q == 0 + n * (c + 1);
    Quotient(q, n, c + 1, 0);
  }

  // ---------------------------------------------------------------- the exact condition

  /** A caller can check this before creating a buffer: `n` a power of two, the storage within
      32 bits, the set bits of `e` far enough apart, and a whole number of rings' worth of
      elements in 32 bits. */
  ghost predicate Sound(n: nat, e: nat) {
    n >= 1 && e >= 1 && IsPowerOf2(n) && n * e <= TWO32 && Spaced(e, n) && Counts(n, e)
  }

  lemma {:induction false} TightQuotient(m: nat, e: nat)
    requires e >= 1 && (m + 1) * e < TWO32 < (m + 2) * e
    ensures e < TWO32 && (TWO32 - e) / e == m
  {
    assert (m + 1) * e == e * m + e && (m + 2) * e == e * m + 2 * e;
    Quotient(TWO32 - e, e, m, TWO32 - e - e * m);
  }

  /** Where all offsets but the end of the storage fit in 32 bits, the quotient of 2^32 falls one
      short, and so does the count from the last position round to the first. */
  lemma {:induction false} TightMiscounts(n: nat, e: nat, j: nat)
    requires n == Pow2(j) && n >= 2 && e >= 1 && (n - 1) * e < TWO32 < n * e
    ensures !CountRight(n, e, 0, 1)
  {
    TightQuotient(n - 2, e);
    AndOnes(n - 2, j);
  }

  /** The offsets of all `n` elements fit in 32 bits, and every masked step and every count taken
      from two of them is right. */
  ghost predicate AllRight(n: nat, e: nat)
    requires n >= 1 && e >= 1
  {
    && (n - 1) * e < TWO32
    && (forall k: nat :: k < 2 * n ==> StepRight(n, e, k))
    && (forall h: nat, t: nat :: h < n && t < n ==> CountRight(n, e, h, t))
  }

  lemma {:induction false} SoundIsRight(n: nat, e: nat)
    requires Sound(n, e)
    ensures AllRight(n, e)
  {
    var j: nat :| n == Pow2(j);
    Offset(0, n, e);
    forall k: nat | k < 2 * n
      ensures StepRight(n, e, k)
    {
      SpacedSteps(n, e, k, j);
    }
    forall h: nat, t: nat | h < n && t < n
      ensures CountRight(n, e, h, t)
    {
      CountsRight(n, e, h, t, j);
    }
  }

  lemma {:induction false} RightIsSound(n: nat, e: nat, j: nat)
    requires n == Pow2(j) && 1 <= e < TWO32 && AllRight(n, e)
    ensures Sound(n, e)
  {
    StepsSpaced(n, e, j);
    if n > 1 {
      assert CountRight(n, e, 0, 1);
      if n * e > TWO32 {
        TightMiscounts(n, e, j);
      }
      RightCounts(n, e, j);
    }
  }

  /** For every nonzero size the constructor accepts and every element size, a buffer's steps land
      where the ring says and its counts are exact if and only if the pair is sound. */
  lemma {:induction false} SoundIff(n: U32, e: U32)
    requires n >= 1 && e >= 1 && IsPowerOf2(n)
    ensures Sound(n, e) <==> AllRight(n, e)
  {
    if Sound(n, e) {
      SoundIsRight(n, e);
    } else if AllRight(n, e) {
      var j: nat :| n == Pow2(j);
      RightIsSound(n, e, j);
    }
  }

  lemma {:induction false} SoundStep(n: nat, e: nat, k: nat)
    requires Sound(n, e) && k < 2 * n
    ensures And(k * e, (n - 1) * e) == Wrap(k, n) * e
  {
    SoundIsRight(n, e);
    assert StepRight(n, e, k);
  }

  lemma {:induction false} SoundSteps(n: nat, e: nat, h: nat, t: nat)
    requires Sound(n, e) && h < n && t < n
    ensures h * e < TWO32 && t * e < TWO32 && Steps(h * e, t * e, n, e) == Distance(h, t, n)
  {
    SoundIsRight(n, e);
    assert CountRight(n, e, h, t);
    Offset(h, n, e);
    Offset(t, n, e);
  }

  lemma {:induction false} SpacedPow2(i: nat, n: nat)
    requires n >= 1
    ensures Spaced(Pow2(i), n)
  {
    if i > 0 {
      SpacedPow2(i - 1, n);
      assert Pow2(i) / 2 == Pow2(i - 1) && Pow2(i) % 2 == 0;
    } else {
      Quotient(0, n, 0, 0);
    }
  }

  /** Element sizes that are powers of two, the pointer buffer's single cell among them, are
      always sound. */
  lemma {:induction false} PowersAreSound(n: nat, e: nat)
    requires IsPowerOf2(n) && IsPowerOf2(e) && n * e <= TWO32
    ensures n >= 1 && e >= 1 && Sound(n, e)
  {
    var j: nat :| n == Pow2(j);
    var i: nat :| e == Pow2(i);
    SpacedPow2(i, n);
    Pow2Add(j, i);
    Pow2At32();
    assert Pow2(33) == 2 * Pow2(32);
    if j + i > 32 {
      Pow2Mono(33, j + i);
    }
    var k := 32 - j - i;
    Pow2Add(i, j + k);
    Pow2Add(j, k);
    Quotient(TWO32, e, n * Pow2(k), 0);
    Quotient(n * Pow2(k), n, Pow2(k), 0);
  }

  /** Three cells an element, four elements: the very first step already goes astray. */
  lemma {:induction false} ThreeByFourUnsound()
    ensures !Sound(4, 3) && !StepRight(4, 3, 1)
  {
    assert !Spaced(3, 4);
    assert And(3, 9) == 1 + 2 * And(1, 4) && And(1, 4) == 0 + 2 * And(0, 2);
  }
}
