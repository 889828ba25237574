/**
  Bitwise conjunction of natural numbers, by binary digits, and masks.
 */
module Bits {

  function Pow2(j: nat): (p: nat)
    ensures p >= 1
  {
    if j == 0 then 1 else 2 * Pow2(j - 1)
  }

  /** Bitwise and. */
  function And(a: nat, b: nat): nat
    decreases a
  {
    if a == 0 || b == 0 then 0
    else (if a % 2 == 1 && b % 2 == 1 then 1 else 0) + 2 * And(a / 2, b / 2)
  }

  lemma {:induction false} AndDouble(a: nat, b: nat, r: nat, s: nat)
    requires r < 2 && s < 2
    ensures And(r + 2 * a, s + 2 * b) == (if r == 1 && s == 1 then 1 else 0) + 2 * And(a, b)
  {
    assert (r + 2 * a) / 2 == a && (s + 2 * b) / 2 == b;
    assert (r + 2 * a) % 2 == r && (s + 2 * b) % 2 == s;
  }

  /** Conjunction digit by digit. */
  lemma {:induction false} AndDigits(a: nat, b: nat, h: nat, i: nat, r: nat, s: nat)
    requires r < 2 && s < 2 && a == r + 2 * h && b == s + 2 * i
    ensures And(a, b) == (if r == 1 && s == 1 then 1 else 0) + 2 * And(h, i)
  {
    AndDouble(h, i, r, s);
  }

  lemma {:induction false} AndAtMost(a: nat, b: nat)
    ensures And(a, b) <= a && And(a, b) <= b
    decreases a
  {
    if a != 0 && b != 0 {
      AndAtMost(a / 2, b / 2);
    }
  }

  lemma {:induction false} Halves(a: nat) returns (h: nat, r: nat)
    ensures a == r + 2 * h && r < 2
  {
    h, r := a / 2, a % 2;
  }

  /** `x` moved up by `j` digits. */
  function Shift(x: nat, j: nat): nat {
    if j == 0 then x else 2 * Shift(x, j - 1)
  }

  lemma {:induction false} Double(q: nat, x: nat)
    ensures (2 * q) * x == 2 * (q * x)
  {
  }

  lemma {:induction false} ShiftIs(x: nat, j: nat)
    ensures Shift(x, j) == Pow2(j) * x
  {
    if j > 0 {
      ShiftIs(x, j - 1);
      Double(Pow2(j - 1), x);
    } else {
      assert Pow2(0) * x == x;
    }
  }

  lemma {:induction false} ShiftOne(j: nat)
    ensures Shift(1, j) == Pow2(j) && Shift(0, j) == 0
  {
    if j > 0 {
      ShiftOne(j - 1);
    }
  }

  /** The low `j` digits and the rest. */
  lemma {:induction false} SplitAt(a: nat, j: nat) returns (x: nat, r: nat)
    ensures a == r + Shift(x, j) && r < Pow2(j)
  {
    if j == 0 {
      x, r := a, 0;
    } else {
      var h, b := Halves(a);
      x, r := SplitAt(h, j - 1);
      r := b + 2 * r;
    }
  }

  lemma {:induction false} SplitUnique(r: nat, x: nat, r': nat, x': nat, j: nat)
    requires r < Pow2(j) && r' < Pow2(j) && r + Shift(x, j) == r' + Shift(x', j)
    ensures r == r' && x == x'
  {
    if j > 0 {
      var h, b := Halves(r);
      var h', b' := Halves(r');
      SplitUnique(h, x, h', x', j - 1);
    }
  }

  lemma {:induction false} AndStep(a: nat, a': nat, ra: nat, x: nat, b: nat, b': nat, rb: nat, y: nat, z: nat)
    requires a == ra + 2 * a' && b == rb + 2 * b' && ra < 2 && rb < 2
    requires And(a' + x, b' + y) == And(a', b') + z
    ensures And(a + 2 * x, b + 2 * y) == And(a, b) + 2 * z
  {
    AndDigits(a + 2 * x, b + 2 * y, a' + x, b' + y, ra, rb);
    AndDigits(a, b, a', b', ra, rb);
  }

  lemma {:induction false} ShiftStep(x: nat, j: nat)
    requires j > 0
    ensures Shift(x, j) == 2 * Shift(x, j - 1)
  {
  }

  /** Low digits and high digits do not interact. */
  lemma {:induction false} AndShifted(a: nat, x: nat, b: nat, y: nat, j: nat)
    requires a < Pow2(j) && b < Pow2(j)
    ensures And(a + Shift(x, j), b + Shift(y, j)) == And(a, b) + Shift(And(x, y), j)
    decreases j
  {
    if j > 0 {
      var a', ra := Halves(a);
      var b', rb := Halves(b);
      AndShifted(a', x, b', y, j - 1);
      AndShiftedStep(a, a', ra, x, b, b', rb, y, And(x, y), j);
    }
  }

  lemma {:induction false} AndShiftedStep(a: nat, a': nat, ra: nat, x: nat,
                                          b: nat, b': nat, rb: nat, y: nat, z: nat, j: nat)
    requires j > 0 && a == ra + 2 * a' && b == rb + 2 * b' && ra < 2 && rb < 2
    requires And(a' + Shift(x, j - 1), b' + Shift(y, j - 1)) == And(a', b') + Shift(z, j - 1)
    ensures And(a + Shift(x, j), b + Shift(y, j)) == And(a, b) + Shift(z, j)
  {
    ShiftStep(x, j);
    ShiftStep(y, j);
    ShiftStep(z, j);
    AndStep(a, a', ra, Shift(x, j - 1), b, b', rb, Shift(y, j - 1), Shift(z, j - 1));
  }

  lemma {:induction false} AndHigh(x: nat, y: nat, j: nat)
    ensures And(Shift(x, j), Shift(y, j)) == Shift(And(x, y), j)
  {
    AndShifted(0, x, 0, y, j);
    assert And(0, 0) == 0;
  }

  lemma {:induction false} AndTopBit(s: nat, j: nat)
    requires Pow2(j) <= s < Pow2(j + 1)
    ensures And(Pow2(j), s) == Pow2(j)
  {
    if j > 0 {
      var h, b := Halves(s);
      AndTopBit(h, j - 1);
      AndDigits(Pow2(j), s, Pow2(j - 1), h, 0, b);
    }
  }

  /** A mask of ones keeps the digits under it. */
  lemma {:induction false} AndOnes(a: nat, j: nat)
    requires a < Pow2(j)
    ensures And(a, Pow2(j) - 1) == a
    decreases j
  {
    if j > 0 {
      AndOnes(a / 2, j - 1);
      assert Pow2(j) - 1 == 1 + 2 * (Pow2(j - 1) - 1);
      AndDouble(a / 2, Pow2(j - 1) - 1, a % 2, 1);
      assert a == a % 2 + 2 * (a / 2);
    }
  }

  /** Division with remainder is unique. */
  lemma {:induction false} Quotient(n: nat, p: nat, q: nat, r: nat)
    requires r < p && n == r + p * q
    ensures n / p == q && n % p == r
  {
    var q', r' := n / p, n % p;
    assert n == r' + p * q';
    assert p * (q + 1) == p * q + p && p * (q' + 1) == p * q' + p;
    if q < q' {
      MulMono(p, q + 1, q');
    } else if q' < q {
      MulMono(p, q' + 1, q);
    }
  }

  lemma {:induction false} MulMono(p: nat, a: nat, b: nat)
    requires a <= b
    ensures p * a <= p * b && a * p <= b * p
  {
  }

  lemma {:induction false} Divide(n: nat, p: nat) returns (q: nat, r: nat)
    requires p > 0
    ensures q == n / p && r == n % p && n == r + p * q && r < p
  {
    q, r := n / p, n % p;
  }

  lemma {:induction false} AndMaskSum(r: nat, q: nat, j: nat)
    requires r < Pow2(j)
    ensures And(r + Shift(q, j), Pow2(j) - 1) == r
  {
    ShiftOne(j);
    AndShifted(r, q, Pow2(j) - 1, 0, j);
    AndOnes(r, j);
  }

  lemma {:induction false} AndMask(a: nat, j: nat)
    ensures And(a, Pow2(j) - 1) == a % Pow2(j)
  {
    var q, r := SplitAt(a, j);
    AndMaskSum(r, q, j);
    ShiftIs(q, j);
    Quotient(a, Pow2(j), q, r);
  }

  lemma {:induction false} Pow2Add(i: nat, j: nat)
    ensures Pow2(i + j) == Pow2(i) * Pow2(j)
  {
    if i > 0 {
      Pow2Add(i - 1, j);
      assert Pow2(i) * Pow2(j) == 2 * (Pow2(i - 1) * Pow2(j));
    } else {
      assert Pow2(0) * Pow2(j) == Pow2(j);
    }
  }

  lemma {:induction false} Pow2Mono(i: nat, j: nat)
    requires i <= j
    ensures Pow2(i) <= Pow2(j)
  {
    if i < j {
      Pow2Mono(i, j - 1);
    }
  }

  lemma {:induction false} Pow2At32()
    ensures Pow2(32) == 0x1_0000_0000
  {
    assert Pow2(8) == 256;
    Pow2Add(8, 8);
    Pow2Add(16, 16);
  }

  ghost predicate IsPowerOf2(n: nat) {
    exists j: nat :: n == Pow2(j)
  }

  lemma {:induction false} OddNotPowerOf2(n: nat)
    requires n % 2 == 1 && n > 1
    ensures !IsPowerOf2(n)
  {
    forall j: nat
      ensures n != Pow2(j)
    {
    }
  }

  /** Clearing the lowest set bit leaves nothing exactly when there is just one. */
  lemma {:induction false} ClearLowestIff(n: nat)
    requires n >= 1
    ensures And(n, n - 1) == 0 <==> IsPowerOf2(n)
    decreases n
  {
    if n == 1 {
      assert n == Pow2(0);
    } else if n % 2 == 0 {
      var h := n / 2;
      ClearLowestIff(h);
      assert n == 0 + 2 * h && n - 1 == 1 + 2 * (h - 1);
      AndDouble(h, h - 1, 0, 1);
      if IsPowerOf2(h) {
        var j: nat :| h == Pow2(j);
        assert n == Pow2(j + 1);
      }
      if IsPowerOf2(n) {
        var j: nat :| n == Pow2(j);
        assert h == Pow2(j - 1);
      }
    } else {
      var h := n / 2;
      assert n == 1 + 2 * h && n - 1 == 0 + 2 * h;
      AndDouble(h, h, 1, 0);
      AndSelf(h);
      OddNotPowerOf2(n);
    }
  }

  lemma {:induction false} AndSelf(a: nat)
    ensures And(a, a) == a
  {
    if a != 0 {
      AndSelf(a / 2);
    }
  }
}
