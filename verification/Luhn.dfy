/**
  The Luhn check of ISO/IEC 7812-1 (Annex B): the loop, the sum of digits it stands for, and
  the errors the check detects.
 */
module Luhn {

  const U64_MAX: nat := 0xffff_ffff_ffff_ffff

  type U64 = n: nat | n <= U64_MAX

  // ---------------------------------------------------------------- the definition

  /** Decimal digits, least significant first; zero has one digit. */
  function Digits(n: nat): (d: seq<nat>)
    ensures |d| >= 1 && forall k :: 0 <= k < |d| ==> d[k] < 10
  {
    if n < 10 then [n] else [n % 10] + Digits(n / 10)
  }

  function DigitSum(n: nat): nat {
    if n < 10 then n else n % 10 + DigitSum(n / 10)
  }

  /** Every second digit from the right is doubled, and the digits of the products are added. */
  function WeightedSum(digits: seq<nat>, doubled: bool): nat {
    if digits == [] then 0
    else DigitSum(if doubled then 2 * digits[0] else digits[0]) + WeightedSum(digits[1..], !doubled)
  }

  /** A number of at least two digits passes when the sum is a multiple of ten. */
  predicate Passes(n: nat) {
    n >= 10 && WeightedSum(Digits(n), false) % 10 == 0
  }

  // ---------------------------------------------------------------- the loop

  /** What the loop adds for one digit. */
  function Contribution(digit: nat, alt: bool): (c: nat)
    requires digit < 10
    ensures c == DigitSum(if alt then 2 * digit else digit) && c < 10
  {
    if !alt then digit
    else
      var twice := 2 * digit;
      assert twice >= 10 ==> DigitSum(twice) == twice % 10 + DigitSum(1);
      if twice > 9 then twice % 10 + 1 else twice
  }

  /** The sum over the digits of `n`, and nothing for zero. */
  function Sum(n: nat, alt: bool): nat {
    if n == 0 then 0 else Contribution(n % 10, alt) + Sum(n / 10, !alt)
  }

  /** The loop's sum is the sum of the definition. */
  lemma {:induction false} SumIsWeighted(n: nat, alt: bool)
    ensures Sum(n, alt) == WeightedSum(Digits(n), alt)
  {
    var d := Digits(n);
    assert WeightedSum([], !alt) == 0 && d[1..] == if n < 10 then [] else Digits(n / 10);
    if n >= 10 {
      SumIsWeighted(n / 10, !alt);
    } else if n > 0 {
      assert n / 10 == 0;
    }
  }

  /** The two digits on the right: the last counts once, the one before it is doubled, and the
      digits of a product of ten or more are added. */
  lemma {:induction false} SumByPairs(n: nat, d: nat, c: nat)
    requires d < 10 && c < 10
    ensures Sum(100 * n + 10 * d + c, false)
         == Sum(n, false) + c + (if 2 * d < 10 then 2 * d else 1 + (2 * d - 10))
  {
    var m := 10 * n + d;
    assert 100 * n + 10 * d + c == 10 * m + c;
    assert (10 * m + c) / 10 == m && (10 * m + c) % 10 == c && m / 10 == n && m % 10 == d;
    Head(10 * m + c, false);
    Head(m, true);
  }

  lemma {:induction false} Head(n: nat, alt: bool)
    ensures Sum(n, alt) == Contribution(n % 10, alt) + Sum(n / 10, !alt)
  {
  }

  lemma {:induction false} SumBound(n: nat, alt: bool, digits: nat)
    requires n < Pow10(digits)
    ensures Sum(n, alt) <= 9 * digits
  {
    if n > 0 {
      SumBound(n / 10, !alt, digits - 1);
    }
  }

  function Pow10(i: nat): nat {
    if i == 0 then 1 else 10 * Pow10(i - 1)
  }

  /** The check. The sum stays far inside 32 bits. */
  method LuhnCheck(number: U64) returns (pass: bool)
    ensures pass == Passes(number)
    ensures pass <==> number >= 10 && Sum(number, false) % 10 == 0
  {
    var num: nat := number;
    var sum: nat := 0;
    var alt := false;
    if num < 10 {
      return false;
    }
    ghost var total := Sum(num, false);
    while num > 0
      invariant sum + Sum(num, alt) == total
    {
      var digit := num % 10;
      if alt {
        digit := digit * 2;
        if digit > 9 {
          digit := digit % 10 + 1;
        }
      }
      assert digit == Contribution(num % 10, alt);
      alt := !alt;
      sum := sum + digit;
      num := num / 10;
    }
    SumIsWeighted(number, false);
    pass := sum % 10 == 0;
  }

  /** The loop's 32-bit sum cannot overflow. */
  lemma {:induction false} SumFits(number: U64)
    ensures Sum(number, false) <= 180
  {
    assert Pow10(10) == 1_00000_00000;
    assert Pow10(20) == 1_00000_00000 * Pow10(10);
    SumBound(number, false, 20);
  }

  // ---------------------------------------------------------------- check digits

  /** `n` with one more digit on the right. */
  function Extend(n: nat, d: nat): (m: nat)
    requires d < 10
    ensures m / 10 == n && m % 10 == d
  {
    10 * n + d
  }

  lemma {:induction false} SumExtend(n: nat, d: nat, alt: bool)
    requires d < 10
    ensures Sum(Extend(n, d), alt) == Contribution(d, alt) + Sum(n, !alt)
  {
  }

  lemma {:induction false} ExtendPasses(n: nat, d: nat)
    requires n >= 1 && d < 10
    ensures Passes(Extend(n, d)) <==> Completes(d, Sum(n, true))
  {
    SumIsWeighted(Extend(n, d), false);
    SumExtend(n, d, false);
  }

  predicate Completes(d: nat, rest: nat) {
    (d + rest) % 10 == 0
  }

  lemma {:induction false} Complement(rest: nat) returns (c: nat)
    ensures c < 10 && Completes(c, rest)
    ensures forall d: nat :: d < 10 && Completes(d, rest) ==> d == c
  {
    var r := rest % 10;
    c := if r == 0 then 0 else 10 - r;
  }

  /** Every number has exactly one check digit. */
  lemma {:induction false} UniqueCheckDigit(n: nat) returns (c: nat)
    requires n >= 1
    ensures c < 10 && Passes(Extend(n, c))
    ensures forall d: nat :: d < 10 && Passes(Extend(n, d)) ==> d == c
  {
    c := Complement(Sum(n, true));
    ExtendPasses(n, c);
    forall d: nat | d < 10 && Passes(Extend(n, d))
      ensures d == c
    {
      ExtendPasses(n, d);
    }
  }

  // ---------------------------------------------------------------- detected errors

  /** Digit `i` of `n`, counted from the right; zero beyond the last. */
  function Digit(n: nat, i: nat): (d: nat)
    ensures d < 10
  {
    if i == 0 then n % 10 else Digit(n / 10, i - 1)
  }

  /** `n` with digit `i` replaced. */
  function SetDigit(n: nat, i: nat, d: nat): nat
    requires d < 10
  {
    if i == 0 then Extend(n / 10, d) else Extend(SetDigit(n / 10, i - 1, d), n % 10)
  }

  /** The replacement is what it says: digit `i` changes and no other does. */
  lemma {:induction false} SetDigitDigits(n: nat, i: nat, d: nat, k: nat)
    requires d < 10
    ensures Digit(SetDigit(n, i, d), k) == if k == i then d else Digit(n, k)
  {
    if i > 0 && k > 0 {
      SetDigitDigits(n / 10, i - 1, d, k - 1);
    }
  }

  /** Whether digit `i` is doubled when doubling starts with digit 0 or 1. */
  function Doubled(i: nat, alt: bool): bool {
    if i == 0 then alt else Doubled(i - 1, !alt)
  }

  /** Replacing a digit exchanges its contribution to the sum. */
  lemma {:induction false} SumSetDigit(n: nat, i: nat, d: nat, alt: bool)
    requires d < 10
    ensures Sum(SetDigit(n, i, d), alt) + Contribution(Digit(n, i), Doubled(i, alt))
         == Sum(n, alt) + Contribution(d, Doubled(i, alt))
  {
    SumExtend(n / 10, n % 10, alt);
    if i == 0 {
      SumExtend(n / 10, d, alt);
    } else {
      SumExtend(SetDigit(n / 10, i - 1, d), n % 10, alt);
      SumSetDigit(n / 10, i - 1, d, !alt);
    }
  }

  /** Doubling and adding digits permutes the digits. */
  lemma {:induction false} ContributionIs(a: nat, alt: bool)
    requires a < 10
    ensures Contribution(a, alt) == if !alt then a else if a < 5 then 2 * a else 2 * a - 9
  {
  }

  lemma {:induction false} ContributionInjective(a: nat, b: nat, alt: bool)
    requires a < 10 && b < 10 && a != b
    ensures Contribution(a, alt) != Contribution(b, alt)
  {
    ContributionIs(a, alt);
    ContributionIs(b, alt);
  }

  lemma {:induction false} ModTen(x: nat, y: nat, a: nat, b: nat)
    requires a < 10 && b < 10 && x + a == y + b && x % 10 == 0
    ensures y % 10 == 0 <==> a == b
  {
  }

  /** Changing any one digit of a number that passes makes it fail. */
  lemma {:induction false} DetectsDigitError(n: nat, i: nat, d: nat)
    requires Passes(n) && d < 10 && d != Digit(n, i)
    ensures !Passes(SetDigit(n, i, d))
  {
    var alt, m := Doubled(i, false), SetDigit(n, i, d);
    SumIsWeighted(n, false);
    SumIsWeighted(m, false);
    SumSetDigit(n, i, d, false);
    ContributionInjective(d, Digit(n, i), alt);
    ModTen(Sum(n, false), Sum(m, false), Contribution(d, alt), Contribution(Digit(n, i), alt));
  }

  /** `n` with digits `i` and `i + 1` exchanged. */
  function Transposed(n: nat, i: nat): nat {
    if i == 0 then Extend(Extend(n / 10 / 10, n % 10), n / 10 % 10)
    else Extend(Transposed(n / 10, i - 1), n % 10)
  }

  /** The exchange is what it says. */
  lemma {:induction false} TransposedDigits(n: nat, i: nat, k: nat)
    ensures Digit(Transposed(n, i), k)
         == if k == i then Digit(n, i + 1) else if k == i + 1 then Digit(n, i) else Digit(n, k)
  {
    if i > 0 && k > 0 {
      TransposedDigits(n / 10, i - 1, k - 1);
    } else if k > 1 {
      assert Digit(n, k) == Digit(n / 10 / 10, k - 2);
    }
  }

  lemma {:induction false} SumTransposed(n: nat, i: nat, alt: bool)
    ensures var a, b, dbl := Digit(n, i), Digit(n, i + 1), Doubled(i, alt);
            Sum(Transposed(n, i), alt) + (Contribution(a, dbl) + Contribution(b, !dbl))
            == Sum(n, alt) + (Contribution(b, dbl) + Contribution(a, !dbl))
  {
    SumExtend(n / 10, n % 10, alt);
    if i == 0 {
      var m := n / 10;
      assert Digit(n, 1) == m % 10;
      SumExtend(m / 10, m % 10, !alt);
      SumExtend(m / 10, n % 10, !alt);
      SumExtend(Extend(m / 10, n % 10), m % 10, alt);
    } else {
      SumExtend(Transposed(n / 10, i - 1), n % 10, alt);
      SumTransposed(n / 10, i - 1, !alt);
    }
  }

  /** Exchanging two digits leaves the sum alone, modulo ten, just when they are equal or are
      zero and nine. */
  lemma {:induction false} ExchangeUnseen(a: nat, b: nat, alt: bool, x: nat, y: nat)
    requires a < 10 && b < 10 && x % 10 == 0
    requires y + (Contribution(a, alt) + Contribution(b, !alt)) == x + (Contribution(b, alt) + Contribution(a, !alt))
    ensures y % 10 == 0 <==> a == b || (a == 0 && b == 9) || (a == 9 && b == 0)
  {
    var f, g := if a < 5 then a else a - 9, if b < 5 then b else b - 9;
    ContributionIs(a, alt);
    ContributionIs(b, alt);
    ContributionIs(a, !alt);
    ContributionIs(b, !alt);
    Near(x, y, if alt then g - f else f - g);
  }

  lemma {:induction false} Near(x: nat, y: nat, d: int)
    requires x % 10 == 0 && y == x + d && -10 < d < 10
    ensures y % 10 == 0 <==> d == 0
  {
  }

  lemma {:induction false} ExtendPositive(n: nat, d: nat)
    requires d < 10
    ensures Extend(n, d) > 0 <==> n > 0 || d > 0
  {
  }

  lemma {:induction false} PositiveParts(n: nat)
    requires n > 0
    ensures n / 10 > 0 || n % 10 > 0
  {
  }

  lemma {:induction false} ExchangedPositive(p: nat, a: nat, b: nat)
    requires a < 10 && b < 10 && (p > 0 || a > 0 || b > 0)
    ensures Extend(Extend(p, a), b) > 0
  {
    ExtendPositive(p, a);
    ExtendPositive(Extend(p, a), b);
  }

  lemma {:induction false} TransposedPositive(n: nat, i: nat)
    requires n > 0
    ensures Transposed(n, i) > 0
  {
    PositiveParts(n);
    var m := n / 10;
    if i == 0 {
      if m > 0 {
        PositiveParts(m);
      }
      ExchangedPositive(m / 10, n % 10, m % 10);
    } else {
      if m > 0 {
        TransposedPositive(m, i - 1);
      }
      ExtendPositive(Transposed(m, i - 1), n % 10);
    }
  }

  lemma {:induction false} TransposedSize(n: nat, i: nat)
    requires Passes(n)
    ensures Transposed(n, i) >= 10
  {
    if i > 0 {
      TransposedPositive(n / 10, i - 1);
    } else if n / 10 / 10 == 0 && n % 10 == 0 {
      SumIsWeighted(n, false);
      SumExtend(n / 10, 0, false);
      SumExtend(0, n / 10, true);
      ContributionIs(n / 10, true);
    }
  }

  /** Exchanging two adjacent unequal digits of a number that passes makes it fail, unless they
      are zero and nine. */
  lemma {:induction false} DetectsTransposition(n: nat, i: nat)
    requires Passes(n)
    ensures var a, b := Digit(n, i), Digit(n, i + 1);
            Passes(Transposed(n, i)) <==> a == b || (a == 0 && b == 9) || (a == 9 && b == 0)
  {
    SumIsWeighted(n, false);
    SumIsWeighted(Transposed(n, i), false);
    SumTransposed(n, i, false);
    TransposedSize(n, i);
    ExchangeUnseen(Digit(n, i), Digit(n, i + 1), Doubled(i, false), Sum(n, false), Sum(Transposed(n, i), false));
  }
}
