/**
  Seeding: the words a seed fills a table with, the generator that starts, and the numbers it
  yields, in closed form.
 */
module RandomSeed {
  import opened Common
  import opened RandomStream

  // ---------------------------------------------------------------- the words of a seed

  const M: int := 2147483647

  /** C's division truncates toward zero. */
  function Div(a: int, b: int): int
    requires b > 0
  {
    if a >= 0 then a / b else -((-a) / b)
  }

  function Rem(a: int, b: int): int
    requires b > 0
  {
    if a >= 0 then a % b else -((-a) % b)
  }

  /** The seeding step: a product modulo a prime without a wide product. */
  function Schrage(word: Int32): (w: Int32)
  {
    var hi, lo := Div(word, 127773), Rem(word, 127773);
    var w := 16807 * lo - 2836 * hi;
    if w < 0 then w + M else w
  }

  /** The step computes the product's remainder for every word, negative ones included, and
      nothing on the way leaves the range of an int32. */
  lemma {:induction false} SchrageIs(word: Int32)
    ensures Schrage(word) == (16807 * word) % M
    ensures -0x8000_0000 <= 16807 * Rem(word, 127773) - 2836 * Div(word, 127773) < 0x8000_0000
  {
    var hi, lo := Div(word, 127773), Rem(word, 127773);
    assert word == 127773 * hi + lo && -127773 < lo < 127773;
    assert 16807 * word == M * hi + (16807 * lo - 2836 * hi);
    var w := Schrage(word);
    Residue(16807 * word, if 16807 * lo - 2836 * hi < 0 then hi - 1 else hi, w);
  }

  lemma {:induction false} Residue(n: int, q: int, r: int)
    requires 0 <= r < M && n == M * q + r
    ensures n % M == r
  {
  }

  /** The multiplier has an inverse, so a step yields zero only from a multiple of the modulus. */
  lemma {:induction false} SchrageZeroIff(word: Int32)
    ensures Schrage(word) == 0 <==> word % M == 0
  {
    SchrageIs(word);
    var x, k := word, 16807 * word / M;
    if Schrage(word) == 0 {
      assert 16807 * x == M * k;
      assert 1407677000 * (16807 * x) == x + M * (11017 * x);
      Residue(x, 1407677000 * k - 11017 * x, 0);
    } else if word % M == 0 {
      var q := word / M;
      Residue(16807 * word, 16807 * q, 0);
    }
  }

  function FirstSeed(seed: U32): U32 {
    if seed == 0 then 1 else seed
  }

  /** The `k`th word of a freshly seeded table. */
  function SeedWord(seed: U32, k: nat): Int32 {
    if k == 0 then Signed(FirstSeed(seed)) else Schrage(SeedWord(seed, k - 1))
  }

  lemma {:induction false} SeedWordStep(seed: U32, k: nat)
    ensures SeedWord(seed, k + 1) == (16807 * SeedWord(seed, k)) % M
  {
    SchrageIs(SeedWord(seed, k));
  }

  /** Every seeded word after the first is zero when the seed word is a multiple of the modulus,
      and nonzero when it is not. */
  lemma {:induction false} SeedWordZeroIff(seed: U32, k: nat)
    requires k >= 1
    ensures 0 <= SeedWord(seed, k) < M
    ensures SeedWord(seed, k) == 0 <==> SeedWord(seed, 0) % M == 0
  {
    SeedWordStep(seed, k - 1);
    SchrageZeroIff(SeedWord(seed, k - 1));
    if k > 1 {
      SeedWordZeroIff(seed, k - 1);
    }
  }

  function SeedTable(seed: U32, deg: nat): (t: seq<U32>)
    ensures |t| == deg
  {
    seq(deg, k requires 0 <= k < deg => Unsigned(SeedWord(seed, k)))
  }

  /** The words from 1 to `n` are the first seeded ones. */
  predicate Filled(image: seq<Int32>, seed: U32, n: nat) {
    n < |image| && forall k :: 1 <= k <= n ==> image[k] == SeedWord(seed, k - 1)
  }

  lemma {:induction false} FillOne(image: seq<Int32>, seed: U32, n: nat)
    requires Filled(image, seed, n) && n + 1 < |image|
    ensures Filled(image[n + 1 := SeedWord(seed, n)], seed, n + 1)
  {
  }

  lemma {:induction false} FilledTable(image: seq<Int32>, seed: U32, deg: nat)
    requires Filled(image, seed, deg)
    ensures Table(image, deg) == SeedTable(seed, deg)
  {
  }

  /** The generator a seed starts. */
  ghost function SeededGen(t: nat, seed: U32): (g: Gen)
    requires t < MAX_TYPES
    ensures ValidGen(g)
  {
    if t == 0 then Lcg(FirstSeed(seed))
    else DrawMany(Ring(Window(SeedTable(seed, Degree(t)), Separation(t)), Separation(t)), 10 * Degree(t))
  }

  /** The largest type whose state fits in `n` bytes. */
  function TypeFor(n: nat): nat
    requires n >= 8
  {
    if n >= 128 then (if n < 256 then 3 else 4) else if n < 32 then 0 else if n < 64 then 1 else 2
  }

  /** Saved word, table and all lie within the bytes given. */
  lemma {:induction false} StateFits(n: nat)
    requires n >= 8
    ensures Degree(TypeFor(n)) + 1 <= n / 4 && 2 <= n / 4
  {
  }

  // ---------------------------------------------------------------- closed forms

  function Pow(b: nat, k: nat): nat {
    if k == 0 then 1 else b * Pow(b, k - 1)
  }

  /** 1 + a + ... + a to the k - 1. */
  function Geometric(a: nat, k: nat): nat {
    if k == 0 then 0 else a * Geometric(a, k - 1) + 1
  }

  /** Seeding with zero is seeding with one. */
  function Nonzero(seed: U32): U32 {
    if seed == 0 then 1 else seed
  }

  /** Word `k` of the table: the seed, and then its product, as a signed word, with a power of
      16807, modulo 2147483647. */
  function Word(seed: U32, k: nat): (w: U32)
  {
    var s: int := if Nonzero(seed) < 0x8000_0000 then Nonzero(seed) else Nonzero(seed) - 0x1_0000_0000;
    if k == 0 then Nonzero(seed) else (Pow(16807, k) * s) % 2147483647
  }

  lemma {:induction false} RemainderTimes(a: int, x: int)
    ensures (a * (x % M)) % M == (a * x) % M
  {
    var q, r := x / M, x % M;
    var p, s := a * r / M, a * r % M;
    assert x == M * q + r && a * r == M * p + s;
    assert a * x == M * (a * q + p) + s by { Spread(a, q, r); }
    Residue(a * x, a * q + p, s);
  }

  lemma {:induction false} Spread(a: int, q: int, r: int)
    ensures a * (M * q + r) == M * (a * q) + a * r
  {
  }

  lemma {:induction false} PowTimes(k: nat, s: int)
    ensures Pow(16807, k + 1) * s == 16807 * (Pow(16807, k) * s)
  {
  }

  /** The seeded words in closed form. */
  lemma {:induction false} SeedWordIs(seed: U32, k: nat)
    ensures Unsigned(SeedWord(seed, k)) == Word(seed, k)
    ensures k > 0 ==> SeedWord(seed, k) == (Pow(16807, k) * SeedWord(seed, 0)) % M
  {
    var s := SeedWord(seed, 0);
    if k > 0 {
      SeedWordStep(seed, k - 1);
      SeedWordIs(seed, k - 1);
      PowTimes(k - 1, s);
      if k == 1 {
        assert Pow(16807, 0) * s == s;
      } else {
        RemainderTimes(16807, Pow(16807, k - 1) * s);
      }
    }
  }

  /** Different seeds start different tables, but for zero and one. */
  lemma {:induction false} SameTableIff(a: U32, b: U32, deg: nat)
    requires deg >= 1
    ensures SeedTable(a, deg) == SeedTable(b, deg) <==> a == b || (a <= 1 && b <= 1)
  {
    SeedWordIs(a, 0);
    SeedWordIs(b, 0);
    assert SeedTable(a, deg)[0] == Word(a, 0) && SeedTable(b, deg)[0] == Word(b, 0);
    if a <= 1 && b <= 1 {
      forall k | 0 <= k < deg
        ensures SeedTable(a, deg)[k] == SeedTable(b, deg)[k]
      {
        SeedWordIs(a, k);
        SeedWordIs(b, k);
      }
    }
  }

  /** The words of the table in the order the recurrence takes them up: from the one `sep` places
      in, round to the one before it. */
  function StartWord(seed: U32, deg: nat, sep: nat, i: nat): U32
    requires i < deg && sep < deg
  {
    Word(seed, if i + sep < deg then i + sep else i + sep - deg)
  }

  function StartWords(seed: U32, deg: nat, sep: nat): (w: seq<U32>)
    requires 0 < sep < deg
    ensures |w| == deg
  {
    seq(deg, i requires 0 <= i < deg => StartWord(seed, deg, sep, i))
  }

  lemma {:induction false} StartIs(seed: U32, deg: nat, sep: nat)
    requires 0 < sep < deg
    ensures Window(SeedTable(seed, deg), sep) == StartWords(seed, deg, sep)
  {
    var w := Window(SeedTable(seed, deg), sep);
    forall i | 0 <= i < deg
      ensures w[i] == StartWords(seed, deg, sep)[i]
    {
      var k := if i + sep < deg then i + sep else i + sep - deg;
      assert w[i] == SeedTable(seed, deg)[k];
      SeedWordIs(seed, k);
    }
  }

  /** Number `k` after seeding a table of `deg` words with taps `sep` apart: ten turns are thrown
      away, and each number is a word of the recurrence without its lowest bit. */
  function Additive(seed: U32, deg: nat, sep: nat, k: nat): int
    requires 0 < sep < deg
  {
    X(StartWords(seed, deg, sep), sep, 11 * deg + k) / 2
  }

  /** Number `k` of the linear congruential generator. */
  function Congruential(seed: U32, k: nat): int {
    (Pow(1103515245, k + 1) * Nonzero(seed) + 12345 * Geometric(1103515245, k + 1)) % 0x8000_0000
  }

  /** Number `k` after seeding a generator of type `t`. */
  function NumberOfType(t: nat, seed: U32, k: nat): int
    requires t < MAX_TYPES
  {
    if t == 0 then Congruential(seed, k)
    else if t == 1 then Additive(seed, 7, 3, k)
    else if t == 2 then Additive(seed, 15, 1, k)
    else if t == 3 then Additive(seed, 31, 3, k)
    else Additive(seed, 63, 1, k)
  }

  /** Number `k` after seeding a state of `n` bytes. */
  function Number(n: nat, seed: U32, k: nat): int
    requires n >= 8
  {
    NumberOfType(if n < 32 then 0 else if n < 64 then 1 else if n < 128 then 2 else if n < 256 then 3 else 4, seed, k)
  }

  /** From here on the generator yields the numbers of that seed. */
  ghost predicate Yields(g: Gen, t: nat, seed: U32)
    requires ValidGen(g) && t < MAX_TYPES
  {
    forall k: nat :: Draw(DrawMany(g, k)).1 == NumberOfType(t, seed, k)
  }

  lemma {:induction false} SameRemainder(x: nat, q: nat)
    ensures (x + TWO31 * q) % TWO31 == x % TWO31
  {
  }

  lemma {:induction false} LinearStep(a: nat, c: nat, p: nat, s: nat, g: nat)
    ensures (((p * s + c * g) % TWO31) * a + c) % TWO31 == ((a * p) * s + c * (a * g + 1)) % TWO31
  {
    var x := p * s + c * g;
    var q, r := x / TWO31, x % TWO31;
    Expand(a, c, p, s, g, q, r);
    SameRemainder(r * a + c, q * a);
  }

  lemma {:induction false} Expand(a: nat, c: nat, p: nat, s: nat, g: nat, q: nat, r: nat)
    requires p * s + c * g == TWO31 * q + r
    ensures (a * p) * s + c * (a * g + 1) == (r * a + c) + TWO31 * (q * a)
  {
    assert (a * p) * s + c * (a * g + 1) == a * (p * s + c * g) + c;
    assert a * (TWO31 * q + r) == TWO31 * (q * a) + r * a;
  }

  lemma {:induction false} CongruentialState(s: U32, k: nat)
    ensures var g := DrawMany(Lcg(s), k);
            g.Lcg? && (k > 0 ==> g.x == (Pow(1103515245, k) * s + 12345 * Geometric(1103515245, k)) % TWO31)
  {
    if k > 0 {
      CongruentialState(s, k - 1);
      DrawManySnoc(Lcg(s), k - 1);
      if k == 1 {
        assert Pow(1103515245, 1) == 1103515245 * Pow(1103515245, 0) == 1103515245;
        assert Geometric(1103515245, 1) == 1103515245 * Geometric(1103515245, 0) + 1 == 1;
      } else {
        LinearStep(1103515245, 12345, Pow(1103515245, k - 1), s, Geometric(1103515245, k - 1));
      }
    }
  }

  lemma {:induction false} DrawManyMore(g: Gen, a: nat, b: nat)
    requires ValidGen(g)
    ensures DrawMany(DrawMany(g, a), b) == DrawMany(g, a + b)
    decreases a
  {
    if a > 0 {
      DrawManyMore(Draw(g).0, a - 1, b);
    }
  }

  lemma {:induction false} LaterNumber(start: seq<U32>, sep: nat, a: nat, k: nat)
    requires 0 < sep < |start|
    ensures Draw(DrawMany(DrawMany(Ring(start, sep), a), k)).1 == X(start, sep, a + k + |start|) / 2
  {
    DrawManyMore(Ring(start, sep), a, k);
    DrawsAreTheRecurrence(start, sep, a + k);
  }

  lemma {:induction false} AdditiveYields(t: nat, seed: U32, deg: nat, sep: nat, k: nat)
    requires 1 <= t < MAX_TYPES && deg == Degree(t) && sep == Separation(t)
    ensures Draw(DrawMany(SeededGen(t, seed), k)).1 == Additive(seed, deg, sep, k)
  {
    StartIs(seed, deg, sep);
    LaterNumber(StartWords(seed, deg, sep), sep, 10 * deg, k);
  }

  lemma {:induction false} CongruentialYields(seed: U32, k: nat)
    ensures Draw(DrawMany(Lcg(Nonzero(seed)), k)).1 == Congruential(seed, k)
  {
    CongruentialState(Nonzero(seed), k + 1);
    CongruentialState(Nonzero(seed), k);
    DrawManySnoc(Lcg(Nonzero(seed)), k);
  }

  /** What a seed starts: for every type and every seed, all numbers in closed form. */
  lemma {:induction false} SeededYields(t: nat, seed: U32)
    requires t < MAX_TYPES
    ensures Yields(SeededGen(t, seed), t, seed)
  {
    forall k: nat
      ensures Draw(DrawMany(SeededGen(t, seed), k)).1 == NumberOfType(t, seed, k)
    {
      if t == 0 {
        CongruentialYields(seed, k);
      } else {
        AdditiveYields(t, seed, Degree(t), Separation(t), k);
      }
    }
  }
}
