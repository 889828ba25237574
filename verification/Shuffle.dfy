/**
  The Fisher-Yates shuffle: the in-place loop, and the one-to-one correspondence between
  choice vectors and permutations.
 */
module Shuffle {
  import opened Common
  import opened RandomStream
  import RandomR
  import RandomSeed

  function Swap<T>(s: seq<T>, i: nat, j: nat): (r: seq<T>)
    requires i < |s| && j < |s|
    ensures |r| == |s| && r[i] == s[j] && r[j] == s[i]
  {
    s[i := s[j]][j := s[i]]
  }

  /** One choice below `n`, then one below `n - 1`, and so on down to one. */
  predicate ValidChoices(choices: seq<nat>, n: nat) {
    |choices| == n && forall i :: 0 <= i < n ==> choices[i] < n - i
  }

  /** Step by step, the chosen element changes places with the last one not yet settled. */
  function Shuffled<T>(s: seq<T>, n: nat, choices: seq<nat>): (r: seq<T>)
    requires n <= |s| && ValidChoices(choices, n)
    ensures |r| == |s|
    decreases n
  {
    if n == 0 then s else Shuffled(Swap(s, choices[0], n - 1), n - 1, choices[1..])
  }

  // ---------------------------------------------------------------- permutations

  lemma {:induction false} SwapPermutes<T>(s: seq<T>, i: nat, j: nat)
    requires i < |s| && j < |s|
    ensures multiset(Swap(s, i, j)) == multiset(s)
  {
  }

  /** The shuffle only rearranges. */
  lemma {:induction false} ShuffledPermutes<T>(s: seq<T>, n: nat, choices: seq<nat>)
    requires n <= |s| && ValidChoices(choices, n)
    ensures multiset(Shuffled(s, n, choices)) == multiset(s)
    ensures Shuffled(s, n, choices)[n..] == s[n..]
    decreases n
  {
    if n > 0 {
      var s' := Swap(s, choices[0], n - 1);
      SwapPermutes(s, choices[0], n - 1);
      ShuffledPermutes(s', n - 1, choices[1..]);
      var r := Shuffled(s, n, choices);
      assert r[n - 1..][1..] == r[n..] && s'[n - 1..][1..] == s'[n..] == s[n..];
    }
  }

  /** The first choice decides which element ends up last. */
  lemma {:induction false} FirstChoice<T>(s: seq<T>, n: nat, choices: seq<nat>)
    requires 0 < n <= |s| && ValidChoices(choices, n)
    ensures Shuffled(s, n, choices)[n - 1] == s[choices[0]]
  {
    var s' := Swap(s, choices[0], n - 1);
    ShuffledPermutes(s', n - 1, choices[1..]);
    assert Shuffled(s, n, choices)[n - 1] == Shuffled(s, n, choices)[n - 1..][0];
    assert s'[n - 1] == s'[n - 1..][0];
  }

  lemma {:induction false} SwapDistinct<T>(s: seq<T>, i: nat, j: nat)
    requires i < |s| && j < |s| && Distinct(s)
    ensures Distinct(Swap(s, i, j))
  {
  }

  /** Different choices give different arrangements of distinct elements. */
  lemma {:induction false} ShuffledInjective<T>(s: seq<T>, n: nat, a: seq<nat>, b: seq<nat>)
    requires n <= |s| && ValidChoices(a, n) && ValidChoices(b, n) && Distinct(s)
    requires Shuffled(s, n, a) == Shuffled(s, n, b)
    ensures a == b
    decreases n
  {
    if n > 0 {
      FirstChoice(s, n, a);
      FirstChoice(s, n, b);
      assert a[0] == b[0];
      SwapDistinct(s, a[0], n - 1);
      ShuffledInjective(Swap(s, a[0], n - 1), n - 1, a[1..], b[1..]);
      assert a == [a[0]] + a[1..] && b == [b[0]] + b[1..];
    }
  }

  /** An element of `p` among the first `n` of `s`, when the two agree from `n` on. */
  lemma {:induction false} FindElement<T>(s: seq<T>, p: seq<T>, n: nat) returns (i: nat)
    requires 0 < n <= |s| && multiset(p) == multiset(s) && |p| == |s| && p[n..] == s[n..]
    ensures i < n && s[i] == p[n - 1]
  {
    var x := p[n - 1];
    assert p == p[..n] + p[n..] && s == s[..n] + s[n..];
    assert multiset(p[..n]) == multiset(p) - multiset(p[n..]);
    assert multiset(s[..n]) == multiset(s) - multiset(s[n..]);
    assert p[..n][n - 1] == x;
    assert x in multiset(p[..n]);
    assert x in s[..n];
    i :| 0 <= i < n && s[..n][i] == x;
  }

  /** Every arrangement arises from some choices. */
  lemma {:induction false} ShuffledSurjective<T>(s: seq<T>, p: seq<T>, n: nat) returns (choices: seq<nat>)
    requires n <= |s| == |p| && multiset(p) == multiset(s) && p[n..] == s[n..]
    ensures ValidChoices(choices, n) && Shuffled(s, n, choices) == p
    decreases n
  {
    if n == 0 {
      choices := [];
      assert p[0..] == p && s[0..] == s;
    } else {
      var i := FindElement(s, p, n);
      var s' := Swap(s, i, n - 1);
      SwapPermutes(s, i, n - 1);
      assert p[n - 1..] == [p[n - 1]] + p[n..];
      assert s'[n - 1..] == [s'[n - 1]] + s'[n..];
      assert s'[n..] == s[n..];
      var rest := ShuffledSurjective(s', p, n - 1);
      choices := [i] + rest;
      assert choices[1..] == rest;
    }
  }

  /** On distinct elements the shuffle maps the choice vectors one-to-one onto the permutations:
      each permutation comes from exactly one vector. */
  lemma {:induction false} ShuffleIsABijection<T>(s: seq<T>, p: seq<T>)
    requires Distinct(s)
    ensures multiset(p) == multiset(s) <==>
            exists c :: ValidChoices(c, |s|) && Shuffled(s, |s|, c) == p
    ensures forall c, d ::
              (ValidChoices(c, |s|) && ValidChoices(d, |s|) && Shuffled(s, |s|, c) == p && Shuffled(s, |s|, d) == p)
              ==> c == d
  {
    if multiset(p) == multiset(s) {
      assert |p| == |multiset(p)| && |s| == |multiset(s)|;
      assert p[|s|..] == s[|s|..];
      var c := ShuffledSurjective(s, p, |s|);
    }
    forall c | ValidChoices(c, |s|) && Shuffled(s, |s|, c) == p
      ensures multiset(p) == multiset(s)
    {
      ShuffledPermutes(s, |s|, c);
    }
    forall c, d | ValidChoices(c, |s|) && ValidChoices(d, |s|) && Shuffled(s, |s|, c) == p && Shuffled(s, |s|, d) == p
      ensures c == d
    {
      ShuffledInjective(s, |s|, c, d);
    }
  }

  /** The same exchanges in the opposite order. */
  function Unshuffled<T>(r: seq<T>, n: nat, choices: seq<nat>): (s: seq<T>)
    requires n <= |r| && ValidChoices(choices, n)
    ensures |s| == |r|
    decreases n
  {
    if n == 0 then r
    else
      var before, c := Unshuffled(r, n - 1, choices[1..]), choices[0];
      before[c := before[n - 1]][n - 1 := before[c]]
  }

  /** They undo the shuffle, from every arrangement and for all choices. */
  lemma {:induction false} UnshuffledUndoes<T>(s: seq<T>, n: nat, choices: seq<nat>)
    requires n <= |s| && ValidChoices(choices, n)
    ensures Unshuffled(Shuffled(s, n, choices), n, choices) == s
    decreases n
  {
    if n > 0 {
      UnshuffledUndoes(Swap(s, choices[0], n - 1), n - 1, choices[1..]);
    }
  }

  // ---------------------------------------------------------------- the loop

  const PRNG_BUFSZ := 32

  /** The choices drawn from a stream of numbers. */
  function Choices(draws: seq<Int32>, n: nat): (c: seq<nat>)
    requires |draws| == n && forall i :: 0 <= i < n ==> draws[i] >= 0
    ensures ValidChoices(c, n)
  {
    if n == 0 then []
    else
      var rest := Choices(draws[1..], n - 1);
      [draws[0] % n] + rest
  }

  lemma {:induction false} StreamNonnegative(g: Gen, n: nat)
    requires ValidGen(g)
    ensures forall i :: 0 <= i < n ==> Stream(g, n)[i] >= 0
    decreases n
  {
    if n > 0 {
      StreamNonnegative(Draw(g).0, n - 1);
    }
  }

  /** The arrangement a generator brings about. */
  ghost function ShuffledBy<T>(s: seq<T>, n: nat, g: Gen): seq<T>
    requires n <= |s| && ValidGen(g)
  {
    StreamNonnegative(g, n);
    Shuffled(s, n, Choices(Stream(g, n), n))
  }

  lemma {:induction false} ShuffledByStep<T>(s: seq<T>, n: nat, g: Gen)
    requires 0 < n <= |s| && ValidGen(g)
    ensures 0 <= Draw(g).1 % n < n
    ensures ShuffledBy(s, n, g) == ShuffledBy(Swap(s, Draw(g).1 % n, n - 1), n - 1, Draw(g).0)
  {
    StreamNonnegative(g, n);
    var draws := Stream(g, n);
    assert draws[1..] == Stream(Draw(g).0, n - 1);
    var c := Choices(draws, n);
    assert c[1..] == Choices(draws[1..], n - 1);
  }

  /** Exchanges two elements through a temporary. */
  method Exchange<T>(base: array<T>, i: nat, j: nat)
    requires i < base.Length && j < base.Length
    modifies base
    ensures base[..] == Swap(old(base[..]), i, j)
  {
    var tmp := base[i];
    base[i] := base[j];
    base[j] := tmp;
  }

  /** One draw, reduced to a choice. */
  method Choose(rndbuf: RandomR.RandomData, nmemb: nat) returns (rnd: nat)
    requires rndbuf.Valid() && nmemb > 0
    modifies rndbuf, rndbuf.state
    ensures rndbuf.Valid() && rndbuf.state == old(rndbuf.state) && rnd < nmemb
    ensures var (g, x) := Draw(old(GenOf(rndbuf.Current()))); GenOf(rndbuf.Current()) == g && rnd == x % nmemb
  {
    DrawLiveIsDraw(rndbuf.Current());
    var x := rndbuf.RandomR();
    rnd := x % nmemb;
  }

  /** The loop, drawing from a generator set up before. */
  method ShuffleWith<T>(base: array<T>, rndbuf: RandomR.RandomData)
    requires rndbuf.Valid() && base as object != rndbuf.state
    modifies base, rndbuf, rndbuf.state
    ensures base[..] == ShuffledBy(old(base[..]), base.Length, old(GenOf(rndbuf.Current())))
  {
    var nmemb: nat := base.Length;
    ghost var s, g := base[..], GenOf(rndbuf.Current());
    ghost var result := ShuffledBy(s, nmemb, g);
    while nmemb > 0
      invariant nmemb <= base.Length == |s| && rndbuf.state == old(rndbuf.state) && rndbuf.Valid()
      invariant base[..] == s && GenOf(rndbuf.Current()) == g
      invariant ShuffledBy(s, nmemb, g) == result
    {
      ShuffledByStep(s, nmemb, g);
      var rnd := Choose(rndbuf, nmemb);
      Exchange(base, rnd, nmemb - 1);
      s, g := Swap(s, rnd, nmemb - 1), Draw(g).0;
      nmemb := nmemb - 1;
    }
  }

  /** The place chosen for each exchange after seeding 32 bytes: the next number, reduced. */
  function Chosen(seed: U32, n: nat): (c: seq<nat>)
    ensures |c| == n && forall i :: 0 <= i < n ==> c[i] == RandomSeed.Number(32, seed, i) % (n - i)
  {
    seq(n, i requires 0 <= i < n => RandomSeed.Number(32, seed, i) % (n - i))
  }

  lemma {:induction false} StreamAt(g: Gen, n: nat, k: nat)
    requires ValidGen(g) && k < n
    ensures Stream(g, n)[k] == Draw(DrawMany(g, k)).1
    decreases n
  {
    if k > 0 {
      StreamAt(Draw(g).0, n - 1, k - 1);
    }
  }

  lemma {:induction false} ChoicesAt(draws: seq<Int32>, n: nat, i: nat)
    requires |draws| == n && (forall k :: 0 <= k < n ==> draws[k] >= 0) && i < n
    ensures Choices(draws, n)[i] == draws[i] % (n - i)
    decreases n
  {
    if i > 0 {
      ChoicesAt(draws[1..], n - 1, i - 1);
    }
  }

  lemma {:induction false} ChosenIs(g: Gen, seed: U32, n: nat)
    requires ValidGen(g) && RandomSeed.Yields(g, 1, seed)
    ensures (forall i :: 0 <= i < n ==> Stream(g, n)[i] >= 0) && Choices(Stream(g, n), n) == Chosen(seed, n)
  {
    StreamNonnegative(g, n);
    forall i | 0 <= i < n
      ensures Choices(Stream(g, n), n)[i] == Chosen(seed, n)[i]
    {
      ChoicesAt(Stream(g, n), n, i);
      StreamAt(g, n, i);
    }
  }

  /** Shuffles in place with the numbers a seed starts. */
  method ShuffleFisherYates<T>(base: array<T>, seed: U32)
    modifies base
    ensures ValidChoices(Chosen(seed, base.Length), base.Length)
    ensures base[..] == Shuffled(old(base[..]), base.Length, Chosen(seed, base.Length))
    ensures multiset(base[..]) == multiset(old(base[..]))
  {
    var statebuf := new Int32[PRNG_BUFSZ / 4](_ => 0);
    var rndbuf := new RandomR.RandomData();
    var _ := rndbuf.InitStateR(seed, statebuf, PRNG_BUFSZ);
    ghost var s := base[..];
    ShuffleWith(base, rndbuf);
    RandomSeed.SeededYields(1, seed);
    ChosenIs(RandomSeed.SeededGen(1, seed), seed, base.Length);
    ShuffledPermutes(s, base.Length, Chosen(seed, base.Length));
  }
}
