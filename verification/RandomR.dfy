/**
  The reentrant generator: pointers into a state array, seeding, and switching arrays. The
  array element `k + 1` is the C code's `state[k]`, so element 0 is its `state[-1]`.
 */
module RandomR {
  import opened Common
  import opened RandomStream
  import opened RandomSeed

  // ---------------------------------------------------------------- repeated draws

  lemma {:induction false} DrawLiveValid(l: Live)
    requires ValidLive(l)
    ensures ValidLive(DrawLive(l).0) && DrawLive(l).0.t == l.t
    ensures l.t > 0 ==> DrawLive(l).0.rear == Bump(l.rear, Degree(l.t))
  {
    DrawLiveIsDraw(l);
  }

  ghost function DrawLiveMany(l: Live, n: nat): (r: Live)
    requires ValidLive(l)
    ensures ValidLive(r) && r.t == l.t
  {
    if n == 0 then l
    else
      DrawLiveValid(DrawLiveMany(l, n - 1));
      DrawLive(DrawLiveMany(l, n - 1)).0
  }

  lemma {:induction false} OneMore(l: Live, g: Gen, n: nat)
    requires ValidLive(l) && ValidGen(g) && GenOf(l) == DrawMany(g, n)
    ensures ValidLive(DrawLive(l).0) && GenOf(DrawLive(l).0) == DrawMany(g, n + 1)
    ensures |DrawLive(l).0.image| == |l.image| && DrawLive(l).0.image[0] == l.image[0]
  {
    DrawLiveIsDraw(l);
    DrawManySnoc(g, n);
  }

  lemma {:induction false} DrawLiveManyIs(l: Live, n: nat)
    requires ValidLive(l)
    ensures var l' := DrawLiveMany(l, n);
            GenOf(l') == DrawMany(GenOf(l), n) && |l'.image| == |l.image| && l'.image[0] == l.image[0]
  {
    if n > 0 {
      DrawLiveManyIs(l, n - 1);
      OneMore(DrawLiveMany(l, n - 1), GenOf(l), n - 1);
    }
  }

  /** The draws in `k` turns. */
  function Draws(k: nat, deg: nat): nat {
    if k == 0 then 0 else deg + Draws(k - 1, deg)
  }

  lemma {:induction false} DrawsIs(k: nat, deg: nat)
    ensures Draws(k, deg) == k * deg
  {
    if k > 0 {
      DrawsIs(k - 1, deg);
      assert k * deg == deg + (k - 1) * deg;
    }
  }

  /** The rear position, counting cyclically from zero. */
  function Counted(n: nat, deg: nat): nat {
    if n == 0 then 0 else Bump(Counted(n - 1, deg), deg)
  }

  lemma {:induction false} RearIsCounted(l: Live, n: nat)
    requires ValidLive(l) && l.t > 0 && l.rear == 0
    ensures DrawLiveMany(l, n).rear == Counted(n, Degree(l.t))
  {
    if n > 0 {
      RearIsCounted(l, n - 1);
      DrawLiveValid(DrawLiveMany(l, n - 1));
    }
  }

  /** Whole turns bring it back. */
  lemma {:induction false} CountedTurns(turns: nat, n: nat, deg: nat)
    requires n < deg
    ensures Counted(Draws(turns, deg) + n, deg) == n
    decreases turns, n
  {
    if n > 0 {
      CountedTurns(turns, n - 1, deg);
    } else if turns > 0 {
      CountedTurns(turns - 1, deg - 1, deg);
    }
  }

  lemma {:induction false} TenTurns(l: Live)
    requires ValidLive(l) && l.t > 0 && l.rear == 0
    ensures var l' := DrawLiveMany(l, 10 * Degree(l.t));
            l'.rear == 0 && GenOf(l') == DrawMany(GenOf(l), 10 * Degree(l.t)) && l'.image[0] == l.image[0]
  {
    DrawsIs(10, Degree(l.t));
    CountedTurns(10, 0, Degree(l.t));
    RearIsCounted(l, 10 * Degree(l.t));
    DrawLiveManyIs(l, 10 * Degree(l.t));
  }

  // ---------------------------------------------------------------- the object

  class RandomData {
    var state: array?<Int32>
    var fptr: nat
    var rptr: nat
    var endPtr: nat
    var randType: int
    var randDeg: nat
    var randSep: nat

    /** The state array in use, with its type and rear position. */
    ghost function Current(): Live
      reads this, state
      requires state != null && randType >= 0
    {
      Live(state[..], randType, if randType == 0 then 0 else rptr)
    }

    /** The registers describe a state array of a type that fits in it. */
    ghost predicate Sized()
      reads this, state
    {
      && state != null && 0 <= randType < MAX_TYPES
      && randDeg == Degree(randType) && randSep == Separation(randType) && endPtr == randDeg
      && state.Length >= randDeg + 1 && state.Length >= 2
    }

    /** ... and the pointers stand `sep` places apart. */
    ghost predicate Valid()
      reads this, state
    {
      Sized() && ValidLive(Current()) && (randType > 0 ==> fptr == Front(rptr, randSep, randDeg))
    }

    constructor ()
      ensures state == null
    {
      state := null;
      fptr, rptr, endPtr, randType, randDeg, randSep := 0, 0, 0, 0, 0, 0;
    }

    /** One draw. The rear pointer needs no test when the front one has wrapped. */
    method RandomR() returns (result: Int32)
      requires Valid()
      modifies this`fptr, this`rptr, state
      ensures Valid()
      ensures (Current(), result) == DrawLive(old(Current()))
    {
      if randType == 0 {
        var v := (Unsigned(state[1]) * 1103515245 + 12345) % TWO31;
        state[1] := v;
        result := v;
      } else {
        FrontMoves(rptr, randSep, randDeg);
        var v := Add(Unsigned(state[fptr + 1]), Unsigned(state[rptr + 1]));
        state[fptr + 1] := Signed(v);
        result := v / 2;
        var f, r := fptr + 1, rptr;
        if f >= endPtr {
          f := 0;
          r := r + 1;
        } else {
          r := r + 1;
          if r >= endPtr {
            r := 0;
          }
        }
        fptr, rptr := f, r;
      }
    }

    /** Fills the table from a seed. */
    method FillTable(seed: U32)
      requires Sized() && randType > 0
      modifies state
      ensures Table(state[..], randDeg) == SeedTable(seed, randDeg) && state[0] == old(state[0])
    {
      state[1] := Signed(FirstSeed(seed));
      var word: Int32 := Signed(FirstSeed(seed));
      var dst := 0;
      for i := 1 to randDeg
        invariant dst == i - 1 && word == SeedWord(seed, dst)
        invariant Filled(state[..], seed, i)
        invariant state[0] == old(state[0])
      {
        ghost var was := state[..];
        word := Schrage(word);
        dst := dst + 1;
        state[dst + 1] := word;
        assert state[..] == was[dst + 1 := word];
        FillOne(was, seed, dst);
      }
      FilledTable(state[..], seed, randDeg);
    }

    method Discard(kc: nat)
      requires Valid()
      modifies this`fptr, this`rptr, state
      ensures Valid() && Current() == DrawLiveMany(old(Current()), kc)
    {
      for k := 0 to kc
        invariant Valid() && Current() == DrawLiveMany(old(Current()), k)
      {
        var _ := RandomR();
      }
    }

    /** Seeds the state array in use and draws ten turns of numbers, which leave the pointers
        where they were put. */
    method SRandomR(seed: U32) returns (r: int)
      requires state != null && (0 <= randType < MAX_TYPES ==> Sized())
      modifies this`fptr, this`rptr, state
      ensures r == (if 0 <= randType < MAX_TYPES then 0 else -1)
      ensures r != 0 ==> state[..] == old(state[..]) && fptr == old(fptr) && rptr == old(rptr)
      ensures r == 0 ==> Valid() && Current().rear == 0 && GenOf(Current()) == SeededGen(randType, seed)
      ensures r == 0 ==> Yields(GenOf(Current()), randType, seed)
      ensures r == 0 ==> state[0] == old(state[0])
    {
      if randType < 0 || randType >= MAX_TYPES {
        return -1;
      }
      SeededYields(randType, seed);
      if randType == 0 {
        state[1] := Signed(FirstSeed(seed));
        return 0;
      }
      FillTable(seed);
      fptr, rptr := randSep, 0;
      ghost var start := Current();
      Discard(10 * randDeg);
      TenTurns(start);
      r := 0;
    }

    /** Puts position and type into the array in use. */
    method SaveCurrent()
      requires Valid()
      modifies state
      ensures Valid() && 0 <= SavedWord(old(Current()).t, old(Current()).rear) < TWO31
      ensures Current() == old(Current()).(image := Save(old(Current())))
      ensures Saved(state[..]) && Loaded(state[..]) == Current() && GenOf(Current()) == old(GenOf(Current()))
    {
      SaveLoad(Current());
      state[0] := if randType == 0 then 0 else MAX_TYPES * rptr + randType;
      assert state[..] == old(Save(Current()));
    }

    /** Starts a stream in `arg`, an array of the words in `n` bytes. The stream in use so far,
        if any, is put away first. */
    method InitStateR(seed: U32, arg: array<Int32>, n: nat) returns (r: int)
      requires state != null ==> Valid()
      requires arg.Length == n / 4
      modifies this, state, arg
      ensures r == (if n < 8 then -1 else 0)
      ensures old(state) != null && (r != 0 || arg != old(state)) ==> old(state)[..] == Save(old(Current()))
      ensures r != 0 && arg != old(state) ==> arg[..] == old(arg[..])
      ensures r != 0 ==> state == old(state) && (state != null ==> Valid() && GenOf(Current()) == old(GenOf(Current())))
      ensures r == 0 ==> Valid() && state == arg && randType == TypeFor(n) && Current().rear == 0
      ensures r == 0 ==> GenOf(Current()) == SeededGen(TypeFor(n), seed)
      ensures r == 0 ==> forall k: nat :: Draw(DrawMany(GenOf(Current()), k)).1 == Number(n, seed, k)
      ensures r == 0 ==> arg[0] == TypeFor(n) && Saved(arg[..]) && Loaded(arg[..]) == Current()
    {
      if state != null {
        SaveCurrent();
      }
      if n < 8 {
        return -1;
      }
      StateFits(n);
      var t := TypeFor(n);
      randType, randSep, randDeg := t, Separation(t), Degree(t);
      endPtr := randDeg;
      state := arg;
      var _ := SRandomR(seed);
      SaveCurrent();
      r := 0;
    }

    /** Takes up the stream put away in `arg`. The stream in use is put away first, so `arg` may
        be the array in use. Its first word alone decides whether it is taken; where no generator
        has put that word there, the registers may not describe a stream. */
    method SetStateR(arg: array<Int32>) returns (r: int)
      requires Valid() && arg.Length >= 1
      modifies this, state
      ensures old(state)[..] == Save(old(Current())) && (arg != old(state) ==> arg[..] == old(arg[..]))
      ensures r == (if arg != old(state) && TypeOf(old(arg[0])) < 0 then -1 else 0)
      ensures r != 0 ==> Valid() && Current() == old(Current()).(image := Save(old(Current())))
      ensures r == 0 ==> state == arg && randType == TypeOf(arg[0]) && (randType > 0 ==> rptr == RearOf(arg[0]))
      ensures r == 0 ==> (Valid() <==> Saved(arg[..]))
      ensures arg == old(state) ==>
                Saved(arg[..]) && Current() == Loaded(arg[..]) && GenOf(Current()) == old(GenOf(Current()))
      ensures arg != old(state) && old(Saved(arg[..])) ==>
                Current() == Loaded(arg[..]) && GenOf(Current()) == old(GenOf(Loaded(arg[..])))
    {
      SaveCurrent();
      var t := TypeOf(arg[0]);
      if t < 0 || t > 4 {
        return -1;
      }
      randDeg, randSep, randType := Degree(t), Separation(t), t;
      if t != 0 {
        var rear := RearOf(arg[0]);
        rptr := rear;
        fptr := (rear + randSep) % randDeg;
        if rear < randDeg {
          FrontIsModulo(t, rear);
        }
      }
      state := arg;
      endPtr := randDeg;
      r := 0;
    }
  }
}
