/**
  The additive-feedback generator as values: the recurrence it computes, its table read
  cyclically, its seeding, and the word that saves its position in a state array.
 */
module RandomStream {
  import opened Common

  const TWO31: int := 0x8000_0000

  type Int32 = x: int | -0x8000_0000 <= x < 0x8000_0000

  function Unsigned(x: Int32): U32 {
    if x < 0 then x + TWO32 else x
  }

  function Signed(w: U32): (x: Int32)
    ensures Unsigned(x) == w
  {
    if w < TWO31 then w else w - TWO32
  }

  function Add(a: U32, b: U32): U32 {
    if a + b < TWO32 then a + b else a + b - TWO32
  }

  // ---------------------------------------------------------------- types

  const MAX_TYPES := 5

  function Degree(t: nat): (d: nat)
    requires t < MAX_TYPES
    ensures t > 0 ==> 7 <= d <= 63
  {
    if t == 0 then 0 else if t == 1 then 7 else if t == 2 then 15 else if t == 3 then 31 else 63
  }

  function Separation(t: nat): (s: nat)
    requires t < MAX_TYPES
    ensures t > 0 ==> 0 < s < Degree(t)
  {
    if t == 0 then 0 else if t == 1 || t == 3 then 3 else 1
  }

  // ---------------------------------------------------------------- the abstract generator

  /** A linear congruential generator, or the last words of a linear recurrence, oldest first. */
  datatype Gen = Lcg(x: U32) | Ring(window: seq<U32>, sep: nat)

  ghost predicate ValidGen(g: Gen) {
    g.Ring? ==> 0 < g.sep < |g.window|
  }

  function Next(window: seq<U32>, sep: nat): (w: seq<U32>)
    requires 0 < sep < |window|
    ensures |w| == |window|
  {
    window[1..] + [Add(window[0], window[|window| - sep])]
  }

  /** One draw: the new state and the number drawn. */
  function Draw(g: Gen): (r: (Gen, Int32))
    requires g.Ring? ==> 0 < g.sep < |g.window|
    ensures ValidGen(r.0) && 0 <= r.1
  {
    match g
    case Lcg(x) =>
      var v := (x * 1103515245 + 12345) % TWO31;
      (Lcg(v), v)
    case Ring(window, sep) =>
      var w := Next(window, sep);
      (Ring(w, sep), w[|w| - 1] / 2)
  }

  function DrawMany(g: Gen, n: nat): (r: Gen)
    requires g.Ring? ==> 0 < g.sep < |g.window|
    ensures ValidGen(r)
    decreases n
  {
    if n == 0 then g else DrawMany(Draw(g).0, n - 1)
  }

  /** The first `n` numbers. */
  function Stream(g: Gen, n: nat): (r: seq<Int32>)
    requires g.Ring? ==> 0 < g.sep < |g.window|
    ensures |r| == n
    decreases n
  {
    if n == 0 then [] else [Draw(g).1] + Stream(Draw(g).0, n - 1)
  }

  lemma {:induction false} DrawManySnoc(g: Gen, n: nat)
    requires ValidGen(g)
    ensures DrawMany(g, n + 1) == Draw(DrawMany(g, n)).0
    ensures Stream(g, n + 1) == Stream(g, n) + [Draw(DrawMany(g, n)).1]
    decreases n
  {
    if n > 0 {
      DrawManySnoc(Draw(g).0, n - 1);
    }
  }

  // ---------------------------------------------------------------- the recurrence

  /** The sequence that begins with `start` and goes on by adding, modulo two to the 32, the
      words `|start|` and `sep` places back. */
  function X(start: seq<U32>, sep: nat, n: nat): U32
    requires 0 < sep < |start|
  {
    if n < |start| then start[n] else (X(start, sep, n - |start|) + X(start, sep, n - sep)) % 0x1_0000_0000
  }

  /** The window holds the words of the recurrence from the `n`th on. */
  ghost predicate Holds(window: seq<U32>, start: seq<U32>, sep: nat, n: nat)
    requires 0 < sep < |start|
  {
    |window| == |start| && forall i :: 0 <= i < |start| ==> window[i] == X(start, sep, n + i)
  }

  lemma {:induction false} NextHolds(window: seq<U32>, start: seq<U32>, sep: nat, n: nat)
    requires 0 < sep < |start| && Holds(window, start, sep, n)
    ensures Holds(Next(window, sep), start, sep, n + 1)
  {
    var d := |start|;
    assert window[0] == X(start, sep, n + 0) && window[d - sep] == X(start, sep, n + (d - sep));
    var w := Next(window, sep);
    forall i | 0 <= i < d
      ensures w[i] == X(start, sep, n + 1 + i)
    {
      if i < d - 1 {
        assert w[i] == window[i + 1];
      }
    }
  }

  lemma {:induction false} WindowHolds(start: seq<U32>, sep: nat, n: nat) returns (window: seq<U32>)
    requires 0 < sep < |start|
    ensures DrawMany(Ring(start, sep), n) == Ring(window, sep) && Holds(window, start, sep, n)
  {
    if n == 0 {
      window := start;
    } else {
      window := WindowHolds(start, sep, n - 1);
      DrawManySnoc(Ring(start, sep), n - 1);
      NextHolds(window, start, sep, n - 1);
      window := Next(window, sep);
    }
  }

  lemma {:induction false} DrawIsNewest(window: seq<U32>, start: seq<U32>, sep: nat, n: nat)
    requires 0 < sep < |start| && Holds(window, start, sep, n)
    ensures Draw(Ring(window, sep)).1 == X(start, sep, n + |start|) / 2
  {
    NextHolds(window, start, sep, n);
    var w := Next(window, sep);
    assert w[|w| - 1] == X(start, sep, n + 1 + (|w| - 1));
  }

  /** After any number of draws the window holds the latest words of the recurrence in order,
      and the next number drawn is the next word without its lowest bit. */
  lemma {:induction false} DrawsAreTheRecurrence(start: seq<U32>, sep: nat, n: nat)
    requires 0 < sep < |start|
    ensures var g := DrawMany(Ring(start, sep), n);
            g.Ring? && g.sep == sep && Holds(g.window, start, sep, n) && Draw(g).1 == X(start, sep, n + |start|) / 2
  {
    var window := WindowHolds(start, sep, n);
    DrawIsNewest(window, start, sep, n);
  }

  // ---------------------------------------------------------------- the table

  /** The table read cyclically from the front pointer. */
  function Window(table: seq<U32>, front: nat): (w: seq<U32>)
    requires front <= |table|
    ensures |w| == |table|
  {
    table[front..] + table[..front]
  }

  function Bump(p: nat, deg: nat): nat {
    if p + 1 == deg then 0 else p + 1
  }

  /** The place `sep` after `rear`, cyclically. */
  function Front(rear: nat, sep: nat, deg: nat): nat {
    if rear + sep < deg then rear + sep else rear + sep - deg
  }

  lemma {:induction false} FrontMoves(rear: nat, sep: nat, deg: nat)
    requires rear < deg && 0 < sep < deg
    ensures Front(rear, sep, deg) < deg && Bump(rear, deg) < deg
    ensures Bump(Front(rear, sep, deg), deg) == Front(Bump(rear, deg), sep, deg)
  {
  }

  lemma {:induction false} FrontIsModulo(t: nat, rear: nat)
    requires 1 <= t < MAX_TYPES && rear < Degree(t)
    ensures Front(rear, Separation(t), Degree(t)) == (rear + Separation(t)) % Degree(t)
  {
  }

  /** Adding the rear word into the front one and moving both pointers is one step of the
      recurrence. */
  lemma {:induction false} TableStep(table: seq<U32>, rear: nat, sep: nat)
    requires rear < |table| && 0 < sep < |table|
    ensures var f := Front(rear, sep, |table|);
            f < |table|
            && Window(table[f := Add(table[f], table[rear])], Bump(f, |table|)) == Next(Window(table, f), sep)
  {
    var n := |table|;
    var f := Front(rear, sep, n);
    var w := Window(table, f);
    assert w[0] == table[f] && w[n - sep] == table[rear];
  }

  // ---------------------------------------------------------------- state arrays

  /** Words 1 to `deg` of a state array are the table; word 0 is the saved position. */
  function Table(image: seq<Int32>, deg: nat): (t: seq<U32>)
    requires deg < |image|
    ensures |t| == deg
  {
    seq(deg, k requires 0 <= k < deg => Unsigned(image[k + 1]))
  }

  /** A state array in use, its type and its rear position (zero for type 0, which has none). */
  datatype Live = Live(image: seq<Int32>, t: nat, rear: nat)

  ghost predicate ValidLive(l: Live) {
    && l.t < MAX_TYPES
    && |l.image| >= Degree(l.t) + 1
    && (l.t == 0 ==> l.rear == 0 && |l.image| >= 2)
    && (l.t > 0 ==> l.rear < Degree(l.t))
  }

  ghost function GenOf(l: Live): (g: Gen)
    requires ValidLive(l)
    ensures ValidGen(g)
  {
    if l.t == 0 then Lcg(Unsigned(l.image[1]))
    else Ring(Window(Table(l.image, Degree(l.t)), Front(l.rear, Separation(l.t), Degree(l.t))), Separation(l.t))
  }

  /** What a draw does to the state array, the rear position, and its result. */
  ghost function DrawLive(l: Live): (Live, Int32)
    requires ValidLive(l)
  {
    if l.t == 0 then
      var v := (Unsigned(l.image[1]) * 1103515245 + 12345) % TWO31;
      (l.(image := l.image[1 := v]), v)
    else
      var f := Front(l.rear, Separation(l.t), Degree(l.t));
      var v := Add(Unsigned(l.image[f + 1]), Unsigned(l.image[l.rear + 1]));
      (Live(l.image[f + 1 := Signed(v)], l.t, Bump(l.rear, Degree(l.t))), v / 2)
  }

  lemma {:induction false} TableUpdate(image: seq<Int32>, deg: nat, f: nat, v: U32)
    requires f < deg < |image|
    ensures Table(image[f + 1 := Signed(v)], deg) == Table(image, deg)[f := v]
  {
  }

  /** A draw on the state array is a draw of the abstract generator. */
  lemma {:induction false} DrawLiveIsDraw(l: Live)
    requires ValidLive(l)
    ensures ValidLive(DrawLive(l).0) && (GenOf(DrawLive(l).0), DrawLive(l).1) == Draw(GenOf(l))
    ensures DrawLive(l).0.image[0] == l.image[0] && |DrawLive(l).0.image| == |l.image|
  {
    if l.t > 0 {
      DrawRingIsDraw(l, Degree(l.t), Separation(l.t));
    }
  }

  lemma {:induction false} NewestWord(window: seq<U32>, sep: nat)
    requires 0 < sep < |window|
    ensures Draw(Ring(window, sep)) == (Ring(Next(window, sep), sep), Add(window[0], window[|window| - sep]) / 2)
  {
    var w := Next(window, sep);
    assert w[|w| - 1] == Add(window[0], window[|window| - sep]);
  }

  /** The words added are the oldest of the window and the one `sep` places from its end. */
  lemma {:induction false} WindowEnds(table: seq<U32>, rear: nat, sep: nat)
    requires rear < |table| && 0 < sep < |table|
    ensures var f := Front(rear, sep, |table|);
            var w := Window(table, f);
            w[0] == table[f] && w[|table| - sep] == table[rear]
  {
  }

  lemma {:induction false} DrawnRing(l: Live, deg: nat, sep: nat, window: seq<U32>)
    requires ValidLive(l) && l.t > 0 && deg == Degree(l.t) && sep == Separation(l.t)
    requires window == Window(Table(l.image, deg), Front(l.rear, sep, deg))
    ensures ValidLive(DrawLive(l).0) && GenOf(DrawLive(l).0) == Ring(Next(window, sep), sep)
    ensures DrawLive(l).1 == Add(window[0], window[|window| - sep]) / 2
  {
    var table, f := Table(l.image, deg), Front(l.rear, sep, deg);
    FrontMoves(l.rear, sep, deg);
    TableStep(table, l.rear, sep);
    TableUpdate(l.image, deg, f, Add(table[f], table[l.rear]));
    WindowEnds(table, l.rear, sep);
  }

  lemma {:induction false} DrawRingIsDraw(l: Live, deg: nat, sep: nat)
    requires ValidLive(l) && l.t > 0 && deg == Degree(l.t) && sep == Separation(l.t)
    ensures ValidLive(DrawLive(l).0) && (GenOf(DrawLive(l).0), DrawLive(l).1) == Draw(GenOf(l))
  {
    var window := Window(Table(l.image, deg), Front(l.rear, sep, deg));
    DrawnRing(l, deg, sep, window);
    NewestWord(window, sep);
    assert GenOf(l) == Ring(window, sep);
  }

  // ---------------------------------------------------------------- saving and restoring

  /** Position and type in one word. */
  function SavedWord(t: nat, rear: nat): int {
    if t == 0 then 0 else MAX_TYPES * rear + t
  }

  /** C's remainder takes the sign of the dividend. */
  function TypeOf(word: int): int {
    if word >= 0 then word % MAX_TYPES else -((-word) % MAX_TYPES)
  }

  function RearOf(word: int): (rear: int)
    ensures TypeOf(word) > 0 ==> rear >= 0
  {
    if word >= 0 then word / MAX_TYPES else -((-word) / MAX_TYPES)
  }

  lemma {:induction false} SavedWordDecodes(t: nat, rear: nat)
    requires t < MAX_TYPES && (t == 0 ==> rear == 0) && rear < 63
    ensures 0 <= SavedWord(t, rear) < TWO31
    ensures SavedWord(t, rear) % 5 == t && SavedWord(t, rear) / 5 == rear
    ensures TypeOf(SavedWord(t, rear)) == t && RearOf(SavedWord(t, rear)) == rear
  {
  }

  /** The words refused are the negative ones that are no multiple of five; for the others the
      remainder is the type. */
  lemma {:induction false} RefusedIff(word: int)
    ensures TypeOf(word) < 0 <==> word < 0 && word % 5 != 0
    ensures TypeOf(word) >= 0 ==> TypeOf(word) == word % 5 && (word >= 0 ==> RearOf(word) == word / 5)
  {
  }

  /** A state array whose first word tells where its stream stands. */
  ghost predicate Saved(image: seq<Int32>) {
    && |image| >= 1 && TypeOf(image[0]) >= 0
    && ValidLive(Live(image, TypeOf(image[0]), if TypeOf(image[0]) == 0 then 0 else RearOf(image[0])))
  }

  ghost function Loaded(image: seq<Int32>): Live
    requires Saved(image)
  {
    Live(image, TypeOf(image[0]), if TypeOf(image[0]) == 0 then 0 else RearOf(image[0]))
  }

  function Save(l: Live): seq<Int32>
    requires |l.image| >= 1 && 0 <= SavedWord(l.t, l.rear) < TWO31
  {
    l.image[0 := SavedWord(l.t, l.rear)]
  }

  /** Saving and loading again gives back position, type and stream. */
  lemma {:induction false} SaveLoad(l: Live)
    requires ValidLive(l)
    ensures 0 <= SavedWord(l.t, l.rear) < TWO31
    ensures Saved(Save(l)) && Loaded(Save(l)) == l.(image := Save(l)) && GenOf(Loaded(Save(l))) == GenOf(l)
  {
    SavedWordDecodes(l.t, l.rear);
    if l.t > 0 {
      assert Table(Save(l), Degree(l.t)) == Table(l.image, Degree(l.t));
    }
  }

  // ---------------------------------------------------------------- many state arrays

  /** State arrays by name, and the one in use. */
  datatype System = System(images: map<nat, seq<Int32>>, current: nat, t: nat, rear: nat)

  datatype Action = SwitchTo(id: nat) | DrawNumber

  ghost function InUse(s: System): Live
    requires s.current in s.images
  {
    Live(s.images[s.current], s.t, s.rear)
  }

  ghost predicate ValidSystem(s: System) {
    && s.current in s.images && ValidLive(InUse(s))
    && forall id :: id in s.images && id != s.current ==> Saved(s.images[id])
  }

  /** The generator a state array stands for, whether in use or put away. */
  ghost function GenAt(s: System, id: nat): (g: Gen)
    requires ValidSystem(s) && id in s.images
    ensures ValidGen(g)
  {
    if id == s.current then GenOf(InUse(s)) else GenOf(Loaded(s.images[id]))
  }

  /** Putting the current array away and taking another, or the same one, up. */
  ghost function Switch(s: System, id: nat): System
    requires ValidSystem(s) && id in s.images
  {
    SaveLoad(InUse(s));
    var images := s.images[s.current := Save(InUse(s))];
    var l := Loaded(images[id]);
    System(images, id, l.t, l.rear)
  }

  ghost function DrawCurrent(s: System): (System, Int32)
    requires ValidSystem(s)
  {
    var (l, r) := DrawLive(InUse(s));
    (System(s.images[s.current := l.image], s.current, l.t, l.rear), r)
  }

  /** Switching disturbs no stream. */
  lemma {:induction false} SwitchKeeps(s: System, id: nat)
    requires ValidSystem(s) && id in s.images
    ensures ValidSystem(Switch(s, id)) && Switch(s, id).current == id && Switch(s, id).images.Keys == s.images.Keys
    ensures forall k :: k in s.images ==> GenAt(Switch(s, id), k) == GenAt(s, k)
  {
    SaveLoad(InUse(s));
  }

  /** Switching to the array in use changes nothing but its saved word. */
  lemma {:induction false} SwitchToCurrent(s: System)
    requires ValidSystem(s)
    ensures var s' := Switch(s, s.current);
            && s'.current == s.current && s'.t == s.t && s'.rear == s.rear
            && s'.images[s.current][1..] == s.images[s.current][1..]
  {
    SaveLoad(InUse(s));
  }

  /** A draw advances the stream of the current array and no other. */
  lemma {:induction false} DrawKeeps(s: System)
    requires ValidSystem(s)
    ensures var (s', r) := DrawCurrent(s);
            ValidSystem(s') && s'.current == s.current && s'.images.Keys == s.images.Keys
            && (GenAt(s', s.current), r) == Draw(GenAt(s, s.current))
            && (forall k :: k in s.images && k != s.current ==> GenAt(s', k) == GenAt(s, k))
  {
    DrawLiveIsDraw(InUse(s));
  }

  ghost predicate Known(actions: seq<Action>, ids: set<nat>) {
    forall k :: 0 <= k < |actions| && actions[k].SwitchTo? ==> actions[k].id in ids
  }

  /** The numbers drawn in a run while array `id` was in use. */
  ghost function DrawnFrom(s: System, actions: seq<Action>, id: nat): seq<Int32>
    requires ValidSystem(s) && Known(actions, s.images.Keys)
    decreases |actions|
  {
    if actions == [] then []
    else if actions[0].SwitchTo? then
      SwitchKeeps(s, actions[0].id);
      DrawnFrom(Switch(s, actions[0].id), actions[1..], id)
    else
      DrawKeeps(s);
      var (s', r) := DrawCurrent(s);
      (if id == s.current then [r] else []) + DrawnFrom(s', actions[1..], id)
  }

  lemma {:induction false} StreamCons(g: Gen, rest: seq<Int32>)
    requires ValidGen(g) && rest == Stream(Draw(g).0, |rest|)
    ensures [Draw(g).1] + rest == Stream(g, 1 + |rest|)
  {
  }

  /** However switches and draws are interleaved, each state array yields exactly the stream it
      would yield alone. */
  lemma {:induction false} StreamsAreIndependent(s: System, actions: seq<Action>, id: nat)
    requires ValidSystem(s) && id in s.images && Known(actions, s.images.Keys)
    ensures var drawn := DrawnFrom(s, actions, id); drawn == Stream(GenAt(s, id), |drawn|)
    decreases |actions|
  {
    if actions != [] {
      var g := GenAt(s, id);
      if actions[0].SwitchTo? {
        var s' := Switch(s, actions[0].id);
        SwitchKeeps(s, actions[0].id);
        assert GenAt(s', id) == g;
        StreamsAreIndependent(s', actions[1..], id);
      } else {
        var s' := DrawCurrent(s).0;
        DrawKeeps(s);
        StreamsAreIndependent(s', actions[1..], id);
        var rest := DrawnFrom(s', actions[1..], id);
        if id == s.current {
          StreamCons(g, rest);
        } else {
          assert [] + rest == rest;
        }
      }
    }
  }
}
