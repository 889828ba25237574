/**
  Edit distance: the two-row dynamic program, the recurrence it computes, and the shortest
  edit scripts that give the recurrence its meaning.
 */
module Levenshtein {

  /** A C int. */
  type Int = n: int | -0x8000_0000 <= n < 0x8000_0000

  const INT_MAX: int := 0x7fff_ffff

  // ---------------------------------------------------------------- the recurrence

  function Min(a: int, b: int): int {
    if b < a then b else a
  }

  function Min3(a: int, b: int, c: int): int {
    Min(Min(a, b), c)
  }

  function Cost(a: char, b: char): int {
    if a == b then 0 else 1
  }

  /** The entry of the full matrix for prefixes `s` and `t`. */
  function Lev(s: string, t: string): nat
    decreases |s| + |t|
  {
    if s == "" then |t|
    else if t == "" then |s|
    else
      var s', t' := s[..|s| - 1], t[..|t| - 1];
      Min3(Lev(s, t') + 1, Lev(s', t) + 1, Lev(s', t') + Cost(s[|s| - 1], t[|t| - 1]))
  }

  method Minimum(a: Int, b: Int, c: Int) returns (min: Int)
    ensures min <= a && min <= b && min <= c && (min == a || min == b || min == c)
  {
    min := a;
    if b < min {
      min := b;
    }
    if c < min {
      min := c;
    }
  }

  /** The entry in row `i` and column `j` of the matrix for `s` and `t`. */
  function Matrix(s: string, t: string, i: nat, j: nat): nat
    requires i <= |s| && j <= |t|
  {
    Lev(s[..i], t[..j])
  }

  lemma {:induction false} MatrixStep(s: string, t: string, i: nat, j: nat)
    requires i < |s| && j < |t|
    ensures Matrix(s, t, i + 1, j + 1)
         == Min3(Matrix(s, t, i + 1, j) + 1, Matrix(s, t, i, j + 1) + 1, Matrix(s, t, i, j) + Cost(s[i], t[j]))
  {
    var p, q := s[..i + 1], t[..j + 1];
    assert p[..|p| - 1] == s[..i] && q[..|q| - 1] == t[..j];
  }

  lemma {:induction false} MatrixEdges(s: string, t: string, i: nat, j: nat)
    requires i <= |s| && j <= |t|
    ensures Matrix(s, t, 0, j) == j && Matrix(s, t, i, 0) == i
    ensures Matrix(s, t, i, j) <= if i < j then j else i
    ensures Matrix(s, t, |s|, |t|) == Lev(s, t)
  {
    LevBounds(s[..i], t[..j]);
    assert s[..|s|] == s && t[..|t|] == t;
  }

  /** The distance lies between the difference of the lengths and the longer length. */
  lemma {:induction false} LevBounds(s: string, t: string)
    ensures |s| - |t| <= Lev(s, t) && |t| - |s| <= Lev(s, t)
    ensures Lev(s, t) <= if |s| < |t| then |t| else |s|
    decreases |s| + |t|
  {
    if s != "" && t != "" {
      var s', t' := s[..|s| - 1], t[..|t| - 1];
      LevBounds(s, t');
      LevBounds(s', t);
      LevBounds(s', t');
    }
  }

  /** The inner loop: row `i + 1` of the matrix from row `i`, no value leaving the range of an int. */
  method NextRow(s: string, t: string, i: nat, v0: array<Int>, v1: array<Int>)
    requires |s| < INT_MAX && |t| < INT_MAX && i < |s| && v0 != v1
    requires v0.Length == v1.Length == |t| + 1 && forall k :: 0 <= k <= |t| ==> v0[k] == Matrix(s, t, i, k)
    modifies v1
    ensures forall k :: 0 <= k <= |t| ==> v1[k] == Matrix(s, t, i + 1, k)
  {
    v1[0] := i + 1;
    MatrixEdges(s, t, i + 1, 0);
    for j := 0 to |t|
      invariant forall k :: 0 <= k <= j ==> v1[k] == Matrix(s, t, i + 1, k)
    {
      var cost := if s[i] == t[j] then 0 else 1;
      MatrixEdges(s, t, i + 1, j);
      MatrixEdges(s, t, i, j + 1);
      MatrixEdges(s, t, i, j);
      MatrixStep(s, t, i, j);
      var m := Minimum(v1[j] + 1, v0[j + 1] + 1, v0[j] + cost);
      v1[j + 1] := m;
    }
  }

  /** What the program returns when `heap` is the content of the uninitialised row. */
  function Result(s: string, t: string, heap: seq<Int>): int
    requires |heap| == |t| + 1
  {
    if s == t || s != "" then Lev(s, t) else heap[|t|]
  }

  /** The two-row program. `heap` is whatever `malloc` left in the second row. The result is
      the distance unless the first string is empty and the second is not: then the outer loop
      never runs and the result is the last word of that uninitialised row. */
  method Levenshtein(s: string, t: string, heap: seq<Int>) returns (d: Int)
    requires |s| < INT_MAX && |t| < INT_MAX && |heap| == |t| + 1
    ensures d == Result(s, t, heap)
  {
    if s == t {
      LevZeroIff(s, t);
      return 0;
    }
    var v0, v1 := new Int[|t| + 1], new Int[|t| + 1](k requires 0 <= k < |heap| => heap[k]);
    for i := 0 to |t| + 1
      invariant forall k :: 0 <= k < i ==> v0[k] == Matrix(s, t, 0, k)
      invariant v1[|t|] == heap[|t|]
    {
      MatrixEdges(s, t, 0, i);
      v0[i] := i;
    }
    for i := 0 to |s|
      invariant forall k :: 0 <= k <= |t| ==> v0[k] == Matrix(s, t, i, k)
      invariant v1[|t|] == if i > 0 then v0[|t|] else heap[|t|]
    {
      NextRow(s, t, i, v0, v1);
      for j := 0 to |t| + 1
        invariant forall k :: 0 <= k < j ==> v0[k] == v1[k]
        invariant forall k :: 0 <= k <= |t| ==> v1[k] == Matrix(s, t, i + 1, k)
      {
        v0[j] := v1[j];
      }
    }
    MatrixEdges(s, t, |s|, |t|);
    d := v1[|t|];
  }

  /** What the program returns is the distance for every content of the uninitialised row
      exactly when the first string is nonempty or the strings are equal. */
  lemma {:induction false} InitialisedIff(s: string, t: string)
    requires |t| < INT_MAX
    ensures (forall heap: seq<Int> :: |heap| == |t| + 1 ==> Result(s, t, heap) == Lev(s, t)) <==> s != "" || s == t
  {
    if s == "" && s != t {
      var junk: seq<Int> := seq(|t| + 1, _ => -1);
      assert Result(s, t, junk) == -1;
    }
  }

  // ---------------------------------------------------------------- edit scripts

  /** One step: a character put in before a position, taken out, or replaced. */
  datatype Edit = Insert(at: nat, c: char) | Delete(at: nat) | Substitute(at: nat, c: char)

  predicate Possible(e: Edit, s: string) {
    match e
    case Insert(at, _) => at <= |s|
    case Delete(at) => at < |s|
    case Substitute(at, _) => at < |s|
  }

  function Apply(e: Edit, s: string): string
    requires Possible(e, s)
  {
    match e
    case Insert(at, c) => s[..at] + [c] + s[at..]
    case Delete(at) => s[..at] + s[at + 1..]
    case Substitute(at, c) => s[..at] + [c] + s[at + 1..]
  }

  /** A script turns `s` into `t`, one step after the other. */
  predicate Turns(script: seq<Edit>, s: string, t: string)
    decreases |script|
  {
    if script == [] then s == t
    else Possible(script[0], s) && Turns(script[1..], Apply(script[0], s), t)
  }

  lemma {:induction false} TurnsThen(p: seq<Edit>, s: string, t: string, q: seq<Edit>, u: string)
    requires Turns(p, s, t) && Turns(q, t, u)
    ensures Turns(p + q, s, u)
    decreases |p|
  {
    if p == [] {
      assert p + q == q;
    } else {
      assert (p + q)[1..] == p[1..] + q;
      TurnsThen(p[1..], Apply(p[0], s), t, q, u);
    }
  }

  lemma {:induction false} TurnsOne(e: Edit, s: string)
    requires Possible(e, s)
    ensures Turns([e], s, Apply(e, s))
  {
    assert [e][1..] == [];
  }

  lemma {:induction false} ApplyBefore(e: Edit, s: string, c: char)
    requires Possible(e, s)
    ensures Possible(e, s + [c]) && Apply(e, s + [c]) == Apply(e, s) + [c]
  {
  }

  lemma {:induction false} ApplyLast(e: Edit, s: string, c: char)
    requires Possible(e, s + [c]) && e.at == |s| && !e.Insert?
    ensures Apply(e, s + [c]) == if e.Delete? then s else s + [e.c]
  {
  }

  /** A script for two strings also works in front of a common last character. */
  lemma {:induction false} TurnsBefore(script: seq<Edit>, s: string, t: string, c: char)
    requires Turns(script, s, t)
    ensures Turns(script, s + [c], t + [c])
    decreases |script|
  {
    if script != [] {
      var e := script[0];
      ApplyBefore(e, s, c);
      TurnsBefore(script[1..], Apply(e, s), t, c);
    }
  }

  /** A script for the strings without their last characters, and a replacement if those differ. */
  lemma {:induction false} Diagonal(script: seq<Edit>, s: string, t: string, a: char, b: char)
    returns (longer: seq<Edit>)
    requires Turns(script, s, t)
    ensures Turns(longer, s + [a], t + [b]) && |longer| == |script| + Cost(a, b)
  {
    TurnsBefore(script, s, t, a);
    longer := script;
    if a != b {
      var e := Substitute(|t|, b);
      ApplyLast(e, t, a);
      TurnsOne(e, t + [a]);
      TurnsThen(script, s + [a], t + [a], [e], t + [b]);
      longer := script + [e];
    }
  }

  lemma {:induction false} ThenInsert(script: seq<Edit>, s: string, t: string, c: char) returns (longer: seq<Edit>)
    requires Turns(script, s, t)
    ensures Turns(longer, s, t + [c]) && |longer| == |script| + 1
  {
    var e := Insert(|t|, c);
    assert Apply(e, t) == t + [c];
    TurnsOne(e, t);
    TurnsThen(script, s, t, [e], t + [c]);
    longer := script + [e];
  }

  lemma {:induction false} DeleteFirst(script: seq<Edit>, s: string, t: string, c: char) returns (longer: seq<Edit>)
    requires Turns(script, s, t)
    ensures Turns(longer, s + [c], t) && |longer| == |script| + 1
  {
    var e := Delete(|s|);
    ApplyLast(e, s, c);
    TurnsOne(e, s + [c]);
    TurnsThen([e], s + [c], s, script, t);
    longer := [e] + script;
  }

  lemma {:induction false} LevStep(x: string, y: string, s: string, t: string)
    requires x != "" && y != "" && s == x[..|x| - 1] && t == y[..|y| - 1]
    ensures Lev(x, y) == Min3(Lev(x, t) + 1, Lev(s, y) + 1, Lev(s, t) + Cost(x[|x| - 1], y[|y| - 1]))
  {
  }

  lemma {:induction false} LevLast(s: string, a: char, t: string, b: char)
    ensures Lev(s + [a], t + [b]) == Min3(Lev(s + [a], t) + 1, Lev(s, t + [b]) + 1, Lev(s, t) + Cost(a, b))
  {
    var x, y := s + [a], t + [b];
    assert x[..|x| - 1] == s && y[..|y| - 1] == t;
    LevStep(x, y, s, t);
  }

  lemma {:induction false} LevEmpty(s: string, a: char)
    ensures Lev(s + [a], "") == Lev(s, "") + 1 && Lev("", s + [a]) == Lev("", s) + 1
  {
  }

  /** Some script attains the distance. */
  lemma {:induction false} Attained(s: string, t: string) returns (script: seq<Edit>)
    ensures Turns(script, s, t) && |script| == Lev(s, t)
    decreases |s| + |t|
  {
    if s == "" && t == "" {
      script := [];
    } else if s == "" {
      var t', b := t[..|t| - 1], t[|t| - 1];
      assert t == t' + [b];
      LevEmpty(t', b);
      script := Attained(s, t');
      script := ThenInsert(script, s, t', b);
    } else if t == "" {
      var s', a := s[..|s| - 1], s[|s| - 1];
      assert s == s' + [a];
      LevEmpty(s', a);
      script := Attained(s', t);
      script := DeleteFirst(script, s', t, a);
    } else {
      script := AttainedLast(s[..|s| - 1], s[|s| - 1], t[..|t| - 1], t[|t| - 1]);
      assert s == s[..|s| - 1] + [s[|s| - 1]] && t == t[..|t| - 1] + [t[|t| - 1]];
    }
  }

  lemma {:induction false} AttainedLast(s: string, a: char, t: string, b: char) returns (script: seq<Edit>)
    ensures Turns(script, s + [a], t + [b]) && |script| == Lev(s + [a], t + [b])
    decreases |s| + |t| + 2, 0
  {
    LevLast(s, a, t, b);
    var d := Lev(s + [a], t + [b]);
    if d == Lev(s + [a], t) + 1 {
      script := Attained(s + [a], t);
      script := ThenInsert(script, s + [a], t, b);
    } else if d == Lev(s, t + [b]) + 1 {
      script := Attained(s, t + [b]);
      script := DeleteFirst(script, s, t + [b], a);
    } else {
      script := Attained(s, t);
      script := Diagonal(script, s, t, a, b);
    }
  }

  /** Taking the last character away changes the distance by at most one. */
  lemma {:induction false} DropLast(s: string, x: string, c: char)
    ensures Lev(s, x) <= Lev(s, x + [c]) + 1
    decreases |s|
  {
    assert (x + [c])[..|x|] == x;
    if s != "" {
      var s' := s[..|s| - 1];
      DropLast(s', x, c);
      if x != "" {
        assert Lev(s, x) <= Lev(s', x) + 1;
      } else {
        assert Lev(s, x) == |s|;
        assert Lev(s', x) == |s'|;
      }
    }
  }

  lemma {:induction false} ReplaceLast(s: string, x: string, c: char, d: char)
    ensures Lev(s, x + [c]) <= Lev(s, x + [d]) + 1
    decreases |s|
  {
    assert (x + [c])[..|x|] == x && (x + [d])[..|x|] == x;
    if s != "" {
      ReplaceLast(s[..|s| - 1], x, c, d);
    }
  }

  lemma {:induction false} AddLast(s: string, x: string, c: char)
    ensures Lev(s, x + [c]) <= Lev(s, x) + 1
  {
    assert (x + [c])[..|x|] == x;
  }

  /** If one string is at most a step farther from every prefix of `s` than another is, it stays
      so with one more character on both. */
  lemma {:induction false} LiftLast(s: string, t: string, u: string, c: char)
    requires forall k :: 0 <= k <= |s| ==> Lev(s[..k], t) <= Lev(s[..k], u) + 1
    requires |t| <= |u| + 1
    ensures Lev(s, t + [c]) <= Lev(s, u + [c]) + 1
    decreases |s|
  {
    assert (t + [c])[..|t|] == t && (u + [c])[..|u|] == u;
    assert s[..|s|] == s;
    if s != "" {
      var s' := s[..|s| - 1];
      forall k | 0 <= k <= |s'|
        ensures Lev(s'[..k], t) <= Lev(s'[..k], u) + 1
      {
        assert s'[..k] == s[..k];
      }
      LiftLast(s', t, u, c);
      assert s'[..|s'|] == s';
    }
  }

  /** The claim below for one step, as far from every prefix of `s`. */
  ghost predicate StepFrom(s: string, t: string, e: Edit)
    requires Possible(e, t)
  {
    forall k :: 0 <= k <= |s| ==> Lev(s[..k], Apply(e, t)) <= Lev(s[..k], t) + 1
  }

  lemma {:induction false} StepLifts(s: string, t: string, c: char, e: Edit)
    requires Possible(e, t) && StepFrom(s, t, e)
    ensures Lev(s, Apply(e, t + [c])) <= Lev(s, t + [c]) + 1
  {
    ApplyBefore(e, t, c);
    LiftLast(s, Apply(e, t), t, c);
  }

  lemma {:induction false} StepLast(s: string, t: string, c: char, e: Edit)
    requires e.at == |t| && !e.Insert?
    ensures Lev(s, Apply(e, t + [c])) <= Lev(s, t + [c]) + 1
  {
    ApplyLast(e, t, c);
    if e.Delete? {
      DropLast(s, t, c);
    } else {
      ReplaceLast(s, t, e.c, c);
    }
  }

  /** One step on the second string changes the distance by at most one. */
  lemma {:induction false} StepCounts(s: string, t: string, e: Edit)
    requires Possible(e, t)
    ensures Lev(s, Apply(e, t)) <= Lev(s, t) + 1
    decreases |t|
  {
    var n := |t| - 1;
    if e.Insert? && e.at == |t| {
      assert Apply(e, t) == t + [e.c];
      AddLast(s, t, e.c);
    } else {
      assert t == t[..n] + [t[n]];
      if e.at == n && !e.Insert? {
        StepLast(s, t[..n], t[n], e);
      } else {
        forall k | 0 <= k <= |s|
          ensures Lev(s[..k], Apply(e, t[..n])) <= Lev(s[..k], t[..n]) + 1
        {
          StepCounts(s[..k], t[..n], e);
        }
        StepLifts(s, t[..n], t[n], e);
      }
    }
  }

  lemma {:induction false} ScriptCounts(s: string, t: string, script: seq<Edit>, u: string)
    requires Turns(script, t, u)
    ensures Lev(s, u) <= Lev(s, t) + |script|
    decreases |script|
  {
    if script != [] {
      StepCounts(s, t, script[0]);
      ScriptCounts(s, Apply(script[0], t), script[1..], u);
    }
  }

  lemma {:induction false} LevSelf(s: string)
    ensures Lev(s, s) == 0
  {
    if s != "" {
      LevSelf(s[..|s| - 1]);
    }
  }

  /** No script is shorter than the distance. */
  lemma {:induction false} NoneShorter(s: string, t: string, script: seq<Edit>)
    requires Turns(script, s, t)
    ensures Lev(s, t) <= |script|
  {
    LevSelf(s);
    ScriptCounts(s, s, script, t);
  }

  /** The recurrence gives the least number of steps. */
  lemma {:induction false} LeastSteps(s: string, t: string)
    ensures exists script :: Turns(script, s, t) && |script| == Lev(s, t)
    ensures forall script :: Turns(script, s, t) ==> Lev(s, t) <= |script|
  {
    var script := Attained(s, t);
    forall script | Turns(script, s, t)
      ensures Lev(s, t) <= |script|
    {
      NoneShorter(s, t, script);
    }
  }

  // ---------------------------------------------------------------- a metric

  lemma {:induction false} LevZeroIff(s: string, t: string)
    ensures Lev(s, t) == 0 <==> s == t
  {
    LevSelf(s);
    if Lev(s, t) == 0 {
      var script := Attained(s, t);
    }
  }

  lemma {:induction false} LevSymmetric(s: string, t: string)
    ensures Lev(s, t) == Lev(t, s)
    decreases |s| + |t|
  {
    if s != "" && t != "" {
      var s', t' := s[..|s| - 1], t[..|t| - 1];
      LevSymmetric(s, t');
      LevSymmetric(s', t);
      LevSymmetric(s', t');
    }
  }

  /** By composing shortest scripts. */
  lemma {:induction false} LevTriangle(s: string, t: string, u: string)
    ensures Lev(s, u) <= Lev(s, t) + Lev(t, u)
  {
    var p := Attained(s, t);
    var q := Attained(t, u);
    TurnsThen(p, s, t, q, u);
    NoneShorter(s, u, p + q);
  }
}
