/**
  Weighing JSON texts and documents. A text weighs what its brackets, commas, backslashes, bytes
  from 0x80 and letters u weigh; a document weighs what any text must at least spend to denote
  it. The writer spends exactly that, so a text of the writer's that has lost a comma or a
  bracket can no longer denote the document.
 */
module JsonWeight {
  import opened Common
  import opened JsonReader
  import opened JsonText
  import JsonRuns
  import JsonRoundTrip

  function Cost(c: char): nat {
    if c as int >= 0x80 then 2 else if c in "{}[],\\u" then 1 else 0
  }

  function Weight(s: string): nat {
    if s == "" then 0 else Cost(s[0]) + Weight(s[1..])
  }

  lemma {:induction false} WeightCat(a: string, b: string)
    ensures Weight(a + b) == Weight(a) + Weight(b)
  {
    if a == "" {
      assert a + b == b;
    } else {
      assert (a + b)[1..] == a[1..] + b;
      WeightCat(a[1..], b);
    }
  }

  lemma {:induction false} WeightSplit(s: string, k: nat)
    requires k <= |s|
    ensures Weight(s) == Weight(s[..k]) + Weight(s[k..])
  {
    WeightCat(s[..k], s[k..]);
    assert s[..k] + s[k..] == s;
  }

  lemma {:induction false} Weightless(s: string)
    requires forall k :: 0 <= k < |s| ==> Cost(s[k]) == 0
    ensures Weight(s) == 0
  {
    if s != "" {
      Weightless(s[1..]);
    }
  }

  lemma {:induction false} WeightOne(c: char)
    ensures Weight([c]) == Cost(c)
  {
    assert [c][1..] == "";
  }

  lemma {:induction false} WeightTwo(s: string)
    requires |s| == 2
    ensures Weight(s) == Cost(s[0]) + Cost(s[1])
  {
    assert s[1..] == [s[1]];
    WeightOne(s[1]);
  }

  // ---------------------------------------------------------------- documents

  /** What denoting a character in a string costs at least. */
  function CharLoad(c: char): nat {
    if c == '"' || HasShortEscape(c) then 1
    else if c == '\\' || c < ' ' then 2
    else Cost(c)
  }

  function StringLoad(s: string): nat {
    if s == "" then 0 else CharLoad(s[0]) + StringLoad(s[1..])
  }

  function Load(v: Value): nat
    decreases v, 0
  {
    match v
    case Null => 1
    case Bool(b) => if b then 1 else 0
    case Number(_, _) => 0
    case Str(s) => StringLoad(s)
    case Compound(_, es) => 2 + EntriesLoad(es)
  }

  function EntriesLoad(es: seq<Entry>): nat
    decreases es, 1
  {
    if es == [] then 0
    else if |es| == 1 then EntryLoad(es[0])
    else EntryLoad(es[0]) + 1 + EntriesLoad(es[1..])
  }

  function EntryLoad(e: Entry): nat
    decreases e, 1
  {
    NameLoad(e.name) + Load(e.value)
  }

  function NameLoad(name: Option<string>): nat {
    if name.None? then 0 else StringLoad(name.value)
  }

  // ---------------------------------------------------------------- a reader needs the weight

  lemma {:induction false} SpaceWeight(s: string)
    ensures Weight(SkipSpace(s)) <= Weight(s)
  {
    WeightSplit(s, |s| - |SkipSpace(s)|);
  }

  lemma {:induction false} FrontWeight(s: string, prefix: string)
    requires StartsWith(s, prefix)
    ensures Weight(s) == Weight(prefix) + Weight(s[|prefix|..])
  {
    WeightSplit(s, |prefix|);
  }

  lemma {:induction false} ReadCharWeight(s: string)
    ensures var r := ReadChar(s); r.Ok? ==> Weight(s) >= CharLoad(r.value) + Weight(r.rest)
  {
    var r := ReadChar(s);
    if r.Ok? {
      if s[0] == '\\' {
        WeightSplit(s, |s| - |r.rest|);
        EscapeWeight(s);
      }
    }
  }

  lemma {:induction false} EscapeWeight(s: string)
    requires ReadChar(s).Ok? && s[0] == '\\'
    ensures var r := ReadChar(s);
            r.rest == s[|s| - |r.rest|..] && Weight(s[..|s| - |r.rest|]) >= CharLoad(r.value)
  {
    var r := ReadChar(s);
    var p := s[..|s| - |r.rest|];
    WeightSplit(p, 2);
    WeightTwo(p[..2]);
    assert p[..2] == s[..2];
  }

  lemma {:induction false} ReadCharsWeight(s: string)
    ensures var r := ReadChars(s); r.Ok? ==> Weight(s) >= StringLoad(r.value) + Weight(r.rest)
    decreases |s|
  {
    if s != "" && s[0] == '"' {
    } else {
      ReadCharWeight(s);
      var c := ReadChar(s);
      if c.Ok? {
        ReadCharsWeight(c.rest);
        var cs := ReadChars(c.rest);
        if cs.Ok? {
          assert ([c.value] + cs.value)[1..] == cs.value;
        }
      }
    }
  }

  lemma {:induction false} ReadNumberRest(s: string)
    ensures var r := ReadNumber(s); r.Ok? ==> r.value.Number? && Weight(s) >= Weight(r.rest)
  {
    var t := if s != "" && s[0] == '-' then s[1..] else s;
    var m := ReadMagnitude(t);
    if m.Ok? {
      var n := if t[0] == '0' then 1 else DigitRun(t);
      var frac := ReadFraction(t[n..]);
      WeightSplit(t, n);
      FractionRest(t[n..]);
      ExponentRest(frac.rest);
    }
  }

  lemma {:induction false} FractionRest(s: string)
    ensures var r := ReadFraction(s); r.Ok? ==> Weight(s) >= Weight(r.rest)
  {
    if s != "" && s[0] == '.' {
      WeightSplit(s[1..], DigitRun(s[1..]));
    }
  }

  lemma {:induction false} ExponentRest(s: string)
    ensures var r := ReadExponent(s); r.Ok? ==> Weight(s) >= Weight(r.rest)
  {
    if s != "" && (s[0] == 'e' || s[0] == 'E') {
      var signed := |s| > 1 && (s[1] == '-' || s[1] == '+');
      var t := if signed then s[2..] else s[1..];
      WeightSplit(s, if signed then 2 else 1);
      WeightSplit(t, DigitRun(t));
    }
  }

  lemma {:induction false} ReadNameWeight(kind: Kind, s: string)
    ensures var r := ReadName(kind, s); r.Ok? ==> Weight(s) >= NameLoad(r.value) + Weight(r.rest)
  {
    var r := ReadName(kind, s);
    if r.Ok? && kind.Object? {
      ReadCharsWeight(s[1..]);
      var name := ReadString(s);
      var t := SkipSpace(name.rest);
      SpaceWeight(name.rest);
      SpaceWeight(t[1..]);
    }
  }

  /** Reading has cost at least `load`. */
  predicate Spent(s: string, load: nat, rest: string) {
    Weight(s) >= load + Weight(rest)
  }

  lemma {:induction false} SpentThen(a: string, m: nat, b: string, n: nat, c: string)
    requires Spent(a, m, b) && Spent(b, n, c)
    ensures Spent(a, m + n, c)
  {
  }

  /** A literal at the front. */
  lemma {:induction false} LiteralSpends(s: string)
    requires StartsWith(s, "null") || StartsWith(s, "true") || StartsWith(s, "false")
    ensures var r := ReadValue(s); r.Ok? && Spent(s, Load(r.value), r.rest)
  {
    LiteralWeights();
    if StartsWith(s, "null") {
      FrontWeight(s, "null");
    } else if StartsWith(s, "true") {
      FrontWeight(s, "true");
    } else {
      FrontWeight(s, "false");
    }
  }

  lemma {:induction false} StringSpends(s: string)
    requires s != "" && s[0] == '"'
    ensures var r := ReadValue(s); r.Ok? ==> Spent(s, Load(r.value), r.rest)
  {
    JsonRoundTrip.StringStart(s);
    ReadCharsWeight(s[1..]);
  }

  lemma {:induction false} NumberSpends(s: string)
    requires ReadValue(s) == ReadNumber(s)
    ensures var r := ReadValue(s); r.Ok? ==> Spent(s, Load(r.value), r.rest)
  {
    ReadNumberRest(s);
  }

  lemma {:induction false} BracketSpends(kind: Kind, s: string, t: string)
    requires s == Opener(kind) + t && CompoundSpends(t, ReadCompound(kind, t))
    ensures var r := ReadValue(s); r.Ok? ==> Spent(s, Load(r.value), r.rest)
  {
    JsonRoundTrip.CompoundStart(kind, t);
    WeightCat(Opener(kind), t);
    WeightOne('{');
    WeightOne('[');
  }

  lemma {:induction false} ReadValueWeight(s: string)
    ensures var r := ReadValue(s); r.Ok? ==> Spent(s, Load(r.value), r.rest)
    decreases |s|, 0
  {
    if s == "" {
      NumberSpends(s);
    } else if s[0] == '"' {
      StringSpends(s);
    } else if s[0] == '{' || s[0] == '[' {
      var kind := if s[0] == '{' then Object else Array;
      ReadCompoundWeight(kind, s[1..]);
      assert s == Opener(kind) + s[1..];
      BracketSpends(kind, s, s[1..]);
    } else if StartsWith(s, "null") || StartsWith(s, "true") || StartsWith(s, "false") {
      LiteralSpends(s);
    } else {
      OtherwiseNumber(s);
      NumberSpends(s);
    }
  }

  lemma {:induction false} OtherwiseNumber(s: string)
    requires s != "" && s[0] != '"' && s[0] != '{' && s[0] != '['
    requires !StartsWith(s, "null") && !StartsWith(s, "true") && !StartsWith(s, "false")
    ensures ReadValue(s) == ReadNumber(s)
  {
    JsonRoundTrip.NotPrefix(s, "\"");
    JsonRoundTrip.NotPrefix(s, "{");
    JsonRoundTrip.NotPrefix(s, "[");
  }

  lemma {:induction false} LiteralWeights()
    ensures Weight("null") == 1 && Weight("true") == 1 && Weight("false") == 0
  {
    NullWeight();
    TrueWeight();
    Weightless("false");
  }

  lemma {:induction false} NullWeight()
    ensures Weight("null") == 1
  {
    WeightTwo("nu");
    Weightless("ll");
    WeightCat("nu", "ll");
    assert "nu" + "ll" == "null";
  }

  lemma {:induction false} TrueWeight()
    ensures Weight("true") == 1
  {
    WeightTwo("tr");
    WeightTwo("ue");
    WeightCat("tr", "ue");
    assert "tr" + "ue" == "true";
  }

  lemma {:induction false} MarkWeight(s: string, mark: char)
    requires StartsWith(s, [mark])
    ensures s != "" && s[0] == mark && Weight(s) == Cost(mark) + Weight(s[1..])
  {
    assert s[..1][0] == mark;
  }

  predicate EntriesSpend(s: string, r: Parsed<seq<Entry>>) {
    r.Ok? ==> r.value != [] && Spent(s, EntriesLoad(r.value) + 1, r.rest)
  }

  /** The opening bracket has been paid for before. */
  predicate CompoundSpends(s: string, r: Parsed<Value>) {
    r.Ok? ==> Load(r.value) >= 1 && Spent(s, Load(r.value) - 1, r.rest)
  }

  function Filled(kind: Kind, es: Parsed<seq<Entry>>): Parsed<Value> {
    match es
    case Fail => Fail
    case Ok(entries, rest) => Ok(Compound(kind, entries), rest)
  }

  lemma {:induction false} ReadCompoundWeight(kind: Kind, s: string)
    ensures CompoundSpends(s, ReadCompound(kind, s))
    decreases |s|, 2
  {
    var t := SkipSpace(s);
    SpaceWeight(s);
    if StartsWith(t, Closer(kind)) {
      CloserWeight(kind, t);
    } else {
      ReadEntriesWeight(kind, t);
      FullSpends(kind, s, t, ReadEntries(kind, t));
    }
  }

  lemma {:induction false} FullSpends(kind: Kind, s: string, t: string, es: Parsed<seq<Entry>>)
    requires Spent(s, 0, t) && EntriesSpend(t, es)
    ensures CompoundSpends(s, Filled(kind, es))
  {
    if es.Ok? {
      SpentThen(s, 0, t, EntriesLoad(es.value) + 1, es.rest);
    }
  }

  lemma {:induction false} CloserWeight(kind: Kind, s: string)
    requires StartsWith(s, Closer(kind))
    ensures Weight(s) == 1 + Weight(s[1..])
  {
    MarkWeight(s, if kind.Object? then '}' else ']');
  }

  /** How a list of entries was read: the first one, and what came after it. */
  lemma {:induction false} EntriesInversion(kind: Kind, s: string) returns (e: Entry, s': string, rest: string)
    requires ReadEntries(kind, s).Ok?
    ensures ReadName(kind, s) == Ok(e.name, s') && ReadValue(s') == Ok(e.value, rest)
    ensures ReadEntries(kind, s) == Remaining(kind, e, SkipSpace(rest))
  {
    s' := ReadName(kind, s).rest;
    rest := ReadValue(s').rest;
    e := Entry(ReadName(kind, s).value, ReadValue(s').value);
  }

  /** The entries when one has been read and `t` is left. */
  function Remaining(kind: Kind, e: Entry, t: string): Parsed<seq<Entry>> {
    if StartsWith(t, Closer(kind)) then Ok([e], t[1..])
    else if StartsWith(t, ",") then Followed(e, ReadEntries(kind, SkipSpace(t[1..])))
    else Fail
  }

  function Followed(e: Entry, more: Parsed<seq<Entry>>): Parsed<seq<Entry>> {
    match more
    case Fail => Fail
    case Ok(es, rest) => Ok([e] + es, rest)
  }

  lemma {:induction false} FollowedSpends(s: string, e: Entry, more: Parsed<seq<Entry>>, next: string)
    requires Spent(s, EntryLoad(e) + 1, next) && EntriesSpend(next, more)
    ensures EntriesSpend(s, Followed(e, more))
  {
    if more.Ok? {
      assert ([e] + more.value)[1..] == more.value;
      SpentThen(s, EntryLoad(e) + 1, next, EntriesLoad(more.value) + 1, more.rest);
    }
  }

  lemma {:induction false} HeadSpends(kind: Kind, s: string, e: Entry, s': string, rest: string)
    requires ReadName(kind, s) == Ok(e.name, s') && Spent(s', Load(e.value), rest)
    ensures Spent(s, EntryLoad(e), SkipSpace(rest))
  {
    ReadNameWeight(kind, s);
    SpaceWeight(rest);
  }

  lemma {:induction false} LastSpends(kind: Kind, s: string, e: Entry, t: string)
    requires Spent(s, EntryLoad(e), t) && StartsWith(t, Closer(kind))
    ensures EntriesSpend(s, Ok([e], t[1..]))
  {
    CloserWeight(kind, t);
  }

  lemma {:induction false} CommaSpends(s: string, load: nat, t: string)
    requires Spent(s, load, t) && StartsWith(t, ",")
    ensures Spent(s, load + 1, SkipSpace(t[1..]))
  {
    MarkWeight(t, ',');
    SpaceWeight(t[1..]);
  }

  lemma {:induction false} ReadEntriesWeight(kind: Kind, s: string)
    ensures EntriesSpend(s, ReadEntries(kind, s))
    decreases |s|, 1
  {
    if ReadEntries(kind, s).Ok? {
      var e, s', rest := EntriesInversion(kind, s);
      var t := SkipSpace(rest);
      ReadValueWeight(s');
      HeadSpends(kind, s, e, s', rest);
      if StartsWith(t, Closer(kind)) {
        LastSpends(kind, s, e, t);
      } else {
        var next := SkipSpace(t[1..]);
        CommaSpends(s, EntryLoad(e), t);
        ReadEntriesWeight(kind, next);
        FollowedSpends(s, e, ReadEntries(kind, next), next);
      }
    }
  }

  /** A text that denotes a document weighs at least as much. */
  lemma {:induction false} TextWeighs(s: string)
    ensures ReadText(s).Some? ==> Weight(s) >= Load(ReadText(s).value)
  {
    SpaceWeight(s);
    ReadValueWeight(SkipSpace(s));
  }

  // ---------------------------------------------------------------- the writer spends no more

  lemma {:induction false} UnicodeWeight(e: string)
    requires |e| == 6 && e[0] == '\\' && e[1] == 'u' && forall k :: 2 <= k < 6 ==> Cost(e[k]) == 0
    ensures Weight(e) == 2
  {
    WeightSplit(e, 2);
    WeightTwo(e[..2]);
    Weightless(e[2..]);
  }

  lemma {:induction false} EscapeCharWeight(c: char)
    requires 0 < c as int < 256
    ensures Weight(EscapeChar(c)) == CharLoad(c)
  {
    var e := EscapeChar(c);
    if SignedChar(c) < 0x20 && !HasShortEscape(c) {
      if c as int < 0x20 {
        JsonRoundTrip.ControlText(c);
      } else {
        JsonRoundTrip.NegativeText(c);
      }
      UnicodeWeight(e);
    } else if |e| == 2 {
      WeightTwo(e);
    } else {
      WeightOne(c);
    }
  }

  lemma {:induction false} EscapeWeighs(s: string)
    requires IsCString(s)
    ensures Weight(Escape(s)) == StringLoad(s)
  {
    if s != "" {
      JsonRoundTrip.EscapeFront(s);
      WeightCat(EscapeChar(s[0]), Escape(s[1..]));
      EscapeCharWeight(s[0]);
      EscapeWeighs(s[1..]);
    }
  }

  /** A name pasted as it is spends too little exactly when it needs escaping. */
  lemma {:induction false} NameWeighs(name: string)
    requires IsCString(name)
    ensures Weight(name) <= StringLoad(name)
    ensures Weight(name) == StringLoad(name) <==> Plain(name)
  {
    if name != "" {
      var rest := name[1..];
      NameWeighs(rest);
      assert name == [name[0]] + rest;
      assert Plain(name) <==> PlainChar(name[0]) && Plain(rest);
    }
  }

  lemma {:induction false} KeyWeighs(name: Option<string>)
    requires name.Some? ==> IsCString(name.value)
    ensures Weight(Key(name)) + (if PlainName(name) then 0 else 1) <= NameLoad(name)
  {
    if name.Some? {
      WeightCat("\"", name.value);
      WeightCat("\"" + name.value, "\": ");
      NameWeighs(name.value);
      Weightless("\"");
      Weightless("\": ");
    }
  }

  lemma {:induction false} ScalarWeighs(v: Value)
    requires !v.Compound? && Expressible(v)
    ensures Weight(Scalar(v)) == Load(v)
  {
    match v
    case Null => LiteralWeights();
    case Bool(_) => LiteralWeights();
    case Number(m, _) => DecimalWeighs(m);
    case Str(str) => QuotedWeighs(str);
  }

  lemma {:induction false} DecimalWeighs(m: int)
    ensures Weight(Decimal(m)) == 0
  {
    JsonRoundTrip.DecimalDigitsRead(if m < 0 then -m else m);
    Weightless(Decimal(m));
  }

  lemma {:induction false} QuotedWeighs(s: string)
    requires IsCString(s)
    ensures Weight("\"" + Escape(s) + "\"") == StringLoad(s)
  {
    WeightCat("\"", Escape(s));
    WeightCat("\"" + Escape(s), "\"");
    EscapeWeighs(s);
    Weightless("\"");
  }

  lemma {:induction false} PadWeighs(ind: string, n: nat)
    requires AllSpace(ind)
    ensures Weight(Repeat(ind, n)) == 0
  {
    JsonRuns.RepeatIsSpace(ind, n);
    Weightless(Repeat(ind, n));
  }

  lemma {:induction false} CommaWeighs()
    ensures Weight(",\n") == 1 && Weight("\n") == 0
    ensures forall kind :: Weight(Opener(kind)) == 1 && Weight(Closer(kind)) == 1
  {
    WeightTwo(",\n");
    Weightless("\n");
    WeightOne('{');
    WeightOne('}');
    WeightOne('[');
    WeightOne(']');
  }

  // ---------------------------------------------------------------- containers still open

  /** What the entries of an open container cost, a comma after each. */
  function LinesLoad(es: seq<Entry>): nat {
    if es == [] then 0 else EntriesLoad(es) + 1
  }

  /** What the containers open and their entries cost, no closing bracket among it. */
  function StackLoad(stack: seq<Frame>): nat {
    if stack == [] then 0
    else StackLoad(stack[..|stack| - 1]) + NameLoad(Top(stack).name) + 1 + LinesLoad(Top(stack).entries)
  }

  lemma {:induction false} LinesLoadAppend(es: seq<Entry>, e: Entry)
    ensures LinesLoad(es + [e]) == LinesLoad(es) + EntryLoad(e) + 1
  {
    if es != [] {
      assert (es + [e])[1..] == es[1..] + [e];
      LinesLoadAppend(es[1..], e);
    }
  }

  lemma {:induction false} AppendLoad(stack: seq<Frame>, e: Entry)
    requires |stack| >= 1
    ensures StackLoad(Append(stack, e)) == StackLoad(stack) + EntryLoad(e) + 1
  {
    assert Append(stack, e)[..|stack| - 1] == stack[..|stack| - 1];
    LinesLoadAppend(Top(stack).entries, e);
  }

  lemma {:induction false} PushLoad(stack: seq<Frame>, f: Frame)
    requires f.entries == []
    ensures StackLoad(stack + [f]) == StackLoad(stack) + NameLoad(f.name) + 1
  {
    assert (stack + [f])[..|stack|] == stack;
  }

  /** Closing costs a bracket, and a comma unless the last entry's is taken over. */
  lemma {:induction false} ClosedLoad(stack: seq<Frame>)
    requires |stack| >= 2
    ensures StackLoad(Closed(stack)) == StackLoad(stack) + (if Top(stack).entries == [] then 2 else 1)
  {
    var f := Top(stack);
    var e := Entry(f.name, Compound(f.kind, f.entries));
    AppendLoad(stack[..|stack| - 1], e);
    assert EntryLoad(e) == NameLoad(f.name) + (2 + EntriesLoad(f.entries));
  }
}
