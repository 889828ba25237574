/**
  From documents to runs: calls that write a given document are legal, and build it.
 */
module JsonDocuments {
  import opened Common
  import opened JsonReader
  import opened JsonText
  import JsonRuns
  import JsonLimits
  import JsonIndent

  /** The calls that may write a value that is no container: a string that is not empty by either
      call for strings, and null by three. */
  predicate WritesScalar(name: Option<string>, v: Value, call: Call)
    requires !v.Compound?
  {
    match v
    case Null => call == AddNull(name) || call == AddStrOrNull(name, None) || call == AddStrOrNull(name, Some(""))
    case Bool(b) => call == AddBool(name, b)
    case Number(m, _) => call == AddInt(name, m)
    case Str(s) => call == AddStr(name, s) || (s != "" && call == AddStrOrNull(name, Some(s)))
  }

  predicate Begins(name: Option<string>, kind: Kind, call: Call) {
    if kind.Object? then call == AddObject(name) else name.Some? && call == AddArray(name.value)
  }

  function Ender(kind: Kind): Call {
    if kind.Object? then EndObject else EndArray
  }

  /** These calls write the entry. */
  predicate WritesEntry(e: Entry, calls: seq<Call>)
    decreases e, 0
  {
    if e.value.Compound? then
      && |calls| >= 2 && Begins(e.name, e.value.kind, calls[0]) && calls[|calls| - 1] == Ender(e.value.kind)
      && WritesAll(e.value.entries, calls[1..|calls| - 1])
    else |calls| == 1 && WritesScalar(e.name, e.value, calls[0])
  }

  /** These calls write the entries one after another. */
  predicate WritesAll(es: seq<Entry>, calls: seq<Call>)
    decreases es, 1
  {
    if es == [] then calls == []
    else exists k :: 0 <= k <= |calls| && WritesEntry(es[0], calls[..k]) && WritesAll(es[1..], calls[k..])
  }

  lemma {:induction false} WritesCons(es: seq<Entry>, p: seq<Call>, q: seq<Call>)
    requires es != [] && WritesEntry(es[0], p) && WritesAll(es[1..], q)
    ensures WritesAll(es, p + q)
  {
    assert (p + q)[..|p|] == p && (p + q)[|p|..] == q;
  }

  /** The calls for the first entry and for the others. */
  lemma {:induction false} WritesParts(es: seq<Entry>, calls: seq<Call>) returns (p: seq<Call>, q: seq<Call>)
    requires es != [] && WritesAll(es, calls)
    ensures calls == p + q && WritesEntry(es[0], p) && WritesAll(es[1..], q)
  {
    var k :| 0 <= k <= |calls| && WritesEntry(es[0], calls[..k]) && WritesAll(es[1..], calls[k..]);
    p, q := calls[..k], calls[k..];
  }

  /** The calls for a container: one to begin it, those for its entries, and one to end it. */
  lemma {:induction false} WritesEnclosed(e: Entry, calls: seq<Call>) returns (opener: Call, middle: seq<Call>)
    requires e.value.Compound? && WritesEntry(e, calls)
    ensures calls == [opener] + middle + [Ender(e.value.kind)]
    ensures Begins(e.name, e.value.kind, opener) && WritesAll(e.value.entries, middle)
  {
    opener, middle := calls[0], calls[1..|calls| - 1];
  }

  /** Every entry that fits where it is put can be written. */
  lemma {:induction false} SomeCalls(e: Entry) returns (calls: seq<Call>)
    requires Expressible(e.value) && (e.value.Compound? && e.value.kind.Array? ==> e.name.Some?)
    ensures WritesEntry(e, calls)
    decreases e, 0
  {
    match e.value
    case Null => calls := [AddNull(e.name)];
    case Bool(b) => calls := [AddBool(e.name, b)];
    case Number(m, _) => calls := [AddInt(e.name, m)];
    case Str(s) => calls := [AddStr(e.name, s)];
    case Compound(kind, es) =>
      var inner := AllCalls(kind, es);
      calls := [if kind.Object? then AddObject(e.name) else AddArray(e.name.value)] + inner + [Ender(kind)];
      assert calls[1..|calls| - 1] == inner;
  }

  lemma {:induction false} AllCalls(kind: Kind, es: seq<Entry>) returns (calls: seq<Call>)
    requires AllFit(kind, es)
    ensures WritesAll(es, calls)
    decreases es, 1
  {
    if es == [] {
      calls := [];
    } else {
      assert Fits(kind, es[0].name, es[0].value);
      var p := SomeCalls(es[0]);
      var q := AllCalls(kind, es[1..]);
      WritesCons(es, p, q);
      calls := p + q;
    }
  }

  /** How many containers deep a value goes. */
  function Height(v: Value): nat
    decreases v, 0
  {
    if v.Compound? then 1 + HeightAll(v.entries) else 0
  }

  function HeightAll(es: seq<Entry>): nat
    decreases es, 1
  {
    if es == [] then 0
    else
      var first, others := HeightOf(es[0]), HeightAll(es[1..]);
      if first > others then first else others
  }

  function HeightOf(e: Entry): nat
    decreases e, 1
  {
    Height(e.value)
  }

  /** A run builds `after` from `stack`, every call legal, with at most `peak` containers open. */
  ghost predicate Builds(stack: seq<Frame>, calls: seq<Call>, after: seq<Frame>, peak: nat) {
    |stack| >= 1 && LegalRun(stack, calls) && BuildAll(stack, calls) == after && Peak(stack, calls) == peak
  }

  function Max(a: nat, b: nat): nat {
    if a < b then b else a
  }

  lemma {:induction false} BuildsOne(stack: seq<Frame>, call: Call)
    requires |stack| >= 1 && Legal(stack, call)
    ensures Builds(stack, [call], Build(stack, call), Max(|stack|, |Build(stack, call)|))
  {
    var after := Build(stack, call);
    assert [call][1..] == [];
    assert LegalRun(after, []) && BuildAll(after, []) == after && Peak(after, []) == |after|;
  }

  lemma {:induction false} BuildsThen(a: seq<Frame>, p: seq<Call>, b: seq<Frame>, q: seq<Call>, c: seq<Frame>,
                                      m: nat, n: nat)
    requires Builds(a, p, b, m) && Builds(b, q, c, n)
    ensures Builds(a, p + q, c, Max(m, n))
    decreases |p|
  {
    if p == [] {
      assert p + q == q;
    } else {
      var next := Build(a, p[0]);
      assert (p + q)[0] == p[0] && (p + q)[1..] == p[1..] + q;
      BuildsThen(next, p[1..], b, q, c, Peak(next, p[1..]), n);
    }
  }

  ghost function AppendAll(stack: seq<Frame>, es: seq<Entry>): seq<Frame>
    requires |stack| >= 1
  {
    stack[|stack| - 1 := Top(stack).(entries := Top(stack).entries + es)]
  }

  lemma {:induction false} BuildsCompound(stack: seq<Frame>, e: Entry, opener: Call, calls: seq<Call>, peak: nat)
    requires ValidStack(stack) && e.value.Compound? && Fits(Top(stack).kind, e.name, e.value)
    requires var inner := stack + [Frame(e.name, e.value.kind, [])];
             Builds(inner, calls, AppendAll(inner, e.value.entries), peak)
    requires Begins(e.name, e.value.kind, opener)
    ensures Builds(stack, [opener] + calls + [Ender(e.value.kind)], Append(stack, e), peak)
  {
    var closer := Ender(e.value.kind);
    var inner := stack + [Frame(e.name, e.value.kind, [])];
    var full := AppendAll(inner, e.value.entries);
    assert Build(stack, opener) == inner;
    BuildsOne(stack, opener);
    BuildsThen(stack, [opener], inner, calls, full, |inner|, peak);
    assert Top(full) == Frame(e.name, e.value.kind, e.value.entries);
    assert full[..|full| - 1] == stack;
    assert e == Entry(e.name, Compound(e.value.kind, e.value.entries));
    assert Build(full, closer) == Append(stack, e);
    BuildsOne(full, closer);
    BuildsThen(stack, [opener] + calls, full, [closer], Append(stack, e), peak, |full|);
  }

  lemma {:induction false} ScalarBuilds(stack: seq<Frame>, e: Entry, call: Call)
    requires ValidStack(stack) && Fits(Top(stack).kind, e.name, e.value) && Expressible(e.value) && !e.value.Compound?
    requires WritesScalar(e.name, e.value, call)
    ensures Legal(stack, call) && Build(stack, call) == Append(stack, e)
  {
    assert e == Entry(e.name, e.value);
  }

  lemma {:induction false} EntryBuilds(stack: seq<Frame>, e: Entry, calls: seq<Call>)
    requires ValidStack(stack) && Fits(Top(stack).kind, e.name, e.value) && Expressible(e.value)
    requires WritesEntry(e, calls)
    ensures Builds(stack, calls, Append(stack, e), |stack| + Height(e.value))
    decreases e, 1
  {
    if e.value.Compound? {
      CompoundBuilds(stack, e, calls);
    } else {
      ScalarBuilds(stack, e, calls[0]);
      BuildsOne(stack, calls[0]);
      assert calls == [calls[0]];
    }
  }

  lemma {:induction false} CompoundBuilds(stack: seq<Frame>, e: Entry, calls: seq<Call>)
    requires ValidStack(stack) && Fits(Top(stack).kind, e.name, e.value) && Expressible(e.value) && e.value.Compound?
    requires WritesEntry(e, calls)
    ensures Builds(stack, calls, Append(stack, e), |stack| + Height(e.value))
    decreases e, 0
  {
    var opener, middle := WritesEnclosed(e, calls);
    var frame := Frame(e.name, e.value.kind, []);
    JsonRuns.PushFits(stack, frame);
    AllBuild(stack + [frame], e.value.entries, middle);
    BuildsCompound(stack, e, opener, middle, |stack| + Height(e.value));
  }

  lemma {:induction false} AppendFirst(stack: seq<Frame>, es: seq<Entry>)
    requires |stack| >= 1 && es != []
    ensures AppendAll(Append(stack, es[0]), es[1..]) == AppendAll(stack, es)
  {
    assert Top(stack).entries + [es[0]] + es[1..] == Top(stack).entries + es;
  }

  lemma {:induction false} AllBuild(stack: seq<Frame>, es: seq<Entry>, calls: seq<Call>)
    requires ValidStack(stack) && AllFit(Top(stack).kind, es) && WritesAll(es, calls)
    ensures Builds(stack, calls, AppendAll(stack, es), |stack| + HeightAll(es))
    decreases es, 2
  {
    if es == [] {
      assert Top(stack).entries + es == Top(stack).entries;
    } else {
      var p, q := WritesParts(es, calls);
      var one := Append(stack, es[0]);
      EntryBuilds(stack, es[0], p);
      JsonRuns.AppendFits(stack, es[0]);
      AllBuild(one, es[1..], q);
      AppendFirst(stack, es);
      BuildsThen(stack, p, one, q, AppendAll(stack, es),
                 |stack| + HeightOf(es[0]), |stack| + HeightAll(es[1..]));
    }
  }

  /** Calls that set an indenter of white space, or ask for one by its size. */
  predicate AllSetup(setup: seq<Call>) {
    forall k :: 0 <= k < |setup| ==>
      (setup[k].SetIndenter? && AllSpace(setup[k].indenter)) || setup[k].IndentSz?
  }

  lemma {:induction false} SetupBuilds(setup: seq<Call>)
    requires AllSetup(setup)
    ensures Builds(ROOT, setup, ROOT, 1)
    decreases |setup|
  {
    if setup != [] {
      SetupBuilds(setup[1..]);
      BuildsOne(ROOT, setup[0]);
      BuildsThen(ROOT, [setup[0]], ROOT, setup[1..], ROOT, 1, 1);
      assert setup == [setup[0]] + setup[1..];
    }
  }

  /** Setting indenters and making calls that write a document's entries is a legal run, which
      builds that document and opens as many containers at once as it is deep. */
  lemma {:induction false} DocumentBuilds(setup: seq<Call>, es: seq<Entry>, body: seq<Call>)
    requires AllSetup(setup) && AllFit(Object, es) && WritesAll(es, body)
    ensures LegalRun(ROOT, setup + body) && BuildAll(ROOT, setup + body) == [Frame(None, Object, es)]
    ensures Peak(ROOT, setup + body) == Height(Compound(Object, es))
  {
    var stack := AppendAll(ROOT, es);
    AllBuild(ROOT, es, body);
    assert [] + es == es;
    SetupBuilds(setup);
    BuildsThen(ROOT, setup, ROOT, body, stack, 1, 1 + HeightAll(es));
  }

  predicate AllIndenting(calls: seq<Call>) {
    forall k :: 0 <= k < |calls| ==> JsonIndent.Indents(calls[k])
  }

  lemma {:induction false} EntryIndents(e: Entry, calls: seq<Call>)
    requires WritesEntry(e, calls)
    ensures AllIndenting(calls)
    decreases e, 0
  {
    if e.value.Compound? {
      var opener, middle := WritesEnclosed(e, calls);
      AllIndent(e.value.entries, middle);
    }
  }

  lemma {:induction false} AllIndent(es: seq<Entry>, calls: seq<Call>)
    requires WritesAll(es, calls)
    ensures AllIndenting(calls)
    decreases es, 1
  {
    if es != [] {
      var p, q := WritesParts(es, calls);
      EntryIndents(es[0], p);
      AllIndent(es[1..], q);
    }
  }

  /** There is room for all of a document's indentation when the indenters fill no more than a
      block at 255 levels, as every indenter set by size does. */
  lemma {:induction false} ShortDocument(setup: seq<Call>, es: seq<Entry>, body: seq<Call>)
    requires JsonIndent.ShortIndenters(setup) && WritesAll(es, body)
    ensures JsonIndent.RoomyRun(Init(), setup + body)
  {
    AllIndent(es, body);
    var calls := setup + body;
    assert forall k :: |setup| <= k < |calls| ==> calls[k] == body[k - |setup|];
    JsonIndent.ShortIsRoomy(Init(), calls);
  }

  /** For every document the calls can express, whichever calls write it, and all indenters of
      white space with room for its indentation: ending the JSON yields a text that denotes that
      very document exactly when it is no more than 256 containers deep, its strings are ASCII
      and its names need no escaping. */
  lemma {:induction false} DocumentRoundTripIff(setup: seq<Call>, es: seq<Entry>, body: seq<Call>)
    requires AllSetup(setup) && AllFit(Object, es) && WritesAll(es, body)
    requires JsonIndent.RoomyRun(Init(), setup + body)
    ensures |PerformAll(Init(), setup + body).text| >= 2
    ensures var doc, text := Compound(Object, es), EndAll(PerformAll(Init(), setup + body)).text;
            ReadText(text) == Some(doc) <==> Height(doc) <= DEEPEST && PlainNames(doc) && AsciiValue(doc)
  {
    DocumentBuilds(setup, es, body);
    JsonLimits.WriterRoundTripIff(setup + body);
  }

  // ---------------------------------------------------------------- one level too deep

  /** Objects named x inside each other, `n` of them. */
  function Nest(n: nat): seq<Entry> {
    if n == 0 then [] else [Entry(Some("x"), Compound(Object, Nest(n - 1)))]
  }

  lemma {:induction false} NestFits(n: nat)
    ensures AllFit(Object, Nest(n)) && PlainNames(Compound(Object, Nest(n))) && AsciiValue(Compound(Object, Nest(n)))
  {
    if n > 0 {
      NestFits(n - 1);
      assert Expressible(Compound(Object, Nest(n - 1)));
      assert forall k :: 0 <= k < |Nest(n)| ==> Nest(n)[k] == Entry(Some("x"), Compound(Object, Nest(n - 1)));
    }
  }

  lemma {:induction false} NestHeight(n: nat)
    ensures HeightAll(Nest(n)) == n
  {
    if n > 0 {
      NestHeight(n - 1);
      assert Nest(n)[1..] == [] && HeightOf(Nest(n)[0]) == 1 + HeightAll(Nest(n - 1));
    }
  }

  /** A root with 256 objects inside each other is not read back, though each name and string in
      it is harmless; with 255 it is. */
  lemma {:induction false} DeepestAndOneMore(size: int, n: nat, body: seq<Call>)
    requires 255 <= n <= 256 && WritesAll(Nest(n), body)
    ensures |PerformAll(Init(), [IndentSz(size)] + body).text| >= 2
    ensures ReadText(EndAll(PerformAll(Init(), [IndentSz(size)] + body)).text) == Some(Compound(Object, Nest(n)))
            <==> n == 255
  {
    NestFits(n);
    NestHeight(n);
    ShortDocument([IndentSz(size)], Nest(n), body);
    DocumentRoundTripIff([IndentSz(size)], Nest(n), body);
  }
}
