/**
  Runs that go too deep or use names that need escaping. Closing a container at nesting level 257
  leaves out a comma, and such a name leaves out an escape; from then on the text weighs less
  than the document built, whatever calls follow.
 */
module JsonLimits {
  import opened Common
  import opened JsonReader
  import opened JsonText
  import opened JsonLayout
  import opened JsonRuns
  import JsonIndent
  import JsonRoundTrip
  import opened JsonWeight

  // ---------------------------------------------------------------- the invariant at any depth

  /** What the text ends with: the bracket of an innermost container without entries; otherwise
      a comma, or the closing bracket whose comma was left out. */
  predicate Tail(text: string, empty: bool) {
    && |text| >= 2
    && (empty ==> text[|text| - 2] in "{[" && text[|text| - 1] == '\n')
    && (!empty ==> text[|text| - 2..] == ",\n" || text[|text| - 1] in "}]")
  }

  /** The writer is where the document is, and its text weighs no more; less once `lost`. */
  ghost predicate Light(w: Writer, stack: seq<Frame>, lost: bool) {
    && ValidStack(stack) && AllSpace(w.indenter)
    && w.depth == Wrapped(|stack|) && !w.skipTabs
    && Tail(w.text, Top(stack).entries == [])
    && Weight(w.text) + (if lost then 1 else 0) <= StackLoad(stack)
  }

  // ---------------------------------------------------------------- closing

  lemma {:induction false} CutWeighs(w: Writer, empty: bool)
    requires Tail(w.text, empty)
    ensures Weight(Cut(w).text) + (if empty then 0 else 1) <= Weight(w.text)
  {
    var n := |w.text|;
    var k := n - if LooksEmpty(w) then 1 else 2;
    var gone := w.text[k..];
    WeightSplit(w.text, k);
    if empty {
    } else if w.text[n - 2..] == ",\n" {
      assert w.text[n - 2] == w.text[n - 2..][0];
      CommaWeighs();
    } else {
      WeightSplit(gone, |gone| - 1);
      assert gone[|gone| - 1..] == [w.text[n - 1]];
      WeightOne(w.text[n - 1]);
    }
  }

  lemma {:induction false} CatFour(a: string, b: string, c: string, d: string)
    ensures a + "" + b + c + d == a + (b + c) + d && a + "" + b == a + b
  {
  }

  lemma {:induction false} EndIs(w: Writer, closer: string) returns (pad: string)
    requires |w.text| >= 2 && AllSpace(w.indenter)
    ensures End(w, closer).text == Cut(w).text + pad + Closing(w, closer)
    ensures Weight(pad) == 0 && |Cut(w).text + pad| >= 1
  {
    var cut := Cut(w).text;
    if LooksEmpty(w) {
      pad := "";
      CatFour(cut, "", "", Closing(w, closer));
    } else {
      var indent := Repeat(w.indenter, Dec(w.depth));
      pad := "\n" + indent;
      PadWeighs(w.indenter, Dec(w.depth));
      WeightCat("\n", indent);
      CommaWeighs();
      CatFour(cut, "\n", indent, Closing(w, closer));
    }
  }

  lemma {:induction false} EndTail(before: string, w: Writer, kind: Kind)
    ensures var text := before + Closing(w, Closer(kind)); |before| >= 1 ==> Tail(text, false)
  {
    var closing := Closing(w, Closer(kind));
    if |closing| > 1 {
      assert closing == Closer(kind) + ",\n";
      EndOfCat(before, closing);
      EndOfCat(Closer(kind), ",\n");
    }
  }

  /** Closing adds a bracket and a comma for the last entry's, and no comma at depth one. */
  lemma {:induction false} EndWeighs(w: Writer, kind: Kind, empty: bool)
    requires Tail(w.text, empty) && AllSpace(w.indenter)
    ensures var after := End(w, Closer(kind)).text;
            && Weight(after) + (if w.depth == 1 then 1 else 0) <= Weight(w.text) + (if empty then 2 else 1)
            && Tail(after, false)
  {
    var pad := EndIs(w, Closer(kind));
    var before := Cut(w).text + pad;
    CutWeighs(w, empty);
    CommaWeighs();
    WeightCat(Cut(w).text, pad);
    WeightCat(before, Closing(w, Closer(kind)));
    WeightCat(Closer(kind), if w.depth == 1 then "" else ",\n");
    EndTail(before, w, kind);
  }

  // ---------------------------------------------------------------- steps

  /** The name a call pastes. */
  function NameOf(call: Call): Option<string> {
    match call
    case AddArray(name) => Some(name)
    case EndArray => None
    case EndObject => None
    case SetIndenter(_) => None
    case IndentSz(_) => None
    case _ => call.name
  }

  /** A call that leaves out a comma or an escape. */
  predicate Loses(stack: seq<Frame>, call: Call) {
    || ((call.EndArray? || call.EndObject?) && |stack| >= 1 && Wrapped(|stack| - 1) == 0)
    || !PlainName(NameOf(call))
  }

  lemma {:induction false} LineWeighs(pad: string, name: Option<string>, v: Value)
    requires Weight(pad) == 0 && !v.Compound? && Expressible(v) && (name.Some? ==> IsCString(name.value))
    ensures Weight(Line(Item(pad, name, Leaf(v)))) + (if PlainName(name) then 0 else 1)
            <= EntryLoad(Entry(name, v)) + 1
  {
    KeyWeighs(name);
    ScalarWeighs(v);
    CommaWeighs();
    WeightCat(pad, Key(name));
    WeightCat(pad + Key(name), Scalar(v));
    WeightCat(pad + Key(name) + Scalar(v), ",\n");
  }

  lemma {:induction false} LineTail(text: string, i: Item)
    ensures Tail(text + Line(i), false)
  {
    LineEnd(i);
    EndOfCat(text, Line(i));
  }

  lemma {:induction false} ScalarFalls(w: Writer, stack: seq<Frame>, name: Option<string>, v: Value, lost: bool)
    requires Light(w, stack, lost) && !v.Compound? && Expressible(v) && Fits(Top(stack).kind, name, v)
    ensures Light(AddScalar(w, name, v), Append(stack, Entry(name, v)), lost || !PlainName(name))
  {
    var i := Item(Pad(w), name, Leaf(v));
    AppendFits(stack, Entry(name, v));
    AppendLoad(stack, Entry(name, v));
    ScalarText(w, name, v);
    LineTail(w.text, i);
    PadWeighs(w.indenter, w.depth);
    LineWeighs(Pad(w), name, v);
    WeightCat(w.text, Line(i));
    assert Top(Append(stack, Entry(name, v))).entries != [];
  }

  lemma {:induction false} HeaderWeighs(s: Section)
    requires Weight(s.pad) == 0 && (s.name.Some? ==> IsCString(s.name.value))
    ensures Weight(Header(s)) + (if PlainName(s.name) then 0 else 1) <= NameLoad(s.name) + 1
  {
    KeyWeighs(s.name);
    CommaWeighs();
    WeightCat(s.pad, Key(s.name));
    WeightCat(s.pad + Key(s.name), Opener(s.kind));
    WeightCat(s.pad + Key(s.name) + Opener(s.kind), "\n");
  }

  lemma {:induction false} HeaderTail(text: string, s: Section)
    ensures Tail(text + Header(s), true)
  {
    var h := Header(s);
    assert h[|h| - 2] == Opener(s.kind)[0] && h[|h| - 1] == '\n';
  }

  lemma {:induction false} BeginFalls(w: Writer, stack: seq<Frame>, name: Option<string>, kind: Kind, lost: bool)
    requires Light(w, stack, lost) && Fits(Top(stack).kind, name, Compound(kind, []))
    ensures Light(Begin(w, name, kind), stack + [Frame(name, kind, [])], lost || !PlainName(name))
  {
    var s := Section(Pad(w), name, kind, []);
    PushFits(stack, Frame(name, kind, []));
    PushLoad(stack, Frame(name, kind, []));
    BeginText(w, name, kind);
    HeaderTail(w.text, s);
    PadWeighs(w.indenter, w.depth);
    HeaderWeighs(s);
    WeightCat(w.text, Header(s));
  }

  lemma {:induction false} EndFalls(w: Writer, stack: seq<Frame>, lost: bool)
    requires Light(w, stack, lost) && |stack| >= 2
    ensures Light(End(w, Closer(Top(stack).kind)), Closed(stack), lost || Wrapped(|stack| - 1) == 0)
  {
    var f := Top(stack);
    EndWeighs(w, f.kind, f.entries == []);
    EndFrame(w, Closer(f.kind));
    ClosedFits(stack);
    ClosedLoad(stack);
    assert Top(Closed(stack)).entries != [];
    assert w.depth == 1 <==> Wrapped(|stack| - 1) == 0;
  }

  lemma {:induction false} ScalarCallFalls(w: Writer, stack: seq<Frame>, call: Call, lost: bool)
    requires Light(w, stack, lost) && Legal(stack, call)
    requires call.AddStr? || call.AddStrOrNull? || call.AddInt? || call.AddBool? || call.AddNull?
    ensures Light(Perform(w, call), Build(stack, call), lost || Loses(stack, call))
  {
    var v := match call
      case AddStr(_, s) => Str(s)
      case AddStrOrNull(_, s) => StrOrNull(s)
      case AddInt(_, n) => Number(n, 0)
      case AddBool(_, b) => Bool(b)
      case _ => Null;
    assert Perform(w, call) == AddScalar(w, call.name, v) && Build(stack, call) == Append(stack, Entry(call.name, v));
    ScalarFalls(w, stack, call.name, v, lost);
  }

  lemma {:induction false} BeginCallFalls(w: Writer, stack: seq<Frame>, call: Call, lost: bool)
    requires Light(w, stack, lost) && Legal(stack, call) && (call.AddArray? || call.AddObject?)
    ensures Light(Perform(w, call), Build(stack, call), lost || Loses(stack, call))
  {
    var kind := if call.AddArray? then Array else Object;
    assert Perform(w, call) == Begin(w, NameOf(call), kind);
    assert Build(stack, call) == stack + [Frame(NameOf(call), kind, [])];
    BeginFalls(w, stack, NameOf(call), kind, lost);
  }

  lemma {:induction false} EndCallFalls(w: Writer, stack: seq<Frame>, call: Call, lost: bool)
    requires Light(w, stack, lost) && Legal(stack, call) && (call.EndArray? || call.EndObject?)
    ensures Light(Perform(w, call), Build(stack, call), lost || Loses(stack, call))
  {
    EndFalls(w, stack, lost);
    assert Perform(w, call) == End(w, Closer(Top(stack).kind)) && Build(stack, call) == Closed(stack);
  }

  lemma {:induction false} IndenterFalls(w: Writer, stack: seq<Frame>, call: Call, lost: bool)
    requires Light(w, stack, lost) && Legal(stack, call) && (call.SetIndenter? || call.IndentSz?)
    ensures Light(Perform(w, call), Build(stack, call), lost || Loses(stack, call))
  {
    if call.IndentSz? && 1 <= call.size <= 16 {
      SpacesAreSpace(call.size);
    }
  }

  /** At any depth and with any names, no legal call adds more to the text than to the document,
      and one that leaves out a comma or an escape adds less. */
  lemma {:induction false} StepFalls(w: Writer, stack: seq<Frame>, call: Call, lost: bool)
    requires Light(w, stack, lost) && Legal(stack, call)
    ensures Light(Perform(w, call), Build(stack, call), lost || Loses(stack, call))
  {
    if call.EndArray? || call.EndObject? {
      EndCallFalls(w, stack, call, lost);
    } else if call.AddArray? || call.AddObject? {
      BeginCallFalls(w, stack, call, lost);
    } else if call.SetIndenter? || call.IndentSz? {
      IndenterFalls(w, stack, call, lost);
    } else {
      ScalarCallFalls(w, stack, call, lost);
    }
  }

  // ---------------------------------------------------------------- names

  ghost predicate PlainFrame(f: Frame) {
    PlainName(f.name) && PlainNames(Compound(f.kind, f.entries))
  }

  ghost predicate PlainStack(stack: seq<Frame>) {
    forall k :: 0 <= k < |stack| ==> PlainFrame(stack[k])
  }

  lemma {:induction false} PlainEntries(kind: Kind, es: seq<Entry>, e: Entry)
    ensures PlainNames(Compound(kind, es + [e])) <==>
            PlainNames(Compound(kind, es)) && PlainName(e.name) && PlainNames(e.value)
  {
    var longer := es + [e];
    assert longer[|es|] == e;
    assert forall k :: 0 <= k < |es| ==> longer[k] == es[k];
  }

  lemma {:induction false} PlainAppend(stack: seq<Frame>, e: Entry)
    requires |stack| >= 1
    ensures PlainStack(Append(stack, e)) <==> PlainStack(stack) && PlainName(e.name) && PlainNames(e.value)
  {
    var f, after := Top(stack), Append(stack, e);
    PlainEntries(f.kind, f.entries, e);
    assert after[|stack| - 1] == f.(entries := f.entries + [e]);
    assert PlainFrame(after[|stack| - 1]) <==> PlainFrame(f) && PlainName(e.name) && PlainNames(e.value);
    assert forall k :: 0 <= k < |stack| - 1 ==> after[k] == stack[k];
  }

  lemma {:induction false} PlainClosed(stack: seq<Frame>)
    requires |stack| >= 2
    ensures PlainStack(Closed(stack)) <==> PlainStack(stack)
  {
    var f, outer := Top(stack), stack[..|stack| - 1];
    PlainAppend(outer, Entry(f.name, Compound(f.kind, f.entries)));
    assert stack == outer + [f];
  }

  /** The names under construction stay plain as long as the calls' names are. */
  lemma {:induction false} PlainBuild(stack: seq<Frame>, call: Call)
    requires |stack| >= 1 && Legal(stack, call)
    ensures PlainStack(Build(stack, call)) <==> PlainStack(stack) && PlainName(NameOf(call))
  {
    match call
    case AddStr(name, s) => PlainAppend(stack, Entry(name, Str(s)));
    case AddStrOrNull(name, s) => PlainAppend(stack, Entry(name, StrOrNull(s)));
    case AddInt(name, n) => PlainAppend(stack, Entry(name, Number(n, 0)));
    case AddBool(name, b) => PlainAppend(stack, Entry(name, Bool(b)));
    case AddNull(name) => PlainAppend(stack, Entry(name, Null));
    case AddArray(name) => PlainPush(stack, Frame(Some(name), Array, []));
    case AddObject(name) => PlainPush(stack, Frame(name, Object, []));
    case EndArray => PlainClosed(stack);
    case EndObject => PlainClosed(stack);
    case SetIndenter(_) =>
    case IndentSz(_) =>
  }

  lemma {:induction false} PlainPush(stack: seq<Frame>, f: Frame)
    requires f.entries == []
    ensures PlainStack(stack + [f]) <==> PlainStack(stack) && PlainName(f.name)
  {
    var after := stack + [f];
    assert after[|stack|] == f && (PlainFrame(f) <==> PlainName(f.name));
    assert forall k :: 0 <= k < |stack| ==> after[k] == stack[k];
  }

  // ---------------------------------------------------------------- runs

  lemma {:induction false} WrapsAtDeepest()
    ensures Wrapped(DEEPEST) == 0
  {
    assert Wrapped(DEEPEST - 1) == 255;
  }

  /** A run that goes deeper than 256 and comes back up must close a container at level 257. */
  lemma {:induction false} RunFalls(w: Writer, stack: seq<Frame>, calls: seq<Call>, lost: bool)
    requires Light(w, stack, lost) && LegalRun(stack, calls) && |BuildAll(stack, calls)| == 1
    requires PlainStack(stack) || lost
    ensures var after := BuildAll(stack, calls);
            Light(PerformAll(w, calls), after, lost || Peak(stack, calls) > DEEPEST || !PlainStack(after))
    decreases |calls|
  {
    if calls != [] {
      StepFalls(w, stack, calls[0], lost);
      PlainBuild(stack, calls[0]);
      RunFalls(Perform(w, calls[0]), Build(stack, calls[0]), calls[1..], lost || Loses(stack, calls[0]));
      WrapsAtDeepest();
    }
  }

  lemma {:induction false} InitLight()
    ensures Light(Init(), ROOT, false) && PlainStack(ROOT)
  {
    WeightTwo("{\n");
    assert ROOT[..0] == [];
  }

  lemma {:induction false} RootLoad(stack: seq<Frame>)
    requires ValidStack(stack) && |stack| == 1
    ensures StackLoad(stack) + (if stack[0].entries == [] then 1 else 0) == Load(Compound(Object, stack[0].entries))
  {
    assert stack[..0] == [];
  }

  /** Ending the JSON keeps the text too light for the document. */
  lemma {:induction false} EndAllFalls(w: Writer, stack: seq<Frame>, lost: bool)
    requires Light(w, stack, lost) && |stack| == 1
    ensures Weight(EndAll(w).text) + (if lost then 1 else 0) <= Load(Compound(Object, stack[0].entries))
  {
    EndWeighs(w.(depth := 1), Object, stack[0].entries == []);
    RootLoad(stack);
  }

  lemma {:induction false} PlainRoot(stack: seq<Frame>)
    requires ValidStack(stack) && |stack| == 1
    ensures PlainStack(stack) <==> PlainNames(Compound(Object, stack[0].entries))
  {
    assert PlainFrame(stack[0]) <==> PlainNames(Compound(Object, stack[0].entries));
  }

  /** Printer and parser, for every legal run with room for its indentation. Whatever calls are
      made on a fresh writer and the JSON is ended with only the root open: the text denotes the
      document that was built exactly when no more than 256 containers were ever open at once,
      the document's strings are ASCII, and its names need no escaping. Runs without that room
      are decided in JsonPrinter.dfy. */
  lemma {:induction false} WriterRoundTripIff(calls: seq<Call>)
    requires LegalRun(ROOT, calls) && |BuildAll(ROOT, calls)| == 1 && JsonIndent.RoomyRun(Init(), calls)
    ensures |PerformAll(Init(), calls).text| >= 2
    ensures var doc, text := Compound(Object, BuildAll(ROOT, calls)[0].entries), EndAll(PerformAll(Init(), calls)).text;
            && (Peak(ROOT, calls) <= DEEPEST && PlainNames(doc) ==>
                  ReadText(text) == Some(JsonRoundTrip.SeenValue(doc)))
            && (ReadText(text) == Some(doc) <==> Peak(ROOT, calls) <= DEEPEST && PlainNames(doc) && AsciiValue(doc))
  {
    var w, stack := PerformAll(Init(), calls), BuildAll(ROOT, calls);
    InitLight();
    RunFalls(Init(), ROOT, calls, false);
    PlainRoot(stack);
    if Peak(ROOT, calls) <= DEEPEST && PlainStack(stack) {
      JsonRoundTrip.WriterRoundTrip(calls);
    } else {
      EndAllFalls(w, stack, true);
      TextWeighs(EndAll(w).text);
    }
  }
}
