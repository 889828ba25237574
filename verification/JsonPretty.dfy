/**
  What the written text looks like: a document printed with an indenter, one entry a line, as a
  function of the document alone, and the conditions under which the writer prints just that.
 */
module JsonPretty {
  import opened Common
  import opened JsonReader
  import opened JsonText
  import opened JsonLayout
  import opened JsonDocuments
  import JsonRuns
  import JsonRoundTrip
  import JsonIndent
  import JsonLimits
  import JsonPrinter

  // ---------------------------------------------------------------- the printed document

  function Copies(indenter: string, n: nat): string {
    if n == 0 then "" else indenter + Copies(indenter, n - 1)
  }

  /** A value inside `level` containers. Each entry of a container has a line of its own behind as
      many indenters as there are containers around it, and the closing bracket one fewer; a
      container without entries stays on one line. */
  function Pretty(v: Value, indenter: string, level: nat): string
    decreases v, 0
  {
    match v
    case Null => "null"
    case Bool(true) => "true"
    case Bool(false) => "false"
    case Number(m, _) => Decimal(m)
    case Str(s) => "\"" + Escape(s) + "\""
    case Compound(Object, es) =>
      if es == [] then "{}"
      else "{\n" + PrettyEntries(es, indenter, level + 1) + "\n" + Copies(indenter, level) + "}"
    case Compound(Array, es) =>
      if es == [] then "[]"
      else "[\n" + PrettyEntries(es, indenter, level + 1) + "\n" + Copies(indenter, level) + "]"
  }

  /** One or more entries. */
  function PrettyEntries(es: seq<Entry>, indenter: string, level: nat): string
    requires es != []
    decreases es, 2
  {
    PrettyEntry(es[0], indenter, level)
    + (if |es| == 1 then "" else ",\n" + PrettyEntries(es[1..], indenter, level))
  }

  function PrettyEntry(e: Entry, indenter: string, level: nat): string
    decreases e, 1
  {
    Copies(indenter, level) + (if e.name.Some? then "\"" + e.name.value + "\": " else "")
    + Pretty(e.value, indenter, level)
  }

  /** The indenter in force after some calls that set one. */
  function IndenterAfter(indenter: string, setup: seq<Call>): string
    decreases |setup|
  {
    if setup == [] then indenter
    else
      match setup[0]
      case SetIndenter(s) => IndenterAfter(s, setup[1..])
      case IndentSz(size) =>
        IndenterAfter(if 1 <= size <= 16 then seq(size, _ => ' ') else indenter, setup[1..])
      case _ => IndenterAfter(indenter, setup[1..])
  }

  /** How many containers there are around the deepest entry. */
  function Inside(v: Value): nat
    decreases v, 0
  {
    if v.Compound? && v.entries != [] then 1 + InsideAll(v.entries) else 0
  }

  function InsideAll(es: seq<Entry>): nat
    decreases es, 2
  {
    if es == [] then 0
    else
      var first, others := InsideOf(es[0]), InsideAll(es[1..]);
      if first > others then first else others
  }

  function InsideOf(e: Entry): nat
    decreases e, 1
  {
    Inside(e.value)
  }

  // ---------------------------------------------------------------- the layout written

  /** The layout of a value inside `level` containers, the 8-bit depth deciding on indentation. */
  function DocOf(v: Value, indenter: string, level: nat): Doc
    decreases v, 0
  {
    if v.Compound?
    then Group(v.kind, ItemsOf(v.entries, indenter, level + 1), Repeat(indenter, Wrapped(level)))
    else Leaf(v)
  }

  function ItemsOf(es: seq<Entry>, indenter: string, level: nat): (items: seq<Item>)
    ensures |items| == |es|
    decreases es, 2
  {
    if es == [] then [] else [ItemOf(es[0], indenter, level)] + ItemsOf(es[1..], indenter, level)
  }

  function ItemOf(e: Entry, indenter: string, level: nat): Item
    decreases e, 1
  {
    Item(Repeat(indenter, Wrapped(level)), e.name, DocOf(e.value, indenter, level))
  }

  lemma {:induction false} PerformCat(w: Writer, p: seq<Call>, q: seq<Call>)
    ensures PerformAll(w, p + q) == PerformAll(PerformAll(w, p), q)
    decreases |p|
  {
    if p == [] {
      assert p + q == q;
    } else if |w.text| >= 2 {
      assert (p + q)[0] == p[0] && (p + q)[1..] == p[1..] + q;
      PerformCat(Perform(w, p[0]), p[1..], q);
    }
  }

  lemma {:induction false} PerformOne(w: Writer, call: Call)
    requires |w.text| >= 2
    ensures PerformAll(w, [call]) == Perform(w, call)
  {
    assert [call][1..] == [];
    assert PerformAll(Perform(w, call), []) == Perform(w, call);
  }

  /** A writer inside `level` containers, none of them too deep. */
  predicate At(w: Writer, level: nat) {
    |w.text| >= 2 && 1 <= level && w.depth == Wrapped(level) && !w.skipTabs
  }

  /** A writer moved on by some text. */
  predicate Moved(w: Writer, w': Writer, text: string) {
    w'.text == w.text + text && w'.depth == w.depth && w'.skipTabs == w.skipTabs && w'.indenter == w.indenter
  }

  /** A string that may be missing or empty, in terms of the two calls it stands for. */
  lemma {:induction false} AddStrOrNullIs(w: Writer, stack: seq<Frame>, name: Option<string>, s: string)
    requires |w.text| >= 2 && |stack| >= 1
    ensures s != "" ==> Perform(w, AddStrOrNull(name, Some(s))) == Perform(w, AddStr(name, s))
    ensures s != "" ==> Build(stack, AddStrOrNull(name, Some(s))) == Build(stack, AddStr(name, s))
    ensures Perform(w, AddStrOrNull(name, Some(""))) == Perform(w, AddNull(name))
    ensures Perform(w, AddStrOrNull(name, None)) == Perform(w, AddNull(name))
    ensures Build(stack, AddStrOrNull(name, Some(""))) == Build(stack, AddNull(name))
    ensures Build(stack, AddStrOrNull(name, None)) == Build(stack, AddNull(name))
  {
    assert |""| == 0 && (s != "" ==> |s| > 0);
  }

  lemma {:induction false} ScalarWritten(w: Writer, name: Option<string>, v: Value, call: Call)
    requires |w.text| >= 2 && !v.Compound? && WritesScalar(name, v, call) && (v.Number? ==> v.exponent == 0)
    ensures Perform(w, call) == AddScalar(w, name, v)
  {
    match v
    case Null => AddStrOrNullIs(w, ROOT, name, "");
    case Str(s) => AddStrOrNullIs(w, ROOT, name, s);
    case _ =>
  }

  lemma {:induction false} MovedThen(w: Writer, w1: Writer, w2: Writer, a: string, b: string)
    requires Moved(w, w1, a) && Moved(w1, w2, b)
    ensures Moved(w, w2, a + b)
  {
    assert w.text + a + b == w.text + (a + b);
  }

  lemma {:induction false} LinesCons(es: seq<Entry>, indenter: string, level: nat)
    requires es != []
    ensures Lines(ItemsOf(es, indenter, level))
         == Line(ItemOf(es[0], indenter, level)) + Lines(ItemsOf(es[1..], indenter, level))
  {
    assert ItemsOf(es, indenter, level)[1..] == ItemsOf(es[1..], indenter, level);
  }

  lemma {:induction false} EntryText(w: Writer, e: Entry, calls: seq<Call>, level: nat)
    requires At(w, level) && WritesEntry(e, calls) && Expressible(e.value) && level + Height(e.value) <= DEEPEST
    ensures Moved(w, PerformAll(w, calls), Line(ItemOf(e, w.indenter, level)))
    decreases e, 2
  {
    if e.value.Compound? {
      CompoundText(w, e, calls, level);
    } else {
      assert calls == [calls[0]];
      PerformOne(w, calls[0]);
      ScalarWritten(w, e.name, e.value, calls[0]);
      JsonRuns.ScalarText(w, e.name, e.value);
    }
  }

  lemma {:induction false} AllText(w: Writer, es: seq<Entry>, calls: seq<Call>, level: nat)
    requires At(w, level) && WritesAll(es, calls) && level + HeightAll(es) <= DEEPEST
    requires forall k :: 0 <= k < |es| ==> Expressible(es[k].value)
    ensures Moved(w, PerformAll(w, calls), Lines(ItemsOf(es, w.indenter, level)))
    decreases es, 3
  {
    if es == [] {
      assert w.text + "" == w.text;
    } else {
      var p, q := WritesParts(es, calls);
      EntryText(w, es[0], p, level);
      PerformCat(w, p, q);
      var w1 := PerformAll(w, p);
      AllText(w1, es[1..], q, level);
      LinesCons(es, w.indenter, level);
      MovedThen(w, w1, PerformAll(w1, q),
                Line(ItemOf(es[0], w.indenter, level)), Lines(ItemsOf(es[1..], w.indenter, level)));
    }
  }

  lemma {:induction false} Begun(w: Writer, e: Entry, opener: Call, level: nat)
    requires At(w, level) && level < DEEPEST && e.value.Compound? && Begins(e.name, e.value.kind, opener)
    ensures var w' := Perform(w, opener);
            && At(w', level + 1) && w'.indenter == w.indenter
            && w'.text == w.text + Pad(w) + Key(e.name) + Opener(e.value.kind) + "\n"
  {
    JsonRuns.Assoc(w.text, Pad(w), Key(e.name), Opener(e.value.kind), "\n");
  }

  /** Closing the container that was begun with `keyed` in front of its bracket. */
  lemma {:induction false} Ended(w: Writer, keyed: string, kind: Kind, items: seq<Item>, level: nat)
    requires At(w, level + 1) && 1 <= level < DEEPEST && w.text == keyed + Opener(kind) + "\n" + Lines(items)
    ensures var w' := Perform(w, Ender(kind));
            && w'.text == keyed + Render(Group(kind, items, Repeat(w.indenter, Wrapped(level)))) + ",\n"
            && w'.depth == Wrapped(level) && !w'.skipTabs && w'.indenter == w.indenter
  {
    JsonRuns.EndText(w, keyed, kind, items);
    JsonRuns.EndFrame(w, Closer(kind));
    assert Dec(w.depth) == Wrapped(level);
  }

  /** The container's line, when its entries have been written. */
  lemma {:induction false} EndedLine(w: Writer, w1: Writer, w2: Writer, e: Entry, level: nat)
    requires At(w, level) && level < DEEPEST && e.value.Compound?
    requires At(w1, level + 1) && w1.indenter == w.indenter
    requires w1.text == w.text + Pad(w) + Key(e.name) + Opener(e.value.kind) + "\n"
    requires Moved(w1, w2, Lines(ItemsOf(e.value.entries, w.indenter, level + 1)))
    ensures Moved(w, Perform(w2, Ender(e.value.kind)), Line(ItemOf(e, w.indenter, level)))
  {
    Ended(w2, w.text + Pad(w) + Key(e.name), e.value.kind, ItemsOf(e.value.entries, w.indenter, level + 1), level);
    CatLine(w.text, Pad(w), Key(e.name), Render(DocOf(e.value, w.indenter, level)));
  }

  lemma {:induction false} CatLine(text: string, pad: string, key: string, body: string)
    ensures text + pad + key + body + ",\n" == text + (pad + key + body + ",\n")
  {
  }

  lemma {:induction false} InnerExpressible(v: Value)
    requires Expressible(v) && v.Compound?
    ensures forall k :: 0 <= k < |v.entries| ==> Expressible(v.entries[k].value)
  {
  }

  lemma {:induction false} PerformAround(w: Writer, first: Call, middle: seq<Call>, last: Call)
    requires |w.text| >= 2 && |Perform(w, first).text| >= 2 && |PerformAll(Perform(w, first), middle).text| >= 2
    ensures PerformAll(w, [first] + middle + [last]) == Perform(PerformAll(Perform(w, first), middle), last)
  {
    PerformCat(w, [first] + middle, [last]);
    PerformCat(w, [first], middle);
    PerformOne(w, first);
    PerformOne(PerformAll(Perform(w, first), middle), last);
  }

  lemma {:induction false} EnclosedText(w: Writer, e: Entry, opener: Call, middle: seq<Call>, level: nat)
    requires At(w, level) && Expressible(e.value) && level + Height(e.value) <= DEEPEST && e.value.Compound?
    requires Begins(e.name, e.value.kind, opener) && WritesAll(e.value.entries, middle)
    ensures var w1 := Perform(w, opener); var w2 := PerformAll(w1, middle);
            && |w1.text| >= 2 && |w2.text| >= 2
            && Moved(w, Perform(w2, Ender(e.value.kind)), Line(ItemOf(e, w.indenter, level)))
    decreases e, 0
  {
    var w1 := Perform(w, opener);
    Begun(w, e, opener, level);
    InnerExpressible(e.value);
    AllText(w1, e.value.entries, middle, level + 1);
    EndedLine(w, w1, PerformAll(w1, middle), e, level);
  }

  lemma {:induction false} CompoundText(w: Writer, e: Entry, calls: seq<Call>, level: nat)
    requires At(w, level) && WritesEntry(e, calls) && Expressible(e.value) && level + Height(e.value) <= DEEPEST
    requires e.value.Compound?
    ensures Moved(w, PerformAll(w, calls), Line(ItemOf(e, w.indenter, level)))
    decreases e, 1
  {
    var opener, middle := WritesEnclosed(e, calls);
    EnclosedText(w, e, opener, middle, level);
    PerformAround(w, opener, middle, Ender(e.value.kind));
  }

  lemma {:induction false} SetupText(w: Writer, setup: seq<Call>)
    requires |w.text| >= 2 && AllSetup(setup)
    ensures PerformAll(w, setup) == w.(indenter := IndenterAfter(w.indenter, setup))
    decreases |setup|
  {
    if setup != [] {
      SetupText(Perform(w, setup[0]), setup[1..]);
    }
  }

  lemma {:induction false} RootEnded(w: Writer, items: seq<Item>)
    requires w.text == "{\n" + Lines(items)
    ensures |w.text| >= 2 && EndAll(w).text == Render(Group(Object, items, ""))
  {
    assert w.text == "" + Opener(Object) + "\n" + Lines(items);
    JsonRuns.EndText(w.(depth := 1), "", Object, items);
    var text := Render(Group(Object, items, ""));
    assert "" + text + "" == text;
  }

  /** The text of a whole document of at most 256 levels. */
  lemma {:induction false} DocumentText(setup: seq<Call>, es: seq<Entry>, body: seq<Call>)
    requires AllSetup(setup) && AllFit(Object, es) && WritesAll(es, body) && Height(Compound(Object, es)) <= DEEPEST
    ensures |PerformAll(Init(), setup + body).text| >= 2
    ensures EndAll(PerformAll(Init(), setup + body)).text
         == Render(DocOf(Compound(Object, es), IndenterAfter("    ", setup), 0))
  {
    var indenter := IndenterAfter("    ", setup);
    var items := ItemsOf(es, indenter, 1);
    PerformCat(Init(), setup, body);
    SetupText(Init(), setup);
    var w := PerformAll(Init(), setup);
    AllText(w, es, body, 1);
    RootEnded(PerformAll(w, body), items);
  }

  // ---------------------------------------------------------------- layout and printed document

  /** Equal, or else shorter. */
  predicate Near(same: bool, a: string, b: string) {
    if same then a == b else |a| < |b|
  }

  lemma {:induction false} NearAround(same: bool, a: string, b: string, front: string, back: string)
    requires Near(same, a, b)
    ensures Near(same, front + a + back, front + b + back)
  {
  }

  lemma {:induction false} NearThen(p: bool, a: string, b: string, q: bool, c: string, d: string, middle: string)
    requires Near(p, a, b) && Near(q, c, d)
    ensures Near(p && q, a + middle + c, b + middle + d)
  {
  }

  lemma {:induction false} CopiesMore(indenter: string, n: nat)
    ensures indenter + Copies(indenter, n) == Copies(indenter, n) + indenter
  {
    if n > 0 {
      CopiesMore(indenter, n - 1);
      assert indenter + (indenter + Copies(indenter, n - 1)) == indenter + (Copies(indenter, n - 1) + indenter);
      assert indenter + Copies(indenter, n - 1) + indenter == indenter + (Copies(indenter, n - 1) + indenter);
    } else {
      assert indenter + "" == "" + indenter;
    }
  }

  lemma {:induction false} CopiesIs(indenter: string, n: nat)
    ensures Copies(indenter, n) == Repeat(indenter, n) && |Copies(indenter, n)| >= (if indenter == "" then 0 else n)
  {
    if n > 0 {
      CopiesIs(indenter, n - 1);
      CopiesMore(indenter, n - 1);
    }
  }

  /** Whether the level of every entry inside is within the 8-bit depth, or does not matter. */
  predicate Shallow(indenter: string, deepest: nat) {
    indenter == "" || deepest <= 255
  }

  /** The 8-bit depth gives the indentation of every level up to 255, and none at 256. */
  lemma {:induction false} PadNear(indenter: string, level: nat)
    requires level <= DEEPEST
    ensures Near(Shallow(indenter, level), Repeat(indenter, Wrapped(level)), Copies(indenter, level))
  {
    CopiesIs(indenter, level);
    if level == DEEPEST {
      assert Wrapped(256) == Inc(Wrapped(255));
      if indenter == "" {
        Nothing(256);
      }
    }
  }

  lemma {:induction false} Nothing(n: nat)
    ensures Repeat("", n) == ""
  {
    if n > 0 {
      Nothing(n - 1);
    }
  }

  /** Whether a value looks as printed: a container without entries always does. */
  predicate Deep(v: Value, indenter: string, level: nat) {
    Shallow(indenter, level + Inside(v)) || !v.Compound? || v.entries == []
  }

  lemma {:induction false} ValueNear(v: Value, indenter: string, level: nat)
    requires level + Height(v) <= DEEPEST
    ensures Near(Deep(v, indenter, level),
                 Render(DocOf(v, indenter, level)), Pretty(v, indenter, level))
    decreases v, 0
  {
    if v.Compound? && v.entries != [] {
      var items, es := ItemsOf(v.entries, indenter, level + 1), v.entries;
      var close, open := Repeat(indenter, Wrapped(level)), Opener(v.kind) + "\n";
      EntriesNear(es, indenter, level + 1);
      PadNear(indenter, level);
      NearAround(Shallow(indenter, level + Inside(v)), Trimmed(Lines(items)), PrettyEntries(es, indenter, level + 1),
                 open, "\n" + close + Closer(v.kind));
      CatGroup(open, Trimmed(Lines(items)), close, Closer(v.kind));
      CatGroup(open, PrettyEntries(es, indenter, level + 1), close, Closer(v.kind));
    }
  }

  lemma {:induction false} CatGroup(open: string, lines: string, close: string, closer: string)
    ensures open + lines + "\n" + close + closer == open + lines + ("\n" + close + closer)
  {
  }

  lemma {:induction false} PrettyCons(es: seq<Entry>, indenter: string, level: nat)
    requires es != []
    ensures PrettyEntries(es, indenter, level)
         == if |es| == 1 then PrettyEntry(es[0], indenter, level)
            else PrettyEntry(es[0], indenter, level) + ",\n" + PrettyEntries(es[1..], indenter, level)
  {
    var first := PrettyEntry(es[0], indenter, level);
    if |es| == 1 {
      assert first + "" == first;
    } else {
      var rest := PrettyEntries(es[1..], indenter, level);
      assert first + (",\n" + rest) == first + ",\n" + rest;
    }
  }

  lemma {:induction false} ItemsCons(es: seq<Entry>, indenter: string, level: nat)
    requires es != []
    ensures var i := ItemOf(es[0], indenter, level);
            Trimmed(Lines(ItemsOf(es, indenter, level)))
            == if |es| == 1 then i.pad + JsonRoundTrip.Core(i)
               else i.pad + JsonRoundTrip.Core(i) + ",\n" + Trimmed(Lines(ItemsOf(es[1..], indenter, level)))
  {
    JsonRoundTrip.TrimmedLines(ItemsOf(es, indenter, level));
    assert ItemsOf(es, indenter, level)[1..] == ItemsOf(es[1..], indenter, level);
  }

  lemma {:induction false} ShallowCons(es: seq<Entry>, indenter: string, level: nat)
    requires es != []
    ensures Shallow(indenter, level + InsideAll(es)) <==>
            Shallow(indenter, level + InsideOf(es[0])) && (|es| > 1 ==> Shallow(indenter, level + InsideAll(es[1..])))
  {
    assert |es| == 1 ==> InsideAll(es[1..]) == 0;
  }

  lemma {:induction false} EntriesNear(es: seq<Entry>, indenter: string, level: nat)
    requires es != [] && level + HeightAll(es) <= DEEPEST
    ensures Near(Shallow(indenter, level + InsideAll(es)),
                 Trimmed(Lines(ItemsOf(es, indenter, level))), PrettyEntries(es, indenter, level))
    decreases es, 2
  {
    var i := ItemOf(es[0], indenter, level);
    ItemsCons(es, indenter, level);
    PrettyCons(es, indenter, level);
    ShallowCons(es, indenter, level);
    EntryNear(es[0], indenter, level);
    if |es| > 1 {
      EntriesNear(es[1..], indenter, level);
      NearThen(Shallow(indenter, level + InsideOf(es[0])), i.pad + JsonRoundTrip.Core(i),
               PrettyEntry(es[0], indenter, level),
               Shallow(indenter, level + InsideAll(es[1..])), Trimmed(Lines(ItemsOf(es[1..], indenter, level))),
               PrettyEntries(es[1..], indenter, level), ",\n");
    }
  }

  lemma {:induction false} PrettyEntryIs(e: Entry, indenter: string, level: nat)
    ensures PrettyEntry(e, indenter, level) == Copies(indenter, level) + Key(e.name) + Pretty(e.value, indenter, level)
  {
  }

  lemma {:induction false} ItemIs(i: Item)
    ensures i.pad + JsonRoundTrip.Core(i) == i.pad + Key(i.name) + Render(i.doc)
  {
    JsonRoundTrip.Cat(i.pad, Key(i.name), Render(i.doc));
  }

  lemma {:induction false} ShallowEntry(e: Entry, indenter: string, level: nat)
    ensures Shallow(indenter, level + InsideOf(e)) <==> Shallow(indenter, level) && Deep(e.value, indenter, level)
  {
  }

  lemma {:induction false} EntryNear(e: Entry, indenter: string, level: nat)
    requires level + HeightOf(e) <= DEEPEST
    ensures var i := ItemOf(e, indenter, level);
            Near(Shallow(indenter, level + InsideOf(e)), i.pad + JsonRoundTrip.Core(i), PrettyEntry(e, indenter, level))
    decreases e, 1
  {
    var i := ItemOf(e, indenter, level);
    PadNear(indenter, level);
    ValueNear(e.value, indenter, level);
    NearThen(Shallow(indenter, level), i.pad, Copies(indenter, level),
             Deep(e.value, indenter, level), Render(i.doc), Pretty(e.value, indenter, level), Key(e.name));
    ItemIs(i);
    PrettyEntryIs(e, indenter, level);
    ShallowEntry(e, indenter, level);
  }

  // ---------------------------------------------------------------- main results

  /** For every document of at most 256 levels, whichever calls write it, and all indenters of
      white space set before, the last of which is in force: the text is the printed document
      exactly when the indenter is empty or no entry lies inside 256 containers. There the 8-bit
      depth reads zero, and the entry is not indented. */
  lemma {:induction false} PrettyIff(setup: seq<Call>, es: seq<Entry>, body: seq<Call>)
    requires AllSetup(setup) && AllFit(Object, es) && WritesAll(es, body) && Height(Compound(Object, es)) <= DEEPEST
    ensures |PerformAll(Init(), setup + body).text| >= 2
    ensures var doc, indenter := Compound(Object, es), IndenterAfter("    ", setup);
            EndAll(PerformAll(Init(), setup + body)).text == Pretty(doc, indenter, 0)
            <==> indenter == "" || Inside(doc) <= 255
  {
    DocumentText(setup, es, body);
    ValueNear(Compound(Object, es), IndenterAfter("    ", setup), 0);
  }

  /** On the buffer: whichever calls write a document, and for all indenters of white space. What
      the caller reads denotes the document exactly when there was room for every indentation, it
      is at most 256 containers deep, its names need no escaping and its strings are ASCII. With
      room it is, within 256 levels, the printed document, under the condition of `PrettyIff`. */
  method PrintDocument(setup: seq<Call>, es: seq<Entry>, body: seq<Call>) returns (text: Option<string>)
    requires AllSetup(setup) && AllFit(Object, es) && WritesAll(es, body)
    ensures var doc := Compound(Object, es);
            text.Some? && ReadText(text.value) == Some(doc) <==>
            && JsonIndent.RoomyRun(Init(), setup + body) && Height(doc) <= DEEPEST
            && PlainNames(doc) && AsciiValue(doc)
    ensures var doc, indenter := Compound(Object, es), IndenterAfter("    ", setup);
            JsonIndent.RoomyRun(Init(), setup + body) && Height(doc) <= DEEPEST ==>
              (text == Some(Pretty(doc, indenter, 0)) <==> indenter == "" || Inside(doc) <= 255)
  {
    DocumentBuilds(setup, es, body);
    JsonLimits.PlainRoot([Frame(None, Object, es)]);
    if Height(Compound(Object, es)) <= DEEPEST {
      PrettyIff(setup, es, body);
    }
    text := JsonPrinter.Print(setup + body);
  }
}
