/**
  What every disciplined run of writer calls keeps: the text is, at each moment, the rendering
  of the containers still open.
 */
module JsonRuns {
  import opened Common
  import opened JsonReader
  import opened JsonText
  import opened JsonLayout

  lemma {:induction false} RepeatIsSpace(ind: string, n: nat)
    requires AllSpace(ind)
    ensures AllSpace(Repeat(ind, n))
  {
    if n > 0 {
      RepeatIsSpace(ind, n - 1);
    }
  }

  /** The writer's state agrees with the layout of the document under construction. */
  ghost predicate Shows(w: Writer, sections: seq<Section>) {
    && ValidStack(Frames(sections)) && LaidSections(sections)
    && sections[0].pad == "" && w.text == OpenText(sections)
    && w.depth == Wrapped(|sections|)
    && !w.skipTabs && AllSpace(w.indenter)
  }

  // ---------------------------------------------------------------- text

  lemma {:induction false} LinesAppend(items: seq<Item>, i: Item)
    ensures Lines(items + [i]) == Lines(items) + Line(i)
  {
    if items == [] {
      assert [i][1..] == [];
      assert items + [i] == [i];
    } else {
      assert (items + [i])[1..] == items[1..] + [i];
      LinesAppend(items[1..], i);
    }
  }

  lemma {:induction false} CatEnd(a: string, b: string, c: string)
    ensures a + (b + c) == a + b + c
  {
  }

  lemma {:induction false} OpenTextPut(sections: seq<Section>, i: Item)
    requires |sections| >= 1
    ensures OpenText(Put(sections, i)) == OpenText(sections) + Line(i)
  {
    var s, put := Last(sections), Put(sections, i);
    LinesAppend(s.items, i);
    assert put[..|put| - 1] == sections[..|sections| - 1] && Header(Last(put)) == Header(s);
    CatEnd(OpenText(sections[..|sections| - 1]) + Header(s), Lines(s.items), Line(i));
  }

  lemma {:induction false} OpenTextPush(sections: seq<Section>, s: Section)
    requires s.items == []
    ensures OpenText(sections + [s]) == OpenText(sections) + Header(s)
  {
    assert (sections + [s])[..|sections|] == sections;
  }

  /** The two characters the closing code inspects: an open container's text ends with its
      bracket and a newline when it has no entries, with a comma and a newline when it has. */
  lemma {:induction false} LinesEnd(items: seq<Item>)
    requires items != []
    ensures var s := Lines(items); s[|s| - 2..] == ",\n"
  {
    var n := |items| - 1;
    assert items == items[..n] + [items[n]];
    LinesAppend(items[..n], items[n]);
    LineEnd(items[n]);
    var s, line := Lines(items), Line(items[n]);
    assert s[|s| - 2..] == line[|line| - 2..];
  }

  lemma {:induction false} LineEnd(i: Item)
    ensures var line := Line(i); line[|line| - 2..] == ",\n"
  {
  }

  lemma {:induction false} HeaderEnd(s: Section)
    ensures var h := Header(s); |h| >= 2 && h[|h| - 2..] == Opener(s.kind) + "\n"
  {
  }

  lemma {:induction false} EndOfCat(a: string, b: string)
    requires |b| >= 2
    ensures (a + b)[|a + b| - 2..] == b[|b| - 2..]
  {
  }

  lemma {:induction false} OpenTextEnd(sections: seq<Section>)
    requires |sections| >= 1
    ensures var s := OpenText(sections);
            |s| >= 2 && s[|s| - 2..] == (if Last(sections).items == [] then Opener(Last(sections).kind) else ",") + "\n"
  {
    var s, outer := Last(sections), OpenText(sections[..|sections| - 1]);
    HeaderEnd(s);
    if s.items == [] {
      EndOfCat(outer, Header(s));
      assert OpenText(sections) == outer + Header(s);
    } else {
      LinesEnd(s.items);
      EndOfCat(outer + Header(s), Lines(s.items));
    }
  }

  /** The invariant the closing code relies on: whatever the calls so far, the text ends with
      an opening bracket or a comma, and a newline. */
  lemma {:induction false} OpenTextEndsEditable(w: Writer, sections: seq<Section>)
    requires Shows(w, sections)
    ensures |w.text| >= 2 && w.text[|w.text| - 2..] in ["{\n", "[\n", ",\n"]
    ensures w.text[|w.text| - 2] == ',' <==> Last(sections).items != []
  {
    OpenTextEnd(sections);
    var tail := w.text[|w.text| - 2..];
    assert tail[0] == w.text[|w.text| - 2];
    if Last(sections).items != [] { assert tail == ",\n"; }
    else if Last(sections).kind.Object? { assert tail == "{\n"; }
    else { assert tail == "[\n"; }
  }

  // ---------------------------------------------------------------- closing

  /** How the closing code edits the text of an innermost container: without entries, it
      removes the newline after the bracket. */
  lemma {:induction false} EndEmptyText(w: Writer, before: string, opener: char, closer: string)
    requires opener == '{' || opener == '['
    requires w.text == before + [opener] + "\n"
    ensures |w.text| >= 2
    ensures End(w, closer).text == before + [opener] + closer + (if w.depth != 1 then ",\n" else "")
  {
    var n := |w.text|;
    assert w.text[n - 2] == opener;
    assert w.text[..n - 1] == before + [opener];
  }

  /** With entries, it replaces the last entry's comma and newline by a newline. */
  lemma {:induction false} EndLinesText(w: Writer, before: string, lines: string, closer: string)
    requires |lines| >= 2 && lines[|lines| - 2..] == ",\n"
    requires w.text == before + lines
    ensures |w.text| >= 2
    ensures End(w, closer).text
         == before + Trimmed(lines) + "\n" + Repeat(w.indenter, Dec(w.depth)) + closer
            + (if w.depth != 1 then ",\n" else "")
  {
    var n := |w.text|;
    assert lines[|lines| - 2] == lines[|lines| - 2..][0];
    assert w.text[n - 2] == ',';
    assert w.text[..n - 2] == before + Trimmed(lines);
  }

  /** What stands before the opening bracket of the innermost container. */
  function Before(sections: seq<Section>): string
    requires |sections| >= 1
  {
    OpenText(sections[..|sections| - 1]) + Last(sections).pad + Key(Last(sections).name)
  }

  lemma {:induction false} Assoc(a: string, b: string, c: string, d: string, e: string)
    ensures a + (b + c + d + e) == a + b + c + d + e
    ensures a + b + (c + d + e) == a + b + c + d + e
  {
  }

  lemma {:induction false} OpenTextSplit(sections: seq<Section>)
    requires |sections| >= 1
    ensures OpenText(sections) == Before(sections) + Opener(Last(sections).kind) + "\n" + Lines(Last(sections).items)
  {
    var outer, s := sections[..|sections| - 1], Last(sections);
    Assoc(OpenText(outer), s.pad, Key(s.name), Opener(s.kind), "\n");
  }

  lemma {:induction false} Regroup(a: string, b: string, c: string, d: string, e: string, f: string)
    ensures a + b + c + d + c + e + f == a + (b + c + d + c + e + f)
  {
  }

  /** What closing a container leaves, given what stands before its opening bracket. */
  lemma {:induction false} EndText(w: Writer, keyed: string, kind: Kind, items: seq<Item>)
    requires w.text == keyed + Opener(kind) + "\n" + Lines(items)
    ensures |w.text| >= 2
    ensures End(w, Closer(kind)).text
         == keyed + Render(Group(kind, items, Repeat(w.indenter, Dec(w.depth)))) + (if w.depth != 1 then ",\n" else "")
  {
    var lines, close := Lines(items), Repeat(w.indenter, Dec(w.depth));
    if items == [] {
      assert w.text == keyed + Opener(kind) + "\n";
      EndEmptyText(w, keyed, Opener(kind)[0], Closer(kind));
      assert keyed + Opener(kind) + Closer(kind) == keyed + (Opener(kind) + Closer(kind));
    } else {
      LinesEnd(items);
      EndLinesText(w, keyed + Opener(kind) + "\n", lines, Closer(kind));
      Regroup(keyed, Opener(kind), "\n", Trimmed(lines), close, Closer(kind));
    }
  }

  lemma {:induction false} EndFrame(w: Writer, closer: string)
    requires |w.text| >= 2
    ensures var w' := End(w, closer); w'.indenter == w.indenter && w'.depth == Dec(w.depth) && !w'.skipTabs
  {
  }

  lemma {:induction false} ShutText(sections: seq<Section>, close: string)
    requires |sections| >= 2
    ensures OpenText(Shut(sections, close))
         == Before(sections) + Render(Group(Last(sections).kind, Last(sections).items, close)) + ",\n"
  {
    var s, outer := Last(sections), sections[..|sections| - 1];
    var i := Item(s.pad, s.name, Group(s.kind, s.items, close));
    OpenTextPut(outer, i);
    Assoc(OpenText(outer), s.pad, Key(s.name), Render(i.doc), ",\n");
  }

  // ---------------------------------------------------------------- what calls keep

  lemma {:induction false} AppendFits(stack: seq<Frame>, e: Entry)
    requires ValidStack(stack) && Fits(Top(stack).kind, e.name, e.value) && Expressible(e.value)
    ensures ValidStack(Append(stack, e))
  {
  }

  lemma {:induction false} PushFits(stack: seq<Frame>, f: Frame)
    requires ValidStack(stack) && f.entries == [] && Fits(Top(stack).kind, f.name, Compound(f.kind, []))
    ensures ValidStack(stack + [f])
  {
  }

  lemma {:induction false} ClosedFits(stack: seq<Frame>)
    requires ValidStack(stack) && |stack| >= 2
    ensures ValidStack(stack[..|stack| - 1]) && ValidStack(Closed(stack))
  {
    var f, outer := Top(stack), stack[..|stack| - 1];
    assert Fits(stack[|stack| - 2].kind, f.name, Compound(f.kind, f.entries));
    AppendFits(outer, Entry(f.name, Compound(f.kind, f.entries)));
  }

  /** Every legal call leaves a proper stack, at any depth. */
  lemma {:induction false} BuildFits(stack: seq<Frame>, call: Call)
    requires ValidStack(stack) && Legal(stack, call)
    ensures ValidStack(Build(stack, call))
  {
    match call
    case AddStr(name, s) => AppendFits(stack, Entry(name, Str(s)));
    case AddStrOrNull(name, s) => AppendFits(stack, Entry(name, StrOrNull(s)));
    case AddInt(name, n) => AppendFits(stack, Entry(name, Number(n, 0)));
    case AddBool(name, b) => AppendFits(stack, Entry(name, Bool(b)));
    case AddNull(name) => AppendFits(stack, Entry(name, Null));
    case AddArray(name) => PushFits(stack, Frame(Some(name), Array, []));
    case AddObject(name) => PushFits(stack, Frame(name, Object, []));
    case EndArray => ClosedFits(stack);
    case EndObject => ClosedFits(stack);
    case SetIndenter(_) =>
    case IndentSz(_) =>
  }

  lemma {:induction false} PutLaid(sections: seq<Section>, i: Item)
    requires |sections| >= 1 && LaidSections(sections) && AllSpace(i.pad) && Laid(i.doc)
    ensures LaidSections(Put(sections, i))
  {
  }

  lemma {:induction false} PushValid(sections: seq<Section>, s: Section)
    requires |sections| >= 1 && ValidStack(Frames(sections)) && LaidSections(sections)
    requires AllSpace(s.pad) && s.items == [] && Fits(Last(sections).kind, s.name, Compound(s.kind, []))
    ensures ValidStack(Frames(sections + [s])) && LaidSections(sections + [s])
  {
    TopFrame(sections);
    PushFits(Frames(sections), FrameOf(s));
    PushFrames(sections, s);
  }

  lemma {:induction false} ShutLaid(sections: seq<Section>, close: string)
    requires |sections| >= 2 && LaidSections(sections) && AllSpace(close)
    ensures LaidSections(Shut(sections, close))
  {
    var s, outer := Last(sections), sections[..|sections| - 1];
    assert LaidSections(outer);
    PutLaid(outer, Item(s.pad, s.name, Group(s.kind, s.items, close)));
  }

  /** Ending a container leaves the writer in agreement with the document exactly when the
      8-bit depth it returns to is not zero: at the 257th level the depth has wrapped, the
      container is taken for the root and its comma is dropped. */
  lemma {:induction false} EndKeepsIff(w: Writer, sections: seq<Section>)
    requires Shows(w, sections) && |sections| >= 2
    ensures |w.text| >= 2
    ensures Shows(End(w, Closer(Last(sections).kind)), Shut(sections, Repeat(w.indenter, Dec(w.depth))))
            <==> Wrapped(|sections| - 1) != 0
  {
    var s, close := Last(sections), Repeat(w.indenter, Dec(w.depth));
    OpenTextSplit(sections);
    EndText(w, Before(sections), s.kind, s.items);
    EndFrame(w, Closer(s.kind));
    ShutText(sections, close);
    ClosedFits(Frames(sections));
    ShutFrames(sections, close);
    RepeatIsSpace(w.indenter, Dec(w.depth));
    ShutLaid(sections, close);
    var body := Before(sections) + Render(Group(s.kind, s.items, close));
    assert w.depth != 1 <==> Wrapped(|sections| - 1) != 0;
    assert |body + ""| != |body + ",\n"|;
  }

  lemma {:induction false} ScalarText(w: Writer, name: Option<string>, v: Value)
    requires !v.Compound?
    ensures AddScalar(w, name, v).text == w.text + Line(Item(Pad(w), name, Leaf(v)))
  {
    Assoc(w.text, Pad(w), Key(name), Scalar(v), ",\n");
  }

  lemma {:induction false} BeginText(w: Writer, name: Option<string>, kind: Kind)
    ensures Begin(w, name, kind).text == w.text + Header(Section(Pad(w), name, kind, []))
  {
    Assoc(w.text, Pad(w), Key(name), Opener(kind), "\n");
  }

  lemma {:induction false} ScalarKeeps(w: Writer, sections: seq<Section>, name: Option<string>, v: Value)
    requires Shows(w, sections) && !v.Compound? && Expressible(v) && Fits(Last(sections).kind, name, v)
    ensures Shows(AddScalar(w, name, v), Put(sections, Item(Pad(w), name, Leaf(v))))
  {
    var i := Item(Pad(w), name, Leaf(v));
    TopFrame(sections);
    LeafEntry(i);
    AppendFits(Frames(sections), Entry(name, v));
    PutFrames(sections, i);
    RepeatIsSpace(w.indenter, w.depth);
    PutLaid(sections, i);
    OpenTextPut(sections, i);
    ScalarText(w, name, v);
  }

  lemma {:induction false} BeginKeeps(w: Writer, sections: seq<Section>, name: Option<string>, kind: Kind)
    requires Shows(w, sections) && Fits(Last(sections).kind, name, Compound(kind, []))
    ensures Shows(Begin(w, name, kind), sections + [Section(Pad(w), name, kind, [])])
  {
    var s := Section(Pad(w), name, kind, []);
    RepeatIsSpace(w.indenter, w.depth);
    PushValid(sections, s);
    PushShows(w, sections, s);
  }

  lemma {:induction false} PushShows(w: Writer, sections: seq<Section>, s: Section)
    requires Shows(w, sections) && s.items == [] && s.pad == Pad(w)
    requires ValidStack(Frames(sections + [s])) && LaidSections(sections + [s])
    ensures Shows(Begin(w, s.name, s.kind), sections + [s])
  {
    OpenTextPush(sections, s);
    BeginText(w, s.name, s.kind);
    assert (sections + [s])[0] == sections[0];
  }

  lemma {:induction false} SpacesAreSpace(n: nat)
    ensures AllSpace(Spaces(n))
  {
  }

  /** One legal call keeps the writer and the document in agreement. */
  lemma {:induction false} StepKeeps(w: Writer, sections: seq<Section>, call: Call)
    requires Shows(w, sections) && Legal(Frames(sections), call) && |sections| <= DEEPEST
    ensures |w.text| >= 2
    ensures Shows(Perform(w, call), Lay(w, sections, call))
    ensures Frames(Lay(w, sections, call)) == Build(Frames(sections), call)
  {
    OpenTextEnd(sections);
    LayBuilds(w, sections, call);
    match call
    case AddStr(name, s) => ScalarKeeps(w, sections, name, Str(s));
    case AddStrOrNull(name, s) => ScalarKeeps(w, sections, name, StrOrNull(s));
    case AddInt(name, n) => ScalarKeeps(w, sections, name, Number(n, 0));
    case AddBool(name, b) => ScalarKeeps(w, sections, name, Bool(b));
    case AddNull(name) => ScalarKeeps(w, sections, name, Null);
    case AddArray(name) => BeginKeeps(w, sections, Some(name), Array);
    case AddObject(name) => BeginKeeps(w, sections, name, Object);
    case EndArray => EndKeepsIff(w, sections);
    case EndObject => EndKeepsIff(w, sections);
    case SetIndenter(_) =>
    case IndentSz(size) => if 1 <= size <= 16 { SpacesAreSpace(size); }
  }

  // ---------------------------------------------------------------- runs

  /** Over every legal run with no more than 256 containers open at once, whatever indenters are
      set on the way, the text renders the containers then open. */
  lemma {:induction false} RunKeeps(w: Writer, sections: seq<Section>, calls: seq<Call>) returns (after: seq<Section>)
    requires Shows(w, sections) && LegalRun(Frames(sections), calls) && Peak(Frames(sections), calls) <= DEEPEST
    ensures Shows(PerformAll(w, calls), after) && Frames(after) == BuildAll(Frames(sections), calls)
    decreases |calls|
  {
    if calls == [] {
      after := sections;
    } else {
      StepKeeps(w, sections, calls[0]);
      after := RunKeeps(Perform(w, calls[0]), Lay(w, sections, calls[0]), calls[1..]);
    }
  }

  const BLANK := [Section("", None, Object, [])]

  lemma {:induction false} InitShows()
    ensures Shows(Init(), BLANK) && Frames(BLANK) == ROOT
  {
    assert BLANK[..0] == [];
    assert OpenText(BLANK) == "" + "{\n" + "";
    assert Frames(BLANK)[0] == ROOT[0];
  }

  /** When only the root is open, ending the JSON leaves the rendering of the whole document. */
  lemma {:induction false} EndAllRenders(w: Writer, sections: seq<Section>)
    requires Shows(w, sections) && |sections| == 1
    ensures |w.text| >= 2
    ensures EndAll(w).text == Render(Group(Object, sections[0].items, ""))
  {
    OpenTextSplit(sections);
    assert Frames(sections)[0] == FrameOf(sections[0]);
    assert Before(sections) == "" + "" + "";
    EndText(w.(depth := 1), "", Object, sections[0].items);
    var d := Group(Object, sections[0].items, "");
    assert "" + Render(d) + "" == Render(d);
  }
}
