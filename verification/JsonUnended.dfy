/**
  Ending the JSON with containers still open: only the innermost is closed, with a brace, so
  the text is no JSON text.
 */
module JsonUnended {
  import opened Common
  import opened JsonReader
  import opened JsonText
  import opened JsonLayout
  import opened JsonRoundTrip
  import JsonRuns
  import JsonIndent
  import JsonLimits

  // ---------------------------------------------------------------- the text

  /** The innermost container, closed with a brace whatever its bracket. */
  function Unended(kind: Kind, items: seq<Item>): string {
    if items == [] then Opener(kind) + "}" else Opener(kind) + "\n" + Trimmed(Lines(items)) + "\n" + "" + "}"
  }

  /** Ending the JSON leaves the text in front of the innermost container alone. */
  lemma {:induction false} EndAllText(w: Writer, sections: seq<Section>)
    requires JsonRuns.Shows(w, sections)
    ensures |w.text| >= 2
    ensures EndAll(w).text == JsonRuns.Before(sections) + Unended(Last(sections).kind, Last(sections).items)
  {
    var s, before, root := Last(sections), JsonRuns.Before(sections), w.(depth := 1);
    JsonRuns.OpenTextSplit(sections);
    JsonRuns.OpenTextEnd(sections);
    if s.items == [] {
      assert w.text == before + Opener(s.kind) + "\n";
      JsonRuns.EndEmptyText(root, before, Opener(s.kind)[0], "}");
      Cat(before, Opener(s.kind), "}");
    } else {
      JsonRuns.LinesEnd(s.items);
      JsonRuns.EndLinesText(root, before + Opener(s.kind) + "\n", Lines(s.items), "}");
      CatFive(before, Opener(s.kind), "\n", Trimmed(Lines(s.items)), "}");
    }
  }

  lemma {:induction false} CatFive(a: string, b: string, c: string, d: string, e: string)
    ensures a + b + c + d + c + "" + e + "" == a + (b + c + d + c + "" + e)
  {
  }

  /** The text from the opening bracket of section `k` on, when the innermost one is `last`. */
  function From(sections: seq<Section>, k: nat, last: string): string
    requires k < |sections|
    decreases |sections| - k
  {
    if k + 1 == |sections| then last
    else
      var next := sections[k + 1];
      Opener(sections[k].kind)
      + ("\n" + (Lines(sections[k].items) + (next.pad + (Key(next.name) + From(sections, k + 1, last)))))
  }

  lemma {:induction false} CatSection(before: string, opener: string, lines: string,
                                      pad: string, key: string, last: string)
    ensures before + opener + "\n" + lines + pad + key + last
         == before + (opener + ("\n" + (lines + (pad + (key + last)))))
  {
  }

  lemma {:induction false} FromText(sections: seq<Section>, k: nat, last: string)
    requires k < |sections|
    ensures JsonRuns.Before(sections) + last == JsonRuns.Before(sections[..k + 1]) + From(sections, k, last)
    decreases |sections| - k
  {
    if k + 1 == |sections| {
      assert sections[..k + 1] == sections;
    } else {
      FromText(sections, k + 1, last);
      var outer, inner := sections[..k + 1], sections[..k + 2];
      assert inner[..k + 1] == outer;
      JsonRuns.OpenTextSplit(outer);
      CatSection(JsonRuns.Before(outer), Opener(sections[k].kind), Lines(sections[k].items),
                 sections[k + 1].pad, Key(sections[k + 1].name), From(sections, k + 1, last));
    }
  }

  // ---------------------------------------------------------------- reading it

  /** Input that starts neither with white space nor with the closing bracket. */
  predicate Starts(kind: Kind, s: string) {
    s != "" && !IsSpace(s[0]) && !StartsWith(s, Closer(kind))
  }

  /** ... and from which no entries can be read. */
  predicate Bad(kind: Kind, s: string) {
    Starts(kind, s) && ReadEntries(kind, s).Fail?
  }

  lemma {:induction false} ValueStarts(kind: Kind, s: string)
    requires ValueStart(s)
    ensures Starts(kind, s)
  {
    ValueNotCloser(kind, s);
  }

  lemma {:induction false} BadCompound(kind: Kind, s: string)
    requires Bad(kind, SkipSpace(s))
    ensures ReadValue(Opener(kind) + s) == Fail
  {
    CompoundStart(kind, s);
  }

  /** A value that cannot be read, or after which nothing is left. */
  predicate Stuck(s: string) {
    ReadValue(s).Fail? || ReadValue(s).rest == ""
  }

  /** Nothing that may follow an entry follows. */
  lemma {:induction false} StopsShort(kind: Kind, s: string, e: Entry, s': string, r: string, t: string)
    requires ReadName(kind, s) == Ok(e.name, s') && ReadValue(s') == Ok(e.value, r)
    requires SkipSpace(r) == t && !StartsWith(t, Closer(kind)) && !StartsWith(t, ",")
    ensures ReadEntries(kind, s).Fail?
  {
  }

  lemma {:induction false} NoValue(kind: Kind, s: string, name: Option<string>, s': string)
    requires ReadName(kind, s) == Ok(name, s') && ReadValue(s').Fail?
    ensures ReadEntries(kind, s).Fail?
  {
  }

  lemma {:induction false} EmptyStops(kind: Kind, r: string)
    requires r == ""
    ensures SkipSpace(r) == r && !StartsWith(r, Closer(kind)) && !StartsWith(r, ",")
  {
  }

  lemma {:induction false} NoEntries(kind: Kind, s: string, name: Option<string>, s': string, v: Parsed<Value>)
    requires ReadName(kind, s) == Ok(name, s') && v == ReadValue(s') && (v.Ok? ==> v.rest == "")
    ensures ReadEntries(kind, s).Fail?
  {
    if v.Ok? {
      EmptyStops(kind, v.rest);
      StopsShort(kind, s, Entry(name, v.value), s', v.rest, v.rest);
    } else {
      NoValue(kind, s, name, s');
    }
  }

  /** The entry such a value belongs to. */
  lemma {:induction false} StuckEntry(kind: Kind, name: Option<string>, value: string)
    requires (kind.Object? <==> name.Some?) && (name.Some? ==> Plain(name.value)) && ValueStart(value) && Stuck(value)
    ensures Bad(kind, Key(name) + value)
  {
    ReadKey(kind, name, value);
    NoEntries(kind, Key(name) + value, name, value, ReadValue(value));
    ValueStarts(kind, Key(name) + value);
  }

  lemma {:induction false} CommaThenBad(kind: Kind, s: string, e: Entry, s': string, t: string)
    requires ReadName(kind, s) == Ok(e.name, s') && ReadValue(s') == Ok(e.value, t)
    requires SkipSpace(t) == t && StartsWith(t, ",") && !StartsWith(t, Closer(kind))
    requires ReadEntries(kind, SkipSpace(t[1..])).Fail?
    ensures ReadEntries(kind, s).Fail?
  {
  }

  lemma {:induction false} CatLine(pad: string, core: string, lines: string, rest: string)
    ensures "\n" + (pad + core + ",\n" + lines + rest) == ("\n" + pad) + (core + ("," + ("\n" + (lines + rest))))
  {
    assert ",\n" == "," + "\n";
  }

  lemma {:induction false} LineSkips(i: Item, lines: string, rest: string)
    requires AllSpace(i.pad) && ValueStart(Core(i) + ("," + ("\n" + (lines + rest))))
    ensures SkipSpace("\n" + (Line(i) + lines + rest)) == Core(i) + ("," + ("\n" + (lines + rest)))
  {
    TrimmedLine(i);
    CatLine(i.pad, Core(i), lines, rest);
    SkipSpaceOver("\n" + i.pad, Core(i) + ("," + ("\n" + (lines + rest))));
  }

  /** Reading an item stops where the item ends. */
  lemma {:induction false} ItemReads(kind: Kind, i: Item, after: string) returns (v: Value)
    requires Readable(kind, i) && Stops(after)
    ensures ValueStart(Core(i) + after)
    ensures ReadName(kind, Core(i) + after) == Ok(i.name, Render(i.doc) + after)
    ensures ReadValue(Render(i.doc) + after) == Ok(v, after)
  {
    v := SeenEntry(EntryOf(i)).value;
    ReadEntryStart(kind, i, after);
    ReadItemValue(kind, i, after);
  }

  lemma {:induction false} CommaStops(tail: string)
    ensures Stops("," + tail)
  {
  }

  /** An item, its comma, and something bad. */
  lemma {:induction false} ItemFails(kind: Kind, i: Item, tail: string)
    requires Readable(kind, i) && ReadEntries(kind, SkipSpace(tail)).Fail?
    ensures ValueStart(Core(i) + ("," + tail)) && ReadEntries(kind, Core(i) + ("," + tail)).Fail?
  {
    CommaStops(tail);
    var v := ItemReads(kind, i, "," + tail);
    CommaStarts(kind, tail);
    CommaThenBad(kind, Core(i) + ("," + tail), Entry(i.name, v), Render(i.doc) + ("," + tail), "," + tail);
  }

  /** One line in front of something bad. */
  lemma {:induction false} LineFails(kind: Kind, i: Item, lines: string, rest: string)
    requires Readable(kind, i) && Bad(kind, SkipSpace("\n" + (lines + rest)))
    ensures Bad(kind, SkipSpace("\n" + (Line(i) + lines + rest)))
  {
    var tail := "\n" + (lines + rest);
    ItemFails(kind, i, tail);
    LineSkips(i, lines, rest);
    ValueStarts(kind, Core(i) + ("," + tail));
  }

  lemma {:induction false} PadSkips(kind: Kind, pad: string, bad: string)
    requires AllSpace(pad) && Starts(kind, bad)
    ensures SkipSpace("\n" + (pad + bad)) == bad
  {
    assert "\n" + (pad + bad) == ("\n" + pad) + bad;
    SkipSpaceOver("\n" + pad, bad);
  }

  lemma {:induction false} CatEmpty(rest: string)
    ensures "" + rest == rest
  {
  }

  /** Any number of lines in front of something bad. */
  lemma {:induction false} LinesFail(kind: Kind, items: seq<Item>, rest: string)
    requires AllReadable(kind, items) && Bad(kind, SkipSpace("\n" + rest))
    ensures Bad(kind, SkipSpace("\n" + (Lines(items) + rest)))
    decreases |items|
  {
    if items == [] {
      CatEmpty(rest);
    } else {
      LinesFail(kind, items[1..], rest);
      LineFails(kind, items[0], Lines(items[1..]), rest);
    }
  }

  // ---------------------------------------------------------------- the innermost container

  lemma {:induction false} BraceStuck()
    ensures Bad(Array, "}")
  {
    var s := "}";
    NotPrefix(s, "null");
    NotPrefix(s, "true");
    NotPrefix(s, "false");
    NotPrefix(s, "\"");
    NotPrefix(s, "{");
    NotPrefix(s, "[");
    NotPrefix(s, "]");
    assert DigitRun(s) == 0;
  }

  lemma {:induction false} BraceAfter(newline: string, brace: string)
    requires newline != "" && AllSpace(newline) && brace != "" && brace[0] == '}'
    ensures SkipSpace(newline + brace) == brace && Stops(newline + brace)
    ensures !StartsWith(brace, "]") && !StartsWith(brace, ",")
  {
    SkipSpaceOver(newline, brace);
    NotPrefix(brace, "]");
    NotPrefix(brace, ",");
  }

  lemma {:induction false} BraceNext()
    ensures SkipSpace("\n}") == "}" && !StartsWith("}", "]") && !StartsWith("}", ",") && Stops("\n}")
  {
    var newline, brace := "\n", "}";
    BraceAfter(newline, brace);
    assert "\n}" == newline + brace;
  }

  /** An array's last item, and a brace. */
  lemma {:induction false} LastThenBrace(i: Item)
    requires Readable(Array, i)
    ensures Bad(Array, Core(i) + "\n}")
  {
    BraceNext();
    var v := ItemReads(Array, i, "\n}");
    StopsShort(Array, Core(i) + "\n}", Entry(i.name, v), Render(i.doc) + "\n}", "\n}", "}");
    ValueStarts(Array, Core(i) + "\n}");
  }

  lemma {:induction false} ArrayText(items: seq<Item>, i: Item)
    ensures Unended(Array, items + [i]) == "[" + ("\n" + (Lines(items) + (i.pad + (Core(i) + "\n}"))))
  {
    JsonRuns.LinesAppend(items, i);
    TrimLast(Lines(items), Line(i));
    TrimmedLine(i);
    CatArray(Lines(items), i.pad, Core(i));
  }

  lemma {:induction false} CatArray(lines: string, pad: string, core: string)
    ensures "[" + "\n" + (lines + (pad + core)) + "\n" + "" + "}" == "[" + ("\n" + (lines + (pad + (core + "\n}"))))
  {
    assert "\n}" == "\n" + "}";
  }

  /** A brace does not close an array. */
  lemma {:induction false} ArrayFails(items: seq<Item>)
    requires AllReadable(Array, items)
    ensures ReadValue(Unended(Array, items)) == Fail
  {
    if items == [] {
      BraceStuck();
      SkipNoSpace("}");
      BadCompound(Array, "}");
    } else {
      var n := |items| - 1;
      var front, i := items[..n], items[n];
      assert items == front + [i];
      ArrayText(front, i);
      LastThenBrace(i);
      PadSkips(Array, i.pad, Core(i) + "\n}");
      LinesFail(Array, front, i.pad + (Core(i) + "\n}"));
      BadCompound(Array, "\n" + (Lines(front) + (i.pad + (Core(i) + "\n}"))));
    }
  }

  /** A section whose lines the reader can take. */
  ghost predicate ReadableSection(s: Section) {
    var d := Group(s.kind, s.items, "");
    AllReadable(s.kind, s.items) && Laid(d) && Expressible(ValueOf(d)) && PlainNames(ValueOf(d))
  }

  /** It does close an object, and then the text is over. */
  lemma {:induction false} InnermostStuck(s: Section)
    requires ReadableSection(s)
    ensures ValueStart(Unended(s.kind, s.items)) && Stuck(Unended(s.kind, s.items))
  {
    var text := Unended(s.kind, s.items);
    assert text[0] == Opener(s.kind)[0];
    if s.kind.Array? {
      ArrayFails(s.items);
    } else {
      var d := Group(Object, s.items, "");
      assert text == Render(d) && text + "" == text;
      ReadRendered(d, "");
    }
  }

  // ---------------------------------------------------------------- all of it

  ghost predicate Nested(outer: Section, inner: Section) {
    AllSpace(inner.pad) && (outer.kind.Object? <==> inner.name.Some?) && PlainName(inner.name)
  }

  /** What a reader needs of open containers. */
  ghost predicate ReadableSections(sections: seq<Section>) {
    && (forall k :: 0 <= k < |sections| ==> ReadableSection(sections[k]))
    && (forall k :: 0 < k < |sections| ==> Nested(sections[k - 1], sections[k]))
  }

  lemma {:induction false} ShownReadable(w: Writer, sections: seq<Section>)
    requires JsonRuns.Shows(w, sections) && JsonLimits.PlainStack(Frames(sections))
    ensures ReadableSections(sections)
  {
    var stack := Frames(sections);
    forall k | 0 <= k < |sections|
      ensures ReadableSection(sections[k])
    {
      var s := sections[k];
      var d := Group(s.kind, s.items, "");
      assert JsonLimits.PlainFrame(stack[k]) && AllFit(stack[k].kind, stack[k].entries) && LaidItems(s.items);
      GroupReadable(d);
    }
    forall k | 0 < k < |sections|
      ensures Nested(sections[k - 1], sections[k])
    {
      assert JsonLimits.PlainFrame(stack[k]) && Fits(stack[k - 1].kind, stack[k].name, Compound(stack[k].kind, []));
    }
  }

  /** Every container but the innermost fails to be read. */
  lemma {:induction false} FromFails(sections: seq<Section>, k: nat, last: string)
    requires k < |sections| && ReadableSections(sections) && ValueStart(last) && Stuck(last)
    ensures ValueStart(From(sections, k, last)) && Stuck(From(sections, k, last))
    ensures k + 1 < |sections| ==> ReadValue(From(sections, k, last)) == Fail
    decreases |sections| - k
  {
    if k + 1 < |sections| {
      FromFails(sections, k + 1, last);
      SectionFails(sections[k], sections[k + 1], From(sections, k + 1, last));
    }
  }

  lemma {:induction false} SectionFails(s: Section, next: Section, inner: string)
    requires ReadableSection(s) && Nested(s, next) && ValueStart(inner) && Stuck(inner)
    ensures var text := Opener(s.kind) + ("\n" + (Lines(s.items) + (next.pad + (Key(next.name) + inner))));
            ValueStart(text) && ReadValue(text) == Fail
  {
    StuckEntry(s.kind, next.name, inner);
    PadSkips(s.kind, next.pad, Key(next.name) + inner);
    LinesFail(s.kind, s.items, next.pad + (Key(next.name) + inner));
    BadCompound(s.kind, "\n" + (Lines(s.items) + (next.pad + (Key(next.name) + inner))));
  }

  /** Ending the JSON with more than the root open leaves no JSON text. */
  lemma {:induction false} UnendedFails(w: Writer, sections: seq<Section>)
    requires JsonRuns.Shows(w, sections) && JsonLimits.PlainStack(Frames(sections)) && |sections| >= 2
    ensures |w.text| >= 2 && ReadText(EndAll(w).text) == None
  {
    var s := Last(sections);
    var last := Unended(s.kind, s.items);
    EndAllText(w, sections);
    ShownReadable(w, sections);
    InnermostStuck(s);
    FromText(sections, 0, last);
    FromFails(sections, 0, last);
    RootBefore(sections);
    TextFails(From(sections, 0, last));
  }

  lemma {:induction false} TextFails(text: string)
    requires ValueStart(text) && ReadValue(text) == Fail
    ensures ReadText("" + text) == None
  {
    assert "" + text == text;
    SkipNoSpace(text);
  }

  lemma {:induction false} RootBefore(sections: seq<Section>)
    requires |sections| >= 1 && ValidStack(Frames(sections)) && sections[0].pad == ""
    ensures JsonRuns.Before(sections[..1]) == ""
  {
    assert Frames(sections)[0] == FrameOf(sections[0]);
    assert sections[..1][..0] == [];
  }

  /** For every legal run with room for its indentation, no more than 256 containers open at once
      and plain names: ending the JSON leaves a JSON text exactly when every container begun has
      been ended. */
  lemma {:induction false} EndedIff(calls: seq<Call>)
    requires LegalRun(ROOT, calls) && JsonIndent.RoomyRun(Init(), calls) && Peak(ROOT, calls) <= DEEPEST
    requires JsonLimits.PlainStack(BuildAll(ROOT, calls))
    ensures |PerformAll(Init(), calls).text| >= 2
    ensures ReadText(EndAll(PerformAll(Init(), calls)).text).Some? <==> |BuildAll(ROOT, calls)| == 1
  {
    JsonRuns.InitShows();
    var sections := JsonRuns.RunKeeps(Init(), JsonRuns.BLANK, calls);
    if |sections| >= 2 {
      UnendedFails(PerformAll(Init(), calls), sections);
    } else {
      JsonLimits.PlainRoot(BuildAll(ROOT, calls));
      WriterRoundTrip(calls);
    }
  }
}
