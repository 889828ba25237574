/**
  The text of documents and of the containers still open, every line with the indentation in
  front of it. The indenter may change at any moment, so a layout keeps the indentations that
  were written.
 */
module JsonLayout {
  import opened Common
  import opened JsonReader
  import opened JsonText

  datatype Doc = Leaf(value: Value) | Group(kind: Kind, items: seq<Item>, close: string)

  datatype Item = Item(pad: string, name: Option<string>, doc: Doc)

  /** The document a layout lays out. */
  function ValueOf(d: Doc): Value
    decreases d, 0
  {
    match d
    case Leaf(v) => v
    case Group(kind, items, _) => Compound(kind, EntriesOf(items))
  }

  function EntriesOf(items: seq<Item>): (es: seq<Entry>)
    ensures |es| == |items|
    decreases items, 2
  {
    seq(|items|, k requires 0 <= k < |items| => EntryOf(items[k]))
  }

  function EntryOf(i: Item): Entry
    decreases i, 1
  {
    Entry(i.name, ValueOf(i.doc))
  }

  /** All indentations are white space, and leaves are no containers. */
  ghost predicate Laid(d: Doc)
    decreases d
  {
    match d
    case Leaf(v) => !v.Compound?
    case Group(_, items, close) =>
      AllSpace(close) && forall k :: 0 <= k < |items| ==> AllSpace(items[k].pad) && Laid(items[k].doc)
  }

  ghost predicate LaidItems(items: seq<Item>) {
    forall k :: 0 <= k < |items| ==> AllSpace(items[k].pad) && Laid(items[k].doc)
  }

  // ---------------------------------------------------------------- text

  function Render(d: Doc): string
    decreases d, 0
  {
    match d
    case Leaf(v) => if v.Compound? then "" else Scalar(v)
    case Group(kind, items, close) =>
      if items == [] then Opener(kind) + Closer(kind)
      else Opener(kind) + "\n" + Trimmed(Lines(items)) + "\n" + close + Closer(kind)
  }

  /** A container's items, one a line, every line ending in a comma. */
  function Lines(items: seq<Item>): (s: string)
    ensures items != [] ==> |s| >= 2
    decreases items, 1
  {
    if items == [] then "" else Line(items[0]) + Lines(items[1..])
  }

  function Line(i: Item): (s: string)
    ensures |s| >= 2
    decreases i, 1
  {
    i.pad + Key(i.name) + Render(i.doc) + ",\n"
  }

  /** Text without its final comma and newline. */
  function Trimmed(s: string): string
    requires |s| >= 2
  {
    s[..|s| - 2]
  }

  // ---------------------------------------------------------------- open containers

  /** A container that has been begun and not yet ended. */
  datatype Section = Section(pad: string, name: Option<string>, kind: Kind, items: seq<Item>)

  function FrameOf(s: Section): Frame {
    Frame(s.name, s.kind, EntriesOf(s.items))
  }

  function Frames(sections: seq<Section>): (stack: seq<Frame>)
    ensures |stack| == |sections|
  {
    seq(|sections|, k requires 0 <= k < |sections| => FrameOf(sections[k]))
  }

  ghost predicate LaidSections(sections: seq<Section>) {
    forall k :: 0 <= k < |sections| ==> AllSpace(sections[k].pad) && LaidItems(sections[k].items)
  }

  function Last(sections: seq<Section>): Section
    requires |sections| >= 1
  {
    sections[|sections| - 1]
  }

  /** The text while the containers are open. */
  function OpenText(sections: seq<Section>): string {
    if sections == [] then ""
    else OpenText(sections[..|sections| - 1]) + Header(Last(sections)) + Lines(Last(sections).items)
  }

  function Header(s: Section): string {
    s.pad + Key(s.name) + Opener(s.kind) + "\n"
  }

  // ---------------------------------------------------------------- calls

  function Put(sections: seq<Section>, i: Item): seq<Section>
    requires |sections| >= 1
  {
    sections[|sections| - 1 := Last(sections).(items := Last(sections).items + [i])]
  }

  /** The innermost container, closed with `close` in front of its bracket. */
  function Shut(sections: seq<Section>, close: string): seq<Section>
    requires |sections| >= 2
  {
    var s := Last(sections);
    Put(sections[..|sections| - 1], Item(s.pad, s.name, Group(s.kind, s.items, close)))
  }

  /** What a call adds to the layout when the writer is in state `w`. */
  function Lay(w: Writer, sections: seq<Section>, call: Call): seq<Section>
    requires |sections| >= 1
    requires call.EndArray? || call.EndObject? ==> |sections| >= 2
  {
    match call
    case AddStr(name, s) => Put(sections, Item(Pad(w), name, Leaf(Str(s))))
    case AddStrOrNull(name, s) => Put(sections, Item(Pad(w), name, Leaf(StrOrNull(s))))
    case AddInt(name, n) => Put(sections, Item(Pad(w), name, Leaf(Number(n, 0))))
    case AddBool(name, b) => Put(sections, Item(Pad(w), name, Leaf(Bool(b))))
    case AddNull(name) => Put(sections, Item(Pad(w), name, Leaf(Null)))
    case AddArray(name) => sections + [Section(Pad(w), Some(name), Array, [])]
    case AddObject(name) => sections + [Section(Pad(w), name, Object, [])]
    case EndArray => Shut(sections, Repeat(w.indenter, Dec(w.depth)))
    case EndObject => Shut(sections, Repeat(w.indenter, Dec(w.depth)))
    case SetIndenter(_) => sections
    case IndentSz(_) => sections
  }

  lemma {:induction false} TopFrame(sections: seq<Section>)
    requires |sections| >= 1
    ensures Top(Frames(sections)) == FrameOf(Last(sections))
  {
  }

  lemma {:induction false} LeafEntry(i: Item)
    requires i.doc.Leaf?
    ensures EntryOf(i) == Entry(i.name, i.doc.value)
  {
  }

  lemma {:induction false} PushFrames(sections: seq<Section>, s: Section)
    ensures Frames(sections + [s]) == Frames(sections) + [FrameOf(s)]
  {
  }

  lemma {:induction false} PutFrames(sections: seq<Section>, i: Item)
    requires |sections| >= 1
    ensures Frames(Put(sections, i)) == Append(Frames(sections), EntryOf(i))
  {
    var s := Last(sections);
    assert EntriesOf(s.items + [i]) == EntriesOf(s.items) + [EntryOf(i)];
  }

  lemma {:induction false} ShutFrames(sections: seq<Section>, close: string)
    requires |sections| >= 2
    ensures Frames(Shut(sections, close)) == Closed(Frames(sections))
  {
    var s, outer := Last(sections), sections[..|sections| - 1];
    PutFrames(outer, Item(s.pad, s.name, Group(s.kind, s.items, close)));
    assert Frames(outer) == Frames(sections)[..|sections| - 1];
  }

  /** A layout follows the document whatever the indentations. */
  lemma {:induction false} LayBuilds(w: Writer, sections: seq<Section>, call: Call)
    requires |sections| >= 1 && (call.EndArray? || call.EndObject? ==> |sections| >= 2)
    ensures Frames(Lay(w, sections, call)) == Build(Frames(sections), call)
  {
    match call
    case AddStr(name, s) => PutFrames(sections, Item(Pad(w), name, Leaf(Str(s))));
    case AddStrOrNull(name, s) => PutFrames(sections, Item(Pad(w), name, Leaf(StrOrNull(s))));
    case AddInt(name, n) => PutFrames(sections, Item(Pad(w), name, Leaf(Number(n, 0))));
    case AddBool(name, b) => PutFrames(sections, Item(Pad(w), name, Leaf(Bool(b))));
    case AddNull(name) => PutFrames(sections, Item(Pad(w), name, Leaf(Null)));
    case AddArray(name) =>
    case AddObject(name) =>
    case EndArray => ShutFrames(sections, Repeat(w.indenter, Dec(w.depth)));
    case EndObject => ShutFrames(sections, Repeat(w.indenter, Dec(w.depth)));
    case SetIndenter(_) =>
    case IndentSz(_) =>
  }
}
