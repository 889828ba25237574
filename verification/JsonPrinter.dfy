/**
  Runs of calls on the buffer, and the C string a caller then gets. Where the indentation was cut
  off a NUL is left inside the text, and the C string is too light for the document; without
  that it is the whole text.
 */
module JsonPrinter {
  import opened Common
  import opened JsonReader
  import opened JsonText
  import JsonRuns
  import JsonRoundTrip
  import opened JsonWeight
  import JsonLimits
  import JsonUnended
  import opened JsonIndent
  import JsonWriter

  /** The C string at the front of some bytes. */
  function CString(s: string): string {
    if s == "" || s[0] == NUL then "" else [s[0]] + CString(s[1..])
  }

  lemma {:induction false} CStringStops(s: string, q: nat)
    requires q < |s| && s[q] == NUL
    ensures Weight(CString(s)) <= Weight(s[..q])
  {
    if s[0] != NUL {
      CStringStops(s[1..], q - 1);
      assert s[..q][1..] == s[1..][..q - 1];
      assert ([s[0]] + CString(s[1..]))[1..] == CString(s[1..]);
    }
  }

  predicate NoNul(s: string) {
    forall k :: 0 <= k < |s| ==> s[k] != NUL
  }

  lemma {:induction false} CStringWhole(s: string, n: nat)
    requires n < |s| && s[n] == NUL && NoNul(s[..n])
    ensures CString(s) == s[..n]
  {
    if n > 0 {
      assert s[..n][0] == s[0] && s[..n][1..] == s[1..][..n - 1];
      CStringWhole(s[1..], n - 1);
    }
  }

  // ---------------------------------------------------------------- no NUL in the text

  lemma {:induction false} ScalarNoNul(v: Value)
    requires !v.Compound? && Expressible(v)
    ensures NoNul(Scalar(v))
  {
    match v
    case Number(m, _) => DecimalNoNul(m);
    case Str(s) => JsonRoundTrip.EscapeClean(s);
    case _ =>
  }

  lemma {:induction false} DecimalNoNul(m: int)
    ensures NoNul(Decimal(m))
  {
    JsonRoundTrip.DecimalDigitsRead(if m < 0 then -m else m);
  }

  lemma {:induction false} PadNoNul(w: Writer)
    requires AllSpace(w.indenter)
    ensures NoNul(Pad(w)) && NoNul(Repeat(w.indenter, w.depth))
  {
    JsonRuns.RepeatIsSpace(w.indenter, w.depth);
  }

  lemma {:induction false} BuildNoNul(w: Writer, message: string)
    requires NoNul(w.text) && AllSpace(w.indenter) && NoNul(message)
    ensures NoNul(BuildStr(w, message).text)
  {
    PadNoNul(w);
  }

  lemma {:induction false} KeyNoNul(name: Option<string>)
    requires name.Some? ==> IsCString(name.value)
    ensures NoNul(Key(name))
  {
  }

  lemma {:induction false} AddNoNul(w: Writer, name: Option<string>, rest: string)
    requires NoNul(w.text) && AllSpace(w.indenter) && (name.Some? ==> IsCString(name.value)) && NoNul(rest)
    ensures NoNul(BuildStr(w, Key(name) + rest).text)
  {
    KeyNoNul(name);
    BuildNoNul(w, Key(name) + rest);
  }

  lemma {:induction false} ScalarCallNoNul(w: Writer, name: Option<string>, v: Value)
    requires NoNul(w.text) && AllSpace(w.indenter) && (name.Some? ==> IsCString(name.value))
    requires !v.Compound? && Expressible(v)
    ensures NoNul(AddScalar(w, name, v).text)
  {
    ScalarNoNul(v);
    AddNoNul(w, name, Scalar(v) + ",\n");
    assert Key(name) + Scalar(v) + ",\n" == Key(name) + (Scalar(v) + ",\n");
  }

  lemma {:induction false} BeginNoNul(w: Writer, name: Option<string>, kind: Kind)
    requires NoNul(w.text) && AllSpace(w.indenter) && (name.Some? ==> IsCString(name.value))
    ensures NoNul(Begin(w, name, kind).text)
  {
    AddNoNul(w, name, Opener(kind) + "\n");
    assert Key(name) + Opener(kind) + "\n" == Key(name) + (Opener(kind) + "\n");
  }

  lemma {:induction false} EndNoNul(w: Writer, kind: Kind)
    requires |w.text| >= 2 && NoNul(w.text) && AllSpace(w.indenter)
    ensures NoNul(End(w, Closer(kind)).text)
  {
    BuildNoNul(Cut(w), if LooksEmpty(w) then "" else "\n");
    BuildNoNul(Broken(w), Closing(w, Closer(kind)));
  }

  lemma {:induction false} PerformNoNul(w: Writer, stack: seq<Frame>, call: Call)
    requires |w.text| >= 2 && |stack| >= 1 && NoNul(w.text) && AllSpace(w.indenter) && Legal(stack, call)
    ensures NoNul(Perform(w, call).text)
  {
    match call
    case AddStr(name, s) => ScalarCallNoNul(w, name, Str(s));
    case AddStrOrNull(name, s) => ScalarCallNoNul(w, name, StrOrNull(s));
    case AddInt(name, n) => ScalarCallNoNul(w, name, Number(n, 0));
    case AddBool(name, b) => ScalarCallNoNul(w, name, Bool(b));
    case AddNull(name) => ScalarCallNoNul(w, name, Null);
    case AddArray(name) => BeginNoNul(w, Some(name), Array);
    case AddObject(name) => BeginNoNul(w, name, Object);
    case EndArray => EndNoNul(w, Array);
    case EndObject => EndNoNul(w, Object);
    case SetIndenter(_) =>
    case IndentSz(_) =>
  }

  // ---------------------------------------------------------------- cut-off indentation

  /** A NUL well inside the text, and little in front of it. */
  predicate Spoiled(text: string, q: nat, limit: nat) {
    q + 2 < |text| && text[q] == NUL && Weight(text[..q]) < limit
  }

  /** What a call keeps of the text: all but the last two bytes. */
  lemma {:induction false} CutKeeps(w: Writer)
    requires |w.text| >= 2
    ensures var cut := Broken(w).text;
            |cut| + 1 >= |w.text| && cut[..|w.text| - 2] == w.text[..|w.text| - 2]
  {
  }

  lemma {:induction false} ReadyKeeps(w: Writer, call: Call)
    requires |w.text| >= 2 && Indents(call)
    ensures var r, ideal := Ready(w, call), Perform(w, call);
            && |w.text| - 2 <= |r.text| <= |ideal.text| && |w.text| <= |ideal.text|
            && r.text[..|w.text| - 2] == w.text[..|w.text| - 2] && ideal.text[..|r.text|] == r.text
  {
    if call.EndArray? || call.EndObject? {
      CutKeeps(w);
    }
  }

  lemma {:induction false} WrittenKeeps(w: Writer, ideal: string, text: string, n: nat)
    requires Written(w, ideal, text) && n <= |w.text| <= |ideal|
    ensures text[..n] == ideal[..n]
  {
    if !Roomy(w) {
      var q := Room(w) - 1;
      assert text[..n] == text[..q][..n] && ideal[..n] == ideal[..q][..n];
    }
  }

  lemma {:induction false} PerformedKeeps(w: Writer, call: Call, w': Writer)
    requires |w.text| >= 2 && Performed(w, call, w')
    ensures |w'.text| >= |w.text| && w'.text[..|w.text| - 2] == w.text[..|w.text| - 2]
  {
    if Indents(call) {
      var r, ideal, n := Ready(w, call), Perform(w, call).text, |w.text| - 2;
      ReadyKeeps(w, call);
      assert ideal[..n] == ideal[..|r.text|][..n];
      WrittenKeeps(r, ideal, w'.text, n);
    }
  }

  lemma {:induction false} StaysSpoiled(text: string, later: string, q: nat, limit: nat)
    requires Spoiled(text, q, limit) && |later| >= |text| && later[..|text| - 2] == text[..|text| - 2]
    ensures Spoiled(later, q, limit)
  {
    assert later[..q] == later[..|text| - 2][..q] && text[..q] == text[..|text| - 2][..q];
    assert later[q] == later[..|text| - 2][q];
  }

  lemma {:induction false} ReadyWeighs(w: Writer, call: Call)
    requires |w.text| >= 2 && Indents(call)
    ensures Weight(Ready(w, call).text) <= Weight(w.text)
  {
    if call.EndArray? || call.EndObject? {
      var cut, newline := Cut(w).text, if LooksEmpty(w) then "" else "\n";
      WeightSplit(w.text, |cut|);
      WeightCat(cut, newline);
      CommaWeighs();
      assert Broken(w).text == cut + "" + newline;
      assert cut + "" + newline == cut + newline;
    }
  }

  /** Indentation is followed by at least two more bytes. */
  lemma {:induction false} LongMessage(w: Writer, call: Call)
    requires |w.text| >= 2 && Indents(call) && !Roomy(Ready(w, call)) && |w.text| < w.capacity
    ensures var r := Ready(w, call); |Perform(w, call).text| >= |r.text| + |Pad(r)| + 2
  {
  }

  lemma {:induction false} PadPrefixWeighs(w: Writer, q: nat)
    requires AllSpace(w.indenter) && |w.text| <= q <= |w.text| + |Pad(w)|
    ensures Weight((w.text + Pad(w))[..q]) == Weight(w.text)
  {
    var front := Pad(w)[..q - |w.text|];
    PadNoNul(w);
    JsonRuns.RepeatIsSpace(w.indenter, w.depth);
    Weightless(front);
    WeightCat(w.text, front);
    assert (w.text + Pad(w))[..q] == w.text + front;
  }

  lemma {:induction false} IdealFront(w: Writer, call: Call, q: nat)
    requires |w.text| >= 2 && Indents(call) && q <= |Ready(w, call).text| + |Pad(Ready(w, call))|
    ensures var r, ideal := Ready(w, call), Perform(w, call).text;
            q <= |ideal| && ideal[..q] == (r.text + Pad(r))[..q]
  {
    var r, ideal := Ready(w, call), Perform(w, call).text;
    assert ideal[..|r.text| + |Pad(r)|] == r.text + Pad(r);
    assert ideal[..q] == ideal[..|r.text| + |Pad(r)|][..q];
  }

  lemma {:induction false} FrontWeighs(w: Writer, call: Call, q: nat)
    requires |w.text| >= 2 && Indents(call) && AllSpace(w.indenter)
    requires var r := Ready(w, call); |r.text| <= q <= |r.text| + |Pad(r)|
    ensures q <= |Perform(w, call).text| && Weight(Perform(w, call).text[..q]) <= Weight(w.text)
  {
    ReadyWeighs(w, call);
    IdealFront(w, call, q);
    PadPrefixWeighs(Ready(w, call), q);
  }

  lemma {:induction false} CutOff(w: Writer, ideal: string, text: string)
    requires !Roomy(w) && Written(w, ideal, text) && |ideal| >= |w.text| + |Pad(w)| + 2
    ensures var q := Room(w) - 1;
            && |w.text| <= q < |w.text| + |Pad(w)| && q + 2 < |text|
            && text[q] == NUL && text[..q] == ideal[..q]
  {
  }

  /** Wherever `ideal` is cut off within the indentation of `r`, what is left weighs no more than
      the text of `w`. */
  ghost predicate Fronts(w: Writer, r: Writer, ideal: string) {
    forall q :: |r.text| <= q <= |r.text| + |Pad(r)| ==> q <= |ideal| && Weight(ideal[..q]) <= Weight(w.text)
  }

  lemma {:induction false} AllFronts(w: Writer, call: Call)
    requires |w.text| >= 2 && Indents(call) && AllSpace(w.indenter)
    ensures Fronts(w, Ready(w, call), Perform(w, call).text)
  {
    var r := Ready(w, call);
    forall q | |r.text| <= q <= |r.text| + |Pad(r)|
      ensures q <= |Perform(w, call).text| && Weight(Perform(w, call).text[..q]) <= Weight(w.text)
    {
      FrontWeighs(w, call, q);
    }
  }

  lemma {:induction false} SpoilsFrom(w: Writer, r: Writer, ideal: string, text: string, limit: nat) returns (q: nat)
    requires !Roomy(r) && Written(r, ideal, text) && |ideal| >= |r.text| + |Pad(r)| + 2
    requires Fronts(w, r, ideal) && Weight(w.text) < limit
    ensures Spoiled(text, q, limit)
  {
    CutOff(r, ideal, text);
    q := Room(r) - 1;
    assert text[..q] == ideal[..q];
  }

  /** Indentation that was cut off spoils the text. */
  lemma {:induction false} Spoils(w: Writer, call: Call, text: string, limit: nat) returns (q: nat)
    requires |w.text| >= 2 && |w.text| < w.capacity && AllSpace(w.indenter) && Weight(w.text) < limit
    requires Indents(call) && !Roomy(Ready(w, call)) && Written(Ready(w, call), Perform(w, call).text, text)
    ensures Spoiled(text, q, limit)
  {
    var r, ideal := Ready(w, call), Perform(w, call).text;
    LongMessage(w, call);
    AllFronts(w, call);
    q := SpoilsFrom(w, r, ideal, text, limit);
  }

  // ---------------------------------------------------------------- growing documents

  /** Every call but those that set an indenter costs something. */
  lemma {:induction false} BuildCosts(stack: seq<Frame>, call: Call)
    requires |stack| >= 1 && Legal(stack, call)
    ensures StackLoad(Build(stack, call)) >= StackLoad(stack) + (if Indents(call) then 1 else 0)
  {
    match call
    case AddStr(name, s) => AppendLoad(stack, Entry(name, Str(s)));
    case AddStrOrNull(name, s) => AppendLoad(stack, Entry(name, StrOrNull(s)));
    case AddInt(name, n) => AppendLoad(stack, Entry(name, Number(n, 0)));
    case AddBool(name, b) => AppendLoad(stack, Entry(name, Bool(b)));
    case AddNull(name) => AppendLoad(stack, Entry(name, Null));
    case AddArray(name) => PushLoad(stack, Frame(Some(name), Array, []));
    case AddObject(name) => PushLoad(stack, Frame(name, Object, []));
    case EndArray => ClosedLoad(stack);
    case EndObject => ClosedLoad(stack);
    case SetIndenter(_) =>
    case IndentSz(_) =>
  }

  /** All a run builds costs at least what it has built so far. */
  lemma {:induction false} RunCosts(stack: seq<Frame>, calls: seq<Call>)
    requires |stack| >= 1 && LegalRun(stack, calls)
    ensures StackLoad(BuildAll(stack, calls)) >= StackLoad(stack)
    decreases |calls|
  {
    if calls != [] {
      BuildCosts(stack, calls[0]);
      RunCosts(Build(stack, calls[0]), calls[1..]);
    }
  }

  // ---------------------------------------------------------------- the run

  /** One call on the buffer. */
  method Make(w: JsonWriter.JsonWriter, ghost stack: seq<Frame>, call: Call)
    requires w.Valid() && |stack| >= 1 && Legal(stack, call) && DefinedCall(w.State(), call)
    modifies w, w.str
    ensures w.Valid() && (w.str == old(w.str) || fresh(w.str))
    ensures Performed(old(w.State()), call, w.State())
  {
    match call
    case AddStr(name, s) => w.AddStr(name, s);
    case AddStrOrNull(name, s) => w.AddStrOrNull(name, s);
    case AddInt(name, n) => w.AddInt(name, n);
    case AddBool(name, b) => w.AddBool(name, b);
    case AddNull(name) => w.AddNull(name);
    case AddArray(name) => w.AddArray(name);
    case AddObject(name) => w.AddObject(name);
    case EndArray => w.EndArray();
    case EndObject => w.EndObject();
    case SetIndenter(indenter) => w.SetIndenter(indenter);
    case IndentSz(size) => w.IndentSz(size);
  }

  /** Where a run stands: everything fits so far, or the text is spoiled. */
  ghost predicate Going(w: Writer, stack: seq<Frame>, roomy: bool, q: nat, limit: nat) {
    && 2 <= |w.text| < w.capacity
    && (roomy ==> JsonLimits.Light(w, stack, false) && NoNul(w.text))
    && AllSpace(w.indenter)
    && (!roomy ==> Spoiled(w.text, q, limit))
  }

  lemma {:induction false} PerformGoes(w: Writer, stack: seq<Frame>, call: Call, w': Writer, limit: nat)
    requires |w.text| < w.capacity && JsonLimits.Light(w, stack, false) && NoNul(w.text)
    requires Legal(stack, call) && Performed(w, call, w') && RoomyCall(w, call) && |w'.text| < w'.capacity
    ensures w' == Perform(w, call) && Going(w', Build(stack, call), true, 0, limit)
  {
    JsonLimits.StepFalls(w, stack, call, false);
    PerformNoNul(w, stack, call);
  }

  lemma {:induction false} IndenterStays(w: Writer, stack: seq<Frame>, call: Call, w': Writer)
    requires |w.text| >= 2 && AllSpace(w.indenter) && |stack| >= 1 && Legal(stack, call) && Performed(w, call, w')
    ensures AllSpace(w'.indenter)
  {
    if call.IndentSz? && 1 <= call.size <= 16 {
      JsonRuns.SpacesAreSpace(call.size);
    }
  }

  lemma {:induction false} SpoiledGoes(w: Writer, stack: seq<Frame>, q: nat, limit: nat, w': Writer, stack': seq<Frame>)
    requires Going(w, stack, false, q, limit)
    requires |w'.text| >= |w.text| && w'.text[..|w.text| - 2] == w.text[..|w.text| - 2]
    requires AllSpace(w'.indenter) && |w'.text| < w'.capacity
    ensures Going(w', stack', false, q, limit)
  {
    StaysSpoiled(w.text, w'.text, q, limit);
  }

  lemma {:induction false} CutOffSpoils(w: Writer, stack: seq<Frame>, limit: nat, call: Call, w': Writer)
    returns (q: nat)
    requires JsonLimits.Light(w, stack, false) && |w.text| < w.capacity && Legal(stack, call)
    requires Performed(w, call, w') && !RoomyCall(w, call) && StackLoad(Build(stack, call)) <= limit
    ensures Spoiled(w'.text, q, limit)
  {
    BuildCosts(stack, call);
    q := Spoils(w, call, w'.text, limit);
  }

  /** One call takes a run from one such state to another. */
  lemma {:induction false} StepGoes(w: Writer, stack: seq<Frame>, roomy: bool, q: nat, limit: nat,
                                    call: Call, w': Writer)
    returns (q': nat)
    requires Going(w, stack, roomy, q, limit) && |stack| >= 1 && Legal(stack, call) && Performed(w, call, w')
    requires StackLoad(Build(stack, call)) <= limit && |w'.text| < w'.capacity
    ensures Going(w', Build(stack, call), roomy && RoomyCall(w, call), q', limit)
    ensures roomy && RoomyCall(w, call) ==> w' == Perform(w, call)
  {
    q' := q;
    PerformedKeeps(w, call, w');
    IndenterStays(w, stack, call, w');
    if !roomy {
      SpoiledGoes(w, stack, q, limit, w', Build(stack, call));
    } else if RoomyCall(w, call) {
      PerformGoes(w, stack, call, w', limit);
    } else {
      q' := CutOffSpoils(w, stack, limit, call, w');
    }
  }

  lemma {:induction false} EndAllKeeps(w: Writer)
    requires |w.text| >= 2
    ensures |EndAll(w).text| >= |w.text| && EndAll(w).text[..|w.text| - 2] == w.text[..|w.text| - 2]
  {
    PerformedKeeps(w.(depth := 1), EndObject, EndAll(w));
  }

  /** What a caller reads when the JSON has been ended: the whole text, or too little. */
  lemma {:induction false} Outcome(w: Writer, stack: seq<Frame>, roomy: bool, q: nat, limit: nat, bytes: string)
    requires Going(w, stack, roomy, q, limit)
    requires var n := |EndAll(w).text|; n < |bytes| && bytes[..n] == EndAll(w).text && bytes[n] == NUL
    ensures roomy ==> CString(bytes) == EndAll(w).text
    ensures !roomy ==> Weight(CString(bytes)) < limit
  {
    var text := EndAll(w).text;
    if roomy {
      EndNoNul(w.(depth := 1), Object);
      CStringWhole(bytes, |text|);
    } else {
      EndAllKeeps(w);
      StaysSpoiled(w.text, text, q, limit);
      assert bytes[q] == bytes[..|text|][q] && bytes[..q] == bytes[..|text|][..q];
      CStringStops(bytes, q);
    }
  }

  lemma {:induction false} TooLight(stack: seq<Frame>, s: string)
    requires ValidStack(stack) && |stack| == 1 && Weight(s) < StackLoad(stack)
    ensures ReadText(s) != Some(Compound(Object, stack[0].entries))
  {
    JsonLimits.RootLoad(stack);
    TextWeighs(s);
  }

  lemma {:induction false} RunSplits(w: Writer, stack: seq<Frame>, calls: seq<Call>, k: nat)
    requires k < |calls| && |stack| >= 1 && LegalRun(stack, calls[k..])
    ensures calls[k..][0] == calls[k] && calls[k..][1..] == calls[k + 1..]
    ensures Legal(stack, calls[k]) && LegalRun(Build(stack, calls[k]), calls[k + 1..])
    ensures BuildAll(stack, calls[k..]) == BuildAll(Build(stack, calls[k]), calls[k + 1..])
  {
    assert calls[k..][1..] == calls[k + 1..];
  }

  lemma {:induction false} RoomyIsDefined(w: Writer, call: Call)
    requires |w.text| >= 2
    ensures RoomyCall(w, call) ==> DefinedCall(w, call)
  {
    if RoomyCall(w, call) && Indents(call) {
      RoomyDefined(Ready(w, call));
    }
  }

  /** The document a run builds. */
  ghost function Document(calls: seq<Call>): Value
    requires LegalRun(ROOT, calls)
  {
    Compound(Object, BuildAll(ROOT, calls)[0].entries)
  }

  /** Where the run stands before call `k`. */
  ghost predicate Reached(calls: seq<Call>, k: nat, w: Writer, stack: seq<Frame>, roomy: bool, q: nat)
    requires LegalRun(ROOT, calls)
  {
    && k <= |calls| && ValidStack(stack) && LegalRun(stack, calls[k..])
    && BuildAll(stack, calls[k..]) == BuildAll(ROOT, calls)
    && Going(w, stack, roomy, q, StackLoad(BuildAll(ROOT, calls)))
    && (RoomyRun(Init(), calls) <==> roomy && RoomyRun(w, calls[k..]))
    && (roomy ==> PerformAll(Init(), calls) == PerformAll(w, calls[k..]))
  }

  lemma {:induction false} Begun(calls: seq<Call>)
    requires LegalRun(ROOT, calls)
    ensures Reached(calls, 0, Init(), ROOT, true, 0)
  {
    JsonLimits.InitLight();
    assert calls[0..] == calls;
  }

  lemma {:induction false} Advance(calls: seq<Call>, k: nat, w: Writer, stack: seq<Frame>, roomy: bool, q: nat,
                                   w': Writer)
    returns (q': nat)
    requires LegalRun(ROOT, calls) && Reached(calls, k, w, stack, roomy, q) && k < |calls| && Legal(stack, calls[k])
    requires Performed(w, calls[k], w') && |w'.text| < w'.capacity
    ensures Reached(calls, k + 1, w', Build(stack, calls[k]), roomy && RoomyCall(w, calls[k]), q')
  {
    RunSplits(w, stack, calls, k);
    JsonRuns.BuildFits(stack, calls[k]);
    RunCosts(Build(stack, calls[k]), calls[k + 1..]);
    q' := StepGoes(w, stack, roomy, q, StackLoad(BuildAll(ROOT, calls)), calls[k], w');
  }

  lemma {:induction false} Stuck(calls: seq<Call>, k: nat, w: Writer, stack: seq<Frame>, roomy: bool, q: nat)
    requires LegalRun(ROOT, calls) && Reached(calls, k, w, stack, roomy, q) && k < |calls| && |w.text| >= 2
    ensures !DefinedCall(w, calls[k]) ==> !RoomyRun(Init(), calls)
  {
    RoomyIsDefined(w, calls[k]);
    assert calls[k..][0] == calls[k];
  }

  /** The run stays within what the printer can express and the reader can tell apart. */
  ghost predicate Within(calls: seq<Call>)
    requires LegalRun(ROOT, calls)
  {
    RoomyRun(Init(), calls) && Peak(ROOT, calls) <= DEEPEST && JsonLimits.PlainStack(BuildAll(ROOT, calls))
  }

  lemma {:induction false} Finished(calls: seq<Call>, w: Writer, stack: seq<Frame>, roomy: bool, q: nat, bytes: string)
    requires LegalRun(ROOT, calls) && Reached(calls, |calls|, w, stack, roomy, q) && |w.text| >= 2
    requires var n := |EndAll(w).text|; n < |bytes| && bytes[..n] == EndAll(w).text && bytes[n] == NUL
    ensures |BuildAll(ROOT, calls)| == 1 ==>
              (ReadText(CString(bytes)) == Some(Document(calls)) <==> Within(calls) && AsciiValue(Document(calls)))
    ensures Within(calls) ==> (ReadText(CString(bytes)).Some? <==> |BuildAll(ROOT, calls)| == 1)
    ensures RoomyRun(Init(), calls) ==>
              |PerformAll(Init(), calls).text| >= 2 && CString(bytes) == EndAll(PerformAll(Init(), calls)).text
  {
    assert calls[|calls|..] == [];
    Outcome(w, stack, roomy, q, StackLoad(stack), bytes);
    if |stack| == 1 {
      JsonLimits.PlainRoot(stack);
      if RoomyRun(Init(), calls) {
        JsonLimits.WriterRoundTripIff(calls);
      } else {
        TooLight(stack, CString(bytes));
      }
    }
    if Within(calls) {
      JsonUnended.EndedIff(calls);
    }
  }

  /** The next call of a run, if C defines it. */
  method MakeNext(w: JsonWriter.JsonWriter, calls: seq<Call>, k: nat,
                  ghost stack: seq<Frame>, ghost roomy: bool, ghost q: nat)
    returns (done: bool, ghost stack': seq<Frame>, ghost roomy': bool, ghost q': nat)
    requires LegalRun(ROOT, calls) && k < |calls| && w.Valid()
    requires Reached(calls, k, w.State(), stack, roomy, q)
    modifies w, w.str
    ensures done <==> DefinedCall(old(w.State()), calls[k])
    ensures done ==> w.Valid() && (w.str == old(w.str) || fresh(w.str))
    ensures done ==> Reached(calls, k + 1, w.State(), stack', roomy', q')
    ensures !done ==> !RoomyRun(Init(), calls)
  {
    ghost var before := w.State();
    stack', roomy', q' := stack, roomy, q;
    done := DefinedCall(w.State(), calls[k]);
    RunSplits(before, stack, calls, k);
    Stuck(calls, k, before, stack, roomy, q);
    if done {
      Make(w, stack, calls[k]);
      q' := Advance(calls, k, before, stack, roomy, q, w.State());
      stack', roomy' := Build(stack, calls[k]), roomy && RoomyCall(before, calls[k]);
    }
  }

  /** Printer and parser, on the buffer. The calls are made on a fresh writer, the JSON is ended
      and the C string is read; None stands for a run that C does not define, since a piece of
      indentation would be written past the buffer. For every legal run that ends all it began:
      the caller gets a text that denotes the document built exactly when there was room for
      every indentation, no more than 256 containers were ever open at once, the names need no
      escaping and the document's strings are ASCII. Within the first three limits the text is a
      JSON text at all exactly when every container begun has been ended. */
  method Print(calls: seq<Call>) returns (text: Option<string>)
    requires LegalRun(ROOT, calls)
    ensures |BuildAll(ROOT, calls)| == 1 ==>
              (text.Some? && ReadText(text.value) == Some(Document(calls)) <==>
               Within(calls) && AsciiValue(Document(calls)))
    ensures Within(calls) ==> text.Some? && (ReadText(text.value).Some? <==> |BuildAll(ROOT, calls)| == 1)
    ensures RoomyRun(Init(), calls) ==>
              |PerformAll(Init(), calls).text| >= 2 && text == Some(EndAll(PerformAll(Init(), calls)).text)
  {
    var w := new JsonWriter.JsonWriter();
    ghost var stack, roomy, q := ROOT, true, 0;
    Begun(calls);
    var k := 0;
    while k < |calls|
      invariant k <= |calls| && w.Valid() && fresh(w) && fresh(w.str)
      invariant Reached(calls, k, w.State(), stack, roomy, q)
    {
      var done;
      done, stack, roomy, q := MakeNext(w, calls, k, stack, roomy, q);
      if !done {
        return None;
      }
      k := k + 1;
    }
    ghost var before := w.State();
    w.End();
    text := Some(CString(w.str[..]));
    assert w.str[..][..w.len] == w.str[..w.len];
    Finished(calls, before, stack, roomy, q, w.str[..]);
  }
}
