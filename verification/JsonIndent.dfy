/**
  What the one growth before indenting holds. When the indentation is longer, its last piece is
  cut off by a NUL at the end of the buffer while the length goes on; when it is longer by more
  than one piece, the next piece would be written past the buffer.
 */
module JsonIndent {
  import opened JsonText

  const NUL := 0 as char

  /** The indentation due fits the buffer after at most one growth. */
  predicate Roomy(w: Writer) {
    |w.text| + |Pad(w)| < Room(w)
  }

  /** No piece of the indentation starts past the end of the buffer. */
  predicate Defined(w: Writer) {
    w.skipTabs || w.depth == 0 || |w.text| + |Repeat(w.indenter, w.depth - 1)| <= Room(w)
  }

  /** What may stand where `ideal` should once indentation and message have been written: all of
      it if there was room; otherwise it is cut off at the end of the buffer, and what stands
      between there and the message is arbitrary. */
  predicate Written(w: Writer, ideal: string, text: string) {
    var q, p := Room(w) - 1, |w.text| + |Pad(w)|;
    && |text| == |ideal|
    && if Roomy(w) then text == ideal
       else |w.text| <= q < p <= |text| && text[..q] == ideal[..q] && text[q] == NUL && text[p..] == ideal[p..]
  }

  ghost predicate Built(w: Writer, message: string, w': Writer) {
    w' == BuildStr(w, message).(text := w'.text) && Written(w, BuildStr(w, message).text, w'.text)
  }

  lemma {:induction false} RepeatGrows(s: string, m: nat, n: nat)
    requires m <= n
    ensures |Repeat(s, m)| <= |Repeat(s, n)|
  {
    if m < n {
      RepeatGrows(s, m, n - 1);
    }
  }

  lemma {:induction false} RepeatLength(s: string, n: nat)
    ensures |Repeat(s, n)| == n * |s|
  {
    if n > 0 {
      RepeatLength(s, n - 1);
      assert n * |s| == (n - 1) * |s| + |s|;
    }
  }

  /** A run of indentation is defined exactly when each of its pieces starts within the buffer,
      or at its very end. */
  lemma {:induction false} DefinedIff(w: Writer)
    requires !w.skipTabs
    ensures Defined(w) <==> forall k: nat :: k < w.depth ==> |w.text| + k * |w.indenter| <= Room(w)
  {
    var last := if w.depth == 0 then 0 else w.depth - 1;
    RepeatLength(w.indenter, last);
    forall k: nat | k < w.depth && Defined(w)
      ensures |w.text| + k * |w.indenter| <= Room(w)
    {
      RepeatGrows(w.indenter, k, last);
      RepeatLength(w.indenter, k);
    }
  }

  /** For a message the buffer grows by whole blocks, and by no more of them than needed. */
  lemma {:induction false} GrownIs(capacity: nat, len: nat)
    ensures var c := Grown(capacity, len);
            && c > len && (c - capacity) % 4096 == 0
            && (c > capacity ==> c - 4096 <= len)
    decreases len - capacity
  {
    if len >= capacity {
      GrownIs(capacity + ALLOC_SZ, len);
    }
  }

  // ---------------------------------------------------------------- calls

  predicate Indents(call: Call) {
    !call.SetIndenter? && !call.IndentSz?
  }

  /** The writer when the indentation of a call is due. */
  function Ready(w: Writer, call: Call): Writer
    requires |w.text| >= 2
  {
    if call.EndArray? || call.EndObject? then Broken(w) else w
  }

  predicate RoomyCall(w: Writer, call: Call)
    requires |w.text| >= 2
  {
    Indents(call) ==> Roomy(Ready(w, call))
  }

  predicate DefinedCall(w: Writer, call: Call)
    requires |w.text| >= 2
  {
    Indents(call) ==> Defined(Ready(w, call))
  }

  /** A call has been made: as specified if there was room for its indentation. */
  ghost predicate Performed(w: Writer, call: Call, w': Writer)
    requires |w.text| >= 2
  {
    && w' == Perform(w, call).(text := w'.text)
    && if Indents(call) then Written(Ready(w, call), Perform(w, call).text, w'.text)
       else w' == Perform(w, call)
  }

  /** There is room for every indentation of a run. */
  predicate RoomyRun(w: Writer, calls: seq<Call>)
    decreases |calls|
  {
    calls == [] || (|w.text| >= 2 && RoomyCall(w, calls[0]) && RoomyRun(Perform(w, calls[0]), calls[1..]))
  }

  // ---------------------------------------------------------------- when there is room

  lemma {:induction false} RoomyDefined(w: Writer)
    requires Roomy(w)
    ensures Defined(w)
  {
    if w.depth > 0 {
      RepeatGrows(w.indenter, w.depth - 1, w.depth);
    }
  }

  /** The single growth before indenting is enough from every buffer state exactly when the
      indentation is no longer than a block. */
  lemma {:induction false} OneGrowthSufficesIff(need: nat)
    ensures (forall len: nat, capacity: nat :: len < capacity && ALLOC_SZ <= capacity ==>
               len + need < RoomFor(len, capacity, need)) <==> need <= ALLOC_SZ
  {
    if need > ALLOC_SZ {
      assert !(ALLOC_SZ - 1 + need < RoomFor(ALLOC_SZ - 1, ALLOC_SZ, need));
    }
  }

  /** An indenter that stays within one block at every 8-bit depth. */
  predicate Short(indenter: string) {
    255 * |indenter| <= ALLOC_SZ
  }

  lemma {:induction false} ShortPad(w: Writer)
    requires Short(w.indenter) && |w.text| < w.capacity
    ensures Roomy(w)
  {
    RepeatLength(w.indenter, w.depth);
    assert w.depth * |w.indenter| <= 255 * |w.indenter|;
  }

  predicate ShortIndenters(calls: seq<Call>) {
    forall k :: 0 <= k < |calls| && calls[k].SetIndenter? ==> Short(calls[k].indenter)
  }

  lemma {:induction false} StepShort(w: Writer, call: Call)
    requires |w.text| >= 2 && |w.text| < w.capacity && Short(w.indenter) && (call.SetIndenter? ==> Short(call.indenter))
    ensures RoomyCall(w, call)
    ensures var w' := Perform(w, call); 2 <= |w'.text| < w'.capacity && Short(w'.indenter)
  {
    if Indents(call) {
      ShortPad(Ready(w, call));
    }
  }

  /** With indenters that short, the ones set by size among them, there is always room. */
  lemma {:induction false} ShortIsRoomy(w: Writer, calls: seq<Call>)
    requires |w.text| >= 2 && |w.text| < w.capacity && Short(w.indenter) && ShortIndenters(calls)
    ensures RoomyRun(w, calls)
    decreases |calls|
  {
    if calls != [] {
      StepShort(w, calls[0]);
      ShortIsRoomy(Perform(w, calls[0]), calls[1..]);
    }
  }

  /** Nine thousand blanks are too many for the very first line. */
  lemma {:induction false} TooWide(call: Call, rest: seq<Call>)
    requires call.AddInt?
    ensures !RoomyRun(Init(), [SetIndenter(Spaces(9000)), call] + rest)
  {
    var calls := [SetIndenter(Spaces(9000)), call] + rest;
    var w := Perform(Init(), calls[0]);
    RepeatLength(w.indenter, 1);
    assert calls[1..][0] == call;
  }
}
