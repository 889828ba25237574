/**
  The JSON writer itself: a growable, NUL-terminated byte buffer edited in place. Every method
  is proved to do to the buffer what the functions of JsonText.dfy do to the text, as far as
  there is room for the indentation (JsonIndent.dfy).
 */
module JsonWriter {
  import opened Common
  import opened JsonReader
  import opened JsonText
  import opened JsonIndent

  type S64 = n: int | -0x8000_0000_0000_0000 <= n < 0x8000_0000_0000_0000

  // ---------------------------------------------------------------- escaping

  /** Overwrites part of a buffer; every byte written lies inside it. */
  method Write(buf: array<char>, at: nat, s: string)
    requires at + |s| <= buf.Length
    modifies buf
    ensures buf[..] == old(buf[..at]) + s + old(buf[at + |s|..])
    ensures buf[..at + |s|] == old(buf[..at]) + s
  {
    for k := 0 to |s|
      invariant buf[..] == old(buf[..at]) + s[..k] + old(buf[at + k..])
    {
      buf[at + k] := s[k];
    }
  }

  /** The same with a NUL behind. */
  method WriteEnded(buf: array<char>, at: nat, s: string)
    requires at + |s| < buf.Length
    modifies buf
    ensures buf[..at + |s|] == old(buf[..at]) + s && buf[at + |s|] == NUL
  {
    ghost var front := buf[..at];
    Write(buf, at, s + [NUL]);
    assert buf[..at + |s|] == buf[..at + |s| + 1][..at + |s|];
    assert (front + (s + [NUL]))[..at + |s|] == front + s;
  }

  lemma {:induction false} EscapeLast(s: string, i: nat)
    requires i < |s|
    ensures Escape(s[..i + 1]) == Escape(s[..i]) + EscapeChar(s[i])
  {
    assert s[..i + 1][..i] == s[..i];
  }

  /** The escape of a byte that is not printed in hexadecimal. */
  method ShortEscape(c: char) returns (e: string)
    requires SignedChar(c) >= 0x20 || HasShortEscape(c)
    ensures e == EscapeChar(c) && |e| <= 6
  {
    if c == '"' {
      e := "\\\"";
    } else if c == '\\' {
      e := "\\\\";
    } else if c as int == 8 {
      e := "\\b";
    } else if c as int == 12 {
      e := "\\f";
    } else if c == '\n' {
      e := "\\n";
    } else if c == '\r' {
      e := "\\r";
    } else if c == '\t' {
      e := "\\t";
    } else {
      e := [c];
    }
  }

  /** The escaped string fits the six-fold allocation, its terminating NUL included, whatever
      the bytes. */
  method MakeEscapedString(s: string) returns (estring: array<char>, offset: nat)
    requires IsCString(s)
    ensures fresh(estring) && estring.Length == 6 * |s| + 1
    ensures offset < estring.Length && estring[offset] == NUL
    ensures estring[..offset] == Escape(s)
  {
    estring := new char[6 * |s| + 1];
    offset := 0;
    for i := 0 to |s|
      invariant offset <= 6 * i
      invariant estring[..offset] == Escape(s[..i])
    {
      var c := s[i];
      EscapeLast(s, i);
      if SignedChar(c) < 0x20 && !HasShortEscape(c) {
        WriteEnded(estring, offset, UnicodeText(c));
        offset := offset + 6;
      } else {
        var e := ShortEscape(c);
        Write(estring, offset, e);
        offset := offset + |e|;
      }
    }
    assert s[..|s|] == s;
    estring[offset] := NUL;
  }

  // ---------------------------------------------------------------- text in a buffer

  /** The cells hold `text` as far as they reach, ended by a NUL; `len` counts the whole text. */
  ghost predicate Holds(cells: seq<char>, len: nat, text: string) {
    && cells != [] && len == |text|
    && var m := if len < |cells| then len else |cells| - 1;
       cells[..m] == text[..m] && cells[m] == NUL
  }

  /** Indentation and message are in place, or the indentation is cut off. */
  lemma {:induction false} BuiltFrom(w: Writer, message: string, cells: seq<char>, text: string)
    requires |w.text| < w.capacity && |cells| == Room(w)
    requires Holds(cells, |w.text + Pad(w)|, w.text + Pad(w))
    requires var p := |w.text| + |Pad(w)|; var n := if p < |cells| then p else |cells|;
             |text| == p + |message| && text[p..] == message && text[..n] == cells[..n]
    ensures Written(w, BuildStr(w, message).text, text)
  {
    var line := w.text + Pad(w);
    var p := |line|;
    assert (line + message)[p..] == message;
    if p < |cells| {
      assert text == text[..p] + text[p..];
    } else {
      var q := |cells| - 1;
      assert text[q] == text[..|cells|][q] && text[..q] == text[..|cells|][..q];
      assert (line + message)[..q] == line[..q];
    }
  }

  lemma {:induction false} WroteAt(before: seq<char>, at: nat, s: string, after: seq<char>, n: nat, cells: seq<char>)
    requires at + |s| < |before| && after == before[..at] + (s + [NUL]) + before[at + |s| + 1..]
    requires n <= at && n <= |cells| <= |before| && before[..|cells|] == cells
    ensures |after| == |before| && after[at + |s|] == NUL
    ensures after[..at + |s|][at..] == s && after[..at + |s|][..n] == cells[..n]
  {
    assert before[..|cells|][..n] == before[..n];
  }

  lemma {:induction false} CatTake(a: string, b: string, k: nat)
    requires k <= |b|
    ensures (a + b)[..|a| + k] == a + b[..k]
  {
  }

  lemma {:induction false} CatOne(s: string, n: nat, t: string)
    ensures t + Repeat(s, n) + s == t + Repeat(s, n + 1)
  {
    assert t + Repeat(s, n) + s == t + (Repeat(s, n) + s);
  }

  class JsonWriter {
    var str: array<char>
    var len: nat
    var capacity: nat
    var depth: Depth
    var skipTabs: bool
    var indenter: Option<string>

    /** The text ends strictly inside the allocation, with a NUL after it. */
    ghost predicate Terminated()
      reads this, str
    {
      capacity == str.Length && len < capacity && str[len] == NUL
    }

    /** Between calls the text always has the two bytes the closing code looks at. */
    ghost predicate Valid()
      reads this, str
    {
      Terminated() && len >= 2
    }

    function Indenter(): string
      reads this
    {
      if indenter.None? then JSON_INDENT else indenter.value
    }

    function State(): Writer
      reads this, str
      requires len <= str.Length
    {
      Writer(str[..len], capacity, depth, skipTabs, Indenter())
    }

    constructor ()
      ensures Valid() && fresh(str)
      ensures State() == Init()
    {
      capacity := ALLOC_SZ;
      depth := 1;
      skipTabs := false;
      indenter := None;
      len := 2;
      str := new char[ALLOC_SZ];
      new;
      Write(str, 0, "{\n" + [NUL]);
    }

    method IndentSz(size: int)
      requires Valid()
      modifies this`indenter
      ensures Valid() && State() == Perform(old(State()), Call.IndentSz(size))
    {
      if size < 1 || size > 16 {
        return;
      }
      indenter := Some(seq(size, _ => ' '));
    }

    method SetIndenter(s: string)
      requires Valid()
      modifies this`indenter
      ensures Valid() && State() == Perform(old(State()), Call.SetIndenter(s))
    {
      indenter := Some(s);
    }

    /** Reallocates. What the new part holds is not known. */
    method Grow()
      requires capacity == str.Length
      modifies this`str, this`capacity
      ensures fresh(str) && capacity == str.Length == old(capacity) + ALLOC_SZ
      ensures str[..old(capacity)] == old(str[..])
    {
      var bigger := new char[capacity + ALLOC_SZ];
      var from := str;
      for k := 0 to from.Length
        invariant forall j :: 0 <= j < k ==> bigger[j] == from[j]
        modifies bigger
      {
        bigger[k] := from[k];
      }
      str := bigger;
      capacity := capacity + ALLOC_SZ;
    }

    /** The one growth before indenting. */
    method GrowForIndent()
      requires Terminated()
      modifies this`str, this`capacity
      ensures Terminated() && (str == old(str) || fresh(str))
      ensures capacity == RoomFor(len, old(capacity), |Repeat(Indenter(), depth)|) && str[..len] == old(str[..len])
      ensures capacity == if len + depth * |Indenter()| < old(capacity) then old(capacity) else old(capacity) + 4096
    {
      RepeatLength(Indenter(), depth);
      if len + depth * |Indenter()| >= capacity {
        ghost var text, was := str[..len], str[..];
        Grow();
        assert str[len] == str[..|was|][len] && str[..|was|][..len] == str[..len];
      }
    }

    /** Writes as much of `s` as there is room for, and a NUL; the length counts all of `s`. */
    method Snprintf(s: string, ghost text: string)
      requires capacity == str.Length && len <= capacity && Holds(str[..], len, text)
      modifies this`len, str
      ensures len == old(len) + |s| && Holds(str[..], len, text + s)
    {
      var room := capacity - len;
      if room > 0 {
        var k := if |s| < room then |s| else room - 1;
        Write(str, len, s[..k] + [NUL]);
        CatTake(text, s, k);
        assert str[..len + k] == text + s[..k];
      }
      len := len + |s|;
    }

    /** Writes the indenter once per level. */
    method PutIndent(ghost text: string)
      requires capacity == str.Length && Holds(str[..], len, text) && !skipTabs && len < capacity
      requires depth == 0 || len + |Repeat(Indenter(), depth - 1)| <= capacity
      modifies this`len, str
      ensures len == old(len) + |Repeat(Indenter(), depth)| && Holds(str[..], len, text + Repeat(Indenter(), depth))
    {
      var ind := Indenter();
      assert text + "" == text;
      for i := 0 to depth
        invariant len == old(len) + |Repeat(ind, i)| && Holds(str[..], len, text + Repeat(ind, i))
      {
        RepeatGrows(ind, i, depth - 1);
        Snprintf(ind, text + Repeat(ind, i));
        CatOne(ind, i, text);
      }
    }

    method MakeRoom(n: nat)
      requires capacity == str.Length
      modifies this`str, this`capacity
      ensures capacity == str.Length == Grown(old(capacity), len + n) && (str == old(str) || fresh(str))
      ensures str[..old(capacity)] == old(str[..])
    {
      while len + n >= capacity
        invariant capacity == str.Length >= old(capacity) && (str == old(str) || fresh(str))
        invariant str[..old(capacity)] == old(str[..])
        invariant Grown(capacity, len + n) == Grown(old(capacity), len + n)
        decreases len + n - capacity
      {
        ghost var now := str[..];
        Grow();
        assert str[..old(capacity)] == str[..|now|][..old(capacity)];
      }
    }

    /** Appends the indentation, if it is not suppressed. */
    method Indent()
      requires Terminated() && Defined(State())
      modifies this`str, this`len, this`capacity, str
      ensures capacity == str.Length == Room(old(State())) && (str == old(str) || fresh(str))
      ensures Holds(str[..], len, old(State()).text + Pad(old(State())))
    {
      ghost var text := str[..len];
      if !skipTabs {
        GrowForIndent();
        PutIndent(text);
      } else {
        assert text + "" == text;
      }
    }

    /** Appends a message to the text of `w` and its indentation. */
    method PutMessage(message: string, ghost w: Writer)
      requires capacity == str.Length == Room(w) && |w.text| < w.capacity && Holds(str[..], len, w.text + Pad(w))
      modifies this`str, this`len, this`capacity, str
      ensures Terminated() && (str == old(str) || fresh(str))
      ensures len == old(len) + |message| && capacity == Grown(Room(w), len)
      ensures Written(w, BuildStr(w, message).text, str[..len])
    {
      ghost var cells, p := str[..], len;
      MakeRoom(|message|);
      ghost var n := if p < |cells| then p else |cells|;
      ghost var before := str[..];
      assert before[..|cells|] == cells;
      Write(str, len, message + [NUL]);
      WroteAt(before, p, message, str[..], n, cells);
      len := len + |message|;
      assert str[..len] == str[..][..len];
      BuiltFrom(w, message, cells, str[..len]);
    }

    /** Appends the indentation, if it is not suppressed, and a message. */
    method JsonBuildStr(message: string)
      requires Terminated() && Defined(State())
      modifies this`str, this`len, this`capacity, str
      ensures Terminated() && (str == old(str) || fresh(str))
      ensures Built(old(State()), message, State())
    {
      ghost var w := State();
      Indent();
      PutMessage(message, w);
    }

    /** A line of the JSON: a name, if there is one, and what follows it. */
    method AddMessage(name: Option<string>, text: string)
      requires Valid() && Defined(State())
      modifies this`str, this`len, this`capacity, str
      ensures Valid() && (str == old(str) || fresh(str))
      ensures Built(old(State()), Key(name) + text, State())
    {
      if name.Some? {
        JsonBuildStr("\"" + name.value + "\": " + text);
      } else {
        assert "" + text == text;
        JsonBuildStr(text);
      }
    }

    method AddStr(name: Option<string>, value: string)
      requires Valid() && IsCString(value) && DefinedCall(State(), Call.AddStr(name, value))
      modifies this`str, this`len, this`capacity, str
      ensures Valid() && (str == old(str) || fresh(str))
      ensures Performed(old(State()), Call.AddStr(name, value), State())
    {
      var estring, n := MakeEscapedString(value);
      var text := "\"" + estring[..n] + "\"";
      assert Key(name) + text + ",\n" == Key(name) + (text + ",\n");
      AddMessage(name, text + ",\n");
    }

    method AddInt(name: Option<string>, value: S64)
      requires Valid() && DefinedCall(State(), Call.AddInt(name, value))
      modifies this`str, this`len, this`capacity, str
      ensures Valid() && (str == old(str) || fresh(str))
      ensures Performed(old(State()), Call.AddInt(name, value), State())
    {
      ghost var w := State();
      assert Key(name) + Decimal(value) + ",\n" == Key(name) + (Decimal(value) + ",\n");
      assert Perform(w, Call.AddInt(name, value)) == BuildStr(w, Key(name) + (Decimal(value) + ",\n"));
      AddMessage(name, Decimal(value) + ",\n");
    }

    method AddBool(name: Option<string>, value: bool)
      requires Valid() && DefinedCall(State(), Call.AddBool(name, value))
      modifies this`str, this`len, this`capacity, str
      ensures Valid() && (str == old(str) || fresh(str))
      ensures Performed(old(State()), Call.AddBool(name, value), State())
    {
      var text := if value then "true" else "false";
      assert Key(name) + text + ",\n" == Key(name) + (text + ",\n");
      AddMessage(name, text + ",\n");
    }

    method AddNull(name: Option<string>)
      requires Valid() && DefinedCall(State(), Call.AddNull(name))
      modifies this`str, this`len, this`capacity, str
      ensures Valid() && (str == old(str) || fresh(str))
      ensures Performed(old(State()), Call.AddNull(name), State())
    {
      assert Key(name) + "null" + ",\n" == Key(name) + "null,\n";
      AddMessage(name, "null,\n");
    }

    method AddStrOrNull(name: Option<string>, value: Option<string>)
      requires Valid() && (value.Some? ==> IsCString(value.value))
      requires DefinedCall(State(), Call.AddStrOrNull(name, value))
      modifies this`str, this`len, this`capacity, str
      ensures Valid() && (str == old(str) || fresh(str))
      ensures Performed(old(State()), Call.AddStrOrNull(name, value), State())
    {
      ghost var w := State();
      if value.Some? && |value.value| > 0 {
        assert Perform(w, Call.AddStrOrNull(name, value)) == Perform(w, Call.AddStr(name, value.value));
        AddStr(name, value.value);
      } else {
        assert Perform(w, Call.AddStrOrNull(name, value)) == Perform(w, Call.AddNull(name));
        AddNull(name);
      }
    }

    method AddArray(name: string)
      requires Valid() && DefinedCall(State(), Call.AddArray(name))
      modifies this`str, this`len, this`capacity, this`depth, str
      ensures Valid() && (str == old(str) || fresh(str))
      ensures Performed(old(State()), Call.AddArray(name), State())
    {
      assert Key(Some(name)) + Opener(Array) + "\n" == Key(Some(name)) + "[\n";
      AddMessage(Some(name), "[\n");
      depth := Inc(depth);
    }

    method AddObject(name: Option<string>)
      requires Valid() && DefinedCall(State(), Call.AddObject(name))
      modifies this`str, this`len, this`capacity, this`depth, str
      ensures Valid() && (str == old(str) || fresh(str))
      ensures Performed(old(State()), Call.AddObject(name), State())
    {
      assert Key(name) + Opener(Object) + "\n" == Key(name) + "{\n";
      AddMessage(name, "{\n");
      depth := Inc(depth);
    }

    method CutTail() returns (empty: bool)
      requires Valid()
      modifies this`len, this`depth, this`skipTabs, str
      ensures Terminated() && State() == Cut(old(State())) && empty == LooksEmpty(old(State()))
    {
      empty := false;
      ghost var text := str[..len];
      assert text[len - 2] == str[len - 2];
      if str[len - 2] == '[' || str[len - 2] == '{' {
        empty := true;
        len := len - 1;
      } else {
        len := len - 2;
      }
      str[len] := NUL;
      assert str[..len] == text[..len];
      depth := Dec(depth);
      skipTabs := true;
    }

    /** Closes the innermost container: `__json_end`. */
    method JsonEnd(closer: string)
      requires Valid() && closer != "" && Defined(Broken(State()))
      modifies this`str, this`len, this`capacity, this`depth, this`skipTabs, str
      ensures Valid() && (str == old(str) || fresh(str))
      ensures State() == JsonText.End(old(State()), closer).(text := State().text)
      ensures Written(Broken(old(State())), JsonText.End(old(State()), closer).text, State().text)
    {
      var empty := CutTail();
      JsonBuildStr(if empty then "" else "\n");
      if !empty {
        skipTabs := false;
      }
      assert State() == Broken(old(State()));
      JsonBuildStr(closer + (if depth > 0 then ",\n" else ""));
      skipTabs := false;
    }

    method EndArray()
      requires Valid() && DefinedCall(State(), Call.EndArray)
      modifies this`str, this`len, this`capacity, this`depth, this`skipTabs, str
      ensures Valid() && (str == old(str) || fresh(str))
      ensures Performed(old(State()), Call.EndArray, State())
    {
      JsonEnd("]");
    }

    method EndObject()
      requires Valid() && DefinedCall(State(), Call.EndObject)
      modifies this`str, this`len, this`capacity, this`depth, this`skipTabs, str
      ensures Valid() && (str == old(str) || fresh(str))
      ensures Performed(old(State()), Call.EndObject, State())
    {
      JsonEnd("}");
    }

    /** Ends the JSON. There is no indentation in front of the root's bracket. */
    method End()
      requires Valid()
      modifies this`str, this`len, this`capacity, this`depth, this`skipTabs, str
      ensures Valid() && (str == old(str) || fresh(str))
      ensures State() == EndAll(old(State()))
    {
      depth := 1;
      JsonEnd("}");
    }
  }
}
