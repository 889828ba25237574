/**
  Reading back what the writer wrote: the reader of RFC 8259 applied to a rendered document
  gives that document, white space and commas included.
 */
module JsonRoundTrip {
  import opened Common
  import opened JsonReader
  import opened JsonText
  import opened JsonLayout
  import JsonRuns
  import JsonIndent

  // ---------------------------------------------------------------- white space

  lemma {:induction false} SkipSpaceOver(ws: string, s: string)
    requires AllSpace(ws) && (s == "" || !IsSpace(s[0]))
    ensures SkipSpace(ws + s) == s
  {
    if ws == "" {
      assert ws + s == s;
    } else {
      assert (ws + s)[1..] == ws[1..] + s;
      SkipSpaceOver(ws[1..], s);
    }
  }

  lemma {:induction false} SkipNoSpace(s: string)
    requires s == "" || !IsSpace(s[0])
    ensures SkipSpace(s) == s
  {
  }

  // ---------------------------------------------------------------- strings

  /** What a reader makes of a byte the writer was given: bytes from 0x80 all come back as U+FFFF. */
  function SeenChar(c: char): char {
    if c as int < 128 then c else 0xFFFF as char
  }

  function Seen(s: string): (r: string)
    ensures |r| == |s|
  {
    seq(|s|, k requires 0 <= k < |s| => SeenChar(s[k]))
  }

  lemma {:induction false} HexDigitValue(d: int)
    requires 0 <= d < 16
    ensures HexValue(HexDigit(d)) == d
  {
  }

  /** `%04x` of a control character. */
  lemma {:induction false} ControlText(c: char)
    requires 0 < c as int < 0x20
    ensures UnicodeText(c) == "\\u00" + [HexDigit(c as int / 16), HexDigit(c as int % 16)]
  {
    var n := c as int;
    if n < 16 {
      assert Zeros(3) == "000";
      assert Hex(n) == [HexDigit(n)];
    } else {
      assert Hex(n) == Hex(1) + [HexDigit(n % 16)];
      assert Zeros(2) == "00";
    }
  }

  /** `%04x` of a negative char has eight digits, and all negative chars share the first four. */
  lemma {:induction false} NegativeText(c: char)
    requires 0x80 <= c as int < 256
    ensures UnicodeText(c) == "\\uffff"
  {
    var n := c as int - 256 + 0x1_0000_0000;
    assert n / 16 / 16 == 0xff_ffff;
    assert Hex(n) == Hex(n / 16 / 16) + [HexDigit(n / 16 % 16)] + [HexDigit(n % 16)];
    SixF();
    assert ("\\u" + "" + Hex(n))[..6] == "\\uffff";
  }

  lemma {:induction false} SixF()
    ensures Hex(0xff_ffff) == "ffffff"
  {
    assert Hex(0xf) == "f" && Hex(0xff) == "ff" && Hex(0xfff) == "fff" && Hex(0xffff) == "ffff";
  }

  lemma {:induction false} ReadCharEscaped(c: char, rest: string)
    requires 0 < c as int < 256
    ensures EscapeChar(c)[0] != '"'
    ensures ReadChar(EscapeChar(c) + rest) == Ok(SeenChar(c), rest)
  {
    var e := EscapeChar(c);
    var s := e + rest;
    assert s[|e|..] == rest;
    if SignedChar(c) < 0x20 && !HasShortEscape(c) {
      assert s[..6] == e;
      if c as int < 0x20 {
        ControlText(c);
        HexDigitValue(c as int / 16);
        HexDigitValue(c as int % 16);
        assert e[4] == HexDigit(c as int / 16) && e[5] == HexDigit(c as int % 16);
        assert UnicodeEscape(s) == c as int;
      } else {
        NegativeText(c);
        assert UnicodeEscape(s) == 0xFFFF;
      }
    }
  }

  lemma {:induction false} Cat(a: string, b: string, c: string)
    ensures a + b + c == a + (b + c)
  {
  }

  lemma {:induction false} EscapeFront(s: string)
    requires s != ""
    ensures Escape(s) == EscapeChar(s[0]) + Escape(s[1..])
  {
    var n := |s| - 1;
    if n == 0 {
      assert s[..0] == "" && s[1..] == "";
    } else {
      var mid := s[1..n];
      EscapeFront(s[..n]);
      assert s[..n][1..] == mid && s[1..][..n - 1] == mid;
      Cat(EscapeChar(s[0]), Escape(mid), EscapeChar(s[n]));
    }
  }

  lemma {:induction false} Regroup3(a: string, b: string, c: string, d: string)
    ensures a + b + c + d == a + (b + c + d)
    ensures a != "" ==> (a + b + c + d)[0] == a[0]
  {
  }

  lemma {:induction false} ReadCharsStep(s: string, c: char, t: string, cs: string, rest: string)
    requires s != "" && s[0] != '"' && ReadChar(s) == Ok(c, t) && ReadChars(t) == Ok(cs, rest)
    ensures ReadChars(s) == Ok([c] + cs, rest)
  {
  }

  /** One escaped character `e` in front of escaped text. */
  lemma {:induction false} ReadCharsCons(e: string, c: char, text: string, cs: string, rest: string)
    requires e != "" && e[0] != '"'
    requires var tail := text + "\"" + rest; ReadChar(e + tail) == Ok(c, tail) && ReadChars(tail) == Ok(cs, rest)
    ensures ReadChars(e + text + "\"" + rest) == Ok([c] + cs, rest)
  {
    var tail := text + "\"" + rest;
    Regroup3(e, text, "\"", rest);
    ReadCharsStep(e + tail, c, tail, cs, rest);
  }

  lemma {:induction false} ReadCharsEnd(rest: string)
    ensures ReadChars("" + "\"" + rest) == Ok("", rest)
  {
    assert ("" + "\"" + rest)[1..] == rest;
  }

  lemma {:induction false} SeenFront(s: string)
    requires s != ""
    ensures Seen(s) == [SeenChar(s[0])] + Seen(s[1..])
  {
  }

  /** The string decoder of section 7 undoes the escaper. */
  lemma {:induction false} ReadCharsEscaped(s: string, rest: string)
    requires IsCString(s)
    ensures ReadChars(Escape(s) + "\"" + rest) == Ok(Seen(s), rest)
  {
    if s == "" {
      ReadCharsEnd(rest);
    } else {
      EscapeFront(s);
      ReadCharEscaped(s[0], Escape(s[1..]) + "\"" + rest);
      ReadCharsEscaped(s[1..], rest);
      ReadCharsCons(EscapeChar(s[0]), SeenChar(s[0]), Escape(s[1..]), Seen(s[1..]), rest);
      SeenFront(s);
    }
  }

  /** Escaped text is printable ASCII and at most six times as long. */
  lemma {:induction false} EscapeClean(s: string)
    requires IsCString(s)
    ensures |Escape(s)| <= 6 * |s|
    ensures forall k :: 0 <= k < |Escape(s)| ==> 0x20 <= Escape(s)[k] as int < 0x80
  {
    if s != "" {
      EscapeClean(s[..|s| - 1]);
      EscapeCharClean(s[|s| - 1]);
    }
  }

  lemma {:induction false} EscapeCharClean(c: char)
    requires 0 < c as int < 256
    ensures forall k :: 0 <= k < |EscapeChar(c)| ==> 0x20 <= EscapeChar(c)[k] as int < 0x80
  {
    if SignedChar(c) < 0x20 && !HasShortEscape(c) {
      if c as int < 0x20 {
        ControlText(c);
      } else {
        NegativeText(c);
      }
    }
  }

  /** A string comes back unchanged exactly when it is ASCII. */
  lemma {:induction false} SeenIff(s: string)
    requires IsCString(s)
    ensures Seen(s) == s <==> IsAscii(s)
  {
    if !IsAscii(s) {
      var k :| 0 <= k < |s| && s[k] as int >= 128;
      assert Seen(s)[k] == 0xFFFF as char;
      assert s[k] as int < 256;
    }
  }

  lemma {:induction false} ReadCharsPlain(name: string, rest: string)
    requires Plain(name)
    ensures ReadChars(name + "\"" + rest) == Ok(name, rest)
  {
    if name == "" {
      ReadCharsEnd(rest);
    } else {
      var text, tail := name + "\"" + rest, name[1..] + "\"" + rest;
      assert text[1..] == tail;
      ReadCharsPlain(name[1..], rest);
      ReadCharsStep(text, name[0], tail, name[1..], rest);
      assert name == [name[0]] + name[1..];
    }
  }

  /** Each character of a string takes at least one of the text, and the quotation mark one. */
  lemma {:induction false} ReadCharsLength(s: string)
    ensures var r := ReadChars(s); r.Ok? ==> |s| >= |r.value| + 1 + |r.rest|
    decreases |s|
  {
    if s == "" || s[0] != '"' {
      var c := ReadChar(s);
      if c.Ok? {
        ReadCharsLength(c.rest);
      }
    }
  }

  /** A string read at one byte a character was written as it is. */
  lemma {:induction false} ReadRaw(s: string)
    requires ReadChars(s).Ok? && |s| == |ReadChars(s).value| + 1 + |ReadChars(s).rest|
    ensures forall k :: 0 <= k < |ReadChars(s).value| ==>
              var c := ReadChars(s).value[k]; ' ' <= c && c != '"' && c != '\\'
    decreases |s|
  {
    if s[0] != '"' {
      var c := ReadChar(s);
      ReadCharsLength(c.rest);
      ReadRaw(c.rest);
      var cs := ReadChars(c.rest).value;
      assert ReadChars(s).value == [c.value] + cs;
      assert c.value == s[0];
    }
  }

  /** Names are pasted as they are: a name comes back unchanged exactly when it holds no control
      character, quotation mark or backslash. */
  lemma {:induction false} NameIff(name: string, rest: string)
    requires IsCString(name)
    ensures ReadChars(name + "\"" + rest) == Ok(name, rest) <==> Plain(name)
  {
    if Plain(name) {
      ReadCharsPlain(name, rest);
    } else if ReadChars(name + "\"" + rest) == Ok(name, rest) {
      ReadRaw(name + "\"" + rest);
      assert false;
    }
  }

  // ---------------------------------------------------------------- numbers

  lemma {:induction false} DecimalDigitsRead(n: nat)
    ensures var d := DecimalDigits(n);
            d != "" && (forall k :: 0 <= k < |d| ==> IsDigit(d[k]))
            && DigitsValue(d) == n && (n > 0 ==> d[0] != '0') && (n == 0 ==> d == "0")
  {
    var d := DecimalDigits(n);
    assert DigitsValue("") == 0;
    if n >= 10 {
      DecimalDigitsRead(n / 10);
      assert d[..|d| - 1] == DecimalDigits(n / 10);
    } else {
      assert d[..0] == "";
    }
  }

  lemma {:induction false} DigitRunOver(d: string, rest: string)
    requires (forall k :: 0 <= k < |d| ==> IsDigit(d[k])) && (rest == "" || !IsDigit(rest[0]))
    ensures DigitRun(d + rest) == |d|
  {
    if d == "" {
      assert d + rest == rest;
    } else {
      assert (d + rest)[1..] == d[1..] + rest;
      DigitRunOver(d[1..], rest);
    }
  }

  /** What may follow a value so that a number ends there. */
  predicate Stops(rest: string) {
    rest == "" || !(IsDigit(rest[0]) || rest[0] in ".eE")
  }

  /** Digits that stand for `n`, without a superfluous zero in front. */
  predicate Numeral(d: string, n: nat) {
    && d != "" && (forall k :: 0 <= k < |d| ==> IsDigit(d[k]))
    && DigitsValue(d) == n && (d[0] == '0' ==> d == "0")
  }

  lemma {:induction false} ReadMagnitudeNumeral(d: string, n: nat, rest: string)
    requires Numeral(d, n) && Stops(rest)
    ensures ReadMagnitude(d + rest) == Ok((n, 0), rest)
  {
    DigitRunOver(d, rest);
    assert (d + rest)[|d|..] == rest && (d + rest)[..|d|] == d;
    assert d + "" == d;
  }

  lemma {:induction false} FrontDrop(s: string, t: string)
    ensures var u := "-" + s + t; u[0] == '-' && u[1..] == s + t
  {
  }

  lemma {:induction false} ReadUnsigned(d: string, n: nat, rest: string)
    requires Numeral(d, n) && Stops(rest)
    ensures ReadNumber(d + rest) == Ok(Number(n, 0), rest)
  {
    ReadMagnitudeNumeral(d, n, rest);
    assert (d + rest)[0] == d[0];
  }

  lemma {:induction false} Minus(s: string)
    requires s != "" && s[0] == '-'
    ensures ReadNumber(s) == Signed(true, ReadMagnitude(s[1..]))
  {
  }

  lemma {:induction false} SignedOk(p: Parsed<(int, int)>, m: int, rest: string)
    requires p == Ok((m, 0), rest)
    ensures Signed(true, p) == Ok(Number(-m, 0), rest)
  {
  }

  lemma {:induction false} ReadMinus(d: string, n: nat, rest: string)
    requires Numeral(d, n) && Stops(rest)
    ensures ReadNumber("-" + d + rest) == Ok(Number(0 - n, 0), rest)
  {
    ReadMagnitudeNumeral(d, n, rest);
    FrontDrop(d, rest);
    Minus("-" + d + rest);
    SignedOk(ReadMagnitude(d + rest), n, rest);
  }

  lemma {:induction false} DecimalStart(n: int)
    ensures Decimal(n) != "" && (Decimal(n)[0] == '-' || IsDigit(Decimal(n)[0]))
  {
    DecimalDigitsRead(if n < 0 then -n else n);
  }

  lemma {:induction false} ReadNumberDecimal(n: int, rest: string)
    requires Stops(rest)
    ensures ReadNumber(Decimal(n) + rest) == Ok(Number(n, 0), rest)
    ensures Decimal(n) != "" && (Decimal(n)[0] == '-' || IsDigit(Decimal(n)[0]))
  {
    DecimalStart(n);
    if n < 0 {
      DecimalDigitsRead(-n);
      ReadMinus(DecimalDigits(-n), -n, rest);
    } else {
      DecimalDigitsRead(n);
      ReadUnsigned(DecimalDigits(n), n, rest);
    }
  }

  // ---------------------------------------------------------------- documents

  /** What a reader makes of a document. */
  function SeenValue(v: Value): Value
    decreases v, 0
  {
    match v
    case Str(s) => Str(Seen(s))
    case Compound(kind, es) => Compound(kind, SeenEntries(es))
    case _ => v
  }

  function SeenEntries(es: seq<Entry>): seq<Entry>
    decreases es, 1
  {
    if es == [] then [] else [SeenEntry(es[0])] + SeenEntries(es[1..])
  }

  function SeenEntry(e: Entry): Entry
    decreases e, 1
  {
    Entry(e.name, SeenValue(e.value))
  }

  predicate ValueStart(s: string) {
    s != "" && (s[0] in "ntf\"{[-" || IsDigit(s[0]))
  }

  lemma {:induction false} RenderStart(d: Doc)
    requires Laid(d) && Expressible(ValueOf(d))
    ensures ValueStart(Render(d))
  {
    if d.Leaf? && d.value.Number? {
      ReadNumberDecimal(d.value.mantissa, "");
    }
  }

  lemma {:induction false} NotPrefix(s: string, prefix: string)
    requires s != "" && prefix != "" && s[0] != prefix[0]
    ensures !StartsWith(s, prefix)
  {
    if |prefix| <= |s| {
      assert s[..|prefix|][0] == s[0];
    }
  }

  lemma {:induction false} NumberStart(s: string)
    requires s != "" && (s[0] == '-' || IsDigit(s[0]))
    ensures ReadValue(s) == ReadNumber(s)
  {
    NotPrefix(s, "null");
    NotPrefix(s, "true");
    NotPrefix(s, "false");
    NotPrefix(s, "\"");
    NotPrefix(s, "{");
    NotPrefix(s, "[");
  }

  lemma {:induction false} StringStart(s: string)
    requires s != "" && s[0] == '"'
    ensures ReadValue(s) == match ReadChars(s[1..]) case Fail => Fail case Ok(str, rest) => Ok(Str(str), rest)
  {
    NotPrefix(s, "null");
    NotPrefix(s, "true");
    NotPrefix(s, "false");
    assert s[..1] == "\"";
  }

  lemma {:induction false} CompoundStart(kind: Kind, s: string)
    ensures ReadValue(Opener(kind) + s) == ReadCompound(kind, s)
  {
    var t := Opener(kind) + s;
    NotPrefix(t, "null");
    NotPrefix(t, "true");
    NotPrefix(t, "false");
    NotPrefix(t, "\"");
    assert t[..1] == Opener(kind) && t[1..] == s;
    if kind.Array? {
      NotPrefix(t, "{");
    }
  }

  lemma {:induction false} ReadLiteral(v: Value, rest: string)
    requires v.Null? || v.Bool?
    ensures ReadValue(Scalar(v) + rest) == Ok(v, rest)
  {
    var s := Scalar(v) + rest;
    assert s[|Scalar(v)|..] == rest && s[..|Scalar(v)|] == Scalar(v);
    if v.Bool? {
      NotPrefix(s, "null");
      if !v.b {
        NotPrefix(s, "true");
      }
    }
  }

  lemma {:induction false} Quoted(inner: string, rest: string)
    ensures var s := "\"" + inner + "\"" + rest; s[0] == '"' && s[1..] == inner + "\"" + rest
  {
  }

  lemma {:induction false} ReadScalar(v: Value, rest: string)
    requires Expressible(v) && !v.Compound? && Stops(rest)
    ensures ReadValue(Scalar(v) + rest) == Ok(SeenValue(v), rest)
  {
    var s := Scalar(v) + rest;
    if v.Number? {
      ReadNumberDecimal(v.mantissa, rest);
      NumberStart(s);
    } else if v.Str? {
      Quoted(Escape(v.s), rest);
      StringStart(s);
      ReadCharsEscaped(v.s, rest);
    } else {
      ReadLiteral(v, rest);
    }
  }

  /** The colon after a name. */
  lemma {:induction false} ReadColon(value: string)
    requires ValueStart(value)
    ensures var t := SkipSpace(": " + value); StartsWith(t, ":") && SkipSpace(t[1..]) == value
  {
    var s := ": " + value;
    SkipNoSpace(s);
    assert s[..1] == ":" && s[1..] == " " + value;
    SkipSpaceOver(" ", value);
  }

  lemma {:induction false} ReadNamed(s: string, name: string, value: string)
    requires s != "" && s[0] == '"' && ReadChars(s[1..]) == Ok(name, ": " + value)
    requires ValueStart(value)
    ensures ReadName(Object, s) == Ok(Some(name), value)
  {
    ReadColon(value);
  }

  /** The name and colon before a value. */
  lemma {:induction false} ReadKey(kind: Kind, name: Option<string>, value: string)
    requires (kind.Object? <==> name.Some?) && (name.Some? ==> Plain(name.value)) && ValueStart(value)
    ensures ReadName(kind, Key(name) + value) == Ok(name, value)
    ensures ValueStart(Key(name) + value)
  {
    var s := Key(name) + value;
    if name.None? {
      assert s == value;
    } else {
      KeyText(name.value, value);
      ReadCharsPlain(name.value, ": " + value);
      ReadNamed(s, name.value, value);
    }
  }

  lemma {:induction false} KeyText(name: string, value: string)
    ensures var s := Key(Some(name)) + value; s[0] == '"' && s[1..] == name + "\"" + (": " + value)
  {
  }

  /** A container's closing line. */
  function Close(kind: Kind, close: string, rest: string): string {
    "\n" + close + Closer(kind) + rest
  }

  lemma {:induction false} CloseReads(kind: Kind, close: string, rest: string)
    requires AllSpace(close)
    ensures SkipSpace(Close(kind, close, rest)) == Closer(kind) + rest
  {
    assert Close(kind, close, rest) == ("\n" + close) + (Closer(kind) + rest);
    SkipSpaceOver("\n" + close, Closer(kind) + rest);
  }

  /** An item without its indentation and comma. */
  function Core(i: Item): string {
    Key(i.name) + Render(i.doc)
  }

  lemma {:induction false} TrimLast(a: string, b: string)
    requires |b| >= 2
    ensures Trimmed(a + b) == a + Trimmed(b)
  {
  }

  lemma {:induction false} TrimmedLine(i: Item)
    ensures Line(i) == i.pad + Core(i) + ",\n"
    ensures Trimmed(Line(i)) == i.pad + Core(i)
  {
    Cat(i.pad, Key(i.name), Render(i.doc));
    var body := i.pad + Core(i);
    assert (body + ",\n")[..|body|] == body;
  }

  lemma {:induction false} TrimmedLines(items: seq<Item>)
    requires items != []
    ensures Trimmed(Lines(items))
         == if |items| == 1 then items[0].pad + Core(items[0])
            else items[0].pad + Core(items[0]) + ",\n" + Trimmed(Lines(items[1..]))
  {
    TrimmedLine(items[0]);
    if |items| == 1 {
      assert items[1..] == [];
      assert Line(items[0]) + "" == Line(items[0]);
    } else {
      TrimLast(Line(items[0]), Lines(items[1..]));
    }
  }

  /** What follows the first item up to and including the closing line. */
  function After(items: seq<Item>, close: string): string
    requires items != []
  {
    if |items| == 1 then close else "," + ("\n" + (Trimmed(Lines(items[1..])) + close))
  }

  lemma {:induction false} CatLines(indent: string, core: string, lines: string, close: string)
    ensures "\n" + (indent + core + close) == ("\n" + indent) + (core + close)
    ensures "\n" + (indent + core + ",\n" + lines + close)
         == ("\n" + indent) + (core + ("," + ("\n" + (lines + close))))
  {
    assert ",\n" == "," + "\n";
  }

  /** Skipping the newline and the indentation leaves the first item. */
  lemma {:induction false} LinesStart(items: seq<Item>, close: string)
    requires items != [] && AllSpace(items[0].pad) && ValueStart(Core(items[0]) + After(items, close))
    ensures SkipSpace("\n" + (Trimmed(Lines(items)) + close)) == Core(items[0]) + After(items, close)
  {
    var core, pad := Core(items[0]), items[0].pad;
    TrimmedLines(items);
    SkipSpaceOver("\n" + pad, core + After(items, close));
    CatLines(pad, core, if |items| == 1 then "" else Trimmed(Lines(items[1..])), close);
  }

  /** An item the reader can take: properly laid out, its name plain. */
  ghost predicate Readable(kind: Kind, i: Item) {
    && AllSpace(i.pad) && Laid(i.doc)
    && Fits(kind, i.name, ValueOf(i.doc)) && Expressible(ValueOf(i.doc))
    && PlainName(i.name) && PlainNames(ValueOf(i.doc))
  }

  ghost predicate AllReadable(kind: Kind, items: seq<Item>) {
    forall k :: 0 <= k < |items| ==> Readable(kind, items[k])
  }

  lemma {:induction false} GroupReadable(d: Doc)
    requires Laid(d) && Expressible(ValueOf(d)) && PlainNames(ValueOf(d)) && d.Group?
    ensures AllReadable(d.kind, d.items) && AllSpace(d.close)
  {
    var es := EntriesOf(d.items);
    forall k | 0 <= k < |d.items|
      ensures Readable(d.kind, d.items[k])
    {
      assert es[k] == EntryOf(d.items[k]) && Fits(d.kind, es[k].name, es[k].value) && PlainName(es[k].name);
    }
  }

  lemma {:induction false} ReadEntryStart(kind: Kind, i: Item, after: string)
    requires Readable(kind, i)
    ensures ValueStart(Core(i) + after)
    ensures ReadName(kind, Core(i) + after) == Ok(i.name, Render(i.doc) + after)
  {
    RenderStart(i.doc);
    var value := Render(i.doc) + after;
    assert value[0] == Render(i.doc)[0];
    ReadKey(kind, i.name, value);
    Cat(Key(i.name), Render(i.doc), after);
  }

  /** Reading the last entry of a container. */
  lemma {:induction false} ReadLast(kind: Kind, s: string, e: Entry, s': string, close: string, rest: string)
    requires ReadName(kind, s) == Ok(e.name, s') && ReadValue(s') == Ok(e.value, close)
    requires SkipSpace(close) == Closer(kind) + rest
    ensures ReadEntries(kind, s) == Ok([e], rest)
  {
    var t := Closer(kind) + rest;
    assert t[..1] == Closer(kind) && t[1..] == rest;
  }

  /** Reading any other entry: its comma, and the entries after it. */
  lemma {:induction false} ReadNext(kind: Kind, s: string, e: Entry, s': string, t: string,
                                    es: seq<Entry>, rest: string)
    requires ReadName(kind, s) == Ok(e.name, s') && ReadValue(s') == Ok(e.value, t)
    requires SkipSpace(t) == t && StartsWith(t, ",") && !StartsWith(t, Closer(kind))
    requires ReadEntries(kind, SkipSpace(t[1..])) == Ok(es, rest)
    ensures ReadEntries(kind, s) == Ok([e] + es, rest)
  {
  }

  lemma {:induction false} CommaStarts(kind: Kind, tail: string)
    ensures var t := "," + tail;
            SkipSpace(t) == t && StartsWith(t, ",") && t[1..] == tail && !StartsWith(t, Closer(kind))
  {
    var t := "," + tail;
    SkipNoSpace(t);
    assert t[..1] == "," && t[1..] == tail;
    NotPrefix(t, Closer(kind));
  }

  lemma {:induction false} ReadEmpty(kind: Kind, rest: string)
    ensures ReadCompound(kind, Closer(kind) + rest) == Ok(Compound(kind, []), rest)
  {
    var t := Closer(kind) + rest;
    SkipNoSpace(t);
    assert t[..1] == Closer(kind) && t[1..] == rest;
  }

  lemma {:induction false} CatCompound(a: string, b: string, c: string, d: string, e: string)
    ensures a + "\n" + b + "\n" + c + d + e == a + ("\n" + (b + ("\n" + c + d + e)))
  {
  }

  lemma {:induction false} AfterStops(items: seq<Item>, kind: Kind, close: string, rest: string)
    requires items != []
    ensures Stops(After(items, Close(kind, close, rest)))
  {
  }

  lemma {:induction false} ReadCompoundEntries(kind: Kind, s: string, es: seq<Entry>, rest: string)
    requires !StartsWith(SkipSpace(s), Closer(kind)) && ReadEntries(kind, SkipSpace(s)) == Ok(es, rest)
    ensures ReadCompound(kind, s) == Ok(Compound(kind, es), rest)
  {
  }

  lemma {:induction false} ValueNotCloser(kind: Kind, s: string)
    requires ValueStart(s)
    ensures !StartsWith(s, Closer(kind))
  {
    NotPrefix(s, Closer(kind));
  }

  lemma {:induction false} RenderGroup(d: Doc, rest: string)
    requires d.Group? && d.items != []
    ensures Render(d) + rest
         == Opener(d.kind) + ("\n" + (Trimmed(Lines(d.items)) + Close(d.kind, d.close, rest)))
  {
    CatCompound(Opener(d.kind), Trimmed(Lines(d.items)), d.close, Closer(d.kind), rest);
  }

  /** What has to be shown of a container's lines: after the white space in front they read
      back as the entries, and what is left over is `rest`. */
  ghost predicate LinesRead(kind: Kind, items: seq<Item>, close: string, rest: string)
    requires items != []
  {
    var t := SkipSpace("\n" + (Trimmed(Lines(items)) + Close(kind, close, rest)));
    ValueStart(t) && ReadEntries(kind, t) == Ok(SeenEntries(EntriesOf(items)), rest)
  }

  lemma {:induction false} ReadFull(d: Doc, rest: string)
    requires d.Group? && d.items != [] && LinesRead(d.kind, d.items, d.close, rest)
    ensures ReadValue(Render(d) + rest) == Ok(SeenValue(ValueOf(d)), rest)
  {
    var s := "\n" + (Trimmed(Lines(d.items)) + Close(d.kind, d.close, rest));
    RenderGroup(d, rest);
    CompoundStart(d.kind, s);
    ValueNotCloser(d.kind, SkipSpace(s));
    ReadCompoundEntries(d.kind, s, SeenEntries(EntriesOf(d.items)), rest);
    SeenGroup(d);
  }

  lemma {:induction false} SeenGroup(d: Doc)
    requires d.Group?
    ensures SeenValue(ValueOf(d)) == Compound(d.kind, SeenEntries(EntriesOf(d.items)))
  {
  }

  lemma {:induction false} ReadHollow(d: Doc, rest: string)
    requires d.Group? && d.items == []
    ensures ReadValue(Render(d) + rest) == Ok(SeenValue(ValueOf(d)), rest)
  {
    CompoundStart(d.kind, Closer(d.kind) + rest);
    Cat(Opener(d.kind), Closer(d.kind), rest);
    ReadEmpty(d.kind, rest);
  }

  lemma {:induction false} SeenCons(items: seq<Item>)
    requires items != []
    ensures SeenEntries(EntriesOf(items)) == [SeenEntry(EntryOf(items[0]))] + SeenEntries(EntriesOf(items[1..]))
  {
    assert EntriesOf(items)[1..] == EntriesOf(items[1..]);
  }

  lemma {:induction false} SeenOne(items: seq<Item>)
    requires |items| == 1
    ensures SeenEntries(EntriesOf(items)) == [SeenEntry(EntryOf(items[0]))]
  {
    SeenCons(items);
    assert EntriesOf(items[1..]) == [] && SeenEntries([]) == [];
  }

  lemma {:induction false} ReadLastLine(kind: Kind, items: seq<Item>, close: string, rest: string)
    requires |items| == 1 && Readable(kind, items[0]) && AllSpace(close)
    requires var after := Close(kind, close, rest);
             ReadValue(Render(items[0].doc) + after) == Ok(SeenEntry(EntryOf(items[0])).value, after)
    ensures LinesRead(kind, items, close, rest)
  {
    var i, after := items[0], Close(kind, close, rest);
    ReadEntryStart(kind, i, after);
    LinesStart(items, after);
    CloseReads(kind, close, rest);
    ReadLast(kind, Core(i) + after, SeenEntry(EntryOf(i)), Render(i.doc) + after, after, rest);
    SeenOne(items);
  }

  lemma {:induction false} ReadNextLine(kind: Kind, items: seq<Item>, close: string, rest: string)
    requires |items| > 1 && Readable(kind, items[0])
    requires var after := After(items, Close(kind, close, rest));
             ReadValue(Render(items[0].doc) + after) == Ok(SeenEntry(EntryOf(items[0])).value, after)
    requires LinesRead(kind, items[1..], close, rest)
    ensures LinesRead(kind, items, close, rest)
  {
    var i, end := items[0], Close(kind, close, rest);
    var after := After(items, end);
    ReadEntryStart(kind, i, after);
    LinesStart(items, end);
    CommaStarts(kind, "\n" + (Trimmed(Lines(items[1..])) + end));
    ReadNext(kind, Core(i) + after, SeenEntry(EntryOf(i)), Render(i.doc) + after, after,
             SeenEntries(EntriesOf(items[1..])), rest);
    SeenCons(items);
  }

  /** The reader undoes every layout of every expressible value with plain names, whatever
      stands after it. */
  lemma {:induction false} ReadRendered(d: Doc, rest: string)
    requires Laid(d) && Expressible(ValueOf(d)) && PlainNames(ValueOf(d)) && Stops(rest)
    ensures ReadValue(Render(d) + rest) == Ok(SeenValue(ValueOf(d)), rest)
    decreases d, 0
  {
    if d.Leaf? {
      ReadScalar(d.value, rest);
    } else if d.items == [] {
      ReadHollow(d, rest);
    } else {
      GroupReadable(d);
      ReadLines(d.kind, d.items, d.close, rest);
      ReadFull(d, rest);
    }
  }

  lemma {:induction false} ReadItemValue(kind: Kind, i: Item, after: string)
    requires Readable(kind, i) && Stops(after)
    ensures ReadValue(Render(i.doc) + after) == Ok(SeenEntry(EntryOf(i)).value, after)
    decreases i, 0
  {
    ReadRendered(i.doc, after);
  }

  lemma {:induction false} ReadLines(kind: Kind, items: seq<Item>, close: string, rest: string)
    requires items != [] && AllReadable(kind, items) && AllSpace(close)
    ensures LinesRead(kind, items, close, rest)
    decreases items, 0
  {
    AfterStops(items, kind, close, rest);
    ReadItemValue(kind, items[0], After(items, Close(kind, close, rest)));
    if |items| == 1 {
      ReadLastLine(kind, items, close, rest);
    } else {
      ReadLines(kind, items[1..], close, rest);
      ReadNextLine(kind, items, close, rest);
    }
  }

  // ---------------------------------------------------------------- main results

  lemma {:induction false} SeenValueIff(v: Value)
    requires Expressible(v)
    ensures SeenValue(v) == v <==> AsciiValue(v)
    decreases v
  {
    match v
    case Str(s) => SeenIff(s);
    case Compound(kind, es) =>
      SeenEntriesAt(es);
      forall k | 0 <= k < |es|
        ensures SeenValue(es[k].value) == es[k].value <==> AsciiValue(es[k].value)
      {
        SeenValueIff(es[k].value);
      }
      if AsciiValue(v) {
        assert SeenEntries(es) == es;
      }
    case _ =>
  }

  lemma {:induction false} SeenEntriesAt(es: seq<Entry>)
    ensures |SeenEntries(es)| == |es|
    ensures forall k :: 0 <= k < |es| ==> SeenEntries(es)[k] == Entry(es[k].name, SeenValue(es[k].value))
  {
    if es != [] {
      SeenEntriesAt(es[1..]);
    }
  }

  /** A finished text is a JSON text, and denotes the document as seen through the escaper. */
  lemma {:induction false} TextReads(d: Doc)
    requires d.Group? && Laid(d) && Expressible(ValueOf(d)) && PlainNames(ValueOf(d))
    ensures ReadText(Render(d)) == Some(SeenValue(ValueOf(d)))
  {
    var s := Render(d);
    RenderStart(d);
    SkipNoSpace(s);
    assert s + "" == s;
    ReadRendered(d, "");
    assert SkipSpace("") == "";
  }

  /** Printer and parser. Make any legal calls on a fresh writer, with room for every indentation,
      no more than 256 containers open at once and all names plain, and, with only the root left
      open, end the JSON: the text is a JSON text. It denotes the document that was built exactly
      when that document's strings are all ASCII. */
  lemma {:induction false} WriterRoundTrip(calls: seq<Call>)
    requires LegalRun(ROOT, calls) && |BuildAll(ROOT, calls)| == 1 && Peak(ROOT, calls) <= DEEPEST
    requires JsonIndent.RoomyRun(Init(), calls)
    requires PlainNames(Compound(Object, BuildAll(ROOT, calls)[0].entries))
    ensures |PerformAll(Init(), calls).text| >= 2
    ensures var doc, text := Compound(Object, BuildAll(ROOT, calls)[0].entries), EndAll(PerformAll(Init(), calls)).text;
            ReadText(text) == Some(SeenValue(doc)) && (ReadText(text) == Some(doc) <==> AsciiValue(doc))
  {
    JsonRuns.InitShows();
    var sections := JsonRuns.RunKeeps(Init(), JsonRuns.BLANK, calls);
    JsonRuns.EndAllRenders(PerformAll(Init(), calls), sections);
    var d := Group(Object, sections[0].items, "");
    assert Frames(sections)[0] == FrameOf(sections[0]);
    TextReads(d);
    SeenValueIff(ValueOf(d));
  }
}
