/**
  The text the JSON writer produces, as values: escaping, number formatting, the writer's
  state and what each call does to it, and what the calls mean for the document. The class in
  JsonWriter.dfy is proved against these functions.
 */
module JsonText {
  import opened Common
  import opened JsonReader

  // ---------------------------------------------------------------- escaping

  /** The bytes of a C string: nonzero. */
  predicate IsCString(s: string) {
    forall k :: 0 <= k < |s| ==> 0 < s[k] as int < 256
  }

  predicate IsAscii(s: string) {
    forall k :: 0 <= k < |s| ==> s[k] as int < 128
  }

  function HexDigit(d: int): char
    requires 0 <= d < 16
  {
    if d < 10 then ('0' as int + d) as char else ('a' as int + d - 10) as char
  }

  /** What `%x` prints. */
  function Hex(n: nat): (s: string)
    ensures |s| >= 1
  {
    if n < 16 then [HexDigit(n)] else Hex(n / 16) + [HexDigit(n % 16)]
  }

  function Zeros(n: nat): (s: string)
    ensures |s| == n
  {
    if n == 0 then "" else "0" + Zeros(n - 1)
  }

  /** The value of a byte held in a plain `char` that is signed. */
  function SignedChar(c: char): int {
    if c as int < 128 then c as int else c as int - 256
  }

  /** The six characters that survive printing backslash, u and `%04x` into a seven-byte window. */
  function UnicodeText(c: char): (s: string)
    ensures |s| == 6
  {
    var v := SignedChar(c);
    var digits := Hex(if v < 0 then v + 0x1_0000_0000 else v);
    ("\\u" + (if |digits| < 4 then Zeros(4 - |digits|) else "") + digits)[..6]
  }

  predicate HasShortEscape(c: char) {
    c as int == 8 || c as int == 12 || c == '\t' || c == '\n' || c == '\r'
  }

  function EscapeChar(c: char): (e: string)
    ensures 1 <= |e| <= 6
  {
    if SignedChar(c) < 0x20 && !HasShortEscape(c) then UnicodeText(c)
    else if c == '"' then "\\\""
    else if c == '\\' then "\\\\"
    else if c as int == 8 then "\\b"
    else if c as int == 12 then "\\f"
    else if c == '\n' then "\\n"
    else if c == '\r' then "\\r"
    else if c == '\t' then "\\t"
    else [c]
  }

  function Escape(s: string): string {
    if s == "" then "" else Escape(s[..|s| - 1]) + EscapeChar(s[|s| - 1])
  }

  // ---------------------------------------------------------------- numbers

  /** Digits of a natural number, most significant first. */
  function DecimalDigits(n: nat): string {
    if n < 10 then [('0' as int + n) as char]
    else DecimalDigits(n / 10) + [('0' as int + n % 10) as char]
  }

  function Decimal(n: int): string {
    if n < 0 then "-" + DecimalDigits(-n) else DecimalDigits(n)
  }

  // ---------------------------------------------------------------- the writer's state

  type Depth = d: int | 0 <= d < 256

  /** Increment and decrement of an 8-bit unsigned field. */
  function Inc(d: Depth): Depth {
    if d == 255 then 0 else d + 1
  }

  function Dec(d: Depth): Depth {
    if d == 0 then 255 else d - 1
  }

  /** The 8-bit field after counting to `n` from zero. */
  function Wrapped(n: nat): (d: Depth)
    ensures n < 256 ==> d == n
  {
    if n == 0 then 0 else Inc(Wrapped(n - 1))
  }

  const ALLOC_SZ: nat := 4096
  const JSON_INDENT := "    "

  /** Everything later calls depend on: the text so far and the size of its buffer, the 8-bit
      depth, the flag that suppresses indentation, and the indenter in force. */
  datatype Writer = Writer(text: string, capacity: nat, depth: Depth, skipTabs: bool, indenter: string)

  function Repeat(s: string, n: nat): string {
    if n == 0 then "" else Repeat(s, n - 1) + s
  }

  /** The indentation due before the next message. */
  function Pad(w: Writer): string {
    if w.skipTabs then "" else Repeat(w.indenter, w.depth)
  }

  /** The buffer's size once it has been grown, at most once, for `need` bytes of indentation. */
  function RoomFor(len: nat, capacity: nat, need: nat): nat {
    if len + need >= capacity then capacity + ALLOC_SZ else capacity
  }

  function Room(w: Writer): nat {
    if w.skipTabs then w.capacity else RoomFor(|w.text|, w.capacity, |Pad(w)|)
  }

  /** The buffer's size once it has been grown until `len` bytes and a NUL fit. */
  function Grown(capacity: nat, len: nat): (c: nat)
    ensures c >= capacity && len < c
    decreases len - capacity
  {
    if len < capacity then capacity else Grown(capacity + ALLOC_SZ, len)
  }

  function BuildStr(w: Writer, message: string): Writer {
    var text := w.text + Pad(w) + message;
    w.(text := text, capacity := Grown(Room(w), |text|))
  }

  function Deeper(w: Writer): Writer {
    w.(depth := Inc(w.depth))
  }

  /** Whether the container being closed looks empty: its bracket is next to last. */
  predicate LooksEmpty(w: Writer)
    requires |w.text| >= 2
  {
    var last := w.text[|w.text| - 2];
    last == '[' || last == '{'
  }

  /** Closing a container edits away the comma and newline, or the lone newline, that the last
      call left behind. */
  function Cut(w: Writer): Writer
    requires |w.text| >= 2
  {
    w.(text := w.text[..|w.text| - (if LooksEmpty(w) then 1 else 2)], depth := Dec(w.depth), skipTabs := true)
  }

  /** The writer when the closing bracket, and the indentation in front of it, are due. */
  function Broken(w: Writer): Writer
    requires |w.text| >= 2
  {
    BuildStr(Cut(w), if LooksEmpty(w) then "" else "\n").(skipTabs := LooksEmpty(w))
  }

  function Closing(w: Writer, closer: string): string {
    closer + (if Dec(w.depth) > 0 then ",\n" else "")
  }

  function End(w: Writer, closer: string): Writer
    requires |w.text| >= 2
  {
    BuildStr(Broken(w), Closing(w, closer)).(skipTabs := false)
  }

  /** Ending the whole JSON: the depth is set to one whatever it was. */
  function EndAll(w: Writer): Writer
    requires |w.text| >= 2
  {
    End(w.(depth := 1), "}")
  }

  function Init(): Writer {
    Writer("{\n", ALLOC_SZ, 1, false, JSON_INDENT)
  }

  // ---------------------------------------------------------------- calls

  datatype Call =
    | AddStr(name: Option<string>, str: string)
    | AddStrOrNull(name: Option<string>, maybe: Option<string>)
    | AddInt(name: Option<string>, n: int)
    | AddBool(name: Option<string>, b: bool)
    | AddNull(name: Option<string>)
    | AddArray(arrayName: string)
    | AddObject(name: Option<string>)
    | EndArray
    | EndObject
    | SetIndenter(indenter: string)
    | IndentSz(size: int)

  function Key(name: Option<string>): string {
    if name.None? then "" else "\"" + name.value + "\": "
  }

  /** The text of a value that is not a container. */
  function Scalar(v: Value): string
    requires !v.Compound?
  {
    match v
    case Null => "null"
    case Bool(b) => if b then "true" else "false"
    case Number(m, _) => Decimal(m)
    case Str(s) => "\"" + Escape(s) + "\""
  }

  function AddScalar(w: Writer, name: Option<string>, v: Value): Writer
    requires !v.Compound?
  {
    BuildStr(w, Key(name) + Scalar(v) + ",\n")
  }

  function Begin(w: Writer, name: Option<string>, kind: Kind): Writer {
    Deeper(BuildStr(w, Key(name) + Opener(kind) + "\n"))
  }

  function StrOrNull(value: Option<string>): Value {
    if value.Some? && |value.value| > 0 then Str(value.value) else Null
  }

  function Perform(w: Writer, call: Call): Writer
    requires |w.text| >= 2
  {
    match call
    case AddStr(name, s) => AddScalar(w, name, Str(s))
    case AddStrOrNull(name, s) => AddScalar(w, name, StrOrNull(s))
    case AddInt(name, n) => AddScalar(w, name, Number(n, 0))
    case AddBool(name, b) => AddScalar(w, name, Bool(b))
    case AddNull(name) => AddScalar(w, name, Null)
    case AddArray(name) => Begin(w, Some(name), Array)
    case AddObject(name) => Begin(w, name, Object)
    case EndArray => End(w, "]")
    case EndObject => End(w, "}")
    case SetIndenter(indenter) => w.(indenter := indenter)
    case IndentSz(size) => if 1 <= size <= 16 then w.(indenter := Spaces(size)) else w
  }

  function Spaces(n: nat): string {
    seq(n, _ => ' ')
  }

  /** A run of calls. */
  function PerformAll(w: Writer, calls: seq<Call>): Writer
    decreases |calls|
  {
    if calls == [] || |w.text| < 2 then w else PerformAll(Perform(w, calls[0]), calls[1..])
  }

  // ---------------------------------------------------------------- documents

  predicate AllSpace(s: string) {
    forall k :: 0 <= k < |s| ==> IsSpace(s[k])
  }

  /** The documents the calls can express: C strings, integers of 64 bits, and entries named
      exactly when they belong to an object. An array takes no name inside an array, so no array
      holds one directly. */
  predicate Expressible(v: Value)
    decreases v
  {
    match v
    case Null => true
    case Bool(_) => true
    case Number(m, e) => e == 0 && -0x8000_0000_0000_0000 <= m < 0x8000_0000_0000_0000
    case Str(s) => IsCString(s)
    case Compound(kind, es) =>
      forall k :: 0 <= k < |es| ==> Fits(kind, es[k].name, es[k].value) && Expressible(es[k].value)
  }

  predicate Fits(kind: Kind, name: Option<string>, v: Value) {
    && (kind.Object? <==> name.Some?)
    && (name.Some? ==> IsCString(name.value))
    && (kind.Array? && v.Compound? ==> v.kind.Object?)
  }

  ghost predicate AllFit(kind: Kind, es: seq<Entry>) {
    forall k :: 0 <= k < |es| ==> Fits(kind, es[k].name, es[k].value) && Expressible(es[k].value)
  }

  predicate PlainChar(c: char) {
    ' ' <= c && c as int < 256 && c != '"' && c != '\\'
  }

  /** A name that needs no escaping. */
  predicate Plain(name: string) {
    forall k :: 0 <= k < |name| ==> PlainChar(name[k])
  }

  predicate PlainName(name: Option<string>) {
    name.Some? ==> Plain(name.value)
  }

  /** All names in the document need no escaping. */
  predicate PlainNames(v: Value)
    decreases v
  {
    v.Compound? ==> forall k :: 0 <= k < |v.entries| ==> PlainName(v.entries[k].name) && PlainNames(v.entries[k].value)
  }

  /** Every string in the document is ASCII. */
  predicate AsciiValue(v: Value)
    decreases v
  {
    match v
    case Str(s) => IsAscii(s)
    case Compound(_, es) => forall k :: 0 <= k < |es| ==> AsciiValue(es[k].value)
    case _ => true
  }

  // ---------------------------------------------------------------- open containers

  /** A container that has been begun and not yet ended. */
  datatype Frame = Frame(name: Option<string>, kind: Kind, entries: seq<Entry>)

  ghost predicate ValidStack(stack: seq<Frame>) {
    && |stack| >= 1
    && stack[0].name.None? && stack[0].kind.Object?
    && (forall k :: 0 <= k < |stack| ==> AllFit(stack[k].kind, stack[k].entries))
    && (forall k :: 0 < k < |stack| ==> Fits(stack[k - 1].kind, stack[k].name, Compound(stack[k].kind, [])))
  }

  function Top(stack: seq<Frame>): Frame
    requires |stack| >= 1
  {
    stack[|stack| - 1]
  }

  function Append(stack: seq<Frame>, e: Entry): seq<Frame>
    requires |stack| >= 1
  {
    stack[|stack| - 1 := Top(stack).(entries := Top(stack).entries + [e])]
  }

  /** What a call means for the document under construction. Changing the indenter means nothing. */
  function Build(stack: seq<Frame>, call: Call): seq<Frame>
    requires |stack| >= 1
    requires call.EndArray? || call.EndObject? ==> |stack| >= 2
  {
    match call
    case AddStr(name, s) => Append(stack, Entry(name, Str(s)))
    case AddStrOrNull(name, s) => Append(stack, Entry(name, StrOrNull(s)))
    case AddInt(name, n) => Append(stack, Entry(name, Number(n, 0)))
    case AddBool(name, b) => Append(stack, Entry(name, Bool(b)))
    case AddNull(name) => Append(stack, Entry(name, Null))
    case AddArray(name) => stack + [Frame(Some(name), Array, [])]
    case AddObject(name) => stack + [Frame(name, Object, [])]
    case EndArray => Closed(stack)
    case EndObject => Closed(stack)
    case SetIndenter(_) => stack
    case IndentSz(_) => stack
  }

  /** The innermost container becomes an entry of the one around it. */
  function Closed(stack: seq<Frame>): seq<Frame>
    requires |stack| >= 2
  {
    var f := Top(stack);
    Append(stack[..|stack| - 1], Entry(f.name, Compound(f.kind, f.entries)))
  }

  /** The calls a caller may make: names where, and only where, the innermost container wants
      them, values in range, closers matching openers, and indenters of JSON white space. */
  ghost predicate Legal(stack: seq<Frame>, call: Call)
    requires |stack| >= 1
  {
    var kind := Top(stack).kind;
    match call
    case AddStr(name, s) => Fits(kind, name, Null) && Expressible(Str(s))
    case AddStrOrNull(name, s) => Fits(kind, name, Null) && (s.Some? ==> Expressible(Str(s.value)))
    case AddInt(name, n) => Fits(kind, name, Null) && Expressible(Number(n, 0))
    case AddBool(name, _) => Fits(kind, name, Null)
    case AddNull(name) => Fits(kind, name, Null)
    case AddArray(name) => Fits(kind, Some(name), Compound(Array, []))
    case AddObject(name) => Fits(kind, name, Compound(Object, []))
    case EndArray => |stack| >= 2 && kind.Array?
    case EndObject => |stack| >= 2 && kind.Object?
    case SetIndenter(indenter) => AllSpace(indenter)
    case IndentSz(_) => true
  }

  /** Every call of the run is legal where it is made. */
  ghost predicate LegalRun(stack: seq<Frame>, calls: seq<Call>)
    requires |stack| >= 1
    decreases |calls|
  {
    calls != [] ==> Legal(stack, calls[0]) && LegalRun(Build(stack, calls[0]), calls[1..])
  }

  ghost function BuildAll(stack: seq<Frame>, calls: seq<Call>): (r: seq<Frame>)
    requires |stack| >= 1 && LegalRun(stack, calls)
    ensures |r| >= 1
    decreases |calls|
  {
    if calls == [] then stack else BuildAll(Build(stack, calls[0]), calls[1..])
  }

  /** The most containers open at any moment of the run. */
  ghost function Peak(stack: seq<Frame>, calls: seq<Call>): (p: nat)
    requires |stack| >= 1 && LegalRun(stack, calls)
    ensures p >= |stack|
    decreases |calls|
  {
    if calls == [] then |stack|
    else
      var p := Peak(Build(stack, calls[0]), calls[1..]);
      if p < |stack| then |stack| else p
  }

  /** With no more containers open than this, an 8-bit depth tells each from none when the
      container inside it is closed. */
  const DEEPEST: nat := 256

  const ROOT := [Frame(None, Object, [])]
}
