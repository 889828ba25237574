/**
  A reader for JSON texts as RFC 8259 defines them (sections 2 to 7): white space, literals,
  objects, arrays, numbers and strings. It is written from the RFC alone and knows nothing of
  the writer in JsonWriter.dfy. One `char` stands for one byte of text; the characters a
  string denotes are Unicode scalar values, so a lone surrogate escape is not accepted
  (section 8.2 leaves its meaning open).
 */
module JsonReader {
  import opened Common

  datatype Kind = Object | Array

  /** A JSON value. `Number(m, e)` is m times ten to the e. The entries of an object carry
      names, those of an array do not. */
  datatype Value =
    | Null
    | Bool(b: bool)
    | Number(mantissa: int, exponent: int)
    | Str(s: string)
    | Compound(kind: Kind, entries: seq<Entry>)

  datatype Entry = Entry(name: Option<string>, value: Value)

  /** What a parsing function found at the front of its input, and the input left over. */
  datatype Parsed<+T> = Fail | Ok(value: T, rest: string)

  // ---------------------------------------------------------------- white space

  predicate IsSpace(c: char) {
    c == ' ' || c == '\t' || c == '\n' || c == '\r'
  }

  function SkipSpace(s: string): (r: string)
    ensures |r| <= |s|
    ensures r == s[|s| - |r|..] && forall k :: 0 <= k < |s| - |r| ==> IsSpace(s[k])
    ensures r == "" || !IsSpace(r[0])
  {
    if s != "" && IsSpace(s[0]) then SkipSpace(s[1..]) else s
  }

  // ---------------------------------------------------------------- strings

  function HexValue(c: char): (v: int)
    ensures -1 <= v < 16
  {
    if '0' <= c <= '9' then c as int - '0' as int
    else if 'a' <= c <= 'f' then c as int - 'a' as int + 10
    else if 'A' <= c <= 'F' then c as int - 'A' as int + 10
    else -1
  }

  /** The code unit of an escape of the form backslash, u and four hexadecimal digits at the
      front of `s`, or -1. */
  function UnicodeEscape(s: string): (v: int)
    ensures -1 <= v < 0x10000
    ensures v >= 0 ==> |s| >= 6
  {
    if |s| < 6 || s[0] != '\\' || s[1] != 'u' then -1
    else
      var h3, h2, h1, h0 := HexValue(s[2]), HexValue(s[3]), HexValue(s[4]), HexValue(s[5]);
      if h3 < 0 || h2 < 0 || h1 < 0 || h0 < 0 then -1
      else h3 * 0x1000 + h2 * 0x100 + h1 * 0x10 + h0
  }

  /** The character one element of a string denotes: an unescaped character, a two-character
      escape, or one or two unicode escapes (section 7). */
  function ReadChar(s: string): (r: Parsed<char>)
    ensures r.Ok? ==> |r.rest| < |s|
  {
    if s == "" || s[0] < ' ' || s[0] == '"' then Fail
    else if s[0] != '\\' then Ok(s[0], s[1..])
    else if |s| < 2 then Fail
    else if s[1] == '"' || s[1] == '\\' || s[1] == '/' then Ok(s[1], s[2..])
    else if s[1] == 'b' then Ok(8 as char, s[2..])
    else if s[1] == 'f' then Ok(12 as char, s[2..])
    else if s[1] == 'n' then Ok('\n', s[2..])
    else if s[1] == 'r' then Ok('\r', s[2..])
    else if s[1] == 't' then Ok('\t', s[2..])
    else
      var u := UnicodeEscape(s);
      if u < 0 || 0xDC00 <= u < 0xE000 then Fail
      else if u < 0xD800 || 0xE000 <= u then Ok(u as char, s[6..])
      else
        var low := UnicodeEscape(s[6..]);
        if 0xDC00 <= low < 0xE000
        then Ok((0x10000 + (u - 0xD800) * 0x400 + (low - 0xDC00)) as char, s[12..])
        else Fail
  }

  /** The rest of a string whose opening quotation mark has been read. */
  function ReadChars(s: string): (r: Parsed<string>)
    ensures r.Ok? ==> |r.rest| < |s|
    decreases |s|
  {
    if s != "" && s[0] == '"' then Ok("", s[1..])
    else
      match ReadChar(s)
      case Fail => Fail
      case Ok(c, rest) =>
        match ReadChars(rest)
        case Fail => Fail
        case Ok(cs, rest') => Ok([c] + cs, rest')
  }

  function ReadString(s: string): (r: Parsed<string>)
    ensures r.Ok? ==> |r.rest| < |s|
  {
    if s != "" && s[0] == '"' then ReadChars(s[1..]) else Fail
  }

  // ---------------------------------------------------------------- numbers

  predicate IsDigit(c: char) {
    '0' <= c <= '9'
  }

  /** The number of digits at the front of `s`. */
  function DigitRun(s: string): (n: nat)
    ensures n <= |s| && (forall k :: 0 <= k < n ==> IsDigit(s[k])) && (n < |s| ==> !IsDigit(s[n]))
  {
    if s != "" && IsDigit(s[0]) then 1 + DigitRun(s[1..]) else 0
  }

  function DigitsValue(s: string): nat
    requires forall k :: 0 <= k < |s| ==> IsDigit(s[k])
  {
    if s == "" then 0
    else
      assert IsDigit(s[|s| - 1]);
      DigitsValue(s[..|s| - 1]) * 10 + (s[|s| - 1] as int - '0' as int)
  }

  /** The optional fraction: the digits after the point. */
  function ReadFraction(s: string): (r: Parsed<string>)
    ensures r.Ok? ==> |r.rest| <= |s| && forall k :: 0 <= k < |r.value| ==> IsDigit(r.value[k])
  {
    if s == "" || s[0] != '.' then Ok("", s)
    else
      var n := DigitRun(s[1..]);
      if n == 0 then Fail else Ok(s[1..][..n], s[1..][n..])
  }

  /** The optional exponent. */
  function ReadExponent(s: string): (r: Parsed<int>)
    ensures r.Ok? ==> |r.rest| <= |s|
  {
    if s == "" || (s[0] != 'e' && s[0] != 'E') then Ok(0, s)
    else
      var signed := |s| > 1 && (s[1] == '-' || s[1] == '+');
      var t := if signed then s[2..] else s[1..];
      var n := DigitRun(t);
      if n == 0 then Fail
      else
        var e: int := DigitsValue(t[..n]);
        Ok(if signed && s[1] == '-' then -e else e, t[n..])
  }

  /** The unsigned part of a number: no superfluous leading zero (section 6). */
  function ReadMagnitude(s: string): (r: Parsed<(int, int)>)
    ensures r.Ok? ==> |r.rest| < |s|
  {
    var run := DigitRun(s);
    if run == 0 then Fail
    else
      var n := if s[0] == '0' then 1 else run;
      match ReadFraction(s[n..])
      case Fail => Fail
      case Ok(frac, rest) =>
        match ReadExponent(rest)
        case Fail => Fail
        case Ok(e, rest') => Ok((DigitsValue(s[..n] + frac), e - |frac|), rest')
  }

  function Signed(minus: bool, p: Parsed<(int, int)>): Parsed<Value> {
    match p
    case Fail => Fail
    case Ok(m, rest) => Ok(Number(if minus then -m.0 else m.0, m.1), rest)
  }

  function ReadNumber(s: string): (r: Parsed<Value>)
    ensures r.Ok? ==> |r.rest| < |s|
  {
    if s != "" && s[0] == '-' then Signed(true, ReadMagnitude(s[1..])) else Signed(false, ReadMagnitude(s))
  }

  // ---------------------------------------------------------------- values

  function Opener(kind: Kind): string {
    if kind.Object? then "{" else "["
  }

  function Closer(kind: Kind): string {
    if kind.Object? then "}" else "]"
  }

  predicate StartsWith(s: string, prefix: string) {
    |prefix| <= |s| && s[..|prefix|] == prefix
  }

  function ReadValue(s: string): (r: Parsed<Value>)
    ensures r.Ok? ==> |r.rest| < |s|
    decreases |s|, 0
  {
    if StartsWith(s, "null") then Ok(Null, s[4..])
    else if StartsWith(s, "true") then Ok(Bool(true), s[4..])
    else if StartsWith(s, "false") then Ok(Bool(false), s[5..])
    else if StartsWith(s, "\"") then
      match ReadString(s)
      case Fail => Fail
      case Ok(str, rest) => Ok(Str(str), rest)
    else if StartsWith(s, "{") then ReadCompound(Object, s[1..])
    else if StartsWith(s, "[") then ReadCompound(Array, s[1..])
    else ReadNumber(s)
  }

  /** An object or array whose opening bracket has been read. */
  function ReadCompound(kind: Kind, s: string): (r: Parsed<Value>)
    ensures r.Ok? ==> |r.rest| < |s|
    decreases |s|, 2
  {
    var t := SkipSpace(s);
    if StartsWith(t, Closer(kind)) then Ok(Compound(kind, []), t[1..])
    else
      match ReadEntries(kind, t)
      case Fail => Fail
      case Ok(es, rest) => Ok(Compound(kind, es), rest)
  }

  /** One or more entries separated by commas, and the closing bracket. */
  function ReadEntries(kind: Kind, s: string): (r: Parsed<seq<Entry>>)
    ensures r.Ok? ==> |r.rest| < |s|
    decreases |s|, 1
  {
    var name := ReadName(kind, s);
    if name.Fail? then Fail
    else
      var value := ReadValue(name.rest);
      if value.Fail? then Fail
      else
        var t := SkipSpace(value.rest);
        var e := Entry(name.value, value.value);
        if StartsWith(t, Closer(kind)) then Ok([e], t[1..])
        else if StartsWith(t, ",") then
          match ReadEntries(kind, SkipSpace(t[1..]))
          case Fail => Fail
          case Ok(es, rest) => Ok([e] + es, rest)
        else Fail
  }

  /** The name and colon before an object's value; nothing before an array's. */
  function ReadName(kind: Kind, s: string): (r: Parsed<Option<string>>)
    ensures r.Ok? ==> |r.rest| <= |s|
  {
    if kind.Array? then Ok(None, s)
    else
      match ReadString(s)
      case Fail => Fail
      case Ok(name, rest) =>
        var t := SkipSpace(rest);
        if StartsWith(t, ":") then Ok(Some(name), SkipSpace(t[1..])) else Fail
  }

  /** A whole JSON text (section 2), or None when `s` is not one. */
  function ReadText(s: string): Option<Value> {
    match ReadValue(SkipSpace(s))
    case Fail => None
    case Ok(v, rest) => if SkipSpace(rest) == "" then Some(v) else None
  }
}
