/**
  Which of the texts that denote a string or a number the writer chooses: the shortest escapes,
  hexadecimal digits in lower case, and the one decimal numeral without a superfluous zero.
 */
module JsonForms {
  import opened JsonReader
  import opened JsonText
  import opened JsonRoundTrip

  // ---------------------------------------------------------------- characters

  /** The text from which a character was read. */
  function Consumed(s: string, rest: string): string
    requires |rest| <= |s|
  {
    s[..|s| - |rest|]
  }

  predicate LowerCase(e: string) {
    forall k :: 0 <= k < |e| ==> !('A' <= e[k] <= 'F')
  }

  lemma {:induction false} DigitOf(c: char, d: int)
    requires 0 <= d < 16 && HexValue(c) == d && !('A' <= c <= 'F')
    ensures c == HexDigit(d)
  {
  }

  /** A unicode escape of a control character: two zeros and two digits. */
  lemma {:induction false} ControlEscape(s: string, c: char)
    requires UnicodeEscape(s) == c as int && 0 < c as int < 0x20
    ensures |s| >= 6 && (LowerCase(s[2..6]) ==> s[..6] == UnicodeText(c))
  {
    ControlText(c);
    if LowerCase(s[2..6]) {
      var digits := s[2..6];
      assert digits[0] == s[2] && digits[1] == s[3] && digits[2] == s[4] && digits[3] == s[5];
      DigitOf(s[2], 0);
      DigitOf(s[3], 0);
      DigitOf(s[4], c as int / 16);
      DigitOf(s[5], c as int % 16);
    }
  }

  /** What is read as an ASCII character is no shorter than what the writer puts for it; if it is
      as short, and its hexadecimal digits in lower case, it is the same. */
  lemma {:induction false} CharShortest(s: string, c: char, rest: string)
    requires ReadChar(s) == Ok(c, rest) && 0 < c as int < 128
    ensures |EscapeChar(c)| <= |s| - |rest|
    ensures |EscapeChar(c)| == |s| - |rest| && (c as int < 0x20 ==> LowerCase(Consumed(s, rest))) ==>
              Consumed(s, rest) == EscapeChar(c)
  {
    if s[0] == '\\' && |s| - |rest| > 2 {
      if c as int < 0x20 && !HasShortEscape(c) {
        ControlEscape(s, c);
        assert LowerCase(s[..6]) ==> LowerCase(s[2..6]) by {
          assert forall k :: 0 <= k < 4 ==> s[2..6][k] == s[..6][k + 2];
        }
      }
    }
  }

  /** Bytes that are not ASCII are all written alike. */
  lemma {:induction false} NonAsciiEscape(c: char)
    requires 128 <= c as int < 256
    ensures EscapeChar(c) == "\\uffff"
  {
    NegativeText(c);
  }

  /** No text that denotes an ASCII string is shorter than the escaped one. */
  lemma {:induction false} EscapeShortest(s: string)
    requires ReadChars(s).Ok? && IsCString(ReadChars(s).value) && IsAscii(ReadChars(s).value)
    ensures |Escape(ReadChars(s).value)| + 1 + |ReadChars(s).rest| <= |s|
    decreases |s|
  {
    if s[0] != '"' {
      var c := ReadChar(s);
      var cs := ReadChars(c.rest).value;
      var v := ReadChars(s).value;
      assert v == [c.value] + cs && v[0] == c.value && v[1..] == cs;
      assert forall k :: 0 <= k < |cs| ==> cs[k] == v[k + 1];
      CharShortest(s, c.value, c.rest);
      EscapeShortest(c.rest);
      EscapeFront(v);
    }
  }

  // ---------------------------------------------------------------- numbers

  lemma {:induction false} DecimalIsNumeral(n: nat)
    ensures Numeral(DecimalDigits(n), n)
  {
    DecimalDigitsRead(n);
  }

  lemma {:induction false} LeadingPart(d: string, n: nat)
    requires Numeral(d, n) && |d| >= 2
    ensures n >= 10 && Numeral(d[..|d| - 1], n / 10) && d[|d| - 1] as int == '0' as int + n % 10
  {
    var front := d[..|d| - 1];
    assert forall k :: 0 <= k < |front| ==> front[k] == d[k];
    assert IsDigit(d[|d| - 1]);
    assert front[0] == d[0] && d[0] != '0';
    Positive(front);
  }

  lemma {:induction false} Positive(d: string)
    requires d != "" && (forall k :: 0 <= k < |d| ==> IsDigit(d[k])) && d[0] != '0'
    ensures DigitsValue(d) > 0
  {
    if |d| > 1 {
      var front := d[..|d| - 1];
      assert forall k :: 0 <= k < |front| ==> front[k] == d[k];
      Positive(front);
    } else {
      assert d[..0] == "" && DigitsValue("") == 0;
    }
  }

  /** The digits printed are the only numeral of their number. */
  lemma {:induction false} NumeralIff(d: string, n: nat)
    ensures Numeral(d, n) <==> d == DecimalDigits(n)
    decreases |d|
  {
    DecimalIsNumeral(n);
    if Numeral(d, n) {
      if |d| >= 2 {
        LeadingPart(d, n);
        NumeralIff(d[..|d| - 1], n / 10);
        assert d == d[..|d| - 1] + [d[|d| - 1]];
      } else {
        assert d[..0] == "" && DigitsValue("") == 0 && IsDigit(d[0]);
        assert d == [d[0]];
      }
    }
  }
}
