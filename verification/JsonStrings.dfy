/** `JSON.stringify` of a string, and reading it back by section 7 of RFC 8259. */
module JsonStrings {
  import opened Options

  function HexDigit(d: nat): char
    requires d < 16
  {
    "0123456789abcdef"[d]
  }

  /** One character inside a JSON string. */
  function Escape(c: char): string {
    if c == '"' then "\\\"" else if c == '\\' then "\\\\"
    else if c == '\n' then "\\n" else if c == '\r' then "\\r" else if c == '\t' then "\\t"
    else if c == '\U{8}' then "\\b" else if c == '\U{C}' then "\\f"
    else if c < ' ' then "\\u00" + [HexDigit(c as int / 16), HexDigit(c as int % 16)]
    else [c]
  }

  function EscapeAll(s: string, escape: char -> string): string {
    if s == "" then "" else EscapeAll(s[..|s| - 1], escape) + escape(s[|s| - 1])
  }

  /** `JSON.stringify` of a string. */
  function Quote(s: string): string {
    "\"" + EscapeAll(s, Escape) + "\""
  }

  lemma {:induction false} NothingEscaped(s: string, escape: char -> string)
    requires forall k :: 0 <= k < |s| ==> escape(s[k]) == [s[k]]
    ensures EscapeAll(s, escape) == s
  {
    if s == "" {
    } else {
      NothingEscaped(s[..|s| - 1], escape);
    }
  }

  // ---------- Reading ----------

  function HexValue(c: char): Option<nat> {
    if '0' <= c <= '9' then Some(c as int - '0' as int)
    else if 'a' <= c <= 'f' then Some(c as int - 'a' as int + 10)
    else if 'A' <= c <= 'F' then Some(c as int - 'A' as int + 10)
    else None
  }

  /** The character of four hexadecimal digits; surrogates, which stand in pairs, are not read. */
  function FourDigits(s: string): Option<char>
    requires |s| == 4
  {
    var a, b, c, d := HexValue(s[0]), HexValue(s[1]), HexValue(s[2]), HexValue(s[3]);
    if a.None? || b.None? || c.None? || d.None? then None else
      var code := 4096 * a.value + 256 * b.value + 16 * c.value + d.value;
      if 0xD800 <= code < 0xE000 || code > 0xFFFF then None else Some(code as char)
  }

  /** The character that a backslash and one more character stand for. */
  function Unescaped(c: char): Option<char> {
    if c == '"' || c == '\\' || c == '/' then Some(c)
    else if c == 'b' then Some('\U{8}') else if c == 'f' then Some('\U{C}')
    else if c == 'n' then Some('\n') else if c == 'r' then Some('\r') else if c == 't' then Some('\t')
    else None
  }

  /** The text up to the closing quote, and what follows it. */
  function ReadString(s: string): Option<(string, string)> {
    if s == "" || s[0] < ' ' then None
    else if s[0] == '"' then Some(("", s[1..]))
    else if s[0] != '\\' then After(s[0], ReadString(s[1..]))
    else if |s| < 2 then None
    else if s[1] == 'u' then
      if |s| < 6 || FourDigits(s[2..6]).None? then None else After(FourDigits(s[2..6]).value, ReadString(s[6..]))
    else if Unescaped(s[1]).None? then None
    else After(Unescaped(s[1]).value, ReadString(s[2..]))
  }

  function After(c: char, r: Option<(string, string)>): Option<(string, string)> {
    if r.None? then None else Some(([c] + r.value.0, r.value.1))
  }

  /** Between quotes, `e` is read as `s`. */
  ghost predicate Encodes(e: string, s: string) {
    forall rest :: ReadString(e + "\"" + rest) == Some((s, rest))
  }

  lemma OneReads(c: char, tail: string)
    ensures ReadString(Escape(c) + tail) == After(c, ReadString(tail))
  {
    if |Escape(c)| == 6 {
      CodeReads(c, tail);
    } else if |Escape(c)| == 2 {
      PairReads(c, tail);
    } else {
      var text := [c] + tail;
      assert text[1..] == tail;
    }
  }

  lemma PairReads(c: char, tail: string)
    requires |Escape(c)| == 2
    ensures ReadString(Escape(c) + tail) == After(c, ReadString(tail))
  {
    var text := Escape(c) + tail;
    assert text[0] == '\\' && text[1] == Escape(c)[1] && text[2..] == tail;
  }

  lemma CodeReads(c: char, tail: string)
    requires |Escape(c)| == 6
    ensures ReadString(Escape(c) + tail) == After(c, ReadString(tail))
  {
    var text := Escape(c) + tail;
    assert text[0] == '\\' && text[1] == 'u' && text[6..] == tail;
    assert text[2..6] == "00" + [HexDigit(c as int / 16), HexDigit(c as int % 16)];
    HexReads(c as int / 16);
    HexReads(c as int % 16);
  }

  lemma HexReads(d: nat)
    requires d < 16
    ensures HexValue(HexDigit(d)) == Some(d)
  {
  }

  lemma Regroup(a: string, b: string, c: string)
    ensures a + (b + c) == (a + b) + c
  {
  }

  lemma {:induction false} EscapedReads(s: string, tail: string, value: string, rest: string)
    requires ReadString(tail) == Some((value, rest))
    ensures ReadString(EscapeAll(s, Escape) + tail) == Some((s + value, rest))
  {
    if s == "" {
      assert EscapeAll(s, Escape) + tail == tail && s + value == value;
    } else {
      var init, last := s[..|s| - 1], s[|s| - 1];
      OneReads(last, tail);
      EscapedReads(init, Escape(last) + tail, [last] + value, rest);
      Regroup(EscapeAll(init, Escape), Escape(last), tail);
      Regroup(init, [last], value);
      assert init + [last] == s;
    }
  }

  /** Every string is read back from what stands between the quotes. */
  lemma QuoteEncodes(s: string)
    ensures Quote(s) == "\"" + EscapeAll(s, Escape) + "\"" && Encodes(EscapeAll(s, Escape), s)
  {
    forall rest ensures ReadString(EscapeAll(s, Escape) + "\"" + rest) == Some((s, rest)) {
      assert ("\"" + rest)[1..] == rest;
      EscapedReads(s, "\"" + rest, "", rest);
      assert EscapeAll(s, Escape) + "\"" + rest == EscapeAll(s, Escape) + ("\"" + rest);
      assert s + "" == s;
    }
  }
}
