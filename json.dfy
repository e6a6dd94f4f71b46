/**
 * PHP's json_encode with its default flags, over the values a decoded JSON
 * request body holds: `/` is escaped, control characters and every
 * character outside ASCII become \uXXXX escapes with lower-case hex digits
 * (a UTF-16 surrogate pair above U+FFFF), and a list becomes a JSON array.
 */
module Json {
  import opened PhpValue
  import Text

  function HexDigit(d: nat): (c: char)
    requires d < 16
  {
    if d < 10 then Text.DigitChar(d) else ('a' as int + d - 10) as char
  }

  /** \u and the four hex digits of one UTF-16 code unit. */
  function UnitEscape(u: nat): (s: string)
    requires u < 0x10000
    ensures |s| == 6 && s[0] == '\\' && s[1] == 'u'
  {
    ['\\', 'u', HexDigit(u / 0x1000), HexDigit(u / 0x100 % 16), HexDigit(u / 0x10 % 16), HexDigit(u % 16)]
  }

  /** A character json_encode copies as it is: printable ASCII (DEL
      included) other than the quote, the backslash and the slash. */
  predicate IsPlain(c: char) {
    0x20 <= c as int < 0x80 && c != '"' && c != '\\' && c != '/'
  }

  /** The text json_encode writes for one character of a string. */
  function EscapeChar(c: char): (s: string)
    ensures |s| >= 1
    ensures IsPlain(c) <==> s == [c]
  {
    if c == '"' then "\\\""
    else if c == '\\' then "\\\\"
    else if c == '/' then "\\/"
    else if c == '\U{8}' then "\\b"
    else if c == '\U{C}' then "\\f"
    else if c == '\n' then "\\n"
    else if c == '\r' then "\\r"
    else if c == '\t' then "\\t"
    else if c as int < 0x20 then UnitEscape(c as int)
    else if c as int < 0x80 then [c]
    else if c as int < 0x10000 then UnitEscape(c as int)
    else
      var w := c as int - 0x10000;
      UnitEscape(0xD800 + w / 0x400) + UnitEscape(0xDC00 + w % 0x400)
  }

  /** The escaped body of a string literal. */
  function Escape(s: string): string {
    if s == [] then "" else Escape(s[..|s| - 1]) + EscapeChar(s[|s| - 1])
  }

  /** json_encode($v). */
  function Encode(v: Value): string
    decreases v
  {
    match v
    case Null => "null"
    case Bool(b) => if b then "true" else "false"
    case Int(i) => Text.IntToString(i)
    case Str(s) => "\"" + Escape(s) + "\""
    case List(items) =>
      "[" + Text.Join(seq(|items|, k requires 0 <= k < |items| => Encode(items[k])), ',') + "]"
  }

  /** A string of plain characters is written verbatim between quotes;
      anything else is written longer than it is. */
  lemma {:induction false} EscapeLength(s: string)
    ensures |Escape(s)| >= |s|
    ensures (forall k :: 0 <= k < |s| ==> IsPlain(s[k])) <==> Escape(s) == s
  {
    if s != [] {
      var init := s[..|s| - 1];
      var c := s[|s| - 1];
      EscapeLength(init);
      if forall k :: 0 <= k < |s| ==> IsPlain(s[k]) {
        assert forall k :: 0 <= k < |init| ==> IsPlain(init[k]) by {
          forall k | 0 <= k < |init| ensures IsPlain(init[k]) {
            assert init[k] == s[k];
          }
        }
        assert s == init + [c];
      } else {
        var j :| 0 <= j < |s| && !IsPlain(s[j]);
        if j == |s| - 1 {
          assert |EscapeChar(c)| > 1;
        } else {
          assert init[j] == s[j];
          assert Escape(init) != init;
          if |Escape(init)| == |init| {
            assert Escape(s)[..|init|] == Escape(init);
            assert s[..|init|] == init;
          }
        }
      }
    }
  }

  /** A one-element list is its element's text in brackets. */
  lemma SingletonList(v: Value)
    ensures Encode(List([v])) == "[" + Encode(v) + "]"
  {
    assert seq(1, k requires 0 <= k < 1 => Encode([v][k])) == [Encode(v)];
  }
}
