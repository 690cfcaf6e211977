/**
 * JSON string literals as `json.dumps` writes them with its default `ensure_ascii=True`, and
 * the reading of such a literal's body back into the string, as a JSON parser does it.
 */
module JsonString {
  import opened Wrappers

  /** Characters written unescaped: printable ASCII. */
  predicate IsPrintable(c: char) {
    ' ' <= c <= '~'
  }

  predicate AllPrintable(s: string) {
    forall c :: c in s ==> IsPrintable(c)
  }

  function HexDigit(n: int): (c: char)
    requires 0 <= n < 16
    ensures IsPrintable(c)
  {
    if n < 10 then ('0' as int + n) as char else ('a' as int + n - 10) as char
  }

  /** Four lower-case hex digits, as `'\\u{0:04x}'` formats them. */
  function Hex4(n: int): (s: string)
    requires 0 <= n < 0x10000
    ensures |s| == 4 && AllPrintable(s)
  {
    [HexDigit(n / 16 / 16 / 16), HexDigit(n / 16 / 16 % 16), HexDigit(n / 16 % 16), HexDigit(n % 16)]
  }

  /**
   * The escape of one character: short escapes for the quote, backslash and five control
   * characters, the character itself when printable ASCII, `\uXXXX` otherwise, and a surrogate
   * pair above the Basic Multilingual Plane.
   */
  function EscapeChar(c: char): (e: string)
    ensures 1 <= |e| && AllPrintable(e)
  {
    if c == '"' then "\\\""
    else if c == '\\' then "\\\\"
    else if c == '\n' then "\\n"
    else if c == '\r' then "\\r"
    else if c == '\t' then "\\t"
    else if c as int == 0x08 then "\\b"
    else if c as int == 0x0c then "\\f"
    else if IsPrintable(c) then [c]
    else if c as int < 0x10000 then "\\u" + Hex4(c as int)
    else
      var v := c as int - 0x10000;
      SurrogateEscape(0xD800 + v / 0x400, 0xDC00 + v % 0x400)
  }

  /** The two `\uXXXX` escapes of a surrogate pair. */
  function SurrogateEscape(hi: int, lo: int): (e: string)
    requires 0xD800 <= hi < 0xDC00 && 0xDC00 <= lo < 0xE000
    ensures |e| == 12 && AllPrintable(e)
  {
    "\\u" + Hex4(hi) + "\\u" + Hex4(lo)
  }

  /** The escaped body of a JSON string. */
  function Escaped(s: string): (e: string)
    ensures AllPrintable(e)
    ensures |s| <= |e|
  {
    if s == [] then [] else EscapeChar(s[0]) + Escaped(s[1..])
  }

  /** A Python string as `json.dumps` writes it. */
  function Quoted(s: string): (q: string)
    ensures AllPrintable(q) && |q| >= 2 && q[0] == '"' && q[|q| - 1] == '"'
  {
    "\"" + Escaped(s) + "\""
  }

  /** The value of a hex digit of either case. */
  function HexValue(c: char): Option<int> {
    if '0' <= c <= '9' then Some(c as int - '0' as int)
    else if 'a' <= c <= 'f' then Some(c as int - 'a' as int + 10)
    else if 'A' <= c <= 'F' then Some(c as int - 'A' as int + 10)
    else None
  }

  /** The code unit written by a `\uXXXX` escape at the start of `e`. */
  function UnitAt(e: string): (u: Option<int>)
    ensures u.Some? ==> |e| >= 6 && 0 <= u.value < 0x10000
  {
    if |e| < 6 || e[0] != '\\' || e[1] != 'u' then None
    else
      match (HexValue(e[2]), HexValue(e[3]), HexValue(e[4]), HexValue(e[5]))
      case (Some(a), Some(b), Some(c), Some(d)) =>
        assert 0 <= a < 16 && 0 <= b < 16 && 0 <= c < 16 && 0 <= d < 16;
        Some(((a * 16 + b) * 16 + c) * 16 + d)
      case _ => None
  }

  /** The character of a one-character escape such as `\n`, if `c` names one. */
  function ShortEscape(c: char): Option<char> {
    if c == '"' then Some('"')
    else if c == '\\' then Some('\\')
    else if c == '/' then Some('/')
    else if c == 'n' then Some('\n')
    else if c == 'r' then Some('\r')
    else if c == 't' then Some('\t')
    else if c == 'b' then Some(8 as char)
    else if c == 'f' then Some(12 as char)
    else None
  }

  /**
   * The string a JSON string body denotes, or `None` when the body is malformed: an unescaped
   * quote or control character, an unknown escape, or a lone surrogate.
   */
  function Unescape(e: string): (r: Option<string>)
    decreases |e|
  {
    if e == [] then Some([])
    else if e[0] == '"' || e[0] as int < 0x20 then None
    else if e[0] != '\\' then Prepend(e[0], Unescape(e[1..]))
    else if |e| < 2 then None
    else if e[1] != 'u' then
      match ShortEscape(e[1])
      case Some(c) => Prepend(c, Unescape(e[2..]))
      case None => None
    else
      match UnitAt(e)
      case None => None
      case Some(hi) =>
        if hi < 0xD800 || 0xE000 <= hi then Prepend(hi as char, Unescape(e[6..]))
        else if 0xDC00 <= hi then None
        else
          match UnitAt(e[6..])
          case Some(lo) =>
            if 0xDC00 <= lo < 0xE000 then
              Prepend((0x10000 + (hi - 0xD800) * 0x400 + (lo - 0xDC00)) as char, Unescape(e[12..]))
            else None
          case None => None
  }

  function Prepend(c: char, r: Option<string>): Option<string> {
    if r.Some? then Some([c] + r.value) else None
  }

  lemma HexDigitValue(n: int)
    requires 0 <= n < 16
    ensures HexValue(HexDigit(n)) == Some(n)
  {
  }

  lemma UnitOfHex4(n: int, rest: string)
    requires 0 <= n < 0x10000
    ensures UnitAt("\\u" + Hex4(n) + rest) == Some(n)
  {
    var e := "\\u" + Hex4(n) + rest;
    var q1, q2, q3 := n / 16, n / 16 / 16, n / 16 / 16 / 16;
    HexDigitValue(q3);
    HexDigitValue(q2 % 16);
    HexDigitValue(q1 % 16);
    HexDigitValue(n % 16);
    assert e[2] == HexDigit(q3) && e[3] == HexDigit(q2 % 16);
    assert e[4] == HexDigit(q1 % 16) && e[5] == HexDigit(n % 16);
    assert ((q3 * 16 + q2 % 16) * 16 + q1 % 16) * 16 + n % 16 == n;
  }

  /** A short escape such as `\n` reads back as its character. */
  lemma UnescapeShort(c: char, rest: string)
    requires c == '"' || c == '\\' || c == '\n' || c == '\r' || c == '\t' || c as int == 0x08 || c as int == 0x0c
    ensures Unescape(EscapeChar(c) + rest) == Prepend(c, Unescape(rest))
  {
    var e := EscapeChar(c) + rest;
    assert |EscapeChar(c)| == 2 && e[0] == '\\' && e[1] != 'u';
    assert ShortEscape(e[1]) == Some(c);
    assert e[2..] == rest;
  }

  /** A `\uXXXX` escape of a character in the Basic Multilingual Plane reads back as the character. */
  lemma UnescapeUnit(c: char, rest: string)
    requires !IsPrintable(c) && c as int < 0x10000
    requires !(c == '"' || c == '\\' || c == '\n' || c == '\r' || c == '\t' || c as int == 0x08 || c as int == 0x0c)
    ensures Unescape(EscapeChar(c) + rest) == Prepend(c, Unescape(rest))
  {
    var e := EscapeChar(c) + rest;
    assert e == "\\u" + Hex4(c as int) + rest;
    UnitOfHex4(c as int, rest);
    assert e[6..] == rest;
  }

  /** A high surrogate escape followed by a low surrogate escape reads back as the pair's character. */
  lemma UnescapeSurrogates(hi: int, lo: int, rest: string)
    requires 0xD800 <= hi < 0xDC00 && 0xDC00 <= lo < 0xE000
    ensures Unescape(SurrogateEscape(hi, lo) + rest)
         == Prepend((0x10000 + (hi - 0xD800) * 0x400 + (lo - 0xDC00)) as char, Unescape(rest))
  {
    var tail := "\\u" + Hex4(lo) + rest;
    var e := "\\u" + Hex4(hi) + tail;
    assert SurrogateEscape(hi, lo) + rest == e;
    UnitOfHex4(hi, tail);
    UnitOfHex4(lo, rest);
    assert e[6..] == tail;
    assert tail[6..] == rest;
    assert e[12..] == rest;
    assert e[0] == '\\' && e[1] == 'u';
  }

  /** The surrogate pair of a character above the Basic Multilingual Plane reads back as the character. */
  lemma UnescapePair(c: char, rest: string)
    requires c as int >= 0x10000
    ensures Unescape(EscapeChar(c) + rest) == Prepend(c, Unescape(rest))
  {
    var v := c as int - 0x10000;
    var hi, lo := 0xD800 + v / 0x400, 0xDC00 + v % 0x400;
    assert EscapeChar(c) == SurrogateEscape(hi, lo);
    UnescapeSurrogates(hi, lo, rest);
    var n := 0x10000 + (hi - 0xD800) * 0x400 + (lo - 0xDC00);
    assert n == c as int;
    assert n as char == c;
  }

  /** Reading one escaped character and then the rest. */
  lemma UnescapeChar(c: char, rest: string)
    ensures Unescape(EscapeChar(c) + rest) == Prepend(c, Unescape(rest))
  {
    if c == '"' || c == '\\' || c == '\n' || c == '\r' || c == '\t' || c as int == 0x08 || c as int == 0x0c {
      UnescapeShort(c, rest);
    } else if IsPrintable(c) {
      assert (EscapeChar(c) + rest)[1..] == rest;
    } else if c as int < 0x10000 {
      UnescapeUnit(c, rest);
    } else {
      UnescapePair(c, rest);
    }
  }

  /** Every string is read back from its escaped body unchanged. */
  lemma {:induction false} UnescapeEscaped(s: string)
    ensures Unescape(Escaped(s)) == Some(s)
  {
    if s != [] {
      UnescapeChar(s[0], Escaped(s[1..]));
      UnescapeEscaped(s[1..]);
      assert [s[0]] + s[1..] == s;
    }
  }
}
