/**
 * JSON objects of string and number members as `json.dumps` writes a flat `dict`
 * (`{"key": value, "key": value}`, one space after each colon and comma), and a reader of such
 * a text back into its members.
 */
module JsonObject {
  import opened Wrappers
  import opened JsonString

  /** A member value: a string, or the text of a number as `repr` spells a float. */
  datatype Value = Str(text: string) | Num(token: string)

  /** Characters a float's JSON text can hold: digits, sign, point, exponent, `Infinity`, `NaN`. */
  predicate IsNumberChar(c: char) {
    '0' <= c <= '9' || 'a' <= c <= 'z' || 'A' <= c <= 'Z' || c == '+' || c == '-' || c == '.'
  }

  predicate IsNumberText(s: string) {
    |s| > 0 && forall c :: c in s ==> IsNumberChar(c)
  }

  predicate IsKeyChar(c: char) {
    'a' <= c <= 'z' || 'A' <= c <= 'Z' || '0' <= c <= '9' || c == '_'
  }

  /** An identifier-like key, which `json.dumps` writes between quotes as it is. */
  predicate IsKey(k: string) {
    forall i :: 0 <= i < |k| ==> IsKeyChar(k[i])
  }

  /** Every key is identifier-like and every number member carries number text. */
  predicate Writable(ms: seq<(string, Value)>) {
    forall i :: 0 <= i < |ms| ==> IsKey(ms[i].0) && (ms[i].1.Num? ==> IsNumberText(ms[i].1.token))
  }

  function ValueText(v: Value): (t: string)
    requires v.Num? ==> IsNumberText(v.token)
    ensures AllPrintable(t) && |t| > 0
  {
    match v
    case Str(x) => Quoted(x)
    case Num(t) => t
  }

  /** One member as `"key": value`. */
  function MemberText(k: string, v: Value): (t: string)
    requires IsKey(k) && (v.Num? ==> IsNumberText(v.token))
    ensures AllPrintable(t) && |t| > 0
  {
    "\"" + k + "\": " + ValueText(v)
  }

  /** The members joined by `, `. */
  function MembersText(ms: seq<(string, Value)>): (t: string)
    requires Writable(ms)
    ensures AllPrintable(t) && (ms != [] ==> |t| > 0)
  {
    if ms == [] then ""
    else
      WritableTail(ms);
      MemberText(ms[0].0, ms[0].1) + (if |ms| == 1 then "" else ", " + MembersText(ms[1..]))
  }

  lemma WritableTail(ms: seq<(string, Value)>)
    requires ms != [] && Writable(ms)
    ensures Writable(ms[1..])
  {
    forall i | 0 <= i < |ms[1..]|
      ensures IsKey(ms[1..][i].0) && (ms[1..][i].1.Num? ==> IsNumberText(ms[1..][i].1.token))
    {
      assert ms[1..][i] == ms[i + 1];
    }
  }

  /** `json.dumps` of a `dict` whose items, in insertion order, are `ms`. */
  function ObjectText(ms: seq<(string, Value)>): (text: string)
    requires Writable(ms)
    ensures AllPrintable(text) && |text| >= 2 && text[0] == '{'
  {
    var text := "{" + MembersText(ms) + "}";
    assert text[0] == '{';
    text
  }

  /** Length of the string body at the front of `e`: up to its first quote no backslash escapes. */
  function BodyEnd(e: string): (i: nat)
    ensures i <= |e|
    decreases |e|
  {
    if e == [] || e[0] == '"' then 0
    else if e[0] == '\\' && |e| >= 2 then 2 + BodyEnd(e[2..])
    else 1 + BodyEnd(e[1..])
  }

  /** A string literal at the front of `s`: its value and the text after its closing quote. */
  function ReadString(s: string): (r: Option<(string, string)>)
    ensures r.Some? ==> |r.value.1| < |s|
  {
    if s == [] || s[0] != '"' then None
    else
      var i := BodyEnd(s[1..]);
      if i + 1 < |s| then
        match Unescape(s[1..i + 1])
        case Some(v) => Some((v, s[i + 2..]))
        case None => None
      else None
  }

  /** Number of number characters at the front of `s`. */
  function TokenEnd(s: string): (n: nat)
    ensures n <= |s|
  {
    if s != [] && IsNumberChar(s[0]) then 1 + TokenEnd(s[1..]) else 0
  }

  /** A member value at the front of `s`, and the text after it. */
  function ReadValue(s: string): (r: Option<(Value, string)>)
    ensures r.Some? ==> |r.value.1| < |s|
  {
    if s != [] && s[0] == '"' then
      match ReadString(s)
      case Some((x, rest)) => Some((Str(x), rest))
      case None => None
    else
      var n := TokenEnd(s);
      if n == 0 then None else Some((Num(s[..n]), s[n..]))
  }

  /** One `"key": value` member at the front of `s`, and the text after it. */
  function ReadMember(s: string): (r: Option<((string, Value), string)>)
    ensures r.Some? ==> |r.value.1| < |s|
  {
    match ReadString(s)
    case None => None
    case Some((key, rest)) =>
      if |rest| < 2 || rest[..2] != ": " then None
      else
        match ReadValue(rest[2..])
        case None => None
        case Some((v, after)) => Some(((key, v), after))
  }

  /** The members of an object text from its first key to its closing brace, which ends `s`. */
  function ReadMembers(s: string): (r: Option<seq<(string, Value)>>)
    decreases |s|
  {
    match ReadMember(s)
    case None => None
    case Some((m, after)) =>
      if after == "}" then Some([m])
      else if |after| >= 2 && after[..2] == ", " then
        match ReadMembers(after[2..])
        case Some(more) => Some([m] + more)
        case None => None
      else None
  }

  /** The members of the object text `s`, or `None` when `s` is not one. */
  function ReadObject(s: string): Option<seq<(string, Value)>> {
    if s == "{}" then Some([])
    else if s != [] && s[0] == '{' then ReadMembers(s[1..])
    else None
  }

  lemma {:induction false} BodyEndPlain(p: string, t: string)
    requires forall i :: 0 <= i < |p| ==> p[i] != '"' && p[i] != '\\'
    ensures BodyEnd(p + t) == |p| + BodyEnd(t)
  {
    if p != [] {
      assert (p + t)[0] == p[0];
      assert (p + t)[1..] == p[1..] + t;
      BodyEndPlain(p[1..], t);
    } else {
      assert p + t == t;
    }
  }

  lemma BodyEndUnit(n: int, t: string)
    requires 0 <= n < 0x10000
    ensures BodyEnd("\\u" + Hex4(n) + t) == 6 + BodyEnd(t)
  {
    var s := "\\u" + Hex4(n) + t;
    assert s[2..] == Hex4(n) + t;
    assert forall i :: 0 <= i < 4 ==> '0' <= Hex4(n)[i] <= 'f';
    BodyEndPlain(Hex4(n), t);
  }

  lemma BodyEndSurrogates(hi: int, lo: int, t: string)
    requires 0xD800 <= hi < 0xDC00 && 0xDC00 <= lo < 0xE000
    ensures BodyEnd(SurrogateEscape(hi, lo) + t) == 12 + BodyEnd(t)
  {
    BodyEndUnit(lo, t);
    assert SurrogateEscape(hi, lo) + t == "\\u" + Hex4(hi) + ("\\u" + Hex4(lo) + t);
    BodyEndUnit(hi, "\\u" + Hex4(lo) + t);
  }

  lemma BodyEndShort(e: string, t: string)
    requires |e| == 2 && e[0] == '\\'
    ensures BodyEnd(e + t) == 2 + BodyEnd(t)
  {
    assert (e + t)[0] == '\\';
    assert (e + t)[2..] == t;
  }

  /** Whether `c` has one of the two-character escapes. */
  predicate HasShortEscape(c: char) {
    c == '"' || c == '\\' || c == '\n' || c == '\r' || c == '\t' || c as int == 0x08 || c as int == 0x0c
  }

  lemma BodyEndShortEscape(c: char, t: string)
    requires HasShortEscape(c)
    ensures BodyEnd(EscapeChar(c) + t) == |EscapeChar(c)| + BodyEnd(t)
  {
    var e := EscapeChar(c);
    assert |e| == 2 && e[0] == '\\';
    BodyEndShort(e, t);
  }

  lemma BodyEndWideEscape(c: char, t: string)
    requires !HasShortEscape(c) && !IsPrintable(c)
    ensures BodyEnd(EscapeChar(c) + t) == |EscapeChar(c)| + BodyEnd(t)
  {
    var e := EscapeChar(c);
    if c as int < 0x10000 {
      assert e == "\\u" + Hex4(c as int);
      BodyEndUnit(c as int, t);
    } else {
      var v := c as int - 0x10000;
      var hi, lo := 0xD800 + v / 0x400, 0xDC00 + v % 0x400;
      assert e == SurrogateEscape(hi, lo);
      BodyEndSurrogates(hi, lo, t);
    }
  }

  lemma BodyEndEscapeChar(c: char, t: string)
    ensures BodyEnd(EscapeChar(c) + t) == |EscapeChar(c)| + BodyEnd(t)
  {
    if HasShortEscape(c) {
      BodyEndShortEscape(c, t);
    } else if IsPrintable(c) {
      assert EscapeChar(c) == [c];
      BodyEndPlain([c], t);
    } else {
      BodyEndWideEscape(c, t);
    }
  }

  lemma {:induction false} BodyEndEscaped(x: string, t: string)
    ensures BodyEnd(Escaped(x) + t) == |Escaped(x)| + BodyEnd(t)
  {
    if x != [] {
      var e := EscapeChar(x[0]);
      assert Escaped(x) == e + Escaped(x[1..]);
      assert Escaped(x) + t == e + (Escaped(x[1..]) + t);
      BodyEndEscapeChar(x[0], Escaped(x[1..]) + t);
      BodyEndEscaped(x[1..], t);
    } else {
      assert Escaped(x) + t == t;
    }
  }

  lemma ReadLiteral(e: string, t: string, x: string)
    requires BodyEnd(e + ("\"" + t)) == |e| && Unescape(e) == Some(x)
    ensures ReadString("\"" + (e + ("\"" + t))) == Some((x, t))
  {
    var s := "\"" + (e + ("\"" + t));
    assert s[1..] == e + ("\"" + t);
    assert s[1..|e| + 1] == e;
    assert s[|e| + 2..] == t;
  }

  /** A string literal as `json.dumps` writes it reads back as that string. */
  lemma ReadQuoted(x: string, t: string)
    ensures ReadString(Quoted(x) + t) == Some((x, t))
  {
    var e := Escaped(x);
    assert Quoted(x) + t == "\"" + (e + ("\"" + t));
    BodyEndEscaped(x, "\"" + t);
    assert BodyEnd("\"" + t) == 0;
    UnescapeEscaped(x);
    ReadLiteral(e, t, x);
  }

  /** A key needs no escaping. */
  lemma {:induction false} EscapedKey(k: string)
    requires IsKey(k)
    ensures Escaped(k) == k
  {
    if k != [] {
      assert EscapeChar(k[0]) == [k[0]];
      EscapedKey(k[1..]);
      assert [k[0]] + k[1..] == k;
    }
  }

  lemma {:induction false} TokenEndOf(n: string, t: string)
    requires forall c :: c in n ==> IsNumberChar(c)
    requires t != [] && !IsNumberChar(t[0])
    ensures TokenEnd(n + t) == |n|
  {
    if n != [] {
      assert (n + t)[1..] == n[1..] + t;
      TokenEndOf(n[1..], t);
    } else {
      assert n + t == t;
    }
  }

  /** A value's text reads back as that value when a comma or the closing brace follows it. */
  lemma ReadValueText(v: Value, t: string)
    requires v.Num? ==> IsNumberText(v.token)
    requires t != [] && (t[0] == ',' || t[0] == '}')
    ensures ReadValue(ValueText(v) + t) == Some((v, t))
  {
    match v
    case Str(x) => ReadQuoted(x, t);
    case Num(n) =>
      TokenEndOf(n, t);
      assert (n + t)[..|n|] == n && (n + t)[|n|..] == t;
      assert (n + t)[0] == n[0];
      assert IsNumberChar(n[0]);
  }

  lemma ReadMemberOf(s: string, k: string, rest: string, v: Value, after: string)
    requires ReadString(s) == Some((k, ": " + rest)) && ReadValue(rest) == Some((v, after))
    ensures ReadMember(s) == Some(((k, v), after))
  {
    assert (": " + rest)[..2] == ": ";
    assert (": " + rest)[2..] == rest;
  }

  lemma KeyRegroup(k: string, vt: string, t: string)
    ensures "\"" + k + "\": " + vt + t == ("\"" + k + "\"") + (": " + (vt + t))
  {
  }

  /** A member's text reads back as that member when a comma or the closing brace follows it. */
  lemma ReadMemberText(k: string, v: Value, t: string)
    requires IsKey(k) && (v.Num? ==> IsNumberText(v.token))
    requires t != [] && (t[0] == ',' || t[0] == '}')
    ensures ReadMember(MemberText(k, v) + t) == Some(((k, v), t))
  {
    var vt := ValueText(v);
    EscapedKey(k);
    assert Quoted(k) == "\"" + k + "\"";
    KeyRegroup(k, vt, t);
    ReadQuoted(k, ": " + (vt + t));
    ReadValueText(v, t);
    ReadMemberOf(MemberText(k, v) + t, k, vt + t, v, t);
  }

  lemma ReadMembersLast(s: string, m: (string, Value))
    requires ReadMember(s) == Some((m, "}"))
    ensures ReadMembers(s) == Some([m])
  {
  }

  lemma ReadMembersStep(s: string, m: (string, Value), more: string, rest: seq<(string, Value)>)
    requires ReadMember(s) == Some((m, ", " + more)) && ReadMembers(more) == Some(rest)
    ensures ReadMembers(s) == Some([m] + rest)
  {
    var after := ", " + more;
    assert after != "}";
    assert after[..2] == ", " && after[2..] == more;
  }

  lemma ReadOneMember(ms: seq<(string, Value)>)
    requires |ms| == 1 && Writable(ms)
    ensures ReadMembers(MembersText(ms) + "}") == Some(ms)
  {
    var k, v := ms[0].0, ms[0].1;
    assert MembersText(ms) == MemberText(k, v);
    ReadMemberText(k, v, "}");
    ReadMembersLast(MemberText(k, v) + "}", (k, v));
    assert [(k, v)] == ms;
  }

  lemma Regroup(a: string, b: string, c: string, d: string)
    ensures (a + (b + c)) + d == a + (b + (c + d))
  {
  }

  lemma MembersTextCons(ms: seq<(string, Value)>)
    requires |ms| > 1 && Writable(ms) && Writable(ms[1..])
    ensures MembersText(ms) + "}" == MemberText(ms[0].0, ms[0].1) + (", " + (MembersText(ms[1..]) + "}"))
  {
    var head, rest := MemberText(ms[0].0, ms[0].1), MembersText(ms[1..]);
    assert MembersText(ms) == head + (", " + rest);
    Regroup(head, ", ", rest, "}");
  }

  lemma ReadMoreMembers(ms: seq<(string, Value)>)
    requires |ms| > 1 && Writable(ms) && Writable(ms[1..])
    requires ReadMembers(MembersText(ms[1..]) + "}") == Some(ms[1..])
    ensures ReadMembers(MembersText(ms) + "}") == Some(ms)
  {
    var k, v := ms[0].0, ms[0].1;
    var more := MembersText(ms[1..]) + "}";
    MembersTextCons(ms);
    ReadMemberText(k, v, ", " + more);
    ReadMembersStep(MemberText(k, v) + (", " + more), (k, v), more, ms[1..]);
    assert [(k, v)] + ms[1..] == ms;
  }

  lemma {:induction false} ReadMembersText(ms: seq<(string, Value)>)
    requires ms != [] && Writable(ms)
    ensures ReadMembers(MembersText(ms) + "}") == Some(ms)
  {
    if |ms| == 1 {
      ReadOneMember(ms);
    } else {
      WritableTail(ms);
      ReadMembersText(ms[1..]);
      ReadMoreMembers(ms);
    }
  }

  /** Reading an object text gives back its members, in order. */
  lemma ReadObjectText(ms: seq<(string, Value)>)
    requires Writable(ms)
    ensures ReadObject(ObjectText(ms)) == Some(ms)
  {
    var s := ObjectText(ms);
    if ms == [] {
      assert s == "{}";
    } else {
      var body := MembersText(ms);
      assert s == "{" + (body + "}");
      assert s[1..] == body + "}";
      ReadMembersText(ms);
    }
  }
}
