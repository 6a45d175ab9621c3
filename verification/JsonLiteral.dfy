/**
 JSON string literals: what `JSON.stringify` writes for a string, where a literal standing in a text
 ends, and what `JSON.parse` reads from it (section 7 of RFC 8259).
*/
module JsonLiteral {
  import opened Wrappers

  // ---------------------------------------------------------------------------------------
  // Writing

  function Hex(n: nat): char
    requires n < 16
  {
    if n < 10 then '0' + n as char else 'a' + (n - 10) as char
  }

  function EscapeChar(c: char): string {
    match c
    case '\"' => "\\\""
    case '\\' => "\\\\"
    case '\n' => "\\n"
    case '\r' => "\\r"
    case '\t' => "\\t"
    case _ =>
      if c == 8 as char then "\\b"
      else if c == 12 as char then "\\f"
      else if c < ' ' then ['\\', 'u', '0', '0', Hex(c as int / 16), Hex(c as int % 16)]
      else [c]
  }

  function Escape(v: string): string {
    if v == [] then [] else EscapeChar(v[0]) + Escape(v[1..])
  }

  function Stringify(v: string): string {
    "\"" + Escape(v) + "\""
  }

  // ---------------------------------------------------------------------------------------
  // Reading

  function HexValue(c: char): Option<nat> {
    if '0' <= c <= '9' then Some(c as int - '0' as int)
    else if 'a' <= c <= 'f' then Some(c as int - 'a' as int + 10)
    else if 'A' <= c <= 'F' then Some(c as int - 'A' as int + 10)
    else None
  }

  /** The value of the hexadecimal digits of `t`. */
  function HexNumber(t: string): Option<nat> {
    if t == [] then Some(0)
    else
      match (HexNumber(t[..|t| - 1]), HexValue(t[|t| - 1]))
      case (Some(high), Some(low)) => Some(16 * high + low)
      case _ => None
  }

  /** The code unit that the six characters at `i` escape. */
  function UnitAt(t: string, i: nat): Option<nat> {
    if i + 6 <= |t| && t[i] == '\\' && t[i + 1] == 'u' then HexNumber(t[i + 2..i + 6]) else None
  }

  function SimpleEscape(c: char): Option<char> {
    match c
    case '\"' => Some('\"')
    case '\\' => Some('\\')
    case '/' => Some('/')
    case 'b' => Some(8 as char)
    case 'f' => Some(12 as char)
    case 'n' => Some('\n')
    case 'r' => Some('\r')
    case 't' => Some('\t')
    case _ => None
  }

  /** What the body of a literal stands for. */
  function Unescape(t: string): Option<string> {
    if t == [] then Some([])
    else if t[0] != '\\' then
      if t[0] < ' ' || t[0] == '\"' then None else Prepend(t[0], Unescape(t[1..]))
    else if |t| < 2 then None
    else if t[1] != 'u' then
      match SimpleEscape(t[1])
      case Some(c) => Prepend(c, Unescape(t[2..]))
      case None => None
    else
      match UnitAt(t, 0)
      case None => None
      case Some(unit) =>
        if unit < 0xD800 || 0xE000 <= unit < 0x10000 then Prepend(unit as char, Unescape(t[6..]))
        else
          match UnitAt(t, 6)
          case None => None
          case Some(low) =>
            if unit < 0xDC00 && 0xDC00 <= low < 0xE000
            then Prepend((0x10000 + (unit - 0xD800) * 0x400 + (low - 0xDC00)) as char, Unescape(t[12..]))
            else None
  }

  /** `JSON.parse` on a text that is one literal. */
  function ParseLiteral(t: string): Option<string> {
    if |t| >= 2 && t[0] == '\"' && t[|t| - 1] == '\"' then Unescape(t[1..|t| - 1]) else None
  }

  lemma {:induction false} HexInverse(n: nat)
    requires n < 16
    ensures HexValue(Hex(n)) == Some(n)
  {
  }

  lemma {:induction false} HexPair(n: nat)
    requires n < 256
    ensures HexNumber(['0', '0', Hex(n / 16), Hex(n % 16)]) == Some(n)
  {
    HexInverse(n / 16);
    HexInverse(n % 16);
    var t := ['0', '0', Hex(n / 16), Hex(n % 16)];
    assert t[..3] == ['0', '0', Hex(n / 16)];
    assert t[..3][..2] == ['0', '0'];
    assert ['0', '0'][..1] == ['0'] && ['0'][..0] == [];
    assert HexNumber(['0']) == Some(0);
    assert HexNumber(['0', '0']) == Some(0);
    assert HexNumber(t[..3]) == Some(n / 16);
  }

  lemma {:induction false} UnescapeStep(c: char, t: string)
    ensures Unescape(EscapeChar(c) + t) == Prepend(c, Unescape(t))
  {
    var e := EscapeChar(c);
    assert (e + t)[|e|..] == t;
    if |e| == 6 {
      HexPair(c as int);
      assert (e + t)[2..6] == ['0', '0', Hex(c as int / 16), Hex(c as int % 16)];
      assert UnitAt(e + t, 0) == Some(c as int);
    }
  }

  lemma {:induction false} UnescapeOfEscape(v: string)
    ensures Unescape(Escape(v)) == Some(v)
  {
    if v != [] {
      UnescapeStep(v[0], Escape(v[1..]));
      UnescapeOfEscape(v[1..]);
      assert v == [v[0]] + v[1..];
    }
  }

  /** Reading what was written gives the string back. */
  lemma {:induction false} LiteralRoundTrip(v: string)
    ensures ParseLiteral(Stringify(v)) == Some(v)
  {
    UnescapeOfEscape(v);
    assert Stringify(v)[1..|Stringify(v)| - 1] == Escape(v);
  }

  // ---------------------------------------------------------------------------------------
  // Reading literals that were written by hand

  const ESCAPE_LETTERS := "\"\\/bfnrt"
  const ESCAPED := ['\"', '\\', '/', 8 as char, 12 as char, '\n', '\r', '\t']

  /** The eight short escapes, and no other letter but u, may follow a backslash. */
  lemma {:induction false} ShortEscapes(c: char, t: string)
    requires c != 'u'
    ensures c !in ESCAPE_LETTERS ==> Unescape(['\\', c] + t) == None
    ensures forall i :: 0 <= i < |ESCAPE_LETTERS| && ESCAPE_LETTERS[i] == c ==>
              Unescape(['\\', c] + t) == Prepend(ESCAPED[i], Unescape(t))
  {
    assert (['\\', c] + t)[2..] == t;
  }

  /** How each character is written: as it is, with the short escape it has, or with four small digits.
      The solidus has a short escape but is written as it is. */
  lemma {:induction false} EachIsWritten(c: char)
    ensures c >= ' ' && c != '\"' && c != '\\' ==> EscapeChar(c) == [c]
    ensures forall i :: 0 <= i < |ESCAPED| && ESCAPED[i] == c && c != '/' ==>
              EscapeChar(c) == ['\\', ESCAPE_LETTERS[i]]
    ensures c < ' ' && c !in ESCAPED ==>
              EscapeChar(c) == ['\\', 'u', '0', '0', "01"[c as int / 16], "0123456789abcdef"[c as int % 16]]
  {
  }

  lemma {:induction false} EscapeConcat(v: string, w: string)
    ensures Escape(v + w) == Escape(v) + Escape(w)
  {
    if v == [] {
      assert v + w == w;
    } else {
      assert (v + w)[1..] == v[1..] + w;
      EscapeConcat(v[1..], w);
    }
  }

  /** The number four hexadecimal digits stand for. */
  function Code(high: nat, a: nat, b: nat, low: nat): nat {
    4096 * high + 256 * a + 16 * b + low
  }

  /** `d` is the hexadecimal digit for n, small or capital. */
  predicate IsDigit(d: char, n: nat) {
    n < 16 && (d == "0123456789abcdef"[n] || d == "0123456789ABCDEF"[n])
  }

  predicate AreDigits(d: string, n: seq<nat>) {
    |d| == 4 && |n| == 4 && IsDigit(d[0], n[0]) && IsDigit(d[1], n[1]) && IsDigit(d[2], n[2]) && IsDigit(d[3], n[3])
  }

  lemma {:induction false} DigitValue(d: char, n: nat)
    requires IsDigit(d, n)
    ensures HexValue(d) == Some(n)
  {
  }

  lemma {:induction false} NumberOfDigits(d: string, n: seq<nat>)
    requires AreDigits(d, n)
    ensures HexNumber(d) == Some(Code(n[0], n[1], n[2], n[3]))
  {
    hide IsDigit, HexNumber;
    assert HexNumber([]) == Some(0) by { NoDigits(); }
    assert [] + [d[0]] == [d[0]] && [d[0]] + [d[1]] == [d[0], d[1]] && [d[0], d[1]] + [d[2]] == [d[0], d[1], d[2]];
    assert [d[0], d[1], d[2]] + [d[3]] == d;
    OneMoreDigit([], d[0], 0, n[0]);
    OneMoreDigit([d[0]], d[1], n[0], n[1]);
    OneMoreDigit([d[0], d[1]], d[2], 16 * n[0] + n[1], n[2]);
    OneMoreDigit([d[0], d[1], d[2]], d[3], 256 * n[0] + 16 * n[1] + n[2], n[3]);
  }

  lemma {:induction false} NoDigits()
    ensures HexNumber([]) == Some(0)
  {
  }

  lemma {:induction false} OneMoreDigit(t: string, d: char, value: nat, n: nat)
    requires HexNumber(t) == Some(value) && IsDigit(d, n)
    ensures HexNumber(t + [d]) == Some(16 * value + n)
  {
    DigitValue(d, n);
    assert (t + [d])[..|t|] == t;
  }

  lemma {:induction false} UnitOfDigits(t: string, i: nat, d: string, n: seq<nat>)
    requires i + 6 <= |t| && t[i..i + 6] == ['\\', 'u'] + d && AreDigits(d, n)
    ensures UnitAt(t, i) == Some(Code(n[0], n[1], n[2], n[3]))
  {
    assert t[i] == t[i..i + 6][0] && t[i + 1] == t[i..i + 6][1];
    assert t[i + 2..i + 6] == t[i..i + 6][2..] == d;
    NumberOfDigits(d, n);
  }

  /** A code point is read from four digits of either case. */
  lemma {:induction false} UnicodeIsRead(d: string, n: seq<nat>, t: string)
    requires AreDigits(d, n)
    ensures var code := Code(n[0], n[1], n[2], n[3]);
            !(0xD800 <= code < 0xE000) ==>
              0 <= code < 0x10000 && Unescape((['\\', 'u'] + d) + t) == Prepend(code as char, Unescape(t))
  {
    var whole := (['\\', 'u'] + d) + t;
    assert whole[0..6] == ['\\', 'u'] + d && whole[6..] == t;
    UnitOfDigits(whole, 0, d, n);
    hide HexNumber, UnitAt;
  }

  /** A code point above these is read from two such escapes. */
  lemma {:induction false} PairIsRead(d: string, n: seq<nat>, e: string, m: seq<nat>, t: string)
    requires AreDigits(d, n) && AreDigits(e, m)
    ensures var high, low := Code(n[0], n[1], n[2], n[3]), Code(m[0], m[1], m[2], m[3]);
            0xD800 <= high < 0xDC00 && 0xDC00 <= low < 0xE000 ==>
              Unescape((['\\', 'u'] + d) + ((['\\', 'u'] + e) + t))
              == Prepend((0x10000 + 1024 * (high - 0xD800) + (low - 0xDC00)) as char, Unescape(t))
  {
    var whole := (['\\', 'u'] + d) + ((['\\', 'u'] + e) + t);
    assert whole[0..6] == ['\\', 'u'] + d && whole[6..12] == ['\\', 'u'] + e && whole[12..] == t;
    UnitOfDigits(whole, 0, d, n);
    UnitOfDigits(whole, 6, e, m);
    hide HexNumber, UnitAt;
  }

  // ---------------------------------------------------------------------------------------
  // Finding the end of a literal in a text

  predicate IsLineTerminator(c: char) {
    c == '\n' || c == '\r' || c == '\U{2028}' || c == '\U{2029}'
  }

  /** The closing quote of a literal whose body is being read at `i`. */
  function BodyEnd(text: string, i: nat): (end: Option<nat>)
    ensures end.Some? ==> i <= end.value < |text| && text[end.value] == '\"'
    decreases |text| - i
  {
    if i >= |text| then None
    else if text[i] == '\"' then Some(i)
    else if text[i] != '\\' then BodyEnd(text, i + 1)
    else if i + 1 < |text| && !IsLineTerminator(text[i + 1]) then BodyEnd(text, i + 2)
    else None
  }

  /** The position behind the literal that starts at `i`. */
  function LiteralEnd(text: string, i: nat): (end: Option<nat>)
    ensures end.Some? ==> i + 2 <= end.value <= |text| && text[i] == '\"' && text[end.value - 1] == '\"'
  {
    if i < |text| && text[i] == '\"' then
      match BodyEnd(text, i + 1)
      case Some(close) => Some(close + 1)
      case None => None
    else None
  }

  /** `w` stands in the text at `i`. */
  predicate Stands(text: string, i: nat, w: string) {
    i + |w| <= |text| && text[i..i + |w|] == w
  }

  lemma {:induction false} StandsSplit(text: string, i: nat, a: string, b: string)
    ensures Stands(text, i, a + b) <==> Stands(text, i, a) && Stands(text, i + |a|, b)
  {
    if i + |a| + |b| <= |text| {
      var w := text[i..i + |a| + |b|];
      assert w[..|a|] == text[i..i + |a|];
      assert w[|a|..] == text[i + |a|..i + |a| + |b|];
      assert w == w[..|a|] + w[|a|..];
      assert (a + b)[..|a|] == a && (a + b)[|a|..] == b;
    }
  }

  lemma {:induction false} StandsAt(text: string, i: nat, w: string, k: nat)
    requires Stands(text, i, w) && k < |w|
    ensures text[i + k] == w[k]
  {
    assert text[i..i + |w|][k] == w[k];
  }

  lemma {:induction false} BodyEndSkips(text: string, i: nat, c: char)
    requires Stands(text, i, EscapeChar(c))
    ensures BodyEnd(text, i) == BodyEnd(text, i + |EscapeChar(c)|)
  {
    var e := EscapeChar(c);
    assert forall k :: 0 <= k < |e| ==> text[i + k] == text[i..i + |e|][k] == e[k];
    assert text[i + 0] == e[0];
    if |e| > 1 {
      assert text[i + 1] == e[1];
    }
    if |e| == 6 {
      assert text[i + 2] == e[2] && text[i + 3] == e[3] && text[i + 4] == e[4] && text[i + 5] == e[5];
      assert BodyEnd(text, i + 4) == BodyEnd(text, i + 6);
      assert BodyEnd(text, i + 2) == BodyEnd(text, i + 4);
    }
  }

  lemma {:induction false} BodyEndsAtQuote(text: string, i: nat, v: string)
    requires Stands(text, i, Escape(v)) && Stands(text, i + |Escape(v)|, "\"")
    ensures BodyEnd(text, i) == Some(i + |Escape(v)|)
    decreases |v|
  {
    hide EscapeChar;
    if v == [] {
      StandsAt(text, i, "\"", 0);
    } else {
      hide Stands, BodyEnd;
      StandsSplit(text, i, EscapeChar(v[0]), Escape(v[1..]));
      BodyEndSkips(text, i, v[0]);
      BodyEndsAtQuote(text, i + |EscapeChar(v[0])|, v[1..]);
    }
  }

  /** A written literal is found whole, whatever follows it. */
  lemma {:induction false} LiteralFound(text: string, i: nat, v: string)
    requires Stands(text, i, Stringify(v))
    ensures LiteralEnd(text, i) == Some(i + |Stringify(v)|)
    ensures text[i..i + |Stringify(v)|] == Stringify(v)
  {
    StandsSplit(text, i, "\"" + Escape(v), "\"");
    StandsSplit(text, i, "\"", Escape(v));
    StandsAt(text, i, "\"", 0);
    BodyEndsAtQuote(text, i + 1, v);
  }
}
