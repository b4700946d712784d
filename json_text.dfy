/** `JSON.stringify` applied to a string, as the image loader uses it to turn
    an import path into the source text of a JavaScript string literal
    (packages/mdx-to-md/src/mdx-to-md.ts:53). The escaping follows the
    QuoteJSONString operation of ECMAScript (section 25.5.2.3 of ECMA-262,
    2023 edition): `"` and `\` get a backslash, the five controls with a
    short form use it, every other control below U+0020 becomes `\u00xx`
    in lower-case hexadecimal, and everything else is copied. A decoder for
    the JSON string grammar is the partner that proves nothing is lost. */
module JsonText {
  import opened Text

  const HexDigits: string := "0123456789abcdef"

  /** The short escapes of QuoteJSONString, by the character they stand for. */
  function ShortEscape(c: char): Option<char> {
    if c == '"' then Some('"')
    else if c == '\\' then Some('\\')
    else if c as int == 0x08 then Some('b')
    else if c == '\t' then Some('t')
    else if c == '\n' then Some('n')
    else if c as int == 0x0C then Some('f')
    else if c == '\r' then Some('r')
    else None
  }

  /** The character a short escape letter stands for, in the decoder. */
  function ShortUnescape(e: char): (r: Option<char>)
    ensures r.Some? ==> ShortEscape(r.value) == Some(e)
  {
    if e == '"' then Some('"')
    else if e == '\\' then Some('\\')
    else if e == 'b' then Some(0x08 as char)
    else if e == 't' then Some('\t')
    else if e == 'n' then Some('\n')
    else if e == 'f' then Some(0x0C as char)
    else if e == 'r' then Some('\r')
    else None
  }

  /** One character of `JSON.stringify`'s output body. */
  function EscapeChar(c: char): (r: string)
    ensures 1 <= |r| <= 6
    ensures forall i :: 0 <= i < |r| ==> r[i] as int >= 0x20
    ensures r[0] == '\\' || (r == [c] && c != '"')
  {
    match ShortEscape(c)
    case Some(e) => ['\\', e]
    case None =>
      if (c as int) < 0x20 then "\\u00" + [HexDigits[c as int / 16], HexDigits[c as int % 16]]
      else [c]
  }

  /** A character `JSON.stringify` copies as it is. */
  predicate PlainChar(c: char) {
    c as int >= 0x20 && c != '"' && c != '\\'
  }

  /** Every character of `s` is copied as it is. */
  predicate Plain(s: string) {
    forall i :: 0 <= i < |s| ==> PlainChar(s[i])
  }

  /** The text between the quotes. */
  function Escaped(s: string): (r: string)
    ensures |r| >= |s|
    ensures forall i :: 0 <= i < |r| ==> r[i] as int >= 0x20
  {
    if s == [] then [] else EscapeChar(s[0]) + Escaped(s[1..])
  }

  /** `JSON.stringify(s)` for a string `s`. */
  function Quote(s: string): (r: string)
    ensures |r| >= 2 && r[0] == '"' && r[|r| - 1] == '"'
    ensures forall i :: 0 <= i < |r| ==> r[i] as int >= 0x20
  {
    "\"" + Escaped(s) + "\""
  }

  /** The value of a hexadecimal digit of either case. */
  function HexValue(d: char): (r: Option<nat>)
    ensures r.Some? ==> r.value < 16
  {
    if '0' <= d <= '9' then Some(d as int - '0' as int)
    else if 'a' <= d <= 'f' then Some(d as int - 'a' as int + 10)
    else if 'A' <= d <= 'F' then Some(d as int - 'A' as int + 10)
    else None
  }

  /** The code unit spelled by four hexadecimal digits. */
  function Hex4(t: string): (r: Option<nat>)
    requires |t| == 4
    ensures r.Some? ==> r.value < 0x10000
  {
    match (HexValue(t[0]), HexValue(t[1]), HexValue(t[2]), HexValue(t[3]))
    case (Some(a), Some(b), Some(c), Some(d)) => Some(((a * 16 + b) * 16 + c) * 16 + d)
    case _ => None
  }

  function Prepend(c: char, rest: Option<string>): Option<string> {
    match rest
    case None => None
    case Some(s) => Some([c] + s)
  }

  /** The characters a JSON string body stands for, or `None` when it is not
      a string body: a raw `"` or control character, a backslash before
      anything but an escape, or a `\u` escape for a surrogate, which this
      decoder does not pair. */
  function Unescape(t: string): Option<string>
    decreases |t|
  {
    if t == [] then Some([])
    else if t[0] == '\\' then
      if |t| < 2 then None
      else if t[1] == '/' then Prepend('/', Unescape(t[2..]))
      else if ShortUnescape(t[1]).Some? then Prepend(ShortUnescape(t[1]).value, Unescape(t[2..]))
      else if t[1] == 'u' && |t| >= 6 && Hex4(t[2..6]).Some? then
        var n := Hex4(t[2..6]).value;
        if 0xD800 <= n < 0xE000 then None else Prepend(n as char, Unescape(t[6..]))
      else None
    else if t[0] == '"' || (t[0] as int) < 0x20 then None
    else Prepend(t[0], Unescape(t[1..]))
  }

  /** `JSON.parse` restricted to a string literal. */
  function Unquote(q: string): Option<string> {
    if |q| >= 2 && q[0] == '"' && q[|q| - 1] == '"' then Unescape(q[1..|q| - 1]) else None
  }

  // The round trip: the decoder undoes the encoder.

  lemma ShortEscapeInverse(c: char)
    requires ShortEscape(c).Some?
    ensures ShortEscape(c).value != '/' && ShortEscape(c).value != 'u'
    ensures ShortUnescape(ShortEscape(c).value) == Some(c)
  {
  }

  /** The four hexadecimal digits written for a control character read back
      as that character. */
  lemma ControlHexInverse(c: char)
    requires (c as int) < 0x20
    ensures var n := c as int;
      Hex4(['0', '0', HexDigits[n / 16], HexDigits[n % 16]]) == Some(n)
  {
    var n := c as int;
    var hi, lo := HexDigits[n / 16], HexDigits[n % 16];
    assert n / 16 <= 1;
    assert HexValue('0') == Some(0);
    assert HexValue(hi) == Some(n / 16);
    assert HexValue(lo) == Some(n % 16) by {
      var k := n % 16;
      if k < 10 { assert lo == ('0' as int + k) as char; } else { assert lo == ('a' as int + k - 10) as char; }
    }
  }

  /** Decoding one escaped character and what follows. */
  lemma UnescapeStep(c: char, t: string)
    ensures Unescape(EscapeChar(c) + t) == Prepend(c, Unescape(t))
  {
    if ShortEscape(c).Some? {
      UnescapeShort(c, t);
    } else if (c as int) < 0x20 {
      UnescapeControl(c, t);
    } else {
      var u := EscapeChar(c) + t;
      assert u[0] == c && u[1..] == t;
    }
  }

  /** A short escape and what follows. */
  lemma UnescapeShort(c: char, t: string)
    requires ShortEscape(c).Some?
    ensures Unescape(EscapeChar(c) + t) == Prepend(c, Unescape(t))
  {
    var e := ShortEscape(c).value;
    var u := EscapeChar(c) + t;
    ShortEscapeInverse(c);
    assert u[0] == '\\' && u[1] == e && u[2..] == t;
  }

  /** A `\u00xx` escape and what follows. */
  lemma UnescapeControl(c: char, t: string)
    requires ShortEscape(c).None? && (c as int) < 0x20
    ensures Unescape(EscapeChar(c) + t) == Prepend(c, Unescape(t))
  {
    var n := c as int;
    var u := EscapeChar(c) + t;
    ControlHexInverse(c);
    assert u[0] == '\\' && u[1] == 'u';
    assert u[2..6] == ['0', '0', HexDigits[n / 16], HexDigits[n % 16]];
    assert u[6..] == t;
    assert n as char == c;
  }

  /** The body of the literal decodes to the string. */
  lemma {:induction false} UnescapeEscaped(s: string)
    ensures Unescape(Escaped(s)) == Some(s)
  {
    if s != [] {
      UnescapeEscaped(s[1..]);
      UnescapeStep(s[0], Escaped(s[1..]));
      assert [s[0]] + s[1..] == s;
    }
  }

  /** `JSON.parse(JSON.stringify(s)) === s`. */
  lemma QuoteRoundTrip(s: string)
    ensures Unquote(Quote(s)) == Some(s)
  {
    var q := Quote(s);
    assert q[1..|q| - 1] == Escaped(s);
    UnescapeEscaped(s);
  }
}
