/** Consequences of the round trip proved in `JsonText`: distinct paths give
    distinct literals, and text with nothing to escape is quoted as it is. */
module JsonTextProperties {
  import opened Text
  import opened JsonText

  /** Distinct strings have distinct literals. */
  lemma QuoteInjective(a: string, b: string)
    requires Quote(a) == Quote(b)
    ensures a == b
  {
    QuoteRoundTrip(a);
    QuoteRoundTrip(b);
  }

  /** Text with nothing to escape is quoted as it is. */
  lemma {:induction false} PlainQuoted(s: string)
    requires Plain(s)
    ensures Escaped(s) == s
    ensures Quote(s) == "\"" + s + "\""
  {
    if s != [] {
      assert PlainChar(s[0]);
      PlainQuoted(s[1..]);
      assert [s[0]] + s[1..] == s;
    }
  }

  /** Text with nothing to escape, between quotes, parses back to itself. */
  lemma UnquotePlain(s: string)
    requires Plain(s)
    ensures Unquote("\"" + s + "\"") == Some(s)
  {
    PlainQuoted(s);
    QuoteRoundTrip(s);
  }
}
