/**
 * HTML escaping by consecutive replacement passes. Each pass works on the output of the one
 * before it, yet together they substitute every character of the input once, and a decoder that
 * reads the output once recovers the input.
 */
module HtmlEscape {
  import opened Common

  /** str.replace for a single character. */
  function Replace(s: string, c: char, with: string): string {
    if s == [] then [] else (if s[0] == c then with else [s[0]]) + Replace(s[1..], c, with)
  }

  function HtmlEscape(s: string): string {
    Replace(Replace(Replace(Replace(Replace(
      s, '&', "&amp;"), '<', "&lt;"), '>', "&gt;"), '"', "&quot;"), '\'', "&#039;")
  }

  function HtmlQuote(s: string): string {
    "\"" + Replace(Replace(Replace(HtmlEscape(s), '\n', "&#10;"), '\r', "&#13;"), '\t', "&#9;") + "\""
  }

  // ----- one pass

  function OnePass(f: char -> string, s: string): string {
    if s == [] then [] else f(s[0]) + OnePass(f, s[1..])
  }

  function EscapeChar(c: char): string {
    if c == '&' then "&amp;" else if c == '<' then "&lt;" else if c == '>' then "&gt;"
    else if c == '"' then "&quot;" else if c == '\'' then "&#039;" else [c]
  }

  function QuoteChar(c: char): string {
    if c == '\n' then "&#10;" else if c == '\r' then "&#13;" else if c == '\t' then "&#9;" else EscapeChar(c)
  }

  lemma {:induction false} ReplaceConcat(a: string, b: string, c: char, with: string)
    ensures Replace(a + b, c, with) == Replace(a, c, with) + Replace(b, c, with)
  {
    if a == [] {
      assert a + b == b;
    } else {
      assert (a + b)[1..] == a[1..] + b;
      ReplaceConcat(a[1..], b, c, with);
      assert (if a[0] == c then with else [a[0]]) + (Replace(a[1..], c, with) + Replace(b, c, with)) ==
             Replace(a, c, with) + Replace(b, c, with);
    }
  }

  /** A pass has nothing to do on text without its character. */
  lemma {:induction false} ReplaceNone(s: string, c: char, with: string)
    requires c !in s
    ensures Replace(s, c, with) == s
  {
    if s == [] {
    } else {
      ReplaceNone(s[1..], c, with);
    }
  }

  lemma {:induction false} ReplaceOne(c: char, d: char, with: string)
    ensures Replace([d], c, with) == if d == c then with else [d]
  {
    assert [d][1..] == [] && Replace([], c, with) == [];
  }

  /** A pass after a one-pass substitution is again a one-pass substitution. */
  lemma {:induction false} PassAfterPass(f: char -> string, g: char -> string, s: string, c: char, with: string)
    requires forall x :: g(x) == Replace(f(x), c, with)
    ensures Replace(OnePass(f, s), c, with) == OnePass(g, s)
  {
    if s == [] {
    } else {
      ReplaceConcat(f(s[0]), OnePass(f, s[1..]), c, with);
      PassAfterPass(f, g, s[1..], c, with);
    }
  }

  lemma {:induction false} Identity(s: string)
    ensures OnePass(x => [x], s) == s
  {
    if s == [] {
    } else {
      Identity(s[1..]);
    }
  }

  function Amp(c: char): string { if c == '&' then "&amp;" else [c] }
  function AmpLt(c: char): string { if c == '<' then "&lt;" else Amp(c) }
  function AmpLtGt(c: char): string { if c == '>' then "&gt;" else AmpLt(c) }
  function AmpLtGtQuot(c: char): string { if c == '"' then "&quot;" else AmpLtGt(c) }

  /** The next pass leaves the entities of the earlier passes alone. */
  lemma {:induction false} NextPass(f: char -> string, c: char, with: string)
    requires f(c) == [c] && forall x :: x != c ==> c !in f(x)
    ensures forall x :: Replace(f(x), c, with) == if x == c then with else f(x)
  {
    forall x ensures Replace(f(x), c, with) == if x == c then with else f(x) {
      if x == c {
        ReplaceOne(c, c, with);
      } else {
        ReplaceNone(f(x), c, with);
      }
    }
  }

  lemma {:induction false} AmpPass(s: string)
    ensures Replace(s, '&', "&amp;") == OnePass(Amp, s)
  {
    Identity(s);
    NextPass(x => [x], '&', "&amp;");
    PassAfterPass(x => [x], Amp, s, '&', "&amp;");
  }

  lemma {:induction false} LtPass(s: string)
    ensures Replace(OnePass(Amp, s), '<', "&lt;") == OnePass(AmpLt, s)
  {
    hide Replace; hide OnePass;
    NextPass(Amp, '<', "&lt;");
    PassAfterPass(Amp, AmpLt, s, '<', "&lt;");
  }

  lemma {:induction false} GtPass(s: string)
    ensures Replace(OnePass(AmpLt, s), '>', "&gt;") == OnePass(AmpLtGt, s)
  {
    hide Replace; hide OnePass;
    NextPass(AmpLt, '>', "&gt;");
    PassAfterPass(AmpLt, AmpLtGt, s, '>', "&gt;");
  }

  lemma {:induction false} QuotPass(s: string)
    ensures Replace(OnePass(AmpLtGt, s), '"', "&quot;") == OnePass(AmpLtGtQuot, s)
  {
    hide Replace; hide OnePass;
    NextPass(AmpLtGt, '"', "&quot;");
    PassAfterPass(AmpLtGt, AmpLtGtQuot, s, '"', "&quot;");
  }

  lemma {:induction false} AposPass(s: string)
    ensures Replace(OnePass(AmpLtGtQuot, s), '\'', "&#039;") == OnePass(EscapeChar, s)
  {
    hide Replace; hide OnePass;
    NextPass(AmpLtGtQuot, '\'', "&#039;");
    PassAfterPass(AmpLtGtQuot, EscapeChar, s, '\'', "&#039;");
  }

  /** The five passes of escaping equal one substitution per character. */
  lemma {:induction false} EscapeIsOnePass(s: string)
    ensures HtmlEscape(s) == OnePass(EscapeChar, s)
  {
    hide Replace; hide OnePass;
    AmpPass(s);
    LtPass(s);
    GtPass(s);
    QuotPass(s);
    AposPass(s);
  }

  function EscapeNl(c: char): string { if c == '\n' then "&#10;" else EscapeChar(c) }
  function EscapeNlCr(c: char): string { if c == '\r' then "&#13;" else EscapeNl(c) }

  lemma {:induction false} NlPass(s: string)
    ensures Replace(OnePass(EscapeChar, s), '\n', "&#10;") == OnePass(EscapeNl, s)
  {
    hide Replace; hide OnePass;
    NextPass(EscapeChar, '\n', "&#10;");
    PassAfterPass(EscapeChar, EscapeNl, s, '\n', "&#10;");
  }

  lemma {:induction false} CrPass(s: string)
    ensures Replace(OnePass(EscapeNl, s), '\r', "&#13;") == OnePass(EscapeNlCr, s)
  {
    hide Replace; hide OnePass;
    NextPass(EscapeNl, '\r', "&#13;");
    PassAfterPass(EscapeNl, EscapeNlCr, s, '\r', "&#13;");
  }

  lemma {:induction false} TabPass(s: string)
    ensures Replace(OnePass(EscapeNlCr, s), '\t', "&#9;") == OnePass(QuoteChar, s)
  {
    hide Replace; hide OnePass;
    NextPass(EscapeNlCr, '\t', "&#9;");
    PassAfterPass(EscapeNlCr, QuoteChar, s, '\t', "&#9;");
  }

  /** So do the eight passes of quoting, between two quotation marks. */
  lemma {:induction false} QuoteIsOnePass(s: string)
    ensures HtmlQuote(s) == "\"" + OnePass(QuoteChar, s) + "\""
  {
    hide Replace; hide OnePass; hide HtmlEscape;
    EscapeIsOnePass(s);
    NlPass(s);
    CrPass(s);
    TabPass(s);
  }

  // ----- no markup, and nothing lost

  predicate NoMarkup(s: string) {
    forall k :: 0 <= k < |s| ==> s[k] !in {'<', '>', '"', '\''}
  }

  lemma {:induction false} OnePassNoMarkup(f: char -> string, s: string)
    requires forall x :: NoMarkup(f(x))
    ensures NoMarkup(OnePass(f, s))
  {
    if s == [] {
    } else {
      OnePassNoMarkup(f, s[1..]);
    }
  }

  /** The output holds no raw angle bracket or quote. */
  lemma {:induction false} EscapedHasNoMarkup(s: string)
    ensures NoMarkup(HtmlEscape(s))
  {
    hide HtmlEscape; hide OnePass;
    EscapeIsOnePass(s);
    OnePassNoMarkup(EscapeChar, s);
  }

  /** The character an entity at the start of the text stands for. */
  function EntityAt(s: string): Option<(char, nat)> {
    if "&amp;" <= s then Some(('&', 5))
    else if "&lt;" <= s then Some(('<', 4))
    else if "&gt;" <= s then Some(('>', 4))
    else if "&quot;" <= s then Some(('"', 6))
    else if "&#039;" <= s then Some(('\'', 6))
    else if "&#10;" <= s then Some(('\n', 5))
    else if "&#13;" <= s then Some(('\r', 5))
    else if "&#9;" <= s then Some(('\t', 4))
    else None
  }

  /** Reads the text once, entity by entity. */
  function Unescape(s: string): string {
    if s == [] then []
    else
      match EntityAt(s)
      case Some((c, n)) => [c] + Unescape(s[n..])
      case None => [s[0]] + Unescape(s[1..])
  }

  lemma {:induction false} UnescapeQuoted(c: char, rest: string)
    ensures Unescape(QuoteChar(c) + rest) == [c] + Unescape(rest)
  {
    var e := QuoteChar(c);
    var s := e + rest;
    assert s[|e|..] == rest;
    assert forall i :: 0 <= i < |e| ==> s[i] == e[i];
    EntityOf(c, s);
  }

  lemma {:induction false} EntityOf(c: char, s: string)
    requires QuoteChar(c) <= s
    ensures EntityAt(s) == if |QuoteChar(c)| > 1 then Some((c, |QuoteChar(c)|)) else None
  {
    var e := QuoteChar(c);
    assert s[0] == e[0];
    if |e| > 1 {
      assert s[1] == e[1] && s[2] == e[2] && s[3] == e[3];
    }
  }

  lemma {:induction false} UnescapePass(f: char -> string, s: string)
    requires forall c, rest :: Unescape(f(c) + rest) == [c] + Unescape(rest)
    ensures Unescape(OnePass(f, s)) == s
  {
    if s == [] {
    } else {
      UnescapePass(f, s[1..]);
      assert Unescape(f(s[0]) + OnePass(f, s[1..])) == [s[0]] + Unescape(OnePass(f, s[1..]));
    }
  }

  lemma {:induction false} UnescapeEscaped(c: char, rest: string)
    ensures Unescape(EscapeChar(c) + rest) == [c] + Unescape(rest)
  {
    if c == '\n' || c == '\r' || c == '\t' {
      assert ([c] + rest)[1..] == rest && ([c] + rest)[0] != '&';
      assert EntityAt([c] + rest) == None;
    } else {
      UnescapeQuoted(c, rest);
    }
  }

  /** Decoding what was escaped gives the text back, for every text. */
  lemma {:induction false} EscapeRoundTrip(s: string)
    ensures Unescape(HtmlEscape(s)) == s
  {
    hide HtmlEscape; hide OnePass; hide Unescape; hide EscapeChar;
    EscapeIsOnePass(s);
    forall c, rest ensures Unescape(EscapeChar(c) + rest) == [c] + Unescape(rest) {
      UnescapeEscaped(c, rest);
    }
    UnescapePass(EscapeChar, s);
  }

  /** The same for quoting: the text between the quotation marks decodes to the input. */
  lemma {:induction false} QuoteRoundTrip(s: string)
    ensures |HtmlQuote(s)| >= 2 && Unescape(HtmlQuote(s)[1..|HtmlQuote(s)| - 1]) == s
  {
    hide HtmlQuote; hide OnePass; hide Unescape; hide QuoteChar;
    QuoteIsOnePass(s);
    forall c, rest ensures Unescape(QuoteChar(c) + rest) == [c] + Unescape(rest) {
      UnescapeQuoted(c, rest);
    }
    UnescapePass(QuoteChar, s);
    assert HtmlQuote(s)[1..|HtmlQuote(s)| - 1] == OnePass(QuoteChar, s);
  }
}
