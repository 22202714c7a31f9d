/**
 * `escapeHTML` (script.js:72-76): a first pass replaces `&`, `<`, `>` and `"`
 * by their character entities, a second pass replaces each line feed by
 * `<br>`. Because the entity pass runs first, the inserted `<br>` tags are
 * never themselves escaped.
 */
module Escape {

  /** The replacement table of the first pass. */
  function Entity(c: char): string {
    match c
    case '&' => "&amp;"
    case '<' => "&lt;"
    case '>' => "&gt;"
    case '"' => "&quot;"
    case _ => [c]
  }

  /** First pass: `s.replace(/[&<>"]/g, ...)`. */
  function EscapeEntities(s: string): string {
    if s == [] then [] else Entity(s[0]) + EscapeEntities(s[1..])
  }

  /** Second pass: `.replace(/\n/g, "<br>")`. */
  function BreakLines(s: string): string {
    if s == [] then [] else (if s[0] == '\n' then "<br>" else [s[0]]) + BreakLines(s[1..])
  }

  /** What a single character becomes in the escaped text. */
  function EncodeChar(c: char): string {
    if c == '\n' then "<br>" else Entity(c)
  }

  /** Reference encoder: each character replaced independently, in one pass. */
  function Encode(s: string): string {
    if s == [] then [] else EncodeChar(s[0]) + Encode(s[1..])
  }

  /**
   * Reads entities and `<br>` back; any other character stands for itself.
   * The inverse of the encoder.
   */
  function Unescape(t: string): string
    decreases |t|
  {
    if t == [] then []
    else if "&amp;" <= t then "&" + Unescape(t[5..])
    else if "&lt;" <= t then "<" + Unescape(t[4..])
    else if "&gt;" <= t then ">" + Unescape(t[4..])
    else if "&quot;" <= t then "\"" + Unescape(t[6..])
    else if "<br>" <= t then "\n" + Unescape(t[4..])
    else [t[0]] + Unescape(t[1..])
  }

  /** `escapeHTML(s)`. */
  function EscapeHTML(s: string): (r: string)
    ensures r == Encode(s)
    ensures '"' !in r && '\n' !in r
    ensures Unescape(r) == s
  {
    EscapeIsSinglePass(s);
    EncodeOmitsQuoteAndNewline(s);
    UnescapeEncode(s);
    BreakLines(EscapeEntities(s))
  }

  lemma {:induction false} BreakLinesAppend(a: string, b: string)
    ensures BreakLines(a + b) == BreakLines(a) + BreakLines(b)
  {
    if a != [] {
      assert (a + b)[1..] == a[1..] + b;
      BreakLinesAppend(a[1..], b);
    } else {
      assert a + b == b;
    }
  }

  lemma {:induction false} BreakLinesWithoutNewline(s: string)
    requires '\n' !in s
    ensures BreakLines(s) == s
  {
    if s != [] {
      BreakLinesWithoutNewline(s[1..]);
    }
  }

  /**
   * The two passes equal the one-pass encoder: in particular a line feed
   * becomes a literal `<br>` and an entity is never rewritten again.
   */
  lemma {:induction false} EscapeIsSinglePass(s: string)
    ensures BreakLines(EscapeEntities(s)) == Encode(s)
  {
    if s != [] {
      EscapeIsSinglePass(s[1..]);
      BreakLinesAppend(Entity(s[0]), EscapeEntities(s[1..]));
      if s[0] == '\n' {
        assert BreakLines(Entity(s[0])) == "<br>";
      } else {
        BreakLinesWithoutNewline(Entity(s[0]));
      }
    }
  }

  /** The escaped text has no double quote and no line feed left. */
  lemma {:induction false} EncodeOmitsQuoteAndNewline(s: string)
    ensures '"' !in Encode(s) && '\n' !in Encode(s)
  {
    if s != [] {
      EncodeOmitsQuoteAndNewline(s[1..]);
    }
  }

  /** Decoding one encoded character in front of any text. */
  lemma UnescapeStep(c: char, rest: string)
    ensures Unescape(EncodeChar(c) + rest) == [c] + Unescape(rest)
  {
    if c == '&' {
      UnescapeReplaced("&amp;", rest);
    } else if c == '<' {
      UnescapeReplaced("&lt;", rest);
    } else if c == '>' {
      UnescapeReplaced("&gt;", rest);
    } else if c == '"' {
      UnescapeReplaced("&quot;", rest);
    } else if c == '\n' {
      UnescapeReplaced("<br>", rest);
    } else {
      UnescapeKept(c, rest);
    }
  }

  /** A replacement is read back as the character it stands for. */
  lemma UnescapeReplaced(e: string, rest: string)
    requires e in {"&amp;", "&lt;", "&gt;", "&quot;", "<br>"}
    ensures e == "&amp;" ==> Unescape(e + rest) == "&" + Unescape(rest)
    ensures e == "&lt;" ==> Unescape(e + rest) == "<" + Unescape(rest)
    ensures e == "&gt;" ==> Unescape(e + rest) == ">" + Unescape(rest)
    ensures e == "&quot;" ==> Unescape(e + rest) == "\"" + Unescape(rest)
    ensures e == "<br>" ==> Unescape(e + rest) == "\n" + Unescape(rest)
  {
    var t := e + rest;
    assert e <= t && t[|e|..] == rest;
    assert t[0] == e[0] && t[1] == e[1];
  }

  /** A character that is not replaced is read back as itself. */
  lemma UnescapeKept(c: char, rest: string)
    requires c != '&' && c != '<' && c != '>' && c != '"' && c != '\n'
    ensures Unescape(EncodeChar(c) + rest) == [c] + Unescape(rest)
  {
    var t := [c] + rest;
    assert EncodeChar(c) == [c];
    assert t[0] == c && t[1..] == rest;
  }

  /** Decoding inverts encoding, so no two texts escape alike. */
  lemma {:induction false} UnescapeEncode(s: string)
    ensures Unescape(Encode(s)) == s
  {
    if s != [] {
      UnescapeEncode(s[1..]);
      UnescapeStep(s[0], Encode(s[1..]));
      assert [s[0]] + s[1..] == s;
    }
  }
}
