/** `escapeQuote` of admin-script.js, meant to make a string safe inside a
    single-quoted JavaScript literal, and a reader for such literals that
    says what the escaped text means once it is parsed again. */
module Escaping {
  import opened Wrappers

  function Count(s: string, c: char): nat {
    if s == [] then 0 else (if s[0] == c then 1 else 0) + Count(s[1..], c)
  }

  /** `str.replace(/'/g, "\\'")`: a backslash before every quote. */
  function EscapeQuote(s: string): string {
    if s == [] then [] else (if s[0] == '\'' then "\\'" else [s[0]]) + EscapeQuote(s[1..])
  }

  /** Undoes `EscapeQuote`: `\'` becomes `'`, everything else is kept. */
  function UnescapeQuote(s: string): string {
    if s == [] then []
    else if |s| >= 2 && s[0] == '\\' && s[1] == '\'' then "'" + UnescapeQuote(s[2..])
    else [s[0]] + UnescapeQuote(s[1..])
  }

  /** The output grows by one character per quote; a string without quotes
      is returned unchanged. */
  lemma {:induction false} EscapeQuoteLength(s: string)
    ensures |EscapeQuote(s)| == |s| + Count(s, '\'')
    ensures Count(s, '\'') == 0 ==> EscapeQuote(s) == s
  {
    if s != [] {
      EscapeQuoteLength(s[1..]);
      assert s == [s[0]] + s[1..];
    }
  }

  lemma EscapeQuoteNeverStartsWithQuote(s: string)
    ensures EscapeQuote(s) == [] || EscapeQuote(s)[0] != '\''
  {
  }

  /** Only quotes are touched: unescaping gives the input back. */
  lemma {:induction false} UnescapeEscapeQuote(s: string)
    ensures UnescapeQuote(EscapeQuote(s)) == s
  {
    if s != [] {
      var rest := EscapeQuote(s[1..]);
      UnescapeEscapeQuote(s[1..]);
      EscapeQuoteNeverStartsWithQuote(s[1..]);
      if s[0] == '\'' {
        assert EscapeQuote(s) == "\\'" + rest;
        assert (("\\'" + rest)[2..]) == rest;
      } else {
        assert EscapeQuote(s) == [s[0]] + rest;
        assert ([s[0]] + rest)[1..] == rest;
      }
      assert s == [s[0]] + s[1..];
    }
  }

  // ---- reading a single-quoted JavaScript string literal ----

  /** The character an escape `\c` stands for; escapes other than these
      five are not interpreted. */
  function EscapedChar(c: char): Option<char> {
    if c == '\'' || c == '\\' || c == '"' then Some(c)
    else if c == 'n' then Some('\n')
    else if c == 'r' then Some('\r')
    else None
  }

  /** The value of a literal whose opening `'` has been read: `s` must end
      with the closing quote and hold nothing after it. A raw line break, an
      unfinished escape or a missing closing quote is a syntax error. */
  function ReadQuotedBody(s: string): Option<string> {
    if s == [] then None
    else if s[0] == '\'' then (if |s| == 1 then Some([]) else None)
    else if s[0] == '\n' || s[0] == '\r' then None
    else if s[0] == '\\' then
      if |s| < 2 then None
      else match EscapedChar(s[1])
        case None => None
        case Some(c) =>
          match ReadQuotedBody(s[2..])
          case None => None
          case Some(rest) => Some([c] + rest)
    else
      match ReadQuotedBody(s[1..])
      case None => None
      case Some(rest) => Some([s[0]] + rest)
  }

  /** As written, the escape is sound for text without backslashes or line
      breaks: the literal reads back as the text. */
  lemma {:induction false} EscapeQuoteSoundWithoutBackslash(s: string)
    requires forall i :: 0 <= i < |s| ==> s[i] != '\\' && s[i] != '\n' && s[i] != '\r'
    ensures ReadQuotedBody(EscapeQuote(s) + "'") == Some(s)
  {
    if s != [] {
      var tail := EscapeQuote(s[1..]) + "'";
      EscapeQuoteSoundWithoutBackslash(s[1..]);
      if s[0] == '\'' {
        assert EscapeQuote(s) + "'" == "\\'" + tail;
        assert ("\\'" + tail)[2..] == tail;
      } else {
        assert EscapeQuote(s) + "'" == [s[0]] + tail;
        assert ([s[0]] + tail)[1..] == tail;
      }
      assert s == [s[0]] + s[1..];
    }
  }

  /** As written, a trailing backslash escapes the closing quote: the
      literal built from `a\` never ends. */
  lemma TrailingBackslashBreaksLiteral()
    ensures ReadQuotedBody(EscapeQuote("a\\") + "'") == None
  {
    assert EscapeQuote("a\\") == "a\\";
    var lit := "a\\'";
    assert EscapeQuote("a\\") + "'" == lit;
    assert lit[1..] == "\\'";
    assert lit[1..][2..] == [];
    assert ReadQuotedBody(lit[1..]) == None;
  }

  /** The corrected escape of one character: backslashes, quotes and line
      breaks get an escape, everything else stands for itself. */
  function EscapeChar(c: char): string {
    if c == '\\' then "\\\\"
    else if c == '\'' then "\\'"
    else if c == '\n' then "\\n"
    else if c == '\r' then "\\r"
    else [c]
  }

  /** The corrected escape, character by character. */
  function EscapeForLiteral(s: string): string {
    if s == [] then [] else EscapeChar(s[0]) + EscapeForLiteral(s[1..])
  }

  /** Every string survives the corrected escape: the literal reads back as
      exactly the text. */
  lemma {:induction false} EscapeForLiteralRoundTrip(s: string)
    ensures ReadQuotedBody(EscapeForLiteral(s) + "'") == Some(s)
  {
    if s != [] {
      var tail := EscapeForLiteral(s[1..]) + "'";
      EscapeForLiteralRoundTrip(s[1..]);
      assert EscapeForLiteral(s) + "'" == EscapeChar(s[0]) + tail;
      EscapeCharReadsBack(s[0], tail, s[1..]);
      assert s == [s[0]] + s[1..];
    }
  }

  /** The escape of `c` in front of a literal that reads as `rest` reads as
      `c` then `rest`. */
  lemma EscapeCharReadsBack(c: char, tail: string, rest: string)
    requires ReadQuotedBody(tail) == Some(rest)
    ensures ReadQuotedBody(EscapeChar(c) + tail) == Some([c] + rest)
  {
    var e := EscapeChar(c);
    if c == '\\' || c == '\'' || c == '\n' || c == '\r' {
      assert |e| == 2 && e[0] == '\\' && EscapedChar(e[1]) == Some(c);
      ReadEscapeStep(e, tail, c, rest);
    } else {
      ReadPlainStep(c, tail, rest);
    }
  }

  /** An escape `\c` followed by a literal that reads as `rest`. */
  lemma ReadEscapeStep(e: string, tail: string, c: char, rest: string)
    requires |e| == 2 && e[0] == '\\' && EscapedChar(e[1]) == Some(c)
    requires ReadQuotedBody(tail) == Some(rest)
    ensures ReadQuotedBody(e + tail) == Some([c] + rest)
  {
    assert (e + tail)[2..] == tail;
  }

  /** A plain character followed by a literal that reads as `rest`. */
  lemma ReadPlainStep(c: char, tail: string, rest: string)
    requires c != '\'' && c != '\\' && c != '\n' && c != '\r'
    requires ReadQuotedBody(tail) == Some(rest)
    ensures ReadQuotedBody([c] + tail) == Some([c] + rest)
  {
    assert ([c] + tail)[1..] == tail;
  }
}
