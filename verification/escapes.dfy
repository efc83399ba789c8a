/**
 * The escape fix-up `init` applies to the body text before parsing it:
 * every backslash is doubled (`split("\\").join("\\\\")`), then every
 * backslash-quote pair is rewritten to two backslashes and a quote
 * (`split('\\"').join('\\\\"')`).
 */
module Escapes {
  import opened Json
  import opened Text

  /** First rewrite: `s.split("\\").join("\\\\")`. Every backslash is
      replaced by two, so the text grows by the number of backslashes. */
  function DoubleBackslashes(s: string): (r: string)
    ensures r == ReplaceAll(s, "\\", "\\\\")
    ensures |r| == |s| + Count(s, '\\')
  {
    SplitJoinIsReplaceAll(s, "\\", "\\\\");
    ReplaceBackslashLength(s);
    Join(Split(s, "\\"), "\\\\")
  }

  /** Second rewrite: `s.split('\\"').join('\\\\"')`. Each backslash-quote
      pair, scanning left to right, becomes two backslashes and a quote. */
  function ReescapeQuotes(s: string): (r: string)
    ensures r == ReplaceAll(s, "\\\"", "\\\\\"")
  {
    SplitJoinIsReplaceAll(s, "\\\"", "\\\\\"");
    Join(Split(s, "\\\""), "\\\\\"")
  }

  /** Both rewrites, in the order `init` applies them; text without a
      backslash passes through unchanged. */
  function FixEscapes(s: string): (r: string)
    ensures '\\' !in s ==> r == s
  {
    var r := ReescapeQuotes(DoubleBackslashes(s));
    assert '\\' !in s ==> r == s by {
      if '\\' !in s {
        NoBackslashUnchanged(s);
      }
    }
    r
  }

  /** How a JSON parser reads a doubled backslash: as one backslash. */
  function UndoubleBackslashes(t: string): string
    decreases |t|
  {
    if |t| >= 2 && t[0] == '\\' && t[1] == '\\' then "\\" + UndoubleBackslashes(t[2..])
    else if t == [] then []
    else [t[0]] + UndoubleBackslashes(t[1..])
  }

  lemma {:induction false} ReplaceBackslashLength(s: string)
    ensures |ReplaceAll(s, "\\", "\\\\")| == |s| + Count(s, '\\')
    ensures UndoubleBackslashes(ReplaceAll(s, "\\", "\\\\")) == s
    decreases |s|
  {
    if |s| >= 1 {
      ReplaceBackslashLength(s[1..]);
      var r := ReplaceAll(s[1..], "\\", "\\\\");
      if s[0] == '\\' {
        assert s[..1] == "\\";
        assert ReplaceAll(s, "\\", "\\\\") == "\\\\" + r;
        assert ("\\\\" + r)[2..] == r;
      } else {
        assert s[..1] != "\\";
        assert ReplaceAll(s, "\\", "\\\\") == [s[0]] + r;
        assert ([s[0]] + r)[1..] == r;
      }
      assert s == [s[0]] + s[1..];
    }
  }

  /** Reading each doubled backslash back as one restores the text the
      first rewrite started from. */
  lemma DoubleBackslashesSpec(s: string)
    ensures UndoubleBackslashes(DoubleBackslashes(s)) == s
  {
    ReplaceBackslashLength(s);
  }

  /** Text without a backslash passes through both rewrites unchanged. */
  lemma NoBackslashUnchanged(s: string)
    requires '\\' !in s
    ensures DoubleBackslashes(s) == s
    ensures ReescapeQuotes(s) == s
  {
    SplitAbsent(s, "\\");
    SplitAbsent(s, "\\\"");
  }

  /** The character a JSON escape `\x` stands for, for the two-character
      escapes; a `\u` escape is not read. */
  function EscapedChar(x: char): (r: Option<char>)
    ensures x == '"' || x == '\\' || x == '/' ==> r == Some(x)
    ensures x == 'u' ==> r.None?
  {
    match x
    case '"' => Some('"')
    case '\\' => Some('\\')
    case '/' => Some('/')
    case 'b' => Some(8 as char)
    case 'f' => Some(12 as char)
    case 'n' => Some('\n')
    case 'r' => Some('\r')
    case 't' => Some('\t')
    case _ => None
  }

  /** A read string with one more character in front. */
  function Prepend(c: char, read: Option<(string, string)>): Option<(string, string)>
  {
    match read
    case None => None
    case Some((d, rest)) => Some(([c] + d, rest))
  }

  /** How `JSON.parse` reads a string from just after its opening quote:
      the characters the string stands for and the text after its closing
      quote; `None` when the string is never closed or holds an escape
      not read here. */
  function ReadString(t: string): (r: Option<(string, string)>)
    ensures r.Some? ==> |r.value.1| < |t|
    decreases |t|
  {
    if t == [] then None
    else if t[0] == '"' then Some(([], t[1..]))
    else if t[0] != '\\' then Prepend(t[0], ReadString(t[1..]))
    else if |t| < 2 || EscapedChar(t[1]).None? then None
    else Prepend(EscapedChar(t[1]).value, ReadString(t[2..]))
  }

  /** One step of `ReadString`: a plain character stands for itself. */
  lemma ReadPlain(c: char, after: string)
    requires c != '"' && c != '\\'
    ensures ReadString([c] + after) == Prepend(c, ReadString(after))
  {
    assert ([c] + after)[1..] == after;
  }

  /** One step of `ReadString`: a two-character escape. */
  lemma ReadEscape(x: char, after: string)
    requires EscapedChar(x).Some?
    ensures ReadString(['\\', x] + after) == Prepend(EscapedChar(x).value, ReadString(after))
  {
    assert (['\\', x] + after)[2..] == after;
  }

  /** One step of `ReadString`: the closing quote. */
  lemma ReadClose(after: string)
    ensures ReadString("\"" + after) == Some(([], after))
  {
    assert ("\"" + after)[1..] == after;
  }

  /** The inside of a string literal as it appears in JSON text: every
      backslash begins a two-character escape, and every quote is escaped. */
  predicate EscapedBody(b: string)
    decreases |b|
  {
    b == []
    || (b[0] == '\\' && |b| >= 2 && EscapedBody(b[2..]))
    || (b[0] != '\\' && b[0] != '"' && EscapedBody(b[1..]))
  }

  /** What the corrected fix-up writes for the character after a backslash:
      a quote or a backslash escaped, anything else as it is. */
  function Reescaped(x: char): (r: string)
    ensures x == '"' || x == '\\' ==> r == ['\\', x]
    ensures x != '"' && x != '\\' ==> r == [x]
  {
    if x == '"' || x == '\\' then ['\\', x] else [x]
  }

  /** The fix-up as its comments describe it, in one left-to-right pass:
      every backslash is doubled, and a quote is re-escaped only where the
      original text escapes it, that is after an odd run of backslashes. */
  function FixEscapesIntended(s: string): string
    decreases |s|
  {
    if s == [] then []
    else if s[0] != '\\' then [s[0]] + FixEscapesIntended(s[1..])
    else if |s| == 1 then "\\\\"
    else ['\\', '\\'] + Reescaped(s[1]) + FixEscapesIntended(s[2..])
  }

  /** One step of the corrected fix-up: a character other than a backslash. */
  lemma FixPlain(c: char, after: string)
    requires c != '\\'
    ensures FixEscapesIntended([c] + after) == [c] + FixEscapesIntended(after)
  {
    assert ([c] + after)[1..] == after;
  }

  /** One step of the corrected fix-up: a backslash and the character after it. */
  lemma FixEscape(x: char, after: string)
    ensures FixEscapesIntended(['\\', x] + after) == ['\\', '\\'] + Reescaped(x) + FixEscapesIntended(after)
  {
    assert (['\\', x] + after)[2..] == after;
  }

  /** The corrected fix-up keeps the closing quote of a string literal:
      what comes before it and what comes after it are fixed up apart. */
  lemma {:induction false} IntendedKeepsClosingQuote(s: string, k: nat)
    requires k < |s| && s[k] == '"' && EscapedBody(s[..k])
    ensures FixEscapesIntended(s) == FixEscapesIntended(s[..k]) + ("\"" + FixEscapesIntended(s[k + 1..]))
    decreases k
  {
    var b := s[..k];
    if k == 0 {
      assert b == [];
    } else if s[0] == '\\' {
      assert b[0] == '\\';
      assert b[2..] == s[2..][..k - 2];
      IntendedKeepsClosingQuote(s[2..], k - 2);
      ClosingQuoteAfterEscape(s, k);
    } else {
      assert b[1..] == s[1..][..k - 1];
      IntendedKeepsClosingQuote(s[1..], k - 1);
      ClosingQuoteAfterPlain(s, k);
    }
  }

  /** `IntendedKeepsClosingQuote` past a plain first character. */
  lemma ClosingQuoteAfterPlain(s: string, k: nat)
    requires 0 < k < |s| && s[0] != '\\'
    requires FixEscapesIntended(s[1..]) == FixEscapesIntended(s[1..][..k - 1]) + ("\"" + FixEscapesIntended(s[1..][k..]))
    ensures FixEscapesIntended(s) == FixEscapesIntended(s[..k]) + ("\"" + FixEscapesIntended(s[k + 1..]))
  {
    var c, before, after := s[0], s[1..][..k - 1], s[k + 1..];
    assert s == [c] + s[1..];
    assert s[..k] == [c] + before;
    assert s[1..][k..] == after;
    FixPlain(c, s[1..]);
    FixPlain(c, before);
    ConsAppend(c, FixEscapesIntended(before), "\"" + FixEscapesIntended(after));
  }

  /** A character in front of two joined texts. */
  lemma ConsAppend(c: char, x: string, y: string)
    ensures [c] + (x + y) == ([c] + x) + y
  {
  }

  /** `IntendedKeepsClosingQuote` past a first escape. */
  lemma ClosingQuoteAfterEscape(s: string, k: nat)
    requires 2 <= k < |s| && s[0] == '\\'
    requires FixEscapesIntended(s[2..]) == FixEscapesIntended(s[2..][..k - 2]) + ("\"" + FixEscapesIntended(s[2..][k - 1..]))
    ensures FixEscapesIntended(s) == FixEscapesIntended(s[..k]) + ("\"" + FixEscapesIntended(s[k + 1..]))
  {
    assert s[..k][2..] == s[2..][..k - 2];
    assert s[2..][k - 1..] == s[k + 1..];
  }

  /** After the corrected fix-up, the inside of a string literal reads
      back as it was written, escapes included, up to its closing quote. */
  lemma {:induction false} IntendedReadsRawText(b: string, rest: string)
    requires EscapedBody(b)
    ensures ReadString(FixEscapesIntended(b) + ("\"" + rest)) == Some((b, rest))
    decreases |b|
  {
    if b == [] {
      ReadClose(rest);
      assert FixEscapesIntended(b) + ("\"" + rest) == "\"" + rest;
    } else if b[0] == '\\' {
      IntendedReadsRawText(b[2..], rest);
      RawTextAfterEscape(b, rest);
    } else {
      IntendedReadsRawText(b[1..], rest);
      RawTextAfterPlain(b, rest);
    }
  }

  /** `IntendedReadsRawText` past a plain first character. */
  lemma RawTextAfterPlain(b: string, rest: string)
    requires |b| > 0 && b[0] != '\\' && b[0] != '"'
    requires ReadString(FixEscapesIntended(b[1..]) + ("\"" + rest)) == Some((b[1..], rest))
    ensures ReadString(FixEscapesIntended(b) + ("\"" + rest)) == Some((b, rest))
  {
    var after := FixEscapesIntended(b[1..]) + ("\"" + rest);
    assert FixEscapesIntended(b) + ("\"" + rest) == [b[0]] + after;
    ReadPlain(b[0], after);
    assert [b[0]] + b[1..] == b;
  }

  /** `IntendedReadsRawText` past a first escape. */
  lemma RawTextAfterEscape(b: string, rest: string)
    requires |b| >= 2 && b[0] == '\\'
    requires ReadString(FixEscapesIntended(b[2..]) + ("\"" + rest)) == Some((b[2..], rest))
    ensures ReadString(FixEscapesIntended(b) + ("\"" + rest)) == Some((b, rest))
  {
    var x, tail := b[1], b[2..];
    assert b == ['\\', x] + tail;
    FixEscapeThen(x, tail, "\"" + rest);
    ReadDoubled(x, tail, FixEscapesIntended(tail) + ("\"" + rest), rest);
  }

  /** A fixed-up escape followed by more text. */
  lemma FixEscapeThen(x: char, tail: string, q: string)
    ensures FixEscapesIntended(['\\', x] + tail) + q
         == ['\\', '\\'] + (Reescaped(x) + (FixEscapesIntended(tail) + q))
  {
    FixEscape(x, tail);
  }

  /** A doubled backslash and the re-escaped character after it read as
      the original two-character escape. */
  lemma ReadDoubled(x: char, tail: string, after: string, rest: string)
    requires ReadString(after) == Some((tail, rest))
    ensures ReadString(['\\', '\\'] + (Reescaped(x) + after)) == Some((['\\', x] + tail, rest))
  {
    ReadReescaped(x, after);
    ReadEscape('\\', Reescaped(x) + after);
    assert ['\\'] + ([x] + tail) == ['\\', x] + tail;
  }

  /** What follows a doubled backslash reads as the original escape's
      second character. */
  lemma ReadReescaped(x: char, after: string)
    ensures ReadString(Reescaped(x) + after) == Prepend(x, ReadString(after))
  {
    if x == '"' || x == '\\' {
      ReadEscape(x, after);
    } else {
      ReadPlain(x, after);
    }
  }

  /** On valid JSON text, the corrected fix-up shows each string as
      written: it still ends at its own closing quote, and it reads back
      as its own inside, escapes included. */
  lemma IntendedShowsString(s: string, k: nat)
    requires k < |s| && s[k] == '"' && EscapedBody(s[..k])
    ensures ReadString(FixEscapesIntended(s)) == Some((s[..k], FixEscapesIntended(s[k + 1..])))
  {
    IntendedKeepsClosingQuote(s, k);
    IntendedReadsRawText(s[..k], FixEscapesIntended(s[k + 1..]));
  }

  /** The source's fix-up on the valid text `"\\"`, a string holding one
      backslash: the first rewrite gives `"\\\\"`, and the second then
      escapes the string's own closing quote, giving `"\\\\\"`. */
  lemma SourceFixUpOfTrailingBackslash()
    ensures FixEscapes("\"\\\\\"") == "\"\\\\\\\\\\\""
  {
    DoubledTrailingBackslash();
    ReescapedTrailingBackslash();
  }

  lemma DoubledTrailingBackslash()
    ensures DoubleBackslashes("\"\\\\\"") == "\"\\\\\\\\\""
  {
  }

  lemma ReescapedTrailingBackslash()
    ensures ReescapeQuotes("\"\\\\\\\\\"") == "\"\\\\\\\\\\\""
  {
  }

  /** The string of `"\\"` is closed and holds one backslash; after the
      source's fix-up it is never closed, so `JSON.parse` throws and `init`
      gives up on a valid page. */
  lemma SourceFixUpLeavesStringOpen()
    ensures ReadString("\\\\\"") == Some(("\\", ""))
    ensures ReadString("\\\\\\\\\\\"") == None
  {
    var closing := "\"";
    ReadClose("");
    assert closing + "" == closing;
    ReadEscape('\\', closing);
    assert ['\\', '\\'] + closing == "\\\\\"";
    assert ['\\'] + [] == "\\";
    var open := ['\\', '"'];
    ReadEscape('"', "");
    ReadEscape('\\', open);
    ReadEscape('\\', ['\\', '\\'] + open);
    assert ['\\', '\\'] + (['\\', '\\'] + open) == "\\\\\\\\\\\"";
  }

  /** The corrected fix-up on the same text keeps the closing quote, and
      the string reads back as `\\`, the escape as written. */
  lemma IntendedFixUpOfTrailingBackslash()
    ensures FixEscapesIntended("\"\\\\\"") == "\"\\\\\\\\\""
    ensures ReadString("\\\\\\\\\"") == Some(("\\\\", ""))
  {
    var closing := "\"";
    ReadClose("");
    assert closing + "" == closing;
    ReadEscape('\\', closing);
    ReadEscape('\\', ['\\', '\\'] + closing);
    assert ['\\', '\\'] + (['\\', '\\'] + closing) == "\\\\\\\\\"";
    assert ['\\'] + (['\\'] + []) == "\\\\";
  }

  /** An escaped quote, `"\""`: both fix-ups give `"\\\""`, whose string
      reads `\"`, the escape as written; here they agree. */
  lemma EscapedQuoteShownAsWritten()
    ensures FixEscapes("\"\\\"\"") == "\"\\\\\\\"\""
    ensures FixEscapesIntended("\"\\\"\"") == "\"\\\\\\\"\""
    ensures ReadString("\\\\\\\"\"") == Some(("\\\"", ""))
  {
    DoubledEscapedQuote();
    ReescapedEscapedQuote();
    EscapedQuoteReadsBack();
  }

  /** `\\\"` inside a string reads as backslash and quote. */
  lemma EscapedQuoteReadsBack()
    ensures ReadString("\\\\\\\"\"") == Some(("\\\"", ""))
  {
    var closing := "\"";
    ReadClose("");
    assert closing + "" == closing;
    ReadEscape('"', closing);
    ReadEscape('\\', ['\\', '"'] + closing);
    assert ['\\', '\\'] + (['\\', '"'] + closing) == "\\\\\\\"\"";
    assert ['\\'] + (['"'] + []) == "\\\"";
  }

  lemma DoubledEscapedQuote()
    ensures DoubleBackslashes("\"\\\"\"") == "\"\\\\\"\""
  {
  }

  lemma ReescapedEscapedQuote()
    ensures ReescapeQuotes("\"\\\\\"\"") == "\"\\\\\\\"\""
  {
  }
}
