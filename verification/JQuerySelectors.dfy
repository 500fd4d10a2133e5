/**
 * How jQuery reads the name in [attribute='name'] once it has been escaped: by the browser's
 * selector engine where that is asked first, else by jQuery's own patterns.
 */
module JQuerySelectors {
  import opened CssStrings
  import opened Options

  predicate IsLineTerminator(c: char) {
    c == '\n' || c == '\r' || c == '\U{2028}' || c == '\U{2029}'
  }

  predicate IsBlank(c: char) {
    c == ' ' || c == '\t' || c == '\r' || c == '\n' || c == '\U{000C}'
  }

  /** '((?:\\.|[^\\'])*)' after its opening quote: the captured text and what follows the closing quote. */
  function CaptureString(text: string): (m: Option<(string, string)>)
    decreases |text|
  {
    if text == "" then None
    else if text[0] == '\'' then Some(("", text[1..]))
    else
      var n := if text[0] == '\\' then 2 else 1;
      if n > |text| || (n == 2 && IsLineTerminator(text[1])) then None
      else
        match CaptureString(text[n..])
        case None => None
        case Some((captured, rest)) => Some((text[..n] + captured, rest))
  }

  /** The code unit of a hexadecimal escape; halves of surrogate pairs are not characters here. */
  function HexUnit(v: nat): char {
    if 0xD800 <= v < 0xE000 || v >= 0x11_0000 then REPLACEMENT else v as char
  }

  /** Replacing escapes: hexadecimal ones by their character, others by the character behind the backslash. */
  function Unescape(text: string): string
    decreases |text|
  {
    if text == "" then ""
    else if text[0] != '\\' || |text| == 1 then [text[0]] + Unescape(text[1..])
    else
      var (digits, v) := HexRun(text[1..], 6, 0);
      if digits > 0 then
        var n := if 1 + digits < |text| && IsBlank(text[1 + digits]) then digits + 2 else digits + 1;
        [HexUnit(v)] + Unescape(text[n..])
      else if text[1] == '\n' || text[1] == '\r' || text[1] == '\U{000C}' then "\\" + Unescape(text[1..])
      else [text[1]] + Unescape(text[2..])
  }

  function SkipBlanks(text: string): string {
    if text != "" && IsBlank(text[0]) then SkipBlanks(text[1..]) else text
  }

  /** The selector up to its opening quote is fixed; this is what the patterns make of the rest. */
  function OwnReading(name: string): Option<string> {
    match CaptureString(EscapeAttributeValue(name) + "'" + "]")
    case None => None
    case Some((captured, rest)) => if SkipBlanks(rest) == "]" then Some(Unescape(captured)) else None
  }

  /** What the browser reads; none if it rejects the selector. */
  function NativeReading(name: string): Option<string> {
    match ReadQuoted(name, "]")
    case StringToken(value, rest) => if rest == "]" then Some(value) else None
    case _ => None
  }

  // ----------------------------------------------------------------- jQuery's own reading

  lemma {:induction false} CaptureEscaped(name: string, rest: string)
    ensures CaptureString(EscapeAttributeValue(name) + "'" + rest) == Some((EscapeAttributeValue(name), rest))
    decreases |name|
  {
    var text := EscapeAttributeValue(name) + "'" + rest;
    if name == "" {
      assert text[1..] == rest;
    } else {
      var c, more := name[0], name[1..];
      var tail := EscapeAttributeValue(more) + "'" + rest;
      assert text == EscapeChar(c) + tail;
      MetaFacts(c);
      hide IsMeta;
      CaptureEscaped(more, rest);
      assert text[|EscapeChar(c)|..] == tail && text[..|EscapeChar(c)|] == EscapeChar(c);
    }
  }

  lemma UnescapeFirst(c: char, more: string)
    ensures Unescape(EscapeChar(c) + more) == [c] + Unescape(more)
  {
    MetaFacts(c);
    hide IsMeta;
    var text := EscapeChar(c) + more;
    if EscapeChar(c) == [c] {
      assert text[1..] == more;
    } else {
      assert text[1] == c && text[1..] == [c] + more && text[2..] == more;
      NoDigitsNoRun(text[1..], 6, 0);
    }
  }

  lemma NoDigitsNoRun(text: string, limit: nat, before: nat)
    requires text != "" && HexDigit(text[0]).None?
    ensures HexRun(text, limit, before) == (0, before)
  {
  }

  lemma {:induction false} UnescapeUndoesEscape(name: string)
    ensures Unescape(EscapeAttributeValue(name)) == name
    decreases |name|
  {
    if name != "" {
      UnescapeFirst(name[0], EscapeAttributeValue(name[1..]));
      UnescapeUndoesEscape(name[1..]);
    }
  }

  /** jQuery's own patterns give back every name, without exception. */
  lemma OwnReadingIsExact(name: string)
    ensures OwnReading(name) == Some(name)
  {
    CaptureEscaped(name, "]");
    UnescapeUndoesEscape(name);
    assert SkipBlanks("]") == "]";
  }

  // -------------------------------------------------------- the browser, with a fallback

  predicate HasLineEnd(name: string) {
    exists c :: c in name && (c == '\n' || c == '\r' || c == '\U{000C}')
  }

  /** Names with a line end are rejected; in others the browser takes NUL for the replacement character. */
  lemma NativeReadingExactly(name: string)
    ensures NativeReading(name) == if HasLineEnd(name) then None else Some(Preprocess(name))
    ensures !HasLineEnd(name) ==> (Preprocess(name) == name <==> '\0' !in name)
  {
    if HasLineEnd(name) {
      LineEndsShowAsNewlines(name);
      ReadPreprocessed(name, "]");
    } else {
      NoNewlineAppears(name);
      ReadPreprocessed(name, "]");
      PlainTextIsKept("]");
      PlainTextIsKept(name);
    }
  }

  lemma {:induction false} NoNewlineAppears(name: string)
    requires !HasLineEnd(name)
    ensures '\n' !in Preprocess(name)
    decreases |name|
  {
    if name != "" {
      var c, more := name[0], name[1..];
      assert name == [c] + more && c in name && forall d :: d in more ==> d in name;
      PreprocessFirst(c, more);
      NoNewlineAppears(more);
    }
  }

  /** find: the browser first and, if it rejects the selector, jQuery's own patterns. */
  function ReadByFind(name: string): string {
    if NativeReading(name).Some? then NativeReading(name).value
    else
      OwnReadingIsExact(name);
      OwnReading(name).value
  }

  /** filter: a lone candidate is read as by find, several by jQuery's own patterns. */
  function ReadByFilter(candidates: nat, name: string): string {
    if candidates == 1 then ReadByFind(name)
    else
      OwnReadingIsExact(name);
      OwnReading(name).value
  }

  /** find looks for exactly the name unless it holds a NUL and no line end. */
  lemma ReadByFindExactly(name: string)
    ensures ReadByFind(name) == name <==> '\0' !in name || HasLineEnd(name)
  {
    NativeReadingExactly(name);
    OwnReadingIsExact(name);
  }

  lemma ReadByFilterExactly(candidates: nat, name: string)
    ensures ReadByFilter(candidates, name) == name <==> candidates != 1 || '\0' !in name || HasLineEnd(name)
  {
    ReadByFindExactly(name);
    OwnReadingIsExact(name);
  }

  /** A name holding just a NUL is looked for as the replacement character. */
  lemma NulIsLost()
    ensures ReadByFind("\0") == "\U{FFFD}"
  {
    NativeReadingExactly("\0");
    PreprocessFirst('\0', "");
    assert "\0" == ['\0'] + "" && Preprocess("") == "";
  }
}
