/** Escaping a value for an attribute selector, and reading it back as CSS reads a quoted string. */
module CssStrings {
  import opened Options

  /** The characters the escaper puts a backslash before. */
  predicate IsMeta(c: char) {
    || c == '!' || c == '"' || c == '#' || c == '$' || c == '%' || c == '&' || c == '\'' || c == '('
    || c == ')' || c == '*' || c == '+' || c == ',' || c == '.' || c == '/' || c == ':' || c == ';'
    || c == '<' || c == '=' || c == '>' || c == '?' || c == '@' || c == '[' || c == '\\' || c == ']'
    || c == '^' || c == '`' || c == '{' || c == '|' || c == '}' || c == '~'
  }

  function EscapeChar(c: char): string {
    if IsMeta(c) then ['\\', c] else [c]
  }

  function EscapeAttributeValue(value: string): string {
    if value == "" then ""
    else EscapeChar(value[0]) + EscapeAttributeValue(value[1..])
  }

  // --------------------------------------------- CSS Syntax Module Level 3, section 3.3

  const REPLACEMENT := '\U{FFFD}'

  function DropNewline(text: string): (rest: string)
    ensures |rest| <= |text|
  {
    if text != "" && text[0] == '\n' then text[1..] else text
  }

  /** Input preprocessing: every kind of line end becomes one newline, NUL the replacement character. */
  function Preprocess(text: string): string
    decreases |text|
  {
    if text == "" then ""
    else if text[0] == '\r' then "\n" + Preprocess(DropNewline(text[1..]))
    else if text[0] == '\U{000C}' then "\n" + Preprocess(text[1..])
    else if text[0] == '\0' then [REPLACEMENT] + Preprocess(text[1..])
    else [text[0]] + Preprocess(text[1..])
  }

  // --------------------------------------------- section 4.3.7, an escaped code point

  function HexDigit(c: char): (d: Option<nat>)
    ensures d.Some? ==> d.value < 16
  {
    if '0' <= c <= '9' then Some(c as int - '0' as int)
    else if 'a' <= c <= 'f' then Some(c as int - 'a' as int + 10)
    else if 'A' <= c <= 'F' then Some(c as int - 'A' as int + 10)
    else None
  }

  /** How many hexadecimal digits start the text, at most `limit`, and their value after `before`. */
  function HexRun(text: string, limit: nat, before: nat): (r: (nat, nat))
    ensures r.0 <= |text| && r.0 <= limit
    decreases limit
  {
    if limit == 0 || text == "" || HexDigit(text[0]).None? then (0, before)
    else
      var (n, v) := HexRun(text[1..], limit - 1, 16 * before + HexDigit(text[0]).value);
      (n + 1, v)
  }

  function CodePoint(v: nat): char {
    if v == 0 || 0xD800 <= v < 0xE000 || v >= 0x11_0000 then REPLACEMENT else v as char
  }

  predicate IsWhitespace(c: char) {
    c == '\n' || c == '\t' || c == ' '
  }

  /** The code point escaped at the start of the text, and how much of the text it takes. */
  function EscapedCodePoint(text: string): (r: (char, nat))
    requires text != ""
    ensures 0 < r.1 <= |text|
  {
    var (digits, v) := HexRun(text, 6, 0);
    if digits == 0 then (text[0], 1)
    else if digits < |text| && IsWhitespace(text[digits]) then (CodePoint(v), digits + 1)
    else (CodePoint(v), digits)
  }

  // --------------------------------------------------- section 4.3.5, a string token

  datatype Token =
    | StringToken(value: string, rest: string)
    | BadString(rest: string)
    | Unclosed(value: string)

  /** The rest of a string token whose opening quote was `ending` and whose value so far is `value`. */
  function ReadString(text: string, ending: char, value: string): Token
    decreases |text|
  {
    if text == "" then Unclosed(value)
    else
      var c, rest := text[0], text[1..];
      if c == ending then StringToken(value, rest)
      else if c == '\n' then BadString(text)
      else if c == '\\' then
        if rest == "" then ReadString(rest, ending, value)
        else if rest[0] == '\n' then ReadString(rest[1..], ending, value)
        else
          var (cp, n) := EscapedCodePoint(rest);
          ReadString(rest[n..], ending, value + [cp])
      else ReadString(rest, ending, value + [c])
  }

  // ----------------------------------------------------------------------- round trip

  predicate IsPlainText(value: string) {
    forall c :: c in value ==> c != '\n' && c != '\r' && c != '\U{000C}' && c != '\0'
  }

  /** Escaped characters are no line ends, NUL or hexadecimal digits; backslash and quote are among them. */
  lemma MetaFacts(c: char)
    ensures IsMeta(c) ==> HexDigit(c).None? && c != '\n' && c != '\r' && c != '\U{000C}' && c != '\0'
    ensures IsMeta('\\') && IsMeta('\'') && !IsMeta('\n') && !IsMeta('\r') && !IsMeta(REPLACEMENT)
  {
  }

  /** A character is escaped exactly when it is ASCII punctuation other than - and _. */
  lemma PunctuationIsEscaped(c: char)
    ensures EscapeAttributeValue([c])
            == if '!' <= c <= '~' && c != '-' && c != '_' && !('0' <= c <= '9' || 'A' <= c <= 'Z' || 'a' <= c <= 'z')
               then ['\\', c] else [c]
  {
    assert EscapeAttributeValue([c]) == EscapeChar(c) + EscapeAttributeValue([c][1..]);
    assert EscapeChar(c) + "" == EscapeChar(c);
  }

  /** Values are escaped character by character. */
  lemma {:induction false} EscapeOfConcat(a: string, b: string)
    ensures EscapeAttributeValue(a + b) == EscapeAttributeValue(a) + EscapeAttributeValue(b)
  {
    if a == "" {
      assert a + b == b;
    } else {
      assert (a + b)[1..] == a[1..] + b;
      EscapeOfConcat(a[1..], b);
    }
  }

  /** One escaped character is read back, and reading goes on right behind it. */
  lemma ReadEscapedChar(c: char, rest: string, value: string)
    requires c != '\n'
    ensures ReadString(EscapeChar(c) + rest, '\'', value)
            == ReadString(rest, '\'', value + [c])
  {
    MetaFacts(c);
    hide IsMeta, HexDigit;
    if IsMeta(c) {
      var text := ['\\', c] + rest;
      assert text[0] == '\\' && text[1..] == [c] + rest;
      assert HexDigit(c).None?;
      assert EscapedCodePoint([c] + rest) == (c, 1);
      assert ([c] + rest)[1..] == rest;
    } else {
      assert ([c] + rest)[1..] == rest;
    }
  }

  lemma {:induction false} ReadEscaped(value: string, rest: string, before: string)
    requires '\n' !in value
    ensures ReadString(EscapeAttributeValue(value) + rest, '\'', before) == ReadString(rest, '\'', before + value)
    decreases |value|
  {
    hide ReadString, EscapeAttributeValue, EscapeChar;
    if value == "" {
      NothingToPreprocess();
      assert "" + rest == rest && before + value == before;
    } else {
      var c, more := value[0], value[1..];
      assert value == [c] + more && c in value && forall d :: d in more ==> d in value;
      EscapeFirst(c, more);
      assert EscapeChar(c) + EscapeAttributeValue(more) + rest == EscapeChar(c) + (EscapeAttributeValue(more) + rest);
      ReadEscapedChar(c, EscapeAttributeValue(more) + rest, before);
      ReadEscaped(more, rest, before + [c]);
      assert before + [c] + more == before + value;
    }
  }

  /** Escaping a value with newlines: reading stops as a bad string at the first of them. */
  lemma {:induction false} ReadUpToNewline(value: string, rest: string, before: string)
    requires '\n' in value
    ensures ReadString(EscapeAttributeValue(value) + rest, '\'', before).BadString?
    decreases |value|
  {
    var c := value[0];
    MetaFacts(c);
    hide IsMeta;
    var tail := EscapeAttributeValue(value[1..]) + rest;
    assert EscapeAttributeValue(value) + rest == EscapeChar(c) + tail;
    if c == '\n' {
      assert EscapeChar(c) == [c];
    } else {
      assert value == [c] + value[1..];
      ReadEscapedChar(c, tail, before);
      ReadUpToNewline(value[1..], rest, before + [c]);
    }
  }

  lemma EscapeFirst(c: char, more: string)
    ensures EscapeAttributeValue([c] + more)
            == EscapeChar(c) + EscapeAttributeValue(more)
  {
    assert ([c] + more)[1..] == more;
  }

  /** What preprocessing makes of a character other than a carriage return. */
  function PreprocessChar(c: char): char {
    if c == '\U{000C}' then '\n' else if c == '\0' then REPLACEMENT else c
  }

  lemma PreprocessFirst(c: char, more: string)
    ensures c != '\r' ==> Preprocess([c] + more) == [PreprocessChar(c)] + Preprocess(more)
    ensures c == '\r' ==> Preprocess([c] + more) == ['\n'] + Preprocess(DropNewline(more))
  {
    assert ([c] + more)[1..] == more;
  }

  lemma PreprocessEscapedChar(c: char, more: string)
    requires c != '\r'
    ensures Preprocess(EscapeChar(c) + more) == EscapeChar(PreprocessChar(c)) + Preprocess(more)
  {
    MetaFacts(c);
    hide IsMeta;
    PreprocessFirst(c, more);
    if IsMeta(c) {
      assert c != '\U{000C}' && c != '\0';
      assert EscapeChar(c) + more == ['\\'] + ([c] + more);
      PreprocessFirst('\\', [c] + more);
      assert ['\\'] + ([c] + Preprocess(more)) == EscapeChar(c) + Preprocess(more);
    } else {
      assert EscapeChar(PreprocessChar(c)) == [PreprocessChar(c)];
    }
  }

  lemma DropNewlineOfEscaped(value: string, rest: string)
    requires rest != "" && rest[0] == '\''
    ensures DropNewline(EscapeAttributeValue(value) + rest) == EscapeAttributeValue(DropNewline(value)) + rest
  {
    var text := EscapeAttributeValue(value) + rest;
    if value == "" {
      assert text == rest;
    } else {
      var c, tail := value[0], EscapeAttributeValue(value[1..]) + rest;
      assert text == EscapeChar(c) + tail;
      assert c == '\n' ==> text[1..] == tail;
    }
  }

  /** Escaping leaves line ends and NUL alone, so preprocessing sees them as it would in the bare value. */
  lemma {:induction false} PreprocessEscaped(value: string, rest: string)
    requires rest != "" && rest[0] == '\''
    ensures Preprocess(EscapeAttributeValue(value) + rest)
            == EscapeAttributeValue(Preprocess(value)) + Preprocess(rest)
    decreases |value|
  {
    hide Preprocess, EscapeAttributeValue, IsMeta;
    NothingToPreprocess();
    if value == "" {
      assert EscapeAttributeValue(value) + rest == rest;
    } else {
      var c, more := value[0], value[1..];
      assert value == [c] + more;
      EscapeFirst(c, more);
      PreprocessFirst(c, more);
      var tail := EscapeAttributeValue(more) + rest;
      assert EscapeAttributeValue(value) + rest == EscapeChar(c) + tail;
      if c == '\r' {
        MetaFacts(c);
        PreprocessFirst(c, tail);
        DropNewlineOfEscaped(more, rest);
        PreprocessEscaped(DropNewline(more), rest);
        EscapeFirst('\n', Preprocess(DropNewline(more)));
      } else {
        PreprocessEscapedChar(c, tail);
        PreprocessEscaped(more, rest);
        EscapeFirst(PreprocessChar(c), Preprocess(more));
      }
    }
  }

  lemma NothingToPreprocess()
    ensures Preprocess("") == "" && EscapeAttributeValue("") == ""
  {
  }

  /** Preprocessing changes a value, or shows a newline in it, exactly when it is not plain text. */
  lemma {:induction false} PlainTextIsKept(value: string)
    ensures IsPlainText(value) <==> Preprocess(value) == value && '\n' !in Preprocess(value)
    decreases |value|
  {
    if value == "" {
      NothingToPreprocess();
    } else {
      var c, more := value[0], value[1..];
      assert value == [c] + more;
      assert forall d :: d in value <==> d == c || d in more;
      PreprocessFirst(c, more);
      PlainTextIsKept(more);
      if c == '\r' || c == '\U{000C}' || c == '\n' {
        assert Preprocess(value)[0] == '\n' && c in value;
      } else if c == '\0' {
        assert Preprocess(value)[0] != value[0] && c in value;
      } else {
        assert Preprocess(value) == [c] + Preprocess(more);
        assert Preprocess(value)[1..] == Preprocess(more) && value[1..] == more;
        assert '\n' in Preprocess(value) <==> '\n' in Preprocess(more);
      }
    }
  }

  /** The token CSS reads from an escaped value between single quotes, followed by `rest`. */
  function ReadQuoted(value: string, rest: string): Token {
    ReadString(Preprocess(EscapeAttributeValue(value) + "'" + rest), '\'', "")
  }

  /** What is read is the preprocessed value, unless preprocessing shows a newline in it. */
  lemma ReadPreprocessed(value: string, rest: string)
    ensures '\n' in Preprocess(value) ==> ReadQuoted(value, rest).BadString?
    ensures '\n' !in Preprocess(value) ==> ReadQuoted(value, rest) == StringToken(Preprocess(value), Preprocess(rest))
  {
    var quoted := "'" + rest;
    assert EscapeAttributeValue(value) + "'" + rest == EscapeAttributeValue(value) + quoted;
    PreprocessEscaped(value, quoted);
    PreprocessFirst('\'', rest);
    var seen, tail := Preprocess(value), "'" + Preprocess(rest);
    assert Preprocess(quoted) == tail && tail[1..] == Preprocess(rest);
    if '\n' in seen {
      ReadUpToNewline(seen, tail, "");
    } else {
      ReadEscaped(seen, tail, "");
      assert "" + seen == seen;
    }
  }

  /**
   * The quoted, escaped value is read back as that value, up to exactly the closing quote,
   * exactly when it has no newline, carriage return, form feed or NUL.
   */
  lemma RoundTripExactlyForPlainText(value: string, rest: string)
    ensures ReadQuoted(value, rest) == StringToken(value, Preprocess(rest)) <==> IsPlainText(value)
  {
    ReadPreprocessed(value, rest);
    PlainTextIsKept(value);
  }

  lemma {:induction false} LineEndsShowAsNewlines(value: string)
    requires exists c :: c in value && (c == '\n' || c == '\r' || c == '\U{000C}')
    ensures '\n' in Preprocess(value)
    decreases |value|
  {
    var c, more := value[0], value[1..];
    assert value == [c] + more;
    PreprocessFirst(c, more);
    if c == '\r' || c == '\U{000C}' || c == '\n' {
      assert Preprocess(value)[0] == '\n';
    } else {
      LineEndsShowAsNewlines(more);
    }
  }

  /** Escaping never makes two values alike. */
  lemma {:induction false} EscapingIsInjective(a: string, b: string)
    requires EscapeAttributeValue(a) == EscapeAttributeValue(b)
    ensures a == b
    decreases |a|
  {
    if a == "" || b == "" {
      assert |EscapeAttributeValue(a)| == 0 <==> a == "";
      assert |EscapeAttributeValue(b)| == 0 <==> b == "";
    } else {
      var ea, eb := EscapeAttributeValue(a), EscapeAttributeValue(b);
      MetaFacts('\\');
      hide IsMeta;
      assert IsMeta(a[0]) <==> ea[0] == '\\';
      assert IsMeta(b[0]) <==> eb[0] == '\\';
      var n := if IsMeta(a[0]) then 2 else 1;
      assert ea[n - 1] == a[0] && eb[n - 1] == b[0];
      assert ea[n..] == EscapeAttributeValue(a[1..]) && eb[n..] == EscapeAttributeValue(b[1..]);
      EscapingIsInjective(a[1..], b[1..]);
      assert a == [a[0]] + a[1..] && b == [b[0]] + b[1..];
    }
  }
}
