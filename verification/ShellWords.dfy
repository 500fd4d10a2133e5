/**
 * How the shell reads one simple command into words: token recognition and quoting by
 * sections 2.2 and 2.3 of the POSIX.1-2017 Shell Command Language. Any character that would
 * do something other than stand for itself makes the reading `Active`.
 */
module ShellWords {
  import opened Options

  datatype Quoting = Unquoted | InSingle | InDouble

  datatype Reading =
    | Words(words: seq<string>)
    | Active        // an operator, expansion, pattern, comment or line end would take effect
    | Unfinished    // the text ends inside quotes or right after a backslash

  /** Characters that section 2.2 asks to quote, beyond quoting characters and blanks; `=` matters only before the command name. */
  predicate IsActive(c: char) {
    || c == '|' || c == '&' || c == ';' || c == '<' || c == '>' || c == '(' || c == ')' || c == '$'
    || c == '`' || c == '*' || c == '?' || c == '[' || c == '#' || c == '~' || c == '%' || c == '\n'
  }

  predicate IsBlank(c: char) {
    c == ' ' || c == '\t'
  }

  function Prepend(before: seq<string>, r: Reading): Reading {
    if r.Words? then Words(before + r.words) else r
  }

  function EndWord(word: Option<string>): seq<string> {
    if word.Some? then [word.value] else []
  }

  function Extend(word: Option<string>, c: char): Option<string> {
    Some((if word.Some? then word.value else "") + [c])
  }

  /** A word that is exactly "$@", quotes included. */
  predicate IsAllPositional(text: string) {
    "\"$@\"" <= text && (|text| == 4 || IsBlank(text[4]))
  }

  /** The words of `text`, given the part of a word already read and the positional parameters. */
  function Read(text: string, word: Option<string>, quoting: Quoting, params: seq<string>): Reading
    decreases |text|
  {
    if text == "" then
      if quoting == Unquoted then Words(EndWord(word)) else Unfinished
    else
      var c, rest := text[0], text[1..];
      match quoting
      case Unquoted =>
        if IsBlank(c) then Prepend(EndWord(word), Read(rest, None, Unquoted, params))
        else if c == '\\' then
          if rest == "" then Unfinished
          else if rest[0] == '\n' then Read(rest[1..], word, Unquoted, params)
          else Read(rest[1..], Extend(word, rest[0]), Unquoted, params)
        else if c == '\'' then Read(rest, Some(if word.Some? then word.value else ""), InSingle, params)
        else if c == '"' then
          if word.None? && IsAllPositional(text) then Prepend(params, Read(text[4..], None, Unquoted, params))
          else Read(rest, Some(if word.Some? then word.value else ""), InDouble, params)
        else if IsActive(c) then Active
        else Read(rest, Extend(word, c), Unquoted, params)
      case InSingle =>
        if c == '\'' then Read(rest, word, Unquoted, params)
        else Read(rest, Extend(word, c), InSingle, params)
      case InDouble =>
        if c == '"' then Read(rest, word, Unquoted, params)
        else if c == '$' || c == '`' then Active
        else if c == '\\' && rest != "" && rest[0] == '\n' then Read(rest[1..], word, InDouble, params)
        else if c == '\\' && rest != "" && rest[0] in "$`\"\\" then Read(rest[1..], Extend(word, rest[0]), InDouble, params)
        else Read(rest, Extend(word, c), InDouble, params)
  }

  /** The positional parameters after evaluating `text`, when it is one plain `set --` command. */
  function EvalSet(text: string, params: seq<string>): Option<seq<string>> {
    var r := Read(text, None, Unquoted, params);
    if r.Words? && ["set", "--"] <= r.words then Some(r.words[2..]) else None
  }

  /** Unquoted, every character stands for itself but quoting characters, blanks and those section 2.2 lists. */
  lemma BareCharacter(c: char, params: seq<string>)
    ensures Read([c], None, Unquoted, params) == Words([[c]]) <==> c !in "|&;<>()$`\\\"' \t\n*?[#~%"
  {
    assert [c][1..] == "";
    assert "" + [c] == [c];
  }

  lemma {:induction false} ReadInsideSingle(x: string, word: string, rest: string, params: seq<string>)
    requires '\'' !in x
    ensures Read(x + rest, Some(word), InSingle, params) == Read(rest, Some(word + x), InSingle, params)
    decreases |x|
  {
    if x == "" {
      assert x + rest == rest && word + x == word;
    } else {
      assert x[0] in x && forall c :: c in x[1..] ==> c in x;
      assert (x + rest)[1..] == x[1..] + rest;
      ReadInsideSingle(x[1..], word + [x[0]], rest, params);
      assert word + [x[0]] + x[1..] == word + x;
    }
  }

  /** Between single quotes every character stands for itself. */
  lemma SingleQuotedIsLiteral(x: string, params: seq<string>)
    requires '\'' !in x
    ensures Read("'" + x + "'", None, Unquoted, params) == Words([x])
  {
    var text := "'" + (x + "'");
    assert "'" + x + "'" == text && text[1..] == x + "'";
    ReadInsideSingle(x, "", "'", params);
    assert "" + x == x && "'"[1..] == "";
  }

  lemma {:induction false} ReadInsideDouble(x: string, word: string, rest: string, params: seq<string>)
    requires forall c :: c in x ==> c !in "$`\"\\"
    ensures Read(x + rest, Some(word), InDouble, params) == Read(rest, Some(word + x), InDouble, params)
    decreases |x|
  {
    if x == "" {
      assert x + rest == rest && word + x == word;
    } else {
      assert x[0] in x && forall c :: c in x[1..] ==> c in x;
      assert (x + rest)[1..] == x[1..] + rest;
      assert x[0] != '$' && x[0] != '`' && x[0] != '"' && x[0] != '\\' by {
        assert "$`\"\\"[0] == '$' && "$`\"\\"[1] == '`' && "$`\"\\"[2] == '"' && "$`\"\\"[3] == '\\';
      }
      ReadInsideDouble(x[1..], word + [x[0]], rest, params);
      assert word + [x[0]] + x[1..] == word + x;
    }
  }

  /** Between double quotes every character but dollar, backquote, double quote and backslash stands for itself. */
  lemma DoubleQuotedIsLiteral(x: string, params: seq<string>)
    requires forall c :: c in x ==> c !in "$`\"\\"
    ensures Read("\"" + x + "\"", None, Unquoted, params) == Words([x])
  {
    var text := "\"" + (x + "\"");
    assert "\"" + x + "\"" == text && text[1..] == x + "\"";
    assert x != "" ==> x[0] in x;
    assert "$`\"\\"[0] == '$' && "\"$@\""[1] == '$';
    assert text[1] != '$';
    ReadInsideDouble(x, "", "\"", params);
    assert "" + x == x && "\""[1..] == "";
  }

  /** "$@" alone stands for the parameters, whatever they hold. */
  lemma AllPositionalIsParams(params: seq<string>)
    ensures Read("\"$@\"", None, Unquoted, params) == Words(params)
  {
    var text := "\"$@\"";
    assert IsAllPositional(text) && text[4..] == "";
    assert params + [] == params;
  }
}
