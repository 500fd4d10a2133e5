/** Printing arguments for the shell and reading them back: xargs -n1 | sed | tr, then eval. */
module Requoting {
  import opened Options
  import opened ShellWords
  import opened XargsTokens

  /** xargs -n1 hands each argument to echo: one line per argument. */
  function EchoLines(tokens: seq<string>): string {
    if tokens == [] then "" else tokens[0] + "\n" + EchoLines(tokens[1..])
  }

  predicate IsAlphanumeric(c: char) {
    'a' <= c <= 'z' || 'A' <= c <= 'Z' || '0' <= c <= '9'
  }

  /** The characters sed leaves alone. */
  predicate IsSafe(c: char) {
    || IsAlphanumeric(c) || c == '-' || c == '+' || c == ',' || c == '.' || c == '/'
    || c == ':' || c == '=' || c == '@' || c == '_'
  }

  function SedChar(c: char): string {
    if c == '\n' || IsSafe(c) then [c] else ['\\', c]
  }

  /** sed puts a backslash before every other character of every line. */
  function Sed(text: string): string {
    if text == "" then "" else SedChar(text[0]) + Sed(text[1..])
  }

  function Tr(text: string): string {
    if text == "" then "" else [if text[0] == '\n' then ' ' else text[0]] + Tr(text[1..])
  }

  function Requote(tokens: seq<string>): string {
    Tr(Sed(EchoLines(tokens)))
  }

  /** The command line that eval reads. */
  function EvalText(tokens: seq<string>): string {
    "set -- " + Requote(tokens) + " " + "\"$@\""
  }

  lemma {:induction false} TrOfConcat(a: string, b: string)
    ensures Tr(a + b) == Tr(a) + Tr(b)
  {
    if a == "" {
      assert a + b == b;
    } else {
      assert (a + b)[1..] == a[1..] + b;
      TrOfConcat(a[1..], b);
    }
  }

  /** What one printed character becomes: a separator, itself, or a backslash pair. */
  lemma TrSedFirst(text: string)
    requires text != ""
    ensures var c := text[0];
            Tr(Sed(text)) == (if c == '\n' then " " else if IsSafe(c) then [c] else ['\\', c]) + Tr(Sed(text[1..]))
  {
    TrOfConcat(SedChar(text[0]), Sed(text[1..]));
    TrOfSedChar(text[0]);
    hide Tr, IsSafe, SedChar;
  }

  lemma TrOfSedChar(c: char)
    ensures Tr(SedChar(c)) == if c == '\n' then " " else if IsSafe(c) then [c] else ['\\', c]
  {
    hide IsSafe;
    TrOfChar(c);
    if c != '\n' && !IsSafe(c) {
      TrOfConcat(['\\'], [c]);
      TrOfChar('\\');
      assert ['\\'] + [c] == ['\\', c];
    }
  }

  lemma TrOfChar(c: char)
    ensures Tr([c]) == [if c == '\n' then ' ' else c]
  {
    assert [c][1..] == "";
    assert Tr([c]) == [if c == '\n' then ' ' else c] + Tr("");
  }

  /** The non-empty lines of a text that continues a line beginning with `line`. */
  function NonEmptyLines(text: string, line: string): (lines: seq<string>)
    ensures forall l :: l in lines ==> l != "" && ('\n' !in line ==> '\n' !in l)
    decreases |text|
  {
    if text == "" then
      if line == "" then [] else [line]
    else if text[0] == '\n' then
      NonEmptyLines("", line) + NonEmptyLines(text[1..], "")
    else NonEmptyLines(text[1..], line + [text[0]])
  }

  /** A word that has begun, unless nothing of it has been read. */
  function Begun(line: string): Option<string> {
    if line == "" then None else Some(line)
  }

  lemma ReadBlank(line: string, rest: string, params: seq<string>)
    ensures Read(" " + rest, Begun(line), Unquoted, params)
            == Prepend(NonEmptyLines("", line), Read(rest, None, Unquoted, params))
  {
    assert (" " + rest)[1..] == rest;
  }

  lemma ReadPrintedChar(c: char, line: string, rest: string, params: seq<string>)
    requires c != '\n'
    ensures var printed := if IsSafe(c) then [c] else ['\\', c];
            Read(printed + rest, Begun(line), Unquoted, params) == Read(rest, Begun(line + [c]), Unquoted, params)
  {
    if IsSafe(c) {
      assert ([c] + rest)[1..] == rest;
    } else {
      var t := ['\\', c] + rest;
      assert t[0] == '\\' && t[1..] == [c] + rest && t[1..][1..] == rest;
    }
  }

  /** Reading one printed argument gives its non-empty lines, each as a word in which every character is inert. */
  lemma {:induction false} ReadPrinted(token: string, line: string, rest: string, params: seq<string>)
    ensures Read(Tr(Sed(token + "\n")) + rest, Begun(line), Unquoted, params)
            == Prepend(NonEmptyLines(token, line), Read(rest, None, Unquoted, params))
    decreases |token|
  {
    var text := token + "\n";
    TrSedFirst(text);
    if token == "" {
      assert text[1..] == "";
      assert Tr(Sed(text)) + rest == " " + rest;
      ReadBlank(line, rest, params);
    } else {
      var c := token[0];
      assert text[1..] == token[1..] + "\n";
      var tail := Tr(Sed(token[1..] + "\n")) + rest;
      if c == '\n' {
        assert Tr(Sed(text)) + rest == " " + tail;
        ReadBlank(line, tail, params);
        ReadPrinted(token[1..], "", rest, params);
        PrependTwice(NonEmptyLines("", line), NonEmptyLines(token[1..], ""), Read(rest, None, Unquoted, params));
      } else {
        assert Tr(Sed(text)) + rest == (if IsSafe(c) then [c] else ['\\', c]) + tail;
        ReadPrintedChar(c, line, tail, params);
        ReadPrinted(token[1..], line + [c], rest, params);
      }
    }
  }

  lemma PrependTwice(a: seq<string>, b: seq<string>, r: Reading)
    ensures Prepend(a, Prepend(b, r)) == Prepend(a + b, r)
  {
    if r.Words? {
      assert a + (b + r.words) == a + b + r.words;
    }
  }

  /** The non-empty lines of every argument, in order. */
  function AllLines(tokens: seq<string>): seq<string> {
    if tokens == [] then [] else NonEmptyLines(tokens[0], "") + AllLines(tokens[1..])
  }

  lemma {:induction false} ReadRequoted(tokens: seq<string>, rest: string, params: seq<string>)
    ensures Read(Requote(tokens) + rest, None, Unquoted, params)
            == Prepend(AllLines(tokens), Read(rest, None, Unquoted, params))
  {
    if tokens == [] {
      assert Requote([]) + rest == rest;
    } else {
      var first, more := tokens[0] + "\n", EchoLines(tokens[1..]);
      SedOfConcat(first, more);
      TrOfConcat(Sed(first), Sed(more));
      assert Requote(tokens) + rest == Tr(Sed(first)) + (Requote(tokens[1..]) + rest);
      ReadPrinted(tokens[0], "", Requote(tokens[1..]) + rest, params);
      ReadRequoted(tokens[1..], rest, params);
      PrependTwice(NonEmptyLines(tokens[0], ""), AllLines(tokens[1..]), Read(rest, None, Unquoted, params));
    }
  }

  lemma {:induction false} SedOfConcat(a: string, b: string)
    ensures Sed(a + b) == Sed(a) + Sed(b)
  {
    if a == "" {
      assert a + b == b;
    } else {
      assert (a + b)[1..] == a[1..] + b;
      SedOfConcat(a[1..], b);
      assert SedChar(a[0]) + (Sed(a[1..]) + Sed(b)) == SedChar(a[0]) + Sed(a[1..]) + Sed(b);
    }
  }

  lemma ReadPositional(params: seq<string>)
    ensures Read(" " + "\"$@\"", None, Unquoted, params) == Words(params)
  {
    assert (" " + "\"$@\"")[1..] == "\"$@\"";
    AllPositionalIsParams(params);
  }

  lemma {:induction false} ReadPlain(name: string, line: string, rest: string, params: seq<string>)
    requires forall i :: 0 <= i < |name| ==> IsSafe(name[i])
    ensures Read(name + rest, Begun(line), Unquoted, params) == Read(rest, Begun(line + name), Unquoted, params)
    decreases |name|
  {
    if name == "" {
      assert name + rest == rest && line + name == line;
    } else {
      assert IsSafe(name[0]) && name[0] != '\n';
      ReadPrintedChar(name[0], line, name[1..] + rest, params);
      assert name + rest == [name[0]] + (name[1..] + rest);
      ReadPlain(name[1..], line + [name[0]], rest, params);
      assert line + [name[0]] + name[1..] == line + name;
    }
  }

  lemma ReadSetCommand(rest: string, params: seq<string>)
    ensures Read("set -- " + rest, None, Unquoted, params)
            == Prepend(["set", "--"], Read(rest, None, Unquoted, params))
  {
    var after := "-- " + rest;
    assert "set -- " + rest == "set" + (" " + after);
    ReadPlain("set", "", " " + after, params);
    assert "" + "set" == "set" && "" + "--" == "--";
    ReadBlank("set", after, params);
    assert after == "--" + (" " + rest);
    ReadPlain("--", "", " " + rest, params);
    ReadBlank("--", rest, params);
    PrependTwice(["set"], ["--"], Read(rest, None, Unquoted, params));
    assert ["set"] + ["--"] == ["set", "--"];
  }

  /** For all arguments: eval sets the parameters to the arguments' non-empty lines, then the old parameters. */
  lemma EvalSetsAllLines(tokens: seq<string>, params: seq<string>)
    ensures EvalSet(EvalText(tokens), params) == Some(AllLines(tokens) + params)
  {
    var tail := " " + "\"$@\"";
    assert EvalText(tokens) == "set -- " + (Requote(tokens) + tail);
    ReadSetCommand(Requote(tokens) + tail, params);
    ReadRequoted(tokens, tail, params);
    ReadPositional(params);
    var words := ["set", "--"] + (AllLines(tokens) + params);
    assert Read(EvalText(tokens), None, Unquoted, params) == Words(words);
    assert words[2..] == AllLines(tokens) + params;
  }

  predicate Printable(tokens: seq<string>) {
    forall t :: t in tokens ==> t != "" && '\n' !in t
  }

  lemma {:induction false} OneLine(text: string, line: string)
    requires '\n' !in text
    ensures NonEmptyLines(text, line) == if line + text == "" then [] else [line + text]
    decreases |text|
  {
    if text == "" {
      assert line + text == line;
    } else {
      assert text[0] in text && forall c :: c in text[1..] ==> c in text;
      OneLine(text[1..], line + [text[0]]);
      assert line + [text[0]] + text[1..] == line + text;
    }
  }

  /** A newline ends a line: the lines of two texts with a newline between are those of each. */
  lemma {:induction false} LinesOfTwo(a: string, b: string, line: string)
    ensures NonEmptyLines(a + "\n" + b, line) == NonEmptyLines(a, line) + NonEmptyLines(b, "")
    decreases |a|
  {
    var text := a + "\n" + b;
    if a == "" {
      assert text[1..] == b;
    } else {
      assert text[1..] == a[1..] + "\n" + b;
      LinesOfTwo(a[1..], b, if a[0] == '\n' then "" else line + [a[0]]);
    }
  }

  /** sed leaves alone letters, digits, the other characters its expression lists, and line ends; every other character gets a backslash. */
  lemma SedOnOneCharacter(c: char)
    ensures Sed([c]) == [c] <==> c == '\n' || c in "-+,./:=@_" || 'a' <= c <= 'z' || 'A' <= c <= 'Z' || '0' <= c <= '9'
    ensures Sed([c]) != [c] ==> Sed([c]) == ['\\', c]
  {
    assert Sed([c]) == SedChar(c) + Sed([c][1..]) == SedChar(c) + "";
    assert SedChar(c) + "" == SedChar(c);
  }

  lemma {:induction false} LinesOfPrintable(tokens: seq<string>)
    requires Printable(tokens)
    ensures AllLines(tokens) == tokens
  {
    if tokens != [] {
      OneLine(tokens[0], "");
      assert "" + tokens[0] == tokens[0];
      LinesOfPrintable(tokens[1..]);
    }
  }

  lemma {:induction false} AllLinesArePrintable(tokens: seq<string>)
    ensures Printable(AllLines(tokens))
  {
    if tokens != [] {
      AllLinesArePrintable(tokens[1..]);
    }
  }

  /** The arguments come back unchanged exactly when none is empty and none holds a newline. */
  lemma RoundTripExactlyWhenPrintable(tokens: seq<string>, params: seq<string>)
    ensures EvalSet(EvalText(tokens), params) == Some(tokens + params) <==> Printable(tokens)
  {
    EvalSetsAllLines(tokens, params);
    AllLinesArePrintable(tokens);
    SameSuffix(AllLines(tokens), tokens, params);
    if Printable(tokens) {
      LinesOfPrintable(tokens);
    }
  }

  lemma SameSuffix(a: seq<string>, b: seq<string>, suffix: seq<string>)
    ensures a + suffix == b + suffix ==> a == b
  {
    if a + suffix == b + suffix {
      assert |a| == |b|;
      assert a == (a + suffix)[..|a|] == b;
    }
  }

  /** The whole pipeline on an option string: print what xargs reads, and let eval set it before the parameters. */
  function PassOptions(options: string, params: seq<string>): Option<seq<string>> {
    EvalSet(EvalText(Tokenize(options + "\n").tokens), params)
  }

  /** Double-quoted options with no double quote or newline inside survive the whole pipeline. */
  lemma QuotedOptionsSurvive(xs: seq<string>, params: seq<string>)
    requires forall x :: x in xs ==> x != "" && Quotable('"', x)
    ensures PassOptions(QuotedList(xs), params) == Some(xs + params)
  {
    QuotedListRoundTrip(xs);
    FinalNewline(QuotedList(xs));
    RoundTripExactlyWhenPrintable(xs, params);
  }
}
