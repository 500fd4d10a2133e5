/** How xargs splits its input into arguments, by the quoting rules of the POSIX xargs utility. */
module XargsTokens {
  import opened Options

  datatype Mode = Plain | Escaped | InDouble | InSingle

  /** The arguments read so far and the one being read; or the failure on a quote left open at a newline. */
  datatype Scan =
    | Scan(tokens: seq<string>, word: Option<string>, mode: Mode)
    | Broken(tokens: seq<string>)

  const START := Scan([], None, Plain)

  function Text(word: Option<string>): string {
    if word.Some? then word.value else ""
  }

  function Step(s: Scan, c: char): Scan {
    match s
    case Broken(_) => s
    case Scan(tokens, word, Plain) =>
      if c == ' ' || c == '\t' || c == '\n' then
        if word.Some? then Scan(tokens + [word.value], None, Plain) else s
      else if c == '\\' then Scan(tokens, Some(Text(word)), Escaped)
      else if c == '"' then Scan(tokens, Some(Text(word)), InDouble)
      else if c == '\'' then Scan(tokens, Some(Text(word)), InSingle)
      else Scan(tokens, Some(Text(word) + [c]), Plain)
    case Scan(tokens, word, Escaped) => Scan(tokens, Some(Text(word) + [c]), Plain)
    case Scan(tokens, word, InDouble) =>
      if c == '\n' then Broken(tokens)
      else if c == '"' then Scan(tokens, word, Plain)
      else Scan(tokens, Some(Text(word) + [c]), InDouble)
    case Scan(tokens, word, InSingle) =>
      if c == '\n' then Broken(tokens)
      else if c == '\'' then Scan(tokens, word, Plain)
      else Scan(tokens, Some(Text(word) + [c]), InSingle)
  }

  function Run(s: Scan, text: string): Scan
    decreases |text|
  {
    if text == "" then s else Run(Step(s, text[0]), text[1..])
  }

  /** The arguments of the whole input; after an unmatched quote, those completed before it. */
  datatype Tokens = Tokens(tokens: seq<string>) | Unmatched(tokens: seq<string>)

  function Finish(s: Scan): Tokens {
    match s
    case Broken(tokens) => Unmatched(tokens)
    case Scan(tokens, word, mode) =>
      if mode == InDouble || mode == InSingle then Unmatched(tokens)
      else if word.Some? then Tokens(tokens + [word.value])
      else Tokens(tokens)
  }

  function Tokenize(text: string): Tokens {
    Finish(Run(START, text))
  }

  lemma {:induction false} RunOfConcat(s: Scan, a: string, b: string)
    ensures Run(s, a + b) == Run(Run(s, a), b)
    decreases |a|
  {
    if a == "" {
      assert a + b == b;
    } else {
      assert (a + b)[1..] == a[1..] + b;
      RunOfConcat(Step(s, a[0]), a[1..], b);
    }
  }

  lemma RunOfChar(s: Scan, c: char)
    ensures Run(s, [c]) == Step(s, c)
  {
    assert [c][1..] == "";
    assert Run(Step(s, c), "") == Step(s, c);
  }

  // ------------------------------------------------------------- joining option strings

  function After(before: seq<string>, s: Scan): Scan {
    match s
    case Broken(tokens) => Broken(before + tokens)
    case Scan(tokens, word, mode) => Scan(before + tokens, word, mode)
  }

  /** The arguments of a first input followed by those of a second. */
  function Join(a: Tokens, b: Tokens): Tokens {
    match a
    case Unmatched(_) => a
    case Tokens(first) =>
      match b
      case Tokens(second) => Tokens(first + second)
      case Unmatched(second) => Unmatched(first + second)
  }

  lemma StepAfter(before: seq<string>, s: Scan, c: char)
    ensures Step(After(before, s), c) == After(before, Step(s, c))
  {
    if s.Scan? && s.word.Some? {
      assert before + s.tokens + [s.word.value] == before + (s.tokens + [s.word.value]);
    }
  }

  lemma {:induction false} RunAfter(before: seq<string>, s: Scan, text: string)
    ensures Run(After(before, s), text) == After(before, Run(s, text))
    decreases |text|
  {
    if text != "" {
      StepAfter(before, s, text[0]);
      RunAfter(before, Step(s, text[0]), text[1..]);
    }
  }

  lemma {:induction false} BrokenStays(tokens: seq<string>, text: string)
    ensures Run(Broken(tokens), text) == Broken(tokens)
  {
    if text != "" {
      BrokenStays(tokens, text[1..]);
    }
  }

  /** The text ends inside quotes or right after a backslash that escapes nothing yet. */
  predicate OpenEnded(text: string) {
    var s := Run(START, text);
    s.Scan? && s.mode != Plain
  }

  predicate IsSeparator(c: char) {
    c == ' ' || c == '\t' || c == '\n'
  }

  /** Each separator ends an argument read so far and starts afresh. */
  lemma JoinWhenClosed(a: string, sep: char, b: string)
    requires !OpenEnded(a) && IsSeparator(sep)
    ensures Tokenize(a + [sep] + b) == Join(Tokenize(a), Tokenize(b))
    ensures OpenEnded(a + [sep] + b) <==> Run(START, a).Scan? && OpenEnded(b)
  {
    var s := Run(START, a);
    RunOfConcat(START, a + [sep], b);
    RunOfConcat(START, a, [sep]);
    RunOfChar(s, sep);
    if s.Broken? {
      BrokenStays(s.tokens, b);
    } else {
      var first := Tokenize(a).tokens;
      assert Step(s, sep) == After(first, START);
      RunAfter(first, START, b);
      var t := Run(START, b);
      if t.Scan? && t.word.Some? {
        assert first + t.tokens + [t.word.value] == first + (t.tokens + [t.word.value]);
      }
    }
  }

  /** Joining two option strings with a space joins their argument lists, whatever the second, exactly when the first is not open-ended. */
  lemma JoinIsFaithfulExactlyWhenClosed(a: string)
    ensures (forall b :: Tokenize(a + " " + b) == Join(Tokenize(a), Tokenize(b))) <==> !OpenEnded(a)
  {
    if !OpenEnded(a) {
      forall b ensures Tokenize(a + " " + b) == Join(Tokenize(a), Tokenize(b)) {
        JoinWhenClosed(a, ' ', b);
      }
    } else {
      var s := Run(START, a);
      RunOfConcat(START, a, " ");
      RunOfChar(s, ' ');
      var closing := if s.mode == InDouble then "\"" else if s.mode == InSingle then "'" else "";
      RunOfConcat(START, a + " ", closing);
      WordStartsWithMode(a);
      if s.mode == Escaped {
        assert a + " " + "" == a + " ";
        assert Tokenize("") == Tokens([]);
        assert Tokenize(a + " " + "").tokens[|s.tokens|] == s.word.value + " ";
        assert Tokenize(a).tokens[|s.tokens|] == s.word.value;
      } else {
        RunOfChar(Step(s, ' '), closing[0]);
        assert Tokenize(a + " " + closing).Tokens?;
      }
    }
  }

  lemma {:induction false} WordStartsWithMode(text: string)
    ensures var s := Run(START, text); s.Scan? && s.mode != Plain ==> s.word.Some?
    decreases |text|
  {
    if text != "" {
      var front, last := text[..|text| - 1], text[|text| - 1];
      assert text == front + [last];
      RunOfConcat(START, front, [last]);
      RunOfChar(Run(START, front), last);
      WordStartsWithMode(front);
    }
  }

  /** The newline that ends the input changes nothing unless the text is open-ended. */
  lemma FinalNewline(text: string)
    requires !OpenEnded(text)
    ensures Tokenize(text + "\n") == Tokenize(text)
    ensures !OpenEnded(text + "\n")
  {
    JoinWhenClosed(text, '\n', "");
    assert text + ['\n'] + "" == text + "\n";
    assert Tokenize("") == Tokens([]) && !OpenEnded("");
    if Tokenize(text).Tokens? {
      assert Tokenize(text).tokens + [] == Tokenize(text).tokens;
    }
  }

  // ------------------------------------------------------------ quotes and backslashes

  predicate IsQuote(q: char) {
    q == '"' || q == '\''
  }

  function ModeOf(q: char): Mode {
    if q == '"' then InDouble else InSingle
  }

  /** The text holds neither the quote nor a newline. */
  predicate Quotable(q: char, x: string) {
    q !in x && '\n' !in x
  }

  function Quoted(q: char, x: string): string {
    [q] + x + [q]
  }

  lemma {:induction false} RunInsideQuotes(q: char, tokens: seq<string>, word: string, x: string)
    requires IsQuote(q) && Quotable(q, x)
    ensures Run(Scan(tokens, Some(word), ModeOf(q)), x) == Scan(tokens, Some(word + x), ModeOf(q))
    decreases |x|
  {
    if x == "" {
      assert word + x == word;
    } else {
      assert x[0] in x && forall c :: c in x[1..] ==> c in x;
      RunInsideQuotes(q, tokens, word + [x[0]], x[1..]);
      assert word + [x[0]] + x[1..] == word + x;
    }
  }

  lemma RunQuoted(q: char, tokens: seq<string>, x: string)
    requires IsQuote(q) && Quotable(q, x)
    ensures Run(Scan(tokens, None, Plain), Quoted(q, x)) == Scan(tokens, Some(x), Plain)
  {
    var s := Scan(tokens, None, Plain);
    RunOfConcat(s, [q] + x, [q]);
    RunOfConcat(s, [q], x);
    RunOfChar(s, q);
    RunInsideQuotes(q, tokens, "", x);
    assert "" + x == x;
    RunOfChar(Scan(tokens, Some(x), ModeOf(q)), q);
  }

  /** Quoting preserves an argument exactly when it holds neither that quote nor a newline. */
  lemma QuotingIsFaithfulExactlyWhenQuotable(q: char, x: string)
    requires IsQuote(q)
    ensures Tokenize(Quoted(q, x)) == Tokens([x]) <==> Quotable(q, x)
  {
    if Quotable(q, x) {
      RunQuoted(q, [], x);
    } else {
      var n := FirstUnquotable(q, x);
      assert x == x[..n] + [x[n]] + x[n + 1..];
      BadCharacterIsNotKept(q, x[..n], x[n], x[n + 1..]);
    }
  }

  /** The state after an opening quote, quotable text and one more character. */
  lemma RunUpToBad(q: char, good: string, bad: char, rest: string)
    requires IsQuote(q) && Quotable(q, good)
    ensures Run(START, Quoted(q, good + [bad] + rest))
            == Run(Step(Scan([], Some(good), ModeOf(q)), bad), rest + [q])
  {
    hide Step, Quotable;
    assert Quoted(q, good + [bad] + rest) == [q] + (good + ([bad] + (rest + [q])));
    RunOfConcat(START, [q], good + ([bad] + (rest + [q])));
    RunOfChar(START, q);
    OpeningQuote(q);
    RunOfConcat(Scan([], Some(""), ModeOf(q)), good, [bad] + (rest + [q]));
    RunInsideQuotes(q, [], "", good);
    assert "" + good == good;
    RunOfConcat(Scan([], Some(good), ModeOf(q)), [bad], rest + [q]);
    RunOfChar(Scan([], Some(good), ModeOf(q)), bad);
  }

  lemma OpeningQuote(q: char)
    requires IsQuote(q)
    ensures Step(START, q) == Scan([], Some(""), ModeOf(q))
  {
  }

  lemma BadCharacterIsNotKept(q: char, good: string, bad: char, rest: string)
    requires IsQuote(q) && Quotable(q, good) && (bad == q || bad == '\n')
    ensures Tokenize(Quoted(q, good + [bad] + rest)) != Tokens([good + [bad] + rest])
  {
    RunUpToBad(q, good, bad, rest);
    if bad == '\n' {
      BrokenStays([], rest + [q]);
    } else {
      ClosingQuoteIsNeverKept(q, Scan([], Some(good), Plain), rest);
    }
  }

  lemma FirstUnquotable(q: char, x: string) returns (n: nat)
    requires !Quotable(q, x)
    ensures n < |x| && Quotable(q, x[..n]) && (x[n] == q || x[n] == '\n')
  {
    n := 0;
    while x[n] != q && x[n] != '\n'
      invariant n < |x| && Quotable(q, x[..n])
      invariant q in x[n..] || '\n' in x[n..]
      decreases |x| - n
    {
      assert x[n..] == [x[n]] + x[n + 1..];
      n := n + 1;
      assert x[..n] == x[..n - 1] + [x[n - 1]];
    }
  }

  /** The characters kept so far. */
  function Kept(s: Scan): nat {
    Total(s.tokens) + if s.Scan? then |Text(s.word)| else 0
  }

  function Total(tokens: seq<string>): nat {
    if tokens == [] then 0 else Total(tokens[..|tokens| - 1]) + |tokens[|tokens| - 1]|
  }

  /** Every character adds at most one, and an opening quote or a backslash adds none. */
  lemma {:induction false} RunKeepsAtMost(s: Scan, text: string)
    requires s.Scan? && s.mode == Plain
    ensures var t := Run(s, text);
            Kept(t) + (if t.Scan? && t.mode != Plain then 1 else 0) <= Kept(s) + |text|
    decreases |text|
  {
    if text != "" {
      var front, last := text[..|text| - 1], text[|text| - 1];
      assert text == front + [last];
      RunOfConcat(s, front, [last]);
      var t := Run(s, front);
      RunOfChar(t, last);
      RunKeepsAtMost(s, front);
      if t.Scan? && t.word.Some? {
        assert (t.tokens + [t.word.value])[..|t.tokens|] == t.tokens;
      }
    }
  }

  lemma ClosingQuoteIsNeverKept(q: char, s: Scan, text: string)
    requires IsQuote(q) && s.Scan? && s.mode == Plain && s.tokens == []
    ensures Finish(Run(s, text + [q])) != Tokens([Text(s.word) + [q] + text])
  {
    RunOfConcat(s, text, [q]);
    var t := Run(s, text);
    RunOfChar(t, q);
    RunKeepsAtMost(s, text);
    var u := Step(t, q);
    var expected := [Text(s.word) + [q] + text];
    assert Total(expected) == Total(expected[..0]) + |expected[0]|;
    assert Kept(s) == |Text(s.word)|;
    FinishKeeps(u);
  }

  lemma FinishKeeps(s: Scan)
    ensures Finish(s).Tokens? ==> Total(Finish(s).tokens) == Kept(s)
  {
    if s.Scan? && s.word.Some? {
      assert (s.tokens + [s.word.value])[..|s.tokens|] == s.tokens;
    }
  }

  /** A backslash before every character preserves any non-empty argument, newlines included. */
  function Backslashed(x: string): string {
    if x == "" then "" else ['\\', x[0]] + Backslashed(x[1..])
  }

  lemma {:induction false} RunBackslashed(tokens: seq<string>, word: Option<string>, x: string)
    ensures Run(Scan(tokens, word, Plain), Backslashed(x))
            == Scan(tokens, if x == "" then word else Some(Text(word) + x), Plain)
    decreases |x|
  {
    if x != "" {
      var s := Scan(tokens, word, Plain);
      var next := Scan(tokens, Some(Text(word) + [x[0]]), Plain);
      RunOfConcat(s, ['\\', x[0]], Backslashed(x[1..]));
      assert ['\\', x[0]] == ['\\'] + [x[0]];
      RunOfConcat(s, ['\\'], [x[0]]);
      RunOfChar(s, '\\');
      RunOfChar(Step(s, '\\'), x[0]);
      RunBackslashed(tokens, next.word, x[1..]);
      assert Text(word) + [x[0]] + x[1..] == Text(word) + x;
      if x[1..] == "" {
        assert x == [x[0]];
      }
    }
  }

  lemma BackslashesAreFaithful(x: string)
    requires x != ""
    ensures Tokenize(Backslashed(x)) == Tokens([x])
  {
    RunBackslashed([], None, x);
    assert "" + x == x;
  }

  lemma QuotedAlone(q: char, x: string)
    requires IsQuote(q) && Quotable(q, x)
    ensures Tokenize(Quoted(q, x)) == Tokens([x]) && !OpenEnded(Quoted(q, x))
  {
    RunQuoted(q, [], x);
  }

  /** Double-quoted arguments separated by single spaces. */
  function QuotedList(xs: seq<string>): string {
    if xs == [] then "" else if |xs| == 1 then Quoted('"', xs[0]) else Quoted('"', xs[0]) + " " + QuotedList(xs[1..])
  }

  lemma {:induction false} QuotedListRoundTrip(xs: seq<string>)
    requires forall x :: x in xs ==> Quotable('"', x)
    ensures Tokenize(QuotedList(xs)) == Tokens(xs)
    ensures !OpenEnded(QuotedList(xs))
  {
    if xs != [] {
      QuotedAlone('"', xs[0]);
      if |xs| == 1 {
        assert xs == [xs[0]];
      } else {
        hide Quoted, OpenEnded, Tokenize;
        QuotedListRoundTrip(xs[1..]);
        JoinWhenClosed(Quoted('"', xs[0]), ' ', QuotedList(xs[1..]));
      }
    }
  }

  // ------------------------------------------------------------ every text, piece by piece

  /** A stretch of an argument as it is written. */
  datatype Piece = Bare(text: string) | InQuotes(q: char, text: string) | Backslash(c: char)

  predicate IsPiece(p: Piece) {
    match p
    case Bare(text) => text != "" && forall c :: c in text ==> !IsSeparator(c) && !IsQuote(c) && c != '\\'
    case InQuotes(q, text) => IsQuote(q) && Quotable(q, text)
    case Backslash(_) => true
  }

  function Written(p: Piece): string {
    match p
    case Bare(text) => text
    case InQuotes(q, text) => [q] + text + [q]
    case Backslash(c) => ['\\', c]
  }

  function Meant(p: Piece): string {
    match p
    case Bare(text) => text
    case InQuotes(_, text) => text
    case Backslash(c) => [c]
  }

  predicate IsArgument(pieces: seq<Piece>) {
    pieces != [] && forall p :: p in pieces ==> IsPiece(p)
  }

  function WrittenArgument(pieces: seq<Piece>): string {
    if pieces == [] then "" else WrittenArgument(pieces[..|pieces| - 1]) + Written(pieces[|pieces| - 1])
  }

  function MeantArgument(pieces: seq<Piece>): string {
    if pieces == [] then "" else MeantArgument(pieces[..|pieces| - 1]) + Meant(pieces[|pieces| - 1])
  }

  /** An argument and the separators before it. */
  datatype Spaced = Spaced(gap: string, argument: seq<Piece>)

  predicate IsGap(text: string) {
    forall c :: c in text ==> IsSeparator(c)
  }

  /** Arguments with separators before, at least one between two of them. */
  predicate AreArguments(items: seq<Spaced>) {
    forall i :: 0 <= i < |items| ==>
      IsGap(items[i].gap) && IsArgument(items[i].argument) && (i > 0 ==> items[i].gap != "")
  }

  function WrittenList(items: seq<Spaced>): string {
    if items == [] then ""
    else
      var last := items[|items| - 1];
      WrittenList(items[..|items| - 1]) + last.gap + WrittenArgument(last.argument)
  }

  function Values(items: seq<Spaced>): (values: seq<string>)
    ensures |values| == |items|
  {
    seq(|items|, i requires 0 <= i < |items| => MeantArgument(items[i].argument))
  }

  /** The arguments that are complete when the text goes on after the last gap; without one, the last argument may go on. */
  function Completed(items: seq<Spaced>, end: string): seq<Spaced> {
    if items != [] && end == "" then items[..|items| - 1] else items
  }

  function LastValue(items: seq<Spaced>, end: string): Option<string> {
    if items != [] && end == "" then Some(MeantArgument(items[|items| - 1].argument)) else None
  }

  lemma {:induction false} RunBare(tokens: seq<string>, word: Option<string>, text: string)
    requires forall c :: c in text ==> !IsSeparator(c) && !IsQuote(c) && c != '\\'
    ensures Run(Scan(tokens, word, Plain), text)
            == Scan(tokens, if text == "" then word else Some(Text(word) + text), Plain)
    decreases |text|
  {
    if text != "" {
      assert text[0] in text && forall c :: c in text[1..] ==> c in text;
      RunBare(tokens, Some(Text(word) + [text[0]]), text[1..]);
      assert Text(word) + [text[0]] + text[1..] == Text(word) + text;
      if text[1..] == "" {
        assert text == [text[0]];
      }
    }
  }

  lemma RunPiece(tokens: seq<string>, word: Option<string>, p: Piece)
    requires IsPiece(p)
    ensures Run(Scan(tokens, word, Plain), Written(p)) == Scan(tokens, Some(Text(word) + Meant(p)), Plain)
  {
    var s := Scan(tokens, word, Plain);
    match p
    case Bare(text) => RunBare(tokens, word, text);
    case Backslash(c) =>
      RunOfConcat(s, ['\\'], [c]);
      assert ['\\'] + [c] == ['\\', c];
      RunOfChar(s, '\\');
      RunOfChar(Scan(tokens, Some(Text(word)), Escaped), c);
    case InQuotes(q, text) =>
      RunOpened(tokens, word, q, text);
      RunOfConcat(s, [q] + text, [q]);
      RunOfChar(Scan(tokens, Some(Text(word) + text), ModeOf(q)), q);
  }

  lemma RunOpened(tokens: seq<string>, word: Option<string>, q: char, text: string)
    requires IsQuote(q) && Quotable(q, text)
    ensures Run(Scan(tokens, word, Plain), [q] + text) == Scan(tokens, Some(Text(word) + text), ModeOf(q))
  {
    var s := Scan(tokens, word, Plain);
    RunOfConcat(s, [q], text);
    RunOfChar(s, q);
    RunInsideQuotes(q, tokens, Text(word), text);
  }

  lemma {:induction false} RunArgument(tokens: seq<string>, pieces: seq<Piece>)
    requires forall p :: p in pieces ==> IsPiece(p)
    ensures Run(Scan(tokens, None, Plain), WrittenArgument(pieces))
            == Scan(tokens, if pieces == [] then None else Some(MeantArgument(pieces)), Plain)
  {
    if pieces != [] {
      hide IsPiece, Written, Meant;
      var s, front, last := Scan(tokens, None, Plain), pieces[..|pieces| - 1], pieces[|pieces| - 1];
      RunArgument(tokens, front);
      RunOfConcat(s, WrittenArgument(front), Written(last));
      RunPiece(tokens, if front == [] then None else Some(MeantArgument(front)), last);
    }
  }

  lemma {:induction false} RunGap(tokens: seq<string>, word: Option<string>, gap: string)
    requires IsGap(gap)
    ensures Run(Scan(tokens, word, Plain), gap)
            == if gap != "" && word.Some? then Scan(tokens + [word.value], None, Plain) else Scan(tokens, word, Plain)
    decreases |gap|
  {
    if gap != "" {
      assert gap[0] in gap && forall c :: c in gap[1..] ==> c in gap;
      RunGap(if word.Some? then tokens + [word.value] else tokens, None, gap[1..]);
    }
  }

  /** The state after a list of arguments and a gap. */
  lemma {:induction false} RunList(items: seq<Spaced>, end: string)
    requires AreArguments(items) && IsGap(end)
    ensures Run(START, WrittenList(items) + end) == Scan(Values(Completed(items, end)), LastValue(items, end), Plain)
    decreases |items|
  {
    hide IsGap, IsArgument, MeantArgument, WrittenArgument;
    if items == [] {
      assert WrittenList(items) + end == end;
      RunGap([], None, end);
    } else {
      var front, last := items[..|items| - 1], items[|items| - 1];
      RunList(front, last.gap);
      ValuesOfFront(front, last);
      assert items == front + [last];
      var text := WrittenList(front) + last.gap;
      RunOfConcat(START, text, WrittenArgument(last.argument));
      assert Completed(front, last.gap) == front && LastValue(front, last.gap) == None;
      RunArgumentOf(Values(front), last.argument);
      RunOfConcat(START, WrittenList(items), end);
      RunGap(Values(front), Some(MeantArgument(last.argument)), end);
    }
  }

  lemma RunArgumentOf(tokens: seq<string>, pieces: seq<Piece>)
    requires IsArgument(pieces)
    ensures Run(Scan(tokens, None, Plain), WrittenArgument(pieces)) == Scan(tokens, Some(MeantArgument(pieces)), Plain)
  {
    RunArgument(tokens, pieces);
  }

  lemma ValuesOfFront(front: seq<Spaced>, last: Spaced)
    ensures Values(front + [last]) == Values(front) + [MeantArgument(last.argument)]
  {
  }

  lemma ValuesCompleted(items: seq<Spaced>, end: string)
    ensures Values(items) == Values(Completed(items, end))
                             + if LastValue(items, end).Some? then [LastValue(items, end).value] else []
  {
    if items != [] && end == "" {
      var front, last := items[..|items| - 1], items[|items| - 1];
      assert items == front + [last];
      ValuesOfFront(front, last);
    }
  }

  /** Arguments made of bare, quoted and backslashed pieces, between any separators, are read as what their pieces mean. */
  lemma WrittenListIsRead(items: seq<Spaced>, end: string)
    requires AreArguments(items) && IsGap(end)
    ensures Tokenize(WrittenList(items) + end) == Tokens(Values(items)) && !OpenEnded(WrittenList(items) + end)
  {
    hide AreArguments, WrittenList, IsGap, MeantArgument;
    RunList(items, end);
    ValuesCompleted(items, end);
    hide Values, Completed, LastValue;
  }

  /** Text that opens a quote and does not close it, or not on the same line. */
  predicate OpensQuote(rest: string, q: char, n: nat) {
    && 1 <= n <= |rest| && IsQuote(q) && rest[0] == q && Quotable(q, rest[1..n])
    && (n < |rest| ==> rest[n] == '\n')
  }

  /** After an unmatched quote just the arguments completed before it are left. */
  lemma UnmatchedIsRead(items: seq<Spaced>, end: string, rest: string, q: char, n: nat)
    requires AreArguments(items) && IsGap(end) && OpensQuote(rest, q, n)
    ensures Tokenize(WrittenList(items) + end + rest) == Unmatched(Values(Completed(items, end)))
  {
    hide AreArguments, WrittenList, IsGap, Completed, LastValue, Values;
    RunList(items, end);
    RunOfConcat(START, WrittenList(items) + end, rest);
    var tokens, word, text := Values(Completed(items, end)), LastValue(items, end), rest[1..n];
    var s := Scan(tokens, word, Plain);
    RunOpened(tokens, word, q, text);
    assert rest[..n] == [q] + text;
    if n < |rest| {
      assert rest == rest[..n] + ([rest[n]] + rest[n + 1..]);
      RunOfConcat(s, rest[..n], [rest[n]] + rest[n + 1..]);
      var t := Scan(tokens, Some(Text(word) + text), ModeOf(q));
      RunOfConcat(t, [rest[n]], rest[n + 1..]);
      RunOfChar(t, rest[n]);
      BrokenStays(tokens, rest[n + 1..]);
    } else {
      assert rest == rest[..n];
    }
  }

  /** A backslash at the very end is dropped, but it is enough to begin an argument. */
  lemma FinalBackslashIsRead(items: seq<Spaced>, end: string)
    requires AreArguments(items) && IsGap(end)
    ensures var text := WrittenList(items) + end + "\\";
            OpenEnded(text) && Tokenize(text) == Tokens(if Completed(items, end) == items then Values(items) + [""] else Values(items))
  {
    hide AreArguments, WrittenList, IsGap, MeantArgument;
    RunList(items, end);
    ValuesCompleted(items, end);
    RunOfConcat(START, WrittenList(items) + end, "\\");
    RunOfChar(Scan(Values(Completed(items, end)), LastValue(items, end), Plain), '\\');
    assert LastValue(items, end).None? <==> Completed(items, end) == items;
    hide Values, Completed, LastValue;
  }

  /** One more piece: of the last argument or, after a gap, of a new one. */
  function Added(items: seq<Spaced>, end: string, p: Piece): seq<Spaced> {
    if items != [] && end == "" then
      var last := items[|items| - 1];
      items[..|items| - 1] + [Spaced(last.gap, last.argument + [p])]
    else items + [Spaced(end, [p])]
  }

  lemma AddedArePieces(items: seq<Spaced>, end: string, p: Piece)
    requires AreArguments(items) && IsGap(end) && IsPiece(p)
    ensures AreArguments(Added(items, end, p))
  {
    hide IsPiece, IsGap;
  }

  lemma WrittenOfFront(front: seq<Spaced>, last: Spaced)
    ensures WrittenList(front + [last]) == WrittenList(front) + last.gap + WrittenArgument(last.argument)
  {
    assert (front + [last])[..|front|] == front;
  }

  lemma WrittenArgumentOfFront(front: seq<Piece>, last: Piece)
    ensures WrittenArgument(front + [last]) == WrittenArgument(front) + Written(last)
  {
    assert (front + [last])[..|front|] == front;
  }

  lemma Regroup(a: string, b: string, c: string)
    ensures a + (b + c) == a + b + c
  {
  }

  lemma WrittenWithOneMore(items: seq<Spaced>, end: string, p: Piece)
    ensures WrittenList(Added(items, end, p)) == WrittenList(items) + end + Written(p)
  {
    hide WrittenList, WrittenArgument, Written;
    if items != [] && end == "" {
      var front, last := items[..|items| - 1], items[|items| - 1];
      assert items == front + [last];
      WrittenOfFront(front, last);
      WrittenOfFront(front, Spaced(last.gap, last.argument + [p]));
      WrittenArgumentOfFront(last.argument, p);
      Regroup(WrittenList(front) + last.gap, WrittenArgument(last.argument), Written(p));
      assert WrittenList(items) + end == WrittenList(items);
    } else {
      WrittenOfFront(items, Spaced(end, [p]));
      WrittenLonePiece(p);
    }
  }

  lemma WrittenLonePiece(p: Piece)
    ensures WrittenArgument([p]) == Written(p)
  {
    WrittenArgumentOfFront([], p);
    assert [] + [p] == [p] && WrittenArgument([]) + Written(p) == Written(p);
  }

  /** What can be left over at the end of a text: nothing, a backslash, or an unmatched quote. */
  ghost predicate IsLeftOver(rest: string) {
    rest == "" || rest == "\\" || exists q, n: nat :: OpensQuote(rest, q, n)
  }

  /** Every text is a list of arguments between separators, and what is left over. */
  lemma {:induction false} EveryTextIsWritten(text: string) returns (items: seq<Spaced>, end: string, rest: string)
    ensures AreArguments(items) && IsGap(end) && IsLeftOver(rest)
    ensures text == WrittenList(items) + end + rest
    decreases |text|
  {
    if text == "" {
      items, end, rest := [], "", "";
    } else {
      var front, c := text[..|text| - 1], text[|text| - 1];
      items, end, rest := EveryTextIsWritten(front);
      hide *;
      Regroup(WrittenList(items) + end, rest, [c]);
      assert text == front + [c];
      items, end, rest := ReadOneMore(items, end, rest, c);
    }
  }

  lemma ReadOneMore(items: seq<Spaced>, end: string, rest: string, c: char)
    returns (items': seq<Spaced>, end': string, rest': string)
    requires AreArguments(items) && IsGap(end) && IsLeftOver(rest)
    ensures AreArguments(items') && IsGap(end') && IsLeftOver(rest')
    ensures WrittenList(items') + end' + rest' == WrittenList(items) + end + (rest + [c])
  {
    hide AreArguments, WrittenList, OpensQuote, Quotable;
    items', end', rest' := items, end, rest + [c];
    if rest == "" && IsSeparator(c) {
      end', rest' := end + [c], "";
    } else if rest == "" && IsQuote(c) {
      QuoteOpened(c);
    } else if rest == "" && c != '\\' {
      items', end', rest' := AddPiece(items, end, Bare([c]));
    } else if rest == "\\" {
      items', end', rest' := AddPiece(items, end, Backslash(c));
    } else if rest != "" {
      var q, n: nat :| OpensQuote(rest, q, n);
      if n == |rest| && c == q {
        QuoteClosed(rest, q);
        items', end', rest' := AddPiece(items, end, InQuotes(q, rest[1..]));
      } else {
        QuoteGoesOn(rest, q, n, c);
      }
    }
  }

  lemma AddPiece(items: seq<Spaced>, end: string, p: Piece)
    returns (items': seq<Spaced>, end': string, rest': string)
    requires AreArguments(items) && IsGap(end) && IsPiece(p)
    ensures AreArguments(items') && end' == rest' == ""
    ensures WrittenList(items') + end' + rest' == WrittenList(items) + end + Written(p)
  {
    hide *;
    items', end', rest' := Added(items, end, p), "", "";
    AddedArePieces(items, end, p);
    WrittenWithOneMore(items, end, p);
  }

  lemma QuoteOpened(q: char)
    requires IsQuote(q)
    ensures OpensQuote([q], q, 1) && "" + [q] == [q]
  {
  }

  lemma QuoteClosed(rest: string, q: char)
    requires OpensQuote(rest, q, |rest|)
    ensures IsPiece(InQuotes(q, rest[1..])) && Written(InQuotes(q, rest[1..])) == rest + [q]
  {
    assert rest == [q] + rest[1..];
  }

  lemma QuoteGoesOn(rest: string, q: char, n: nat, c: char)
    requires OpensQuote(rest, q, n) && !(n == |rest| && c == q)
    ensures OpensQuote(rest + [c], q, if n == |rest| && c != '\n' then n + 1 else n)
  {
    var more := rest + [c];
    if n == |rest| && c != '\n' {
      assert more[1..n + 1] == rest[1..n] + [c];
    } else {
      assert more[1..n] == rest[1..n];
    }
  }

  /** A list of arguments in which just these values are written, whatever the pieces and separators. */
  ghost predicate Writes(text: string, values: seq<string>) {
    exists items, end :: AreArguments(items) && IsGap(end) && text == WrittenList(items) + end && values == Values(items)
  }

  /** The arguments of a text that is not open-ended are exactly those its pieces spell; an open-ended or unmatched text spells none. */
  lemma TokenizeExactly(text: string, values: seq<string>)
    ensures Tokenize(text) == Tokens(values) && !OpenEnded(text) <==> Writes(text, values)
  {
    hide AreArguments, WrittenList, IsGap, Completed, Values, OpenEnded, Tokenize;
    forall items, end | AreArguments(items) && IsGap(end) && text == WrittenList(items) + end && values == Values(items)
      ensures Tokenize(text) == Tokens(values) && !OpenEnded(text)
    {
      WrittenListIsRead(items, end);
    }
    if Tokenize(text) == Tokens(values) && !OpenEnded(text) {
      var items, end, rest := EveryTextIsWritten(text);
      if rest == "" {
        assert text == WrittenList(items) + end;
        WrittenListIsRead(items, end);
      } else if rest == "\\" {
        FinalBackslashIsRead(items, end);
      } else {
        var q, n: nat :| OpensQuote(rest, q, n);
        UnmatchedIsRead(items, end, rest, q, n);
      }
    }
  }
}
