/** Building the java command line: rotating the parameters, then stacking arguments in front of them. */
module StartScript {
  import opened Options
  import opened Requoting
  import opened XargsTokens

  /** What the script asks of its surroundings. */
  datatype Host = Host(windows: bool, isPresent: string -> bool, cygpath: string -> string)

  /** The text before the first slash. */
  function FirstSegment(text: string): (segment: string)
    ensures segment <= text && '/' !in segment
    ensures segment == text || text[|segment|] == '/'
  {
    if text == "" || text[0] == '/' then "" else [text[0]] + FirstSegment(text[1..])
  }

  /** A non-option that starts with a slash and whose first path segment is present. */
  predicate LooksLikePath(host: Host, arg: string) {
    !("-" <= arg) && |arg| >= 2 && arg[0] == '/' && host.isPresent("/" + FirstSegment(arg[1..]))
  }

  function Convert(host: Host, arg: string): string {
    if LooksLikePath(host, arg) then host.cygpath(arg) else arg
  }

  function Converted(host: Host, args: seq<string>): (r: seq<string>)
    ensures |r| == |args|
    ensures forall i :: 0 <= i < |args| ==> r[i] == Convert(host, args[i])
  {
    seq(|args|, i requires 0 <= i < |args| => Convert(host, args[i]))
  }

  /** An absolute path other than the root, split behind its first segment. */
  predicate IsSplitPath(arg: string, segment: string, rest: string) {
    && arg == "/" + segment + rest && arg != "/"
    && '/' !in segment && (rest == "" || rest[0] == '/')
  }

  lemma FirstSegmentIsUnique(arg: string, segment: string, rest: string)
    requires IsSplitPath(arg, segment, rest)
    ensures FirstSegment(arg[1..]) == segment
  {
    var text := arg[1..];
    var found := FirstSegment(text);
    assert text == segment + rest;
    assert forall j :: 0 <= j < |segment| ==> text[j] in segment;
    assert forall j :: 0 <= j < |found| ==> text[j] in found;
    assert rest != "" ==> text[|segment|] == '/';
    assert |found| == |segment|;
    assert found == text[..|segment|] == segment;
  }

  /** An argument is converted exactly when it is an absolute path other than the root whose first segment is present. */
  lemma PathsAreRecognisedExactly(host: Host, arg: string)
    ensures LooksLikePath(host, arg) <==>
            exists segment, rest :: IsSplitPath(arg, segment, rest) && host.isPresent("/" + segment)
  {
    if LooksLikePath(host, arg) {
      var segment := FirstSegment(arg[1..]);
      var rest := arg[1..][|segment|..];
      assert arg == ['/'] + arg[1..] && arg[1..] == segment + rest;
      assert IsSplitPath(arg, segment, rest);
    }
    forall segment, rest | IsSplitPath(arg, segment, rest) && host.isPresent("/" + segment)
      ensures LooksLikePath(host, arg)
    {
      FirstSegmentIsUnique(arg, segment, rest);
      assert arg[0] == '/';
    }
  }

  lemma ConvertCases(host: Host, arg: string)
    ensures Convert(host, arg) == if LooksLikePath(host, arg) then host.cygpath(arg) else arg
  {
  }

  lemma RotateNothing(host: Host, args: seq<string>)
    ensures args == args[0..] + Converted(host, args[..0])
  {
  }

  lemma RotateOnce(host: Host, args: seq<string>, i: nat)
    requires i < |args|
    ensures (args[i..] + Converted(host, args[..i]))[1..] + [Convert(host, args[i])]
            == args[i + 1..] + Converted(host, args[..i + 1])
  {
    assert args[i..][1..] == args[i + 1..];
    assert Converted(host, args[..i + 1]) == Converted(host, args[..i]) + [Convert(host, args[i])];
  }

  const DEFAULT_JVM_OPTS := "\"-Xmx64m\" \"-Xms64m\""

  function StandardArguments(appName: string, classpath: string): seq<string> {
    ["-Dorg.gradle.appname=" + appName, "-classpath", classpath, "org.gradle.wrapper.GradleWrapperMain"]
  }

  /** The option strings as the script joins them for printf. */
  function AllOptions(javaOpts: string, gradleOpts: string): string {
    DEFAULT_JVM_OPTS + " " + javaOpts + " " + gradleOpts
  }

  /** The shell's positional parameters. */
  class Parameters {
    var params: seq<string>

    constructor (args: seq<string>)
      ensures params == args
    {
      params := args;
    }

    method Shift()
      requires params != []
      modifies this
      ensures params == old(params)[1..]
    {
      params := params[1..];
    }

    method Push(arg: string)
      modifies this
      ensures params == old(params) + [arg]
    {
      params := params + [arg];
    }

    /** The loop takes its arguments from the parameters it started with, while rotating the current ones. */
    method ConvertAll(host: Host)
      modifies this
      ensures params == Converted(host, old(params))
    {
      hide Converted, Convert, LooksLikePath;
      var captured := params;
      RotateNothing(host, captured);
      for i := 0 to |captured|
        invariant params == captured[i..] + Converted(host, captured[..i])
      {
        var arg := captured[i];
        ConvertCases(host, arg);
        if LooksLikePath(host, arg) {
          arg := host.cygpath(arg);
        }
        Shift();
        Push(arg);
        RotateOnce(host, captured, i);
      }
      assert captured[..|captured|] == captured;
    }

    method Assemble(host: Host, appName: string, classpath: string, javaOpts: string, gradleOpts: string)
      returns (ok: bool)
      modifies this
      ensures ok && params == AllLines(Tokenize(AllOptions(javaOpts, gradleOpts) + "\n").tokens)
                              + StandardArguments(appName, classpath) + UserArguments(host, old(params))
      ensures EndsInArguments(params, host, appName, classpath, old(params))
    {
      hide *;
      var options := AllOptions(javaOpts, gradleOpts);
      ArgumentsInPlace(AllLines(Tokenize(options + "\n").tokens), host, appName, classpath, params);
      UserArgumentsCases(host, params);
      OptionsInFront(options, StandardArguments(appName, classpath), UserArguments(host, params));
      if host.windows {
        ConvertAll(host);
      }
      params := StandardArguments(appName, classpath) + params;
      var result := PassOptions(options, params);
      ok := result.Some?;
      if ok {
        params := result.value;
      }
    }
  }

  function UserArguments(host: Host, args: seq<string>): seq<string> {
    if host.windows then Converted(host, args) else args
  }

  /**
   * The script's own four arguments, then the user's: each is converted exactly on Windows, and there
   * only an absolute path other than the root whose first segment is present.
   */
  ghost predicate EndsInArguments(
    params: seq<string>, host: Host, appName: string, classpath: string, args: seq<string>)
  {
    var n := |params| - |args|;
    && n >= 4
    && params[n - 4] == "-Dorg.gradle.appname=" + appName && params[n - 3] == "-classpath" && params[n - 2] == classpath
    && params[n - 1] == "org.gradle.wrapper.GradleWrapperMain"
    && forall i :: 0 <= i < |args| ==>
         params[n + i] == if host.windows && IsPresentPath(host, args[i]) then host.cygpath(args[i]) else args[i]
  }

  ghost predicate IsPresentPath(host: Host, arg: string) {
    exists segment, rest :: IsSplitPath(arg, segment, rest) && host.isPresent("/" + segment)
  }

  lemma UserArgumentsCases(host: Host, args: seq<string>)
    ensures UserArguments(host, args) == if host.windows then Converted(host, args) else args
  {
  }

  lemma OptionsInFront(options: string, own: seq<string>, users: seq<string>)
    ensures PassOptions(options, own + users) == Some(AllLines(Tokenize(options + "\n").tokens) + own + users)
  {
    var lines := AllLines(Tokenize(options + "\n").tokens);
    EvalSetsAllLines(Tokenize(options + "\n").tokens, own + users);
    assert lines + (own + users) == lines + own + users;
  }

  lemma ArgumentsInPlace(options: seq<string>, host: Host, appName: string, classpath: string, args: seq<string>)
    ensures EndsInArguments(
              options + StandardArguments(appName, classpath) + UserArguments(host, args), host, appName, classpath, args)
  {
    var users := UserArguments(host, args);
    forall i | 0 <= i < |args|
      ensures users[i] == if host.windows && IsPresentPath(host, args[i]) then host.cygpath(args[i]) else args[i]
    {
      PathsAreRecognisedExactly(host, args[i]);
    }
  }

  predicate WellQuoted(options: string) {
    Tokenize(options).Tokens? && !OpenEnded(options)
  }

  /** With well-quoted options the joined string holds the default arguments, then those of each variable. */
  lemma OptionsJoin(javaOpts: string, gradleOpts: string)
    requires WellQuoted(javaOpts) && WellQuoted(gradleOpts)
    ensures Tokenize(AllOptions(javaOpts, gradleOpts) + "\n")
            == Tokens(["-Xmx64m", "-Xms64m"] + Tokenize(javaOpts).tokens + Tokenize(gradleOpts).tokens)
  {
    var defaults := ["-Xmx64m", "-Xms64m"];
    assert QuotedList(defaults) == DEFAULT_JVM_OPTS by {
      assert defaults[1..] == ["-Xms64m"];
      assert QuotedList(["-Xms64m"]) == Quoted('"', "-Xms64m");
    }
    QuotedListRoundTrip(defaults);
    JoinWhenClosed(DEFAULT_JVM_OPTS, ' ', javaOpts);
    var front := DEFAULT_JVM_OPTS + " " + javaOpts;
    JoinWhenClosed(front, ' ', gradleOpts);
    FinalNewline(AllOptions(javaOpts, gradleOpts));
  }

  /**
   * The final command line, for well-quoted variables whose arguments are neither empty nor
   * hold a newline: defaults, JAVA_OPTS, GRADLE_OPTS, the script's own, the user's.
   */
  lemma CommandLine(javaOpts: string, gradleOpts: string, params: seq<string>)
    requires WellQuoted(javaOpts) && WellQuoted(gradleOpts)
    ensures PassOptions(AllOptions(javaOpts, gradleOpts), params)
            == Some(["-Xmx64m", "-Xms64m"] + Tokenize(javaOpts).tokens + Tokenize(gradleOpts).tokens + params)
            <==> Printable(Tokenize(javaOpts).tokens) && Printable(Tokenize(gradleOpts).tokens)
  {
    OptionsJoin(javaOpts, gradleOpts);
    var defaults, a, b := ["-Xmx64m", "-Xms64m"], Tokenize(javaOpts).tokens, Tokenize(gradleOpts).tokens;
    RoundTripExactlyWhenPrintable(defaults + a + b, params);
    assert Printable(defaults);
    assert forall t :: t in defaults + a + b <==> t in defaults || t in a || t in b;
  }

  /**
   * The same in terms of what is written in the variables: bare, quoted and backslashed pieces
   * between separators. The values of all pieces arrive, in order, exactly when they are printable.
   */
  lemma CommandLineOfPieces(
    javaItems: seq<Spaced>, javaEnd: string, gradleItems: seq<Spaced>, gradleEnd: string, params: seq<string>)
    requires AreArguments(javaItems) && IsGap(javaEnd) && AreArguments(gradleItems) && IsGap(gradleEnd)
    ensures PassOptions(AllOptions(WrittenList(javaItems) + javaEnd, WrittenList(gradleItems) + gradleEnd), params)
            == Some(["-Xmx64m", "-Xms64m"] + Values(javaItems) + Values(gradleItems) + params)
            <==> Printable(Values(javaItems)) && Printable(Values(gradleItems))
  {
    WrittenListIsRead(javaItems, javaEnd);
    WrittenListIsRead(gradleItems, gradleEnd);
    hide Values, AreArguments, IsGap, WrittenList, AllOptions, PassOptions, Tokenize, OpenEnded, Printable;
    CommandLine(WrittenList(javaItems) + javaEnd, WrittenList(gradleItems) + gradleEnd, params);
  }

  /** Whatever the option variables hold, the script's own arguments and the user's come last, unchanged. */
  lemma OptionsOnlyGoInFront(javaOpts: string, gradleOpts: string, params: seq<string>)
    ensures var r := PassOptions(AllOptions(javaOpts, gradleOpts), params);
            r.Some? && |params| <= |r.value| && r.value[|r.value| - |params|..] == params
  {
    EvalSetsAllLines(Tokenize(AllOptions(javaOpts, gradleOpts) + "\n").tokens, params);
  }
}
