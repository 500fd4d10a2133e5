# Wrapping, re-quoting and validation rules

Three parts of the repository hold real algorithms; this project models them and proves what they are for.

**The C# image server** cuts texts into lines (`ParseTextWrap`) and draws them above a bitmap (`DrawBySkia`).

- `TextWrap.dfy`: greedy line breaking over one text and over a list of texts. A paint is the advance of each
  character and the height of each line. `BreakText` is modelled as the longest prefix whose summed advances fit
  (SkiaSharp itself is not part of this model); lengths are exact reals.
- `PageLayout.dfy`: the height fold, the drawing cursor, the canvas and its drawing operations.

**The Gradle start script** (`javademo/gradlew`; `ktdemo/gradlew` is the same text) passes option strings through
`xargs`, `sed`, `tr` and `eval`, rotates its parameters, and follows symbolic links by parsing `ls` output.

- `XargsTokens.dfy`: the quoting rules of the POSIX `xargs` utility as a state machine over characters.
- `ShellWords.dfy`: sections 2.2 and 2.3 of the POSIX.1-2017 Shell Command Language, for one simple command. A
  character that would act instead of standing for itself makes the reading `Active`.
- `Requoting.dfy`: the printing chain and the reading back by `eval`.
- `StartScript.dfy`: the argument rotation and the final command line.
- `LinkResolution.dfy`: path splitting, reading a link target from `ls -ld`, the chain of links.

**The unobtrusive validation script** (`jquery.validate.unobtrusive.js`) has string codecs, a rule compiler and a
display state machine.

- `ListSplit.dfy`, `ModelPrefix.dfy`, `CssStrings.dfy`: `splitAndTrim`, the model prefix functions, and selector
  escaping against sections 3.3, 4.3.5 and 4.3.7 of CSS Syntax Module Level 3.
- `JQuerySelectors.dfy`: how jQuery reads an escaped name. `find` asks the browser and falls back on jQuery's own
  patterns (`jquery.js:831-895`), `filter` uses those patterns, save for a single candidate
  (`jquery.js:3064-3078`, `jquery.js:1604-1634`).
- `RuleCompiler.dfy`, `Adapters.dfy`, `Library.dfy`: the adapter registry, `parseElement`, `parse`, the library's
  adapters, and the registry the library fills with them.
- `ErrorDisplay.dfy`: `onError`, `onErrors`, `onSuccess` and `onReset` over class sets and stored data. What jQuery
  does when a container is emptied (its descendants' data is cleaned) and when one label is appended to several
  containers (the label itself goes to the last) follows `jquery.js:6283-6299` and `jquery.js:6368-6393`. Labels are
  made when their error is first shown (`CsDemo/AspMvcDemo/wwwroot/lib/jquery-validation/dist/jquery.validate.js:936-962`).

`Options.dfy` holds the option datatype. `jquery.js` is `CsDemo/AspMvcDemo/wwwroot/lib/jquery/dist/jquery.js`.

Two loops of the sources need not halt: the wrapping loop and the link loop. Their methods take the number of turns
allowed (`fuel`) and say whether the loop's guard became false within them; the specification functions give the state
after any number of turns, and lemmas say for exactly which inputs some number of turns is enough.

## Where the code differs from what it says

- `javademo/gradlew:201-204` says the option variables may contain variable substitutions that are re-expanded. The
  `sed` step escapes every dollar, so nothing is ever expanded: `Requoting.EvalSetsAllLines` holds for all arguments.
- `jquery.validate.unobtrusive.js:303-306` lets the bound attributes of `addMinMax` be renamed, but the bounds are
  looked up under `min` and `max` only, so this works exactly when they are not renamed:
  `Adapters.BoundsAsDocumentedExactly`.
- Lines are wrapped for a room of `Width - pad / 2` but drawn from `pad`, so a line can pass the right edge:
  `PageLayout.LinesPassTheEdgeByAtMost`, `PageLayout.TheEdgeIsPassed`.
- `onError` takes the attribute values `0`, `""` and `null` as true, `onSuccess` as false, so a label then stays behind:
  `ErrorDisplay.LabelIsLeftBehindExactly`.
- Escaping does not protect a NUL in a field name: where the browser reads the selector, it looks for the replacement
  character instead: `JQuerySelectors.ReadByFindExactly`. Names with line ends are rejected by the browser and then read
  exactly by jQuery itself.
- The target of a link is misread not only when the path contains ` -> ` but also when it ends in ` ->`, and when the
  target ends in a newline: `LinkResolution.TargetReadExactly`.

## Model

| member | source | states |
|---|---|---|
| TextWrap.BreakTextIsLongest | CsDemo/CsDemo.Server/Utils/SkiaExtentions.cs:40 | the count is that of the longest prefix that fits: a prefix of n characters fits if and only if n is at most the count |
| TextWrap.BreakIsMonotone | CsDemo/CsDemo.Server/Utils/SkiaExtentions.cs:40 | a line begun later never ends earlier |
| TextWrap.ParseTextWrap | CsDemo/CsDemo.Server/Utils/SkiaExtentions.cs:30-52 | after any number of turns the result holds the measured lines cut so far, and the loop has halted if and only if `head` is at the end |
| TextWrap.NothingAfterTheEnd | CsDemo/CsDemo.Server/Utils/SkiaExtentions.cs:38 | once `head` is at the end nothing changes any more |
| TextWrap.HeadReachesFirstTooWide | CsDemo/CsDemo.Server/Utils/SkiaExtentions.cs:38-49 | each turn advances `head` until it reaches the first character that is too wide (or the end), where it stays on every later turn |
| TextWrap.HaltsExactlyWhenEveryCharFits | CsDemo/CsDemo.Server/Utils/SkiaExtentions.cs:38-49 | the loop halts if and only if every character alone is at most maxWidth, and then within text.Length turns |
| TextWrap.StuckLoopKeepsAddingLines | CsDemo/CsDemo.Server/Utils/SkiaExtentions.cs:40-48 | a loop that does not halt adds a line every turn, an empty one once `head` is stuck |
| TextWrap.WrapAtHead | CsDemo/CsDemo.Server/Utils/SkiaExtentions.cs:38-49 | at every turn the lines cut so far followed by the wrapped rest are the wrapped text |
| TextWrap.TurnsNeeded | CsDemo/CsDemo.Server/Utils/SkiaExtentions.cs:38-49 | the loop has finished after k turns if and only if the text has at most k lines |
| TextWrap.HaltedLoopHoldsWrap | CsDemo/CsDemo.Server/Utils/SkiaExtentions.cs:38-51 | a halted loop returns exactly the greedy lines of the text |
| TextWrap.WrapIsGreedyDivision | CsDemo/CsDemo.Server/Utils/SkiaExtentions.cs:40-48 | the lines spell the text, none is empty, each fits, and none could take the next line's first character |
| TextWrap.GreedyDivisionIsUnique | CsDemo/CsDemo.Server/Utils/SkiaExtentions.cs:40-48 | no other lines have these properties |
| TextWrap.GreedyStaysAhead | CsDemo/CsDemo.Server/Utils/SkiaExtentions.cs:38-49 | the k-th greedy break is never before the k-th break of any division into pieces that fit |
| TextWrap.GreedyIsOptimal | CsDemo/CsDemo.Server/Utils/SkiaExtentions.cs:38-49 | no division of the text into pieces that fit has fewer pieces |
| TextWrap.DivisibleExactlyWhenEveryCharFits | CsDemo/CsDemo.Server/Utils/SkiaExtentions.cs:38-49 | a text can be divided into pieces that fit if and only if each of its characters fits |
| TextWrap.WiderNeverTakesMoreLines | CsDemo/CsDemo.Server/Utils/SkiaExtentions.cs:30-51 | increasing maxWidth never increases the line count |
| TextWrap.CutDivision | CsDemo/CsDemo.Server/Utils/SkiaExtentions.cs:30-51 | any division of a joined text yields divisions of its two parts with at most one piece more |
| TextWrap.WrapOfJoinedTexts | CsDemo/CsDemo.Server/Utils/SkiaExtentions.cs:30-51 | lines(a+b) lies between lines(a)+lines(b)-1 and lines(a)+lines(b) |
| TextWrap.WrapLineCountBounds | CsDemo/CsDemo.Server/Utils/SkiaExtentions.cs:40-48 | with n lines the total advance is at most n times maxWidth, and for n >= 2 more than n/2 times maxWidth |
| TextWrap.ParseTextWraps | CsDemo/CsDemo.Server/Utils/SkiaExtentions.cs:17-28 | the list overload halts if and only if every text does, and then returns the measured lines of each text in order |
| TextWrap.LinesOfTextSpellIt | CsDemo/CsDemo.Server/Utils/SkiaExtentions.cs:21-25 | each input has its own run of output lines, so no line mixes two inputs |
| TextWrap.ContentsAreConserved | CsDemo/CsDemo.Server/Utils/SkiaExtentions.cs:17-51 | all lines together spell the inputs in order, and no line is empty |
| TextWrap.FewestLinesOverall | CsDemo/CsDemo.Server/Utils/SkiaExtentions.cs:17-51 | dividing each text on its own in any other way takes at least as many lines in all |
| PageLayout.DrawPage | CsDemo/CsDemo.Server/Implements/SkiaDemoImplement.cs:47-66 | the canvas is cleared once, then shows every line in order, each exactly pad below the one before, then the bitmap, pad below the last line, over the whole width and down to the last row |
| PageLayout.DrawBySkia | CsDemo/CsDemo.Server/Implements/SkiaDemoImplement.cs:44-66 | wraps to the bitmap's width less pad/2, fails on an empty list of lines, otherwise returns a canvas of the bitmap's width that shows exactly those lines above the bitmap |
| PageLayout.PageShowsLinesAboveBitmap | CsDemo/CsDemo.Server/Implements/SkiaDemoImplement.cs:47-66 | operation by operation: the only clear, the text of each line at its distance from the one before, the only bitmap with all four sides, and a canvas as high as text and bitmap after truncation |
| PageLayout.FoldIsCursor | CsDemo/CsDemo.Server/Implements/SkiaDemoImplement.cs:47-58 | whenever there is a line, the folded height equals the final position of the drawing cursor |
| PageLayout.BitmapFillsTheRest | CsDemo/CsDemo.Server/Implements/SkiaDemoImplement.cs:47-66 | the bitmap starts at the folded height, ends at the canvas height after truncation, and loses less than one unit of height |
| PageLayout.BitmapKeepsItsHeight | CsDemo/CsDemo.Server/Implements/SkiaDemoImplement.cs:60-66 | the bitmap is drawn unscaled if and only if the folded height is a whole number |
| PageLayout.BandsLieAboveBitmap | CsDemo/CsDemo.Server/Implements/SkiaDemoImplement.cs:52-66 | every text band lies between the top margin and the bitmap, the first exactly pad below the top, the last exactly pad above the bitmap |
| PageLayout.BandsAreStacked | CsDemo/CsDemo.Server/Implements/SkiaDemoImplement.cs:52-58 | an earlier band lies above a later one, with a gap of exactly pad to the next |
| PageLayout.PageShowsEveryText | CsDemo/CsDemo.Server/Implements/SkiaDemoImplement.cs:45-58 | the texts drawn, in order, spell all input texts |
| PageLayout.NoLinesExactlyForEmptyTexts | CsDemo/CsDemo.Server/Implements/SkiaDemoImplement.cs:47 | the fold has nothing to fold if and only if every input text is empty |
| PageLayout.EnoughTurns | CsDemo/CsDemo.Server/Implements/SkiaDemoImplement.cs:45 | with as many turns as the longest text has characters, the wrapping of all texts halts if and only if every character fits |
| PageLayout.LinesPassTheEdgeByAtMost | CsDemo/CsDemo.Server/Implements/SkiaDemoImplement.cs:44-56 | no line reaches further than Width + pad - pad/2 |
| PageLayout.TheEdgeIsPassed | CsDemo/CsDemo.Server/Implements/SkiaDemoImplement.cs:44-56 | on every bitmap of width at least pad/2 some text reaches exactly that far, outside the canvas |
| PageLayout.TheEdgeIsPassedExactly | CsDemo/CsDemo.Server/Implements/SkiaDemoImplement.cs:44-56 | some text is drawn past the right edge if and only if the bitmap is at least pad/2 wide |
| XargsTokens.JoinIsFaithfulExactlyWhenClosed | javademo/gradlew:238-239 | joining two option strings with a space joins their argument lists, whatever the second, if and only if the first ends outside quotes and not after a backslash |
| XargsTokens.JoinWhenClosed | javademo/gradlew:218-220 | a space, tab or newline outside quotes ends an argument and starts afresh |
| XargsTokens.FinalNewline | javademo/gradlew:238 | the newline printf adds changes nothing for such strings |
| XargsTokens.QuotingIsFaithfulExactlyWhenQuotable | javademo/gradlew:218-220 | an argument put between quotes of either kind comes back if and only if it holds neither that quote nor a newline |
| XargsTokens.BackslashesAreFaithful | javademo/gradlew:218-220 | any non-empty argument comes back when every character has a backslash before it |
| XargsTokens.QuotedListRoundTrip | javademo/gradlew:89 | double-quoted strings separated by spaces are read as exactly that list |
| XargsTokens.WrittenListIsRead | javademo/gradlew:218-220 | arguments made of bare, quoted and backslashed pieces, with any separators around them, are read as what their pieces mean, put together |
| XargsTokens.UnmatchedIsRead | javademo/gradlew:233-234 | an unmatched quote, or one with a newline before its end, leaves exactly the arguments completed before it |
| XargsTokens.FinalBackslashIsRead | javademo/gradlew:218-220 | a backslash at the very end is dropped, yet it begins an argument where none has begun |
| XargsTokens.EveryTextIsWritten | javademo/gradlew:218-220 | every text is a list of such arguments between separators, and at most a backslash or an unmatched quote left over |
| XargsTokens.TokenizeExactly | javademo/gradlew:218-234 | the arguments of a text that is not open-ended are some list if and only if the text writes that list in pieces |
| ShellWords.SingleQuotedIsLiteral | javademo/gradlew:204 | between single quotes every character stands for itself |
| ShellWords.DoubleQuotedIsLiteral | javademo/gradlew:203 | between double quotes every character but dollar, backquote, double quote and backslash stands for itself |
| ShellWords.AllPositionalIsParams | javademo/gradlew:242 | the word "$@" stands for the old parameters |
| ShellWords.BareCharacter | javademo/gradlew:229-231 | unquoted, a character stands for itself if and only if it is no blank, quoting or special character |
| Requoting.ReadPrinted | javademo/gradlew:240-241 | one printed argument is read as its non-empty lines, every special character inert |
| Requoting.LinesOfTwo | javademo/gradlew:219 | a newline inside an argument separates its lines |
| Requoting.SedOnOneCharacter | javademo/gradlew:240 | sed leaves alone exactly the characters its expression lists and line ends, and puts a backslash before every other |
| Requoting.EvalSetsAllLines | javademo/gradlew:237-242 | for all arguments whatever, eval is one plain `set --` and sets the arguments' non-empty lines followed by the old parameters |
| Requoting.RoundTripExactlyWhenPrintable | javademo/gradlew:231-242 | the arguments come back unchanged if and only if none is empty and none holds a newline |
| Requoting.QuotedOptionsSurvive | javademo/gradlew:237-242 | non-empty strings without double quotes and newlines, double-quoted and joined by spaces, survive the whole pipeline |
| StartScript.PathsAreRecognisedExactly | javademo/gradlew:178-184 | an argument is converted if and only if it is an absolute path other than the root whose first segment is present |
| StartScript.Parameters.ConvertAll | javademo/gradlew:177-197 | after the rotation the parameters are the original list in the same order, each converted |
| StartScript.Parameters.Assemble | javademo/gradlew:170-242 | the final parameters are the option arguments, then name, class path and main class in their places, then the user's arguments, each converted if and only if the host is Windows and it is a path that is present |
| StartScript.OptionsJoin | javademo/gradlew:89 | well-quoted option variables give the two default arguments followed by those of each variable |
| StartScript.CommandLine | javademo/gradlew:206-242 | for well-quoted variables the command line is defaults, JAVA_OPTS, GRADLE_OPTS and the rest if and only if no option is empty or holds a newline |
| StartScript.CommandLineOfPieces | javademo/gradlew:218-242 | whatever bare, quoted and backslashed pieces the variables are written in, the values of those pieces arrive in order, if and only if none is empty or holds a newline |
| StartScript.OptionsOnlyGoInFront | javademo/gradlew:237-242 | whatever the option variables hold, the other arguments remain the unchanged end of the command line |
| LinkResolution.HomeSplitsPath | javademo/gradlew:72 | APP_HOME followed by the slash-free last component is app_path, and APP_HOME is empty or ends in a slash |
| LinkResolution.HomeIsUnique | javademo/gradlew:72 | there is only one such split |
| LinkResolution.FirstArrow | javademo/gradlew:76 | the first arrow of a listing line is the real one if and only if the text before it contains none and does not end in the beginning of one |
| LinkResolution.TargetReadExactly | javademo/gradlew:75-76 | the target is read right if and only if the text before it is so and the target does not end in a newline |
| LinkResolution.ArrowLikePathIsMisread | javademo/gradlew:76 | a link named `a ->` to `b` is read as one to `-> b` |
| LinkResolution.ResolvedPathSplits | javademo/gradlew:72-80 | the resolved path has the target's last component, and its directory is the target's, for a relative target put behind the directory of the link |
| LinkResolution.NextPathStaysInDirectory | javademo/gradlew:72-80 | for any split of the link into directory and slash-free component, the next path is what is read if that begins with a slash, else the directory followed by what is read |
| LinkResolution.NextPathExactly | javademo/gradlew:75-80 | the next path is the absolute target itself, or the link's directory followed by the relative target, if and only if the line can be read right |
| LinkResolution.Location.FollowLinks | javademo/gradlew:71-81 | after any number of turns app_path is the path the chain has reached, APP_HOME its directory part, and the loop has halted if and only if it is no link |
| LinkResolution.TurnStaysInDirectory | javademo/gradlew:71-81 | each turn of a run goes to the absolute path read, or to the one read put behind the directory of the link, and a path that is no link stays |
| LinkResolution.ChainIsTrueExactly | javademo/gradlew:71-81 | a run follows the links of the file system if and only if every line it reads can be read right |
| LinkResolution.NoLinkTwice | javademo/gradlew:71-81 | a chain that ends meets every link on it once |
| LinkResolution.HaltsWithinLinkCount | javademo/gradlew:71-81 | a chain that ends does so within as many turns as there are links |
| LinkResolution.EndlessExactlyWhenRevisiting | javademo/gradlew:71-81 | the loop runs for ever if and only if it comes back to a link, within as many turns as there are links |
| LinkResolution.FallingRankHalts | javademo/gradlew:71-81 | a readable chain halts when some rank falls from every link to the link it points at |
| LinkResolution.HaltsEverywhereExactlyWhenAcyclic | javademo/gradlew:71-81 | with readable lines the loop halts from every path if and only if no link leads back to itself |
| ListSplit.CommaMatchIsLongest | CsDemo/AspMvcDemo/wwwroot/lib/jquery-validation-unobtrusive/jquery.validate.unobtrusive.js:36 | a match is the longest prefix that is a comma between spaces, and exists if and only if some prefix is |
| ListSplit.TrimIgnoresPadding | CsDemo/AspMvcDemo/wwwroot/lib/jquery-validation-unobtrusive/jquery.validate.unobtrusive.js:36 | trimming removes any spaces around a text |
| ListSplit.TrimmedCharacters | CsDemo/AspMvcDemo/wwwroot/lib/jquery-validation-unobtrusive/jquery.validate.unobtrusive.js:36 | exactly the white space and line terminators of ECMAScript are trimmed |
| ListSplit.SplitAndTrimIsSplitThenTrim | CsDemo/AspMvcDemo/wwwroot/lib/jquery-validation-unobtrusive/jquery.validate.unobtrusive.js:35-37 | for every string the result is splitting at each comma and trimming each piece |
| ListSplit.PiecesOfSplitAndTrim | CsDemo/AspMvcDemo/wwwroot/lib/jquery-validation-unobtrusive/jquery.validate.unobtrusive.js:35-37 | there is one piece more than commas, each without commas and outer spaces |
| ListSplit.JoinedListIsRecovered | CsDemo/AspMvcDemo/wwwroot/lib/jquery-validation-unobtrusive/jquery.validate.unobtrusive.js:35-37 | a non-empty list of trimmed comma-free strings joined by arbitrarily padded commas is recovered |
| ModelPrefix.PrefixRebuildsName | CsDemo/AspMvcDemo/wwwroot/lib/jquery-validation-unobtrusive/jquery.validate.unobtrusive.js:44-46 | the prefix ends in the last dot and with the last segment rebuilds the name |
| ModelPrefix.PrefixIsUnique | CsDemo/AspMvcDemo/wwwroot/lib/jquery-validation-unobtrusive/jquery.validate.unobtrusive.js:44-46 | a prefix ending in a dot and a dot-free segment are recovered from their concatenation |
| ModelPrefix.PrefixIsLiteralExactlyWithoutPattern | CsDemo/AspMvcDemo/wwwroot/lib/jquery-validation-unobtrusive/jquery.validate.unobtrusive.js:48-53 | every `*.x` becomes prefix and x if and only if no dollar in the prefix starts a replacement pattern |
| ModelPrefix.RelativeNameIsSibling | CsDemo/AspMvcDemo/wwwroot/lib/jquery-validation-unobtrusive/jquery.validate.unobtrusive.js:44-53 | `*.x` with dot-free x is a sibling with the same prefix; other names stand for themselves |
| ModelPrefix.FirstPatternIsReplaced | CsDemo/AspMvcDemo/wwwroot/lib/jquery-validation-unobtrusive/jquery.validate.unobtrusive.js:48-53 | a dollar pattern in the prefix becomes a dollar, the match, nothing, or the text behind the match; what is before it stays and the rest goes on likewise |
| ModelPrefix.OtherNamesStayAsTheyAre | CsDemo/AspMvcDemo/wwwroot/lib/jquery-validation-unobtrusive/jquery.validate.unobtrusive.js:48-53 | a name that does not begin with `*.` stands for itself, whatever the prefix |
| CssStrings.PunctuationIsEscaped | CsDemo/AspMvcDemo/wwwroot/lib/jquery-validation-unobtrusive/jquery.validate.unobtrusive.js:39-42 | a character gets a backslash if and only if it is ASCII punctuation other than - and _ |
| CssStrings.EscapeOfConcat | CsDemo/AspMvcDemo/wwwroot/lib/jquery-validation-unobtrusive/jquery.validate.unobtrusive.js:39-42 | a value is escaped character by character |
| CssStrings.PreprocessEscaped | CsDemo/AspMvcDemo/wwwroot/lib/jquery-validation-unobtrusive/jquery.validate.unobtrusive.js:39-42 | CSS preprocessing changes an escaped value as it would the bare one |
| CssStrings.RoundTripExactlyForPlainText | CsDemo/AspMvcDemo/wwwroot/lib/jquery-validation-unobtrusive/jquery.validate.unobtrusive.js:39-42 | the quoted escaped value is read back as the value, up to exactly the closing quote, if and only if it has no newline, carriage return, form feed or NUL |
| CssStrings.ReadPreprocessed | CsDemo/AspMvcDemo/wwwroot/lib/jquery-validation-unobtrusive/jquery.validate.unobtrusive.js:39-42 | by CSS the escaped value is read as the preprocessed value, or breaks off as a bad string where that shows a newline |
| CssStrings.EscapingIsInjective | CsDemo/AspMvcDemo/wwwroot/lib/jquery-validation-unobtrusive/jquery.validate.unobtrusive.js:39-42 | no two values have the same escaped form |
| JQuerySelectors.OwnReadingIsExact | CsDemo/AspMvcDemo/wwwroot/lib/jquery/dist/jquery.js:607-675 | jQuery's own patterns give back every escaped value, without exception |
| JQuerySelectors.NativeReadingExactly | CsDemo/AspMvcDemo/wwwroot/lib/jquery/dist/jquery.js:881-887 | the browser rejects exactly the names with a line end, and reads others with NUL replaced |
| JQuerySelectors.ReadByFindExactly | CsDemo/AspMvcDemo/wwwroot/lib/jquery/dist/jquery.js:831-895 | find, the browser with jQuery's patterns as fallback, looks for exactly the name if and only if it holds no NUL or has a line end |
| JQuerySelectors.ReadByFilterExactly | CsDemo/AspMvcDemo/wwwroot/lib/jquery/dist/jquery.js:3064-3078 | so does filter, and always unless there is just one candidate |
| JQuerySelectors.NulIsLost | CsDemo/AspMvcDemo/wwwroot/lib/jquery/dist/jquery.js:881-887 | a name of just a NUL is looked for as the replacement character |
| RuleCompiler.Registry.Add | CsDemo/AspMvcDemo/wwwroot/lib/jquery-validation-unobtrusive/jquery.validate.unobtrusive.js:260-276 | a new adapter goes to the end of the registry |
| RuleCompiler.Registry.RunAdapter | CsDemo/AspMvcDemo/wwwroot/lib/jquery-validation-unobtrusive/jquery.validate.unobtrusive.js:198-219 | an adapter acts on the rules under construction if and only if its attribute is present, even empty |
| RuleCompiler.Registry.RunAdapters | CsDemo/AspMvcDemo/wwwroot/lib/jquery-validation-unobtrusive/jquery.validate.unobtrusive.js:195-221 | the rules are the fold of the adapters in registration order from empty, then the dummy rule, cut short by an exception |
| RuleCompiler.Registry.ParseElement | CsDemo/AspMvcDemo/wwwroot/lib/jquery-validation-unobtrusive/jquery.validate.unobtrusive.js:177-226 | the element's compiled rules replace those under its form and name and nothing else changes; without a form nothing happens |
| RuleCompiler.Registry.Parse | CsDemo/AspMvcDemo/wwwroot/lib/jquery-validation-unobtrusive/jquery.validate.unobtrusive.js:245-247 | elements are parsed in document order, up to one that throws |
| RuleCompiler.LastSettingWins | CsDemo/AspMvcDemo/wwwroot/lib/jquery-validation-unobtrusive/jquery.validate.unobtrusive.js:28-33 | a rule has the value of the last setting for it, and its message is that of the last setting for it with a non-empty message |
| RuleCompiler.AbsentAdaptersDropOut | CsDemo/AspMvcDemo/wwwroot/lib/jquery-validation-unobtrusive/jquery.validate.unobtrusive.js:198-203 | an element compiles as with just the adapters whose attribute it has, wherever the others are registered |
| RuleCompiler.LastAdapterDecides | CsDemo/AspMvcDemo/wwwroot/lib/jquery-validation-unobtrusive/jquery.validate.unobtrusive.js:198-221 | unless an adapter throws, a rule has the value of the last registered adapter that sets it and the message of the last that sets it with one, and the dummy rule is true |
| RuleCompiler.AdaptersUpToThrowDecide | CsDemo/AspMvcDemo/wwwroot/lib/jquery-validation-unobtrusive/jquery.validate.unobtrusive.js:198-221 | when an adapter throws, the adapters up to it decide every rule and message, and there is no dummy rule |
| RuleCompiler.OrderOfDifferentNamesIsIrrelevant | CsDemo/AspMvcDemo/wwwroot/lib/jquery-validation-unobtrusive/jquery.validate.unobtrusive.js:195-196 | documents with the same last element of each form and name compile alike |
| RuleCompiler.DifferentNamesCommute | CsDemo/AspMvcDemo/wwwroot/lib/jquery-validation-unobtrusive/jquery.validate.unobtrusive.js:195-196 | two neighbouring elements of different names or forms can be parsed in either order, anywhere in a document |
| RuleCompiler.LastElementWins | CsDemo/AspMvcDemo/wwwroot/lib/jquery-validation-unobtrusive/jquery.validate.unobtrusive.js:228-255 | after parsing a document the rules of each name are those compiled from its last element reached before an exception, with the inputs of its own form, and all other rules are as before |
| RuleCompiler.ReparsingDocumentIsIdempotent | CsDemo/AspMvcDemo/wwwroot/lib/jquery-validation-unobtrusive/jquery.validate.unobtrusive.js:228-255 | parsing an unchanged document again changes nothing |
| Adapters.BoundsAsDocumentedExactly | CsDemo/AspMvcDemo/wwwroot/lib/jquery-validation-unobtrusive/jquery.validate.unobtrusive.js:303-321 | every element's bounds are taken from the attributes named if and only if the names are min and max |
| Adapters.FailingElementFails | CsDemo/AspMvcDemo/wwwroot/lib/jquery-validation-unobtrusive/jquery.validate.unobtrusive.js:308-321 | for every other pair of names, one changed, swapped or doubled, there is an element that is compiled otherwise |
| Adapters.RenamedMinimumIsIgnored | CsDemo/AspMvcDemo/wwwroot/lib/jquery-validation-unobtrusive/jquery.validate.unobtrusive.js:308-321 | a range check with its minimum under `low` ignores the minimum given there |
| Adapters.EqualToFindsTheOtherField | CsDemo/AspMvcDemo/wwwroot/lib/jquery-validation-unobtrusive/jquery.validate.unobtrusive.js:376-383 | equalTo refers to the first input with exactly the resolved name, whatever the name, save a lone input and a name with a NUL and no line end |
| Adapters.EqualToFindsExactly | CsDemo/AspMvcDemo/wwwroot/lib/jquery-validation-unobtrusive/jquery.validate.unobtrusive.js:376-383 | whatever the inputs, that input is found if and only if the name holds no NUL or has a line end |
| Adapters.EqualToSibling | CsDemo/AspMvcDemo/wwwroot/lib/jquery-validation-unobtrusive/jquery.validate.unobtrusive.js:376-383 | `*.x` refers to the input with the same model prefix and last segment x |
| Adapters.RemoteSendsTheFieldItself | CsDemo/AspMvcDemo/wwwroot/lib/jquery-validation-unobtrusive/jquery.validate.unobtrusive.js:396-399 | without additional fields a remote check sends the field itself |
| Adapters.RemoteSendsTheFieldsMeant | CsDemo/AspMvcDemo/wwwroot/lib/jquery-validation-unobtrusive/jquery.validate.unobtrusive.js:396-399 | a padded list of names sends exactly the fields meant: siblings for relative names, the others as they are |
| Library.LibraryThrowsExactly | CsDemo/AspMvcDemo/wwwroot/lib/jquery-validation-unobtrusive/jquery.validate.unobtrusive.js:362-428 | the library's registry throws if and only if an equalto attribute lacks the name of the other field |
| Library.MinLengthIsDecidedBy | CsDemo/AspMvcDemo/wwwroot/lib/jquery-validation-unobtrusive/jquery.validate.unobtrusive.js:374-418 | value and message of minlength come from password, then maxlength, minlength and length, the last three only with a minimum and no maximum |
| Library.MaxLengthIsDecidedBy | CsDemo/AspMvcDemo/wwwroot/lib/jquery-validation-unobtrusive/jquery.validate.unobtrusive.js:374-375 | those of maxlength come from a maximum without minimum, of maxlength, else of length |
| Library.RangeLengthIsDecidedBy | CsDemo/AspMvcDemo/wwwroot/lib/jquery-validation-unobtrusive/jquery.validate.unobtrusive.js:374 | those of rangelength come from two bounds of length |
| Library.RangeIsDecidedBy | CsDemo/AspMvcDemo/wwwroot/lib/jquery-validation-unobtrusive/jquery.validate.unobtrusive.js:374 | min, max and range come from a lone minimum, a lone maximum and two bounds of range, whatever else the element has |
| Library.AcceptIsDecidedBy | CsDemo/AspMvcDemo/wwwroot/lib/jquery-validation-unobtrusive/jquery.validate.unobtrusive.js:362-370 | accept comes from the accept attribute where there is an extension method, else from the extension attribute |
| Library.NonAlphaMinIsDecidedBy | CsDemo/AspMvcDemo/wwwroot/lib/jquery-validation-unobtrusive/jquery.validate.unobtrusive.js:415-425 | nonalphamin comes from password |
| Library.RegexIsDecidedBy | CsDemo/AspMvcDemo/wwwroot/lib/jquery-validation-unobtrusive/jquery.validate.unobtrusive.js:372-424 | regex comes from password's regex, else from the regex attribute |
| Library.ExtensionIsDecidedBy | CsDemo/AspMvcDemo/wwwroot/lib/jquery-validation-unobtrusive/jquery.validate.unobtrusive.js:362-428 | extension comes from fileextensions, else from the extension attribute where there is an extension method |
| Library.RequiredExceptCheckboxes | CsDemo/AspMvcDemo/wwwroot/lib/jquery-validation-unobtrusive/jquery.validate.unobtrusive.js:384-389 | an element with the required attribute is required if and only if it is no checkbox, in any letter case |
| Library.OtherFieldsAreCompiled | CsDemo/AspMvcDemo/wwwroot/lib/jquery-validation-unobtrusive/jquery.validate.unobtrusive.js:376-414 | equalTo refers to the input selected by the resolved name, remote asks for the fields its attributes name, each with its message |
| Library.FormatRulesAreFlags | CsDemo/AspMvcDemo/wwwroot/lib/jquery-validation-unobtrusive/jquery.validate.unobtrusive.js:373 | each of the six formats is checked, with its message, if and only if its attribute is present |
| Library.UndefinedIsDecidedBy | CsDemo/AspMvcDemo/wwwroot/lib/jquery-validation-unobtrusive/jquery.validate.unobtrusive.js:375 | bounds that minlength and maxlength are registered without rules for end up in a rule named undefined |
| Library.NoOtherRules | CsDemo/AspMvcDemo/wwwroot/lib/jquery-validation-unobtrusive/jquery.validate.unobtrusive.js:221 | besides all these an element has the dummy rule, without a message, and nothing else |
| Library.RangeAloneIsCompiled | CsDemo/AspMvcDemo/wwwroot/lib/jquery-validation-unobtrusive/jquery.validate.unobtrusive.js:374 | an element with only range attributes gets a range from two non-empty bounds, one bound from one, only the dummy rule from none, with the message if it is not empty |
| Library.EqualToAfterParse | CsDemo/AspMvcDemo/wwwroot/lib/jquery-validation-unobtrusive/jquery.validate.unobtrusive.js:228-383 | after parsing a document, equalTo of a name's last element refers to the first input of its own form with exactly the resolved name, if that holds no NUL |
| Library.ParsingStopsExactly | CsDemo/AspMvcDemo/wwwroot/lib/jquery-validation-unobtrusive/jquery.validate.unobtrusive.js:245-383 | an element is reached if and only if no element of a form before it has an equalto attribute without the name of the other field |
| ErrorDisplay.Form.OnError | CsDemo/AspMvcDemo/wwwroot/lib/jquery-validation-unobtrusive/jquery.validate.unobtrusive.js:55-70 | marks the containers of the name, stores them on the label and, if replacing, moves the label in; an unreadable attribute throws before any change |
| ErrorDisplay.Form.OnErrors | CsDemo/AspMvcDemo/wwwroot/lib/jquery-validation-unobtrusive/jquery.validate.unobtrusive.js:72-84 | with a list and messages, every summary shows the error class and the list holds exactly the messages |
| ErrorDisplay.Form.OnSuccess | CsDemo/AspMvcDemo/wwwroot/lib/jquery-validation-unobtrusive/jquery.validate.unobtrusive.js:86-100 | marks the label's containers valid, takes the label's data, empties them if the attribute is truthy; without data nothing happens |
| ErrorDisplay.Form.OnReset | CsDemo/AspMvcDemo/wwwroot/lib/jquery-validation-unobtrusive/jquery.validate.unobtrusive.js:102-125 | nested reset calls change nothing, and the flag is cleared whether the call throws or not |
| ErrorDisplay.RunsStayExclusive | CsDemo/AspMvcDemo/wwwroot/lib/jquery-validation-unobtrusive/jquery.validate.unobtrusive.js:55-125 | over every run nothing carries both its valid and its error class, and no reset stays under way |
| ErrorDisplay.RunsStayComplete | CsDemo/AspMvcDemo/wwwroot/lib/jquery-validation-unobtrusive/jquery.validate.unobtrusive.js:55-125 | where everything starts with one of its classes, over every run everything has one |
| ErrorDisplay.SuccessNeverThrows | CsDemo/AspMvcDemo/wwwroot/lib/jquery-validation-unobtrusive/jquery.validate.unobtrusive.js:86-100 | over every run no success event throws, since no label gets to point at an unreadable attribute |
| ErrorDisplay.LastEventDecides | CsDemo/AspMvcDemo/wwwroot/lib/jquery-validation-unobtrusive/jquery.validate.unobtrusive.js:55-125 | over every run a container or summary shows an error if and only if the last event that concerns it showed one |
| ErrorDisplay.ValidClassAfterEvent | CsDemo/AspMvcDemo/wwwroot/lib/jquery-validation-unobtrusive/jquery.validate.unobtrusive.js:55-125 | a place gets the valid class from what clears its error, and loses it exactly to a shown error |
| ErrorDisplay.ShownErrorMovesLabels | CsDemo/AspMvcDemo/wwwroot/lib/jquery-validation-unobtrusive/jquery.validate.unobtrusive.js:55-70 | every selected container shows the error; an attribute that is there and not false empties them all and puts the label into the last, any other moves no label, an unreadable one changes nothing |
| ErrorDisplay.LabelStaysUntilEmptied | CsDemo/AspMvcDemo/wwwroot/lib/jquery-validation-unobtrusive/jquery.validate.unobtrusive.js:55-100 | over every run with new labels, the label of a shown error is in the last container of its field until an event empties that container, if the first container asks for labels, and else nowhere |
| ErrorDisplay.ContainersInDocumentOrder | CsDemo/AspMvcDemo/wwwroot/lib/jquery-validation-unobtrusive/jquery.validate.unobtrusive.js:56-57 | containers are found in document order, each once |
| ErrorDisplay.ListHoldsLastMessages | CsDemo/AspMvcDemo/wwwroot/lib/jquery-validation-unobtrusive/jquery.validate.unobtrusive.js:72-84 | over every run the summary list holds exactly the messages of the last event that listed any, on a page with a list |
| ErrorDisplay.ResetClears | CsDemo/AspMvcDemo/wwwroot/lib/jquery-validation-unobtrusive/jquery.validate.unobtrusive.js:116-124 | after a reset no error class remains, and exactly the labels inside containers that showed one lose their data |
| ErrorDisplay.StoredUntilReleased | CsDemo/AspMvcDemo/wwwroot/lib/jquery-validation-unobtrusive/jquery.validate.unobtrusive.js:55-125 | over every run with new labels, a shown label points at its field's containers until a success, an emptying or a reset releases it |
| ErrorDisplay.SuccessReachesItsContainers | CsDemo/AspMvcDemo/wwwroot/lib/jquery-validation-unobtrusive/jquery.validate.unobtrusive.js:55-100 | over every such run, success for a label that nothing has released makes exactly its field's containers valid |
| ErrorDisplay.LabelIsLeftBehindExactly | CsDemo/AspMvcDemo/wwwroot/lib/jquery-validation-unobtrusive/jquery.validate.unobtrusive.js:58-98 | a new label is still in the page after its success if and only if the attribute is a falsy JSON value other than false |
| ErrorDisplay.ZeroLeavesTheLabelBehind | CsDemo/AspMvcDemo/wwwroot/lib/jquery-validation-unobtrusive/jquery.validate.unobtrusive.js:58-98 | a container whose attribute is `0` keeps its label |
| ErrorDisplay.ErrorsGoToTheirContainersExactly | CsDemo/AspMvcDemo/wwwroot/lib/jquery-validation-unobtrusive/jquery.validate.unobtrusive.js:56 | on every page exactly the containers made for the name are selected, if and only if the name holds no NUL or has a line end |

## Left out

- Glyph shaping, surrogate pairs, float rounding, image decoding and encoding: advances and heights are arbitrary non-negative exact reals.
- SkiaSharp's `BreakText` and `MeasureText`: taken as the longest fitting prefix and as any height; for a room of zero or less the library may count differently on characters of no width.
- ParseTextWrap: takes the number of loop turns allowed, because the source loop need not halt; likewise ParseTextWraps, DrawBySkia and FollowLinks.
- DrawBySkia: null requests, undecodable pictures and the reply message are not modelled.
- Overflow in converting a height to an integer.
- xargs beyond its quoting rules: command-line length limits, and GNU xargs's treatment of an empty quoted argument at the end of a line (an empty argument is lost in either case); `echo` options such as `-n`.
- Shell expansions, operators and patterns: an unquoted character that would start one makes the reading `Active`, and the printed text never contains one.
- Read: `=` is an ordinary character, as it is after the command name; assignments before a command are not modelled.
- Locale effects on `[:alnum:]`: letters and digits are the ASCII ones.
- The rest of `javademo/gradlew`: JVM discovery, the value of CLASSPATH, `ulimit`, `cygpath` (any function), `pwd -P`, starting java.
- The details `ls -ld` prints before a path: any text.
- LinkResolution.Files: links are keyed by the path text, so two spellings of one path are two paths.
- jQuery, the DOM and jQuery Validate beyond classes, stored data and rule maps; `resetForm` keeps those, fires any number of nested resets and may throw. Message containers are not nested in each other.
- ErrorDisplay.Form.OnError: when several containers match, only the label itself is tracked, not its clones.
- `addSingleVal` without an attribute name, whose default is never used; what the rules named `undefined` mean; how the `regex` and `nonalphamin` checks decide a value.
- ToUpper: only ASCII letters change case; the dotless i, which JavaScript also takes to I, stays.
- Unescape: hexadecimal escapes of halves of surrogate pairs, which no escaped name contains.
- `validationInfo` and `attachValidation`: creating and attaching the options object has no effect on the rules.
- `ImageSharpDemoImplement.cs`: its wrapping is inside the library.
- All gRPC clients, servers and generated code, certificate handling, web front ends, build files: plumbing.
