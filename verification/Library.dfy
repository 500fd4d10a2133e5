/** The registry as the library fills it, and what it makes of an element. */
module Library {
  import opened Adapters
  import opened JQuerySelectors
  import opened ModelPrefix
  import opened Options
  import opened RuleCompiler

  // Bounds an adapter is registered without are rules of the name "undefined".

  function Regex(): Adapter { SingleValAdapter("regex", "pattern", "regex") }

  function Length(): Adapter { MinMaxAdapter("length", "minlength", "maxlength", "rangelength", "", "") }

  function Range(): Adapter { MinMaxAdapter("range", "min", "max", "range", "", "") }

  function MinLength(): Adapter { MinMaxAdapter("minlength", "minlength", "undefined", "undefined", "", "") }

  function MaxLength(): Adapter { MinMaxAdapter("maxlength", "minlength", "maxlength", "undefined", "", "") }

  function FileExtensions(): Adapter { SingleValAdapter("fileextensions", "extensions", "extension") }

  /** Which adapters come first depends on whether jQuery Validate has an extension method. */
  function ExtensionAdapters(hasExtension: bool): seq<Adapter> {
    if hasExtension then [SingleValAdapter("accept", "mimtype", "accept"), SingleValAdapter("extension", "extension", "extension")]
    else [SingleValAdapter("extension", "extension", "accept")]
  }

  const FORMATS := ["creditcard", "date", "digits", "email", "number", "url"]

  function FormatAdapters(formats: seq<string>): (r: seq<Adapter>)
    ensures |r| == |formats|
  {
    if formats == [] then []
    else FormatAdapters(formats[..|formats| - 1]) + [BoolAdapter(formats[|formats| - 1], formats[|formats| - 1])]
  }

  /** In the order of the registration calls. */
  function LibraryAdapters(hasExtension: bool): seq<Adapter> {
    ExtensionAdapters(hasExtension) + [Regex()] + FormatAdapters(FORMATS)
    + [Length()] + [Range()] + [MinLength()] + [MaxLength()]
    + [EqualToAdapter()] + [RequiredAdapter()] + [RemoteAdapter()] + [PasswordAdapter()] + [FileExtensions()]
  }

  // ----------------------------------------------------------- what each adapter sets

  lemma OneSettingSets(rule: string, value: Value, wanted: string)
    ensures LastOf(OneSetting(rule, value).settings, wanted) == if rule == wanted then Some(value) else None
    ensures LastOf(NOTHING.settings, wanted) == None
  {
    assert OneSetting(rule, value).settings[..0] == [];
  }

  function FlagIf(b: bool): Option<Value> {
    if b then Some(Flag) else None
  }

  function TextOf(text: Option<string>): Option<Value> {
    if text.Some? then Some(Text(text.value)) else None
  }

  /** A value given by the attributes of a name, if there is one, and the message in the attribute of that name. */
  function By(element: Element, name: string, value: Option<Value>): Decision {
    WithMessage(element, OwnAttribute(name), value)
  }

  lemma BoolSets(name: string, rule: string, element: Element, inputs: seq<Element>, wanted: string)
    ensures SetBy(BoolAdapter(name, rule), element, inputs, wanted)
            == By(element, name, FlagIf(OwnAttribute(name) in element.attributes && rule == wanted))
    ensures !Adapt(BoolAdapter(name, rule), element, inputs).throws
  {
    OneSettingSets(rule, Flag, wanted);
  }

  /** The single value of an element: undefined when the attribute of the parameter is missing. */
  function SingleVal(element: Element, name: string, attribute: string): Option<Value> {
    if OwnAttribute(name) !in element.attributes then None
    else if ParamAttribute(name, attribute) in element.attributes
    then Some(Text(element.attributes[ParamAttribute(name, attribute)]))
    else Some(Undefined)
  }

  lemma SingleValSets(name: string, attribute: string, rule: string, element: Element, inputs: seq<Element>, wanted: string)
    ensures SetBy(SingleValAdapter(name, attribute, rule), element, inputs, wanted)
            == By(element, name, if rule == wanted then SingleVal(element, name, attribute) else None)
    ensures !Adapt(SingleValAdapter(name, attribute, rule), element, inputs).throws
  {
    var adapter := SingleValAdapter(name, attribute, rule);
    if OwnAttribute(name) in element.attributes {
      assert attribute in adapter.params;
      var params := RequestFor(adapter, element, inputs).params;
      assert attribute in params && params[attribute] == Attribute(element, ParamAttribute(name, attribute));
      OneSettingSets(rule, SingleVal(element, name, attribute).value, wanted);
    }
  }

  /** The bounds an element gives to an adapter, if it has the adapter's attribute. */
  function Low(element: Element, name: string): Option<string> {
    if OwnAttribute(name) in element.attributes then Given(element, ParamAttribute(name, "min")) else None
  }

  function High(element: Element, name: string): Option<string> {
    if OwnAttribute(name) in element.attributes then Given(element, ParamAttribute(name, "max")) else None
  }

  /** A minimum with no maximum beside it. */
  function LoneLow(element: Element, name: string): Option<Value> {
    if High(element, name).None? then TextOf(Low(element, name)) else None
  }

  /** A maximum with no minimum beside it. */
  function LoneHigh(element: Element, name: string): Option<Value> {
    if Low(element, name).None? then TextOf(High(element, name)) else None
  }

  function Both(element: Element, name: string): Option<Value> {
    if Low(element, name).Some? && High(element, name).Some?
    then Some(Bounds(Low(element, name).value, High(element, name).value)) else None
  }

  /** What an adapter for bounds with these rules makes of a rule. */
  function BoundsFor(
    element: Element, name: string, minRule: string, maxRule: string, minMaxRule: string, wanted: string): Option<Value>
  {
    if minMaxRule == wanted && Both(element, name).Some? then Both(element, name)
    else if minRule == wanted && LoneLow(element, name).Some? then LoneLow(element, name)
    else if maxRule == wanted then LoneHigh(element, name)
    else None
  }

  lemma MinMaxDoes(
    name: string, minRule: string, maxRule: string, minMaxRule: string, element: Element, inputs: seq<Element>)
    ensures var a := Adapt(MinMaxAdapter(name, minRule, maxRule, minMaxRule, "", ""), element, inputs);
            a == BoundsSetting(Low(element, name), High(element, name), minRule, maxRule, minMaxRule)
            && !a.throws && |a.settings| <= 1
  {
    BoundsAdapterDoes(name, minRule, maxRule, minMaxRule, "", "", element, inputs);
  }

  lemma MinMaxSets(
    name: string, minRule: string, maxRule: string, minMaxRule: string, element: Element, inputs: seq<Element>, wanted: string)
    ensures !Adapt(MinMaxAdapter(name, minRule, maxRule, minMaxRule, "", ""), element, inputs).throws
    ensures SetBy(MinMaxAdapter(name, minRule, maxRule, minMaxRule, "", ""), element, inputs, wanted)
            == By(element, name, BoundsFor(element, name, minRule, maxRule, minMaxRule, wanted))
  {
    MinMaxDoes(name, minRule, maxRule, minMaxRule, element, inputs);
    hide Adapt;
    match (Low(element, name), High(element, name))
    case (Some(low), Some(high)) => OneSettingSets(minMaxRule, Bounds(low, high), wanted);
    case (Some(low), None) => OneSettingSets(minRule, Text(low), wanted);
    case (None, Some(high)) => OneSettingSets(maxRule, Text(high), wanted);
    case (None, None) =>
  }

  /** The text is the upper-case word, in any case. */
  predicate InAnyCase(text: string, word: string) {
    |text| == |word| && forall i :: 0 <= i < |word| ==> text[i] == word[i] || text[i] as int == word[i] as int + 32
  }

  lemma {:induction false} ToUpperGivesWord(text: string, word: string)
    requires forall i :: 0 <= i < |word| ==> 'A' <= word[i] <= 'Z'
    ensures ToUpper(text) == word <==> InAnyCase(text, word)
    decreases |text|
  {
    ToUpperKeepsLength(text);
    if text != "" && |text| == |word| {
      ToUpperGivesWord(text[1..], word[1..]);
      assert ToUpper(text)[1..] == ToUpper(text[1..]);
      assert word == [word[0]] + word[1..];
      assert InAnyCase(text, word) ==> InAnyCase(text[1..], word[1..]);
      if InAnyCase(text[1..], word[1..]) {
        assert forall i :: 0 < i < |word| ==> text[i] == text[1..][i - 1] && word[i] == word[1..][i - 1];
      }
    }
  }

  lemma {:induction false} ToUpperKeepsLength(text: string)
    ensures |ToUpper(text)| == |text|
  {
    if text != "" {
      ToUpperKeepsLength(text[1..]);
    }
  }

  /** An input element of kind checkbox, in any case. */
  predicate IsCheckbox(element: Element) {
    InAnyCase(element.tagName, "INPUT") && InAnyCase(element.kind, "CHECKBOX")
  }

  lemma RequiredSets(element: Element, inputs: seq<Element>, wanted: string)
    ensures SetBy(RequiredAdapter(), element, inputs, wanted)
            == By(element, "required",
                  FlagIf(OwnAttribute("required") in element.attributes && !IsCheckbox(element) && wanted == "required"))
    ensures !Adapt(RequiredAdapter(), element, inputs).throws
  {
    ToUpperGivesWord(element.tagName, "INPUT");
    ToUpperGivesWord(element.kind, "CHECKBOX");
    hide InAnyCase, ToUpper;
    OneSettingSets("required", Flag, wanted);
  }

  /** The input that the other attribute names. */
  function OtherInput(element: Element, inputs: seq<Element>): Option<Value> {
    if OwnAttribute("equalto") !in element.attributes || ParamAttribute("equalto", "other") !in element.attributes then None
    else
      var other := element.attributes[ParamAttribute("equalto", "other")];
      Some(Input(SelectByName(inputs, AppendModelPrefix(other, GetModelPrefix(element.name)))))
  }

  lemma EqualToSets(element: Element, inputs: seq<Element>, wanted: string)
    ensures SetBy(EqualToAdapter(), element, inputs, wanted)
            == By(element, "equalto", if wanted == "equalTo" then OtherInput(element, inputs) else None)
    ensures Adapt(EqualToAdapter(), element, inputs).throws <==>
            OwnAttribute("equalto") in element.attributes && ParamAttribute("equalto", "other") !in element.attributes
  {
    var adapter := EqualToAdapter();
    if AttributeName(adapter) in element.attributes {
      var request := RequestFor(adapter, element, inputs);
      assert "other" in adapter.params;
      assert request.params["other"] == Attribute(element, ParamAttribute("equalto", "other"));
      if request.params["other"].Some? {
        OneSettingSets("equalTo", OtherInput(element, inputs).value, wanted);
      }
    }
  }

  /** The remote check an element asks for. */
  function RemoteCheck(element: Element): Option<Value> {
    if OwnAttribute("remote") !in element.attributes then None
    else
      var kind := Given(element, ParamAttribute("remote", "type"));
      Some(Remote(Attribute(element, ParamAttribute("remote", "url")), if kind.Some? then kind.value else "GET",
                  RemoteFields(element, Given(element, ParamAttribute("remote", "additionalfields")))))
  }

  lemma RemoteSets(element: Element, inputs: seq<Element>, wanted: string)
    ensures SetBy(RemoteAdapter(), element, inputs, wanted)
            == By(element, "remote", if wanted == "remote" then RemoteCheck(element) else None)
    ensures !Adapt(RemoteAdapter(), element, inputs).throws
  {
    var adapter := RemoteAdapter();
    if AttributeName(adapter) in element.attributes {
      assert adapter.params == ["url", "type", "additionalfields"];
      ParamIsGiven(adapter, element, inputs, "type");
      ParamIsGiven(adapter, element, inputs, "additionalfields");
      assert "url" in adapter.params;
      assert AdaptRemote(RequestFor(adapter, element, inputs)) == OneSetting("remote", RemoteCheck(element).value);
      OneSettingSets("remote", RemoteCheck(element).value, wanted);
    }
  }

  /** A parameter of the password adapter, if the element has the adapter's attribute. */
  function PasswordParam(element: Element, param: string): Option<Value> {
    if OwnAttribute("password") in element.attributes then TextOf(Given(element, ParamAttribute("password", param))) else None
  }

  /** What the password adapter makes of a rule. */
  function PasswordFor(element: Element, wanted: string): Option<Value> {
    if wanted == "minlength" then PasswordParam(element, "min")
    else if wanted == "nonalphamin" || wanted == "regex" then PasswordParam(element, wanted)
    else None
  }

  lemma LastOfConcat(a: seq<Setting>, b: seq<Setting>, rule: string)
    requires |b| <= 1
    ensures LastOf(a + b, rule) == if LastOf(b, rule).Some? then LastOf(b, rule) else LastOf(a, rule)
  {
    if b == [] {
      assert a + b == a;
    } else {
      assert (a + b)[..|a|] == a && b[..0] == [];
    }
  }

  lemma PasswordSets(element: Element, inputs: seq<Element>, wanted: string)
    ensures SetBy(PasswordAdapter(), element, inputs, wanted) == By(element, "password", PasswordFor(element, wanted))
    ensures !Adapt(PasswordAdapter(), element, inputs).throws
  {
    var adapter := PasswordAdapter();
    if AttributeName(adapter) in element.attributes {
      var request := RequestFor(adapter, element, inputs);
      assert adapter.params == ["min", "nonalphamin", "regex"];
      ParamIsGiven(adapter, element, inputs, "min");
      ParamIsGiven(adapter, element, inputs, "nonalphamin");
      ParamIsGiven(adapter, element, inputs, "regex");
      var a, b, c := SettingIfPresent(request, "min", "minlength"),
                     SettingIfPresent(request, "nonalphamin", "nonalphamin"),
                     SettingIfPresent(request, "regex", "regex");
      LastOfConcat(a + b, c, wanted);
      LastOfConcat(a, b, wanted);
      LastOfConcat([], a, wanted);
      assert [] + a == a && a[..0] == b[..0] == c[..0] == [];
    }
  }

  // --------------------------------------------------------------- the whole registry

  lemma DecidedByOneMore(front: seq<Adapter>, adapter: Adapter, element: Element, inputs: seq<Element>, rule: string)
    ensures Decided(front + [adapter], element, inputs, rule)
            == Or(SetBy(adapter, element, inputs, rule), Decided(front, element, inputs, rule))
  {
    assert (front + [adapter])[..|front|] == front;
  }

  lemma ThrowsWithOneMore(front: seq<Adapter>, adapter: Adapter, element: Element, inputs: seq<Element>)
    ensures Throws(front + [adapter], element, inputs) <==>
            Throws(front, element, inputs) || Adapt(adapter, element, inputs).throws
  {
    EntriesOfOneMore(front, adapter, element, inputs);
  }

  lemma ExtensionsDecide(hasExtension: bool, element: Element, inputs: seq<Element>, rule: string)
    ensures Decided(ExtensionAdapters(hasExtension), element, inputs, rule)
            == if rule == (if hasExtension then "extension" else "accept")
               then By(element, "extension", SingleVal(element, "extension", "extension"))
               else if hasExtension && rule == "accept"
               then By(element, "accept", SingleVal(element, "accept", "mimtype"))
               else UNDECIDED
    ensures !Throws(ExtensionAdapters(hasExtension), element, inputs)
  {
    hide Adapt, LastOf, SingleVal;
    SingleValSets("extension", "extension", if hasExtension then "extension" else "accept", element, inputs, rule);
    var extension := SingleValAdapter("extension", "extension", if hasExtension then "extension" else "accept");
    var front := if hasExtension then [SingleValAdapter("accept", "mimtype", "accept")] else [];
    assert ExtensionAdapters(hasExtension) == front + [extension];
    DecidedByOneMore(front, extension, element, inputs, rule);
    if hasExtension {
      SingleValSets("accept", "mimtype", "accept", element, inputs, rule);
      DecidedByOneMore([], front[0], element, inputs, rule);
      assert [] + [front[0]] == front;
    }
  }

  lemma {:induction false} FormatsDecide(formats: seq<string>, element: Element, inputs: seq<Element>, rule: string)
    ensures Decided(FormatAdapters(formats), element, inputs, rule)
            == By(element, rule, FlagIf(rule in formats && OwnAttribute(rule) in element.attributes))
    ensures !Throws(FormatAdapters(formats), element, inputs)
    decreases |formats|
  {
    hide Adapt, SetBy, Throws, BoolAdapter, OwnAttribute;
    if formats == [] {
      NothingThrows(element, inputs);
    } else {
      var front, last := formats[..|formats| - 1], formats[|formats| - 1];
      assert formats == front + [last];
      FormatsDecide(front, element, inputs, rule);
      BoolSets(last, last, element, inputs, rule);
      DecidedByOneMore(FormatAdapters(front), BoolAdapter(last, last), element, inputs, rule);
      ThrowsWithOneMore(FormatAdapters(front), BoolAdapter(last, last), element, inputs);
    }
  }

  lemma NothingThrows(element: Element, inputs: seq<Element>)
    ensures !Throws([], element, inputs)
  {
  }

  /** The values the adapters set for a rule, the last registered first. */
  function Candidates(hasExtension: bool, element: Element, inputs: seq<Element>, rule: string): Decision {
    Or(SetBy(FileExtensions(), element, inputs, rule),
    Or(SetBy(PasswordAdapter(), element, inputs, rule),
    Or(SetBy(RemoteAdapter(), element, inputs, rule),
    Or(SetBy(RequiredAdapter(), element, inputs, rule),
    Or(SetBy(EqualToAdapter(), element, inputs, rule),
    Or(SetBy(MaxLength(), element, inputs, rule),
    Or(SetBy(MinLength(), element, inputs, rule),
    Or(SetBy(Range(), element, inputs, rule),
    Or(SetBy(Length(), element, inputs, rule),
    Or(Decided(FormatAdapters(FORMATS), element, inputs, rule),
    Or(SetBy(Regex(), element, inputs, rule),
       Decided(ExtensionAdapters(hasExtension), element, inputs, rule))))))))))))
  }

  lemma LibraryDecides(hasExtension: bool, element: Element, inputs: seq<Element>, rule: string)
    ensures Decided(LibraryAdapters(hasExtension), element, inputs, rule)
            == Candidates(hasExtension, element, inputs, rule)
  {
    hide Decided, SetBy, ExtensionAdapters, FormatAdapters;
    var p0 := ExtensionAdapters(hasExtension);
    DecidedByOneMore(p0, Regex(), element, inputs, rule);
    var p1 := p0 + [Regex()];
    DecidedOfConcat(p1, FormatAdapters(FORMATS), element, inputs, rule);
    var p2 := p1 + FormatAdapters(FORMATS);
    DecidedByOneMore(p2, Length(), element, inputs, rule);
    var p3 := p2 + [Length()];
    DecidedByOneMore(p3, Range(), element, inputs, rule);
    var p4 := p3 + [Range()];
    DecidedByOneMore(p4, MinLength(), element, inputs, rule);
    var p5 := p4 + [MinLength()];
    DecidedByOneMore(p5, MaxLength(), element, inputs, rule);
    var p6 := p5 + [MaxLength()];
    DecidedByOneMore(p6, EqualToAdapter(), element, inputs, rule);
    var p7 := p6 + [EqualToAdapter()];
    DecidedByOneMore(p7, RequiredAdapter(), element, inputs, rule);
    var p8 := p7 + [RequiredAdapter()];
    DecidedByOneMore(p8, RemoteAdapter(), element, inputs, rule);
    var p9 := p8 + [RemoteAdapter()];
    DecidedByOneMore(p9, PasswordAdapter(), element, inputs, rule);
    var p10 := p9 + [PasswordAdapter()];
    DecidedByOneMore(p10, FileExtensions(), element, inputs, rule);
  }

  /** The library's registry throws exactly on an equalto attribute without the name of the other field. */
  lemma LibraryThrowsExactly(hasExtension: bool, element: Element, inputs: seq<Element>)
    ensures Throws(LibraryAdapters(hasExtension), element, inputs) <==>
            OwnAttribute("equalto") in element.attributes && ParamAttribute("equalto", "other") !in element.attributes
  {
    hide Throws, Adapt, SetBy, Decided;
    var p0 := ExtensionAdapters(hasExtension);
    ExtensionsDecide(hasExtension, element, inputs, "");
    SingleValSets("regex", "pattern", "regex", element, inputs, "");
    ThrowsWithOneMore(p0, Regex(), element, inputs);
    var p1 := p0 + [Regex()];
    FormatsThrowNothing(p1, FORMATS, element, inputs);
    var p2 := p1 + FormatAdapters(FORMATS);
    MinMaxSets("length", "minlength", "maxlength", "rangelength", element, inputs, "");
    ThrowsWithOneMore(p2, Length(), element, inputs);
    var p3 := p2 + [Length()];
    MinMaxSets("range", "min", "max", "range", element, inputs, "");
    ThrowsWithOneMore(p3, Range(), element, inputs);
    var p4 := p3 + [Range()];
    MinMaxSets("minlength", "minlength", "undefined", "undefined", element, inputs, "");
    ThrowsWithOneMore(p4, MinLength(), element, inputs);
    var p5 := p4 + [MinLength()];
    MinMaxSets("maxlength", "minlength", "maxlength", "undefined", element, inputs, "");
    ThrowsWithOneMore(p5, MaxLength(), element, inputs);
    var p6 := p5 + [MaxLength()];
    EqualToSets(element, inputs, "");
    ThrowsWithOneMore(p6, EqualToAdapter(), element, inputs);
    var p7 := p6 + [EqualToAdapter()];
    RequiredSets(element, inputs, "");
    ThrowsWithOneMore(p7, RequiredAdapter(), element, inputs);
    var p8 := p7 + [RequiredAdapter()];
    RemoteSets(element, inputs, "");
    ThrowsWithOneMore(p8, RemoteAdapter(), element, inputs);
    var p9 := p8 + [RemoteAdapter()];
    PasswordSets(element, inputs, "");
    ThrowsWithOneMore(p9, PasswordAdapter(), element, inputs);
    var p10 := p9 + [PasswordAdapter()];
    SingleValSets("fileextensions", "extensions", "extension", element, inputs, "");
    ThrowsWithOneMore(p10, FileExtensions(), element, inputs);
  }

  lemma {:induction false} FormatsThrowNothing(front: seq<Adapter>, formats: seq<string>, element: Element, inputs: seq<Element>)
    ensures Throws(front + FormatAdapters(formats), element, inputs) <==> Throws(front, element, inputs)
    decreases |formats|
  {
    hide Throws, Adapt;
    if formats == [] {
      assert front + [] == front;
    } else {
      var some, last := formats[..|formats| - 1], formats[|formats| - 1];
      FormatsThrowNothing(front, some, element, inputs);
      BoolSets(last, last, element, inputs, "");
      assert front + FormatAdapters(formats) == (front + FormatAdapters(some)) + [BoolAdapter(last, last)];
      ThrowsWithOneMore(front + FormatAdapters(some), BoolAdapter(last, last), element, inputs);
    }
  }

  // ---------------------------------------------------------------- rules of the library

  /** The value and the message the library's registry gives a rule. */
  function RuleOf(hasExtension: bool, element: Element, inputs: seq<Element>, rule: string): Decision {
    LookUp(Compile(LibraryAdapters(hasExtension), element, inputs), rule)
  }

  predicate IsComplete(element: Element) {
    OwnAttribute("equalto") in element.attributes ==> ParamAttribute("equalto", "other") in element.attributes
  }

  /** What all the adapters set for a rule, the last registered first. */
  lemma AllSet(hasExtension: bool, element: Element, inputs: seq<Element>, rule: string)
    requires IsComplete(element)
    ensures var all := Candidates(hasExtension, element, inputs, rule);
            RuleOf(hasExtension, element, inputs, rule) == if rule == "__dummy__" then all.(value := Some(Flag)) else all
    ensures SetBy(FileExtensions(), element, inputs, rule)
            == By(element, "fileextensions", if rule == "extension" then SingleVal(element, "fileextensions", "extensions") else None)
    ensures SetBy(PasswordAdapter(), element, inputs, rule) == By(element, "password", PasswordFor(element, rule))
    ensures SetBy(RemoteAdapter(), element, inputs, rule)
            == By(element, "remote", if rule == "remote" then RemoteCheck(element) else None)
    ensures SetBy(RequiredAdapter(), element, inputs, rule)
            == By(element, "required",
                  FlagIf(OwnAttribute("required") in element.attributes && !IsCheckbox(element) && rule == "required"))
    ensures SetBy(EqualToAdapter(), element, inputs, rule)
            == By(element, "equalto", if rule == "equalTo" then OtherInput(element, inputs) else None)
    ensures SetBy(MaxLength(), element, inputs, rule)
            == By(element, "maxlength", BoundsFor(element, "maxlength", "minlength", "maxlength", "undefined", rule))
    ensures SetBy(MinLength(), element, inputs, rule)
            == By(element, "minlength", BoundsFor(element, "minlength", "minlength", "undefined", "undefined", rule))
    ensures SetBy(Range(), element, inputs, rule)
            == By(element, "range", BoundsFor(element, "range", "min", "max", "range", rule))
    ensures SetBy(Length(), element, inputs, rule)
            == By(element, "length", BoundsFor(element, "length", "minlength", "maxlength", "rangelength", rule))
    ensures SetBy(Regex(), element, inputs, rule)
            == By(element, "regex", if rule == "regex" then SingleVal(element, "regex", "pattern") else None)
  {
    hide *;
    LibraryThrowsExactly(hasExtension, element, inputs);
    CompleteDecided(hasExtension, element, inputs, rule);
    LibraryDecides(hasExtension, element, inputs, rule);
    SingleValSets("fileextensions", "extensions", "extension", element, inputs, rule);
    PasswordSets(element, inputs, rule);
    RemoteSets(element, inputs, rule);
    RequiredSets(element, inputs, rule);
    EqualToSets(element, inputs, rule);
    MinMaxSets("maxlength", "minlength", "maxlength", "undefined", element, inputs, rule);
    MinMaxSets("minlength", "minlength", "undefined", "undefined", element, inputs, rule);
    MinMaxSets("range", "min", "max", "range", element, inputs, rule);
    MinMaxSets("length", "minlength", "maxlength", "rangelength", element, inputs, rule);
    SingleValSets("regex", "pattern", "regex", element, inputs, rule);
    RegisteredAs();
  }

  lemma RegisteredAs()
    ensures FileExtensions() == SingleValAdapter("fileextensions", "extensions", "extension")
    ensures Regex() == SingleValAdapter("regex", "pattern", "regex")
    ensures MaxLength() == MinMaxAdapter("maxlength", "minlength", "maxlength", "undefined", "", "")
    ensures MinLength() == MinMaxAdapter("minlength", "minlength", "undefined", "undefined", "", "")
    ensures Range() == MinMaxAdapter("range", "min", "max", "range", "", "")
    ensures Length() == MinMaxAdapter("length", "minlength", "maxlength", "rangelength", "", "")
  {
  }

  lemma CompleteDecided(hasExtension: bool, element: Element, inputs: seq<Element>, rule: string)
    requires IsComplete(element)
    ensures var all := Decided(LibraryAdapters(hasExtension), element, inputs, rule);
            RuleOf(hasExtension, element, inputs, rule) == if rule == "__dummy__" then all.(value := Some(Flag)) else all
  {
    LibraryThrowsExactly(hasExtension, element, inputs);
    hide Throws, LibraryAdapters, Decided, Compile;
    LastAdapterDecides(LibraryAdapters(hasExtension), element, inputs, rule);
  }

  predicate IsFormat(rule: string) {
    rule in FORMATS
  }

  /** What the lists of format adapters and of extension adapters make of a rule. */
  lemma OutsideTheLists(hasExtension: bool, element: Element, inputs: seq<Element>, rule: string)
    ensures !IsFormat(rule) ==> Decided(FormatAdapters(FORMATS), element, inputs, rule) == UNDECIDED
    ensures IsFormat(rule) ==>
              Decided(FormatAdapters(FORMATS), element, inputs, rule) == By(element, rule, FlagIf(OwnAttribute(rule) in element.attributes))
    ensures rule != "extension" && rule != "accept" ==> Decided(ExtensionAdapters(hasExtension), element, inputs, rule) == UNDECIDED
    ensures rule == "accept" ==>
              Decided(ExtensionAdapters(hasExtension), element, inputs, rule)
              == if hasExtension then By(element, "accept", SingleVal(element, "accept", "mimtype"))
                 else By(element, "extension", SingleVal(element, "extension", "extension"))
    ensures rule == "extension" ==>
              Decided(ExtensionAdapters(hasExtension), element, inputs, rule)
              == if hasExtension then By(element, "extension", SingleVal(element, "extension", "extension")) else UNDECIDED
  {
    hide Decided, OwnAttribute, SingleVal;
    FormatsDecide(FORMATS, element, inputs, rule);
    ExtensionsDecide(hasExtension, element, inputs, rule);
  }

  /** The minimum length is decided by password, then maxlength, minlength and length, each but the first only by a minimum without maximum. */
  lemma MinLengthIsDecidedBy(hasExtension: bool, element: Element, inputs: seq<Element>)
    requires IsComplete(element)
    ensures RuleOf(hasExtension, element, inputs, "minlength")
            == Or(By(element, "password", PasswordParam(element, "min")),
               Or(By(element, "maxlength", LoneLow(element, "maxlength")),
               Or(By(element, "minlength", LoneLow(element, "minlength")),
                  By(element, "length", LoneLow(element, "length")))))
  {
    hide SetBy, RuleOf, Decided, OwnAttribute, ParamAttribute, Given, Low, High, Both, LoneLow, LoneHigh, SingleVal, PasswordParam, RemoteCheck, OtherInput, IsCheckbox;
    AllSet(hasExtension, element, inputs, "minlength");
    OutsideTheLists(hasExtension, element, inputs, "minlength");
  }

  /** The maximum length is decided by maxlength, else by length, each only by a maximum without minimum. */
  lemma MaxLengthIsDecidedBy(hasExtension: bool, element: Element, inputs: seq<Element>)
    requires IsComplete(element)
    ensures RuleOf(hasExtension, element, inputs, "maxlength")
            == Or(By(element, "maxlength", LoneHigh(element, "maxlength")), By(element, "length", LoneHigh(element, "length")))
  {
    hide SetBy, RuleOf, Decided, OwnAttribute, ParamAttribute, Given, Low, High, Both, LoneLow, LoneHigh, SingleVal, PasswordParam, RemoteCheck, OtherInput, IsCheckbox;
    AllSet(hasExtension, element, inputs, "maxlength");
    OutsideTheLists(hasExtension, element, inputs, "maxlength");
  }

  /** A range of lengths comes from two bounds of length alone. */
  lemma RangeLengthIsDecidedBy(hasExtension: bool, element: Element, inputs: seq<Element>)
    requires IsComplete(element)
    ensures RuleOf(hasExtension, element, inputs, "rangelength")
            == By(element, "length", Both(element, "length"))
  {
    hide SetBy, RuleOf, Decided, OwnAttribute, ParamAttribute, Given, Low, High, Both, LoneLow, LoneHigh, SingleVal, PasswordParam, RemoteCheck, OtherInput, IsCheckbox;
    AllSet(hasExtension, element, inputs, "rangelength");
    OutsideTheLists(hasExtension, element, inputs, "rangelength");
  }

  /** A minimum, a maximum or a range comes from the bounds of range alone. */
  lemma RangeIsDecidedBy(hasExtension: bool, element: Element, inputs: seq<Element>)
    requires IsComplete(element)
    ensures RuleOf(hasExtension, element, inputs, "min") == By(element, "range", LoneLow(element, "range"))
    ensures RuleOf(hasExtension, element, inputs, "max") == By(element, "range", LoneHigh(element, "range"))
    ensures RuleOf(hasExtension, element, inputs, "range") == By(element, "range", Both(element, "range"))
  {
    hide SetBy, RuleOf, Decided, OwnAttribute, ParamAttribute, Given, Low, High, Both, LoneLow, LoneHigh, SingleVal, PasswordParam, RemoteCheck, OtherInput, IsCheckbox;
    AllSet(hasExtension, element, inputs, "min");
    OutsideTheLists(hasExtension, element, inputs, "min");
    AllSet(hasExtension, element, inputs, "max");
    OutsideTheLists(hasExtension, element, inputs, "max");
    AllSet(hasExtension, element, inputs, "range");
    OutsideTheLists(hasExtension, element, inputs, "range");
  }

  /** Accept is decided by the accept attribute where there is an extension method, else by the extension attribute. */
  lemma AcceptIsDecidedBy(hasExtension: bool, element: Element, inputs: seq<Element>)
    requires IsComplete(element)
    ensures RuleOf(hasExtension, element, inputs, "accept")
            == if hasExtension then By(element, "accept", SingleVal(element, "accept", "mimtype"))
               else By(element, "extension", SingleVal(element, "extension", "extension"))
  {
    hide SetBy, RuleOf, Decided, OwnAttribute, ParamAttribute, Given, Low, High, Both, LoneLow, LoneHigh, SingleVal, PasswordParam, RemoteCheck, OtherInput, IsCheckbox;
    AllSet(hasExtension, element, inputs, "accept");
    OutsideTheLists(hasExtension, element, inputs, "accept");
  }

  /** The number of special characters is decided by password alone. */
  lemma NonAlphaMinIsDecidedBy(hasExtension: bool, element: Element, inputs: seq<Element>)
    requires IsComplete(element)
    ensures RuleOf(hasExtension, element, inputs, "nonalphamin")
            == By(element, "password", PasswordParam(element, "nonalphamin"))
  {
    hide SetBy, RuleOf, Decided, OwnAttribute, ParamAttribute, Given, Low, High, Both, LoneLow, LoneHigh, SingleVal, PasswordParam, RemoteCheck, OtherInput, IsCheckbox;
    AllSet(hasExtension, element, inputs, "nonalphamin");
    OutsideTheLists(hasExtension, element, inputs, "nonalphamin");
  }

  /** The pattern is decided by password's regex, else by the regex attribute. */
  lemma RegexIsDecidedBy(hasExtension: bool, element: Element, inputs: seq<Element>)
    requires IsComplete(element)
    ensures RuleOf(hasExtension, element, inputs, "regex")
            == Or(By(element, "password", PasswordParam(element, "regex")), By(element, "regex", SingleVal(element, "regex", "pattern")))
  {
    hide SetBy, RuleOf, Decided, OwnAttribute, ParamAttribute, Given, Low, High, Both, LoneLow, LoneHigh, SingleVal, PasswordParam, RemoteCheck, OtherInput, IsCheckbox;
    AllSet(hasExtension, element, inputs, "regex");
    OutsideTheLists(hasExtension, element, inputs, "regex");
  }

  /** The extensions are decided by fileextensions, else by the extension attribute where there is an extension method. */
  lemma ExtensionIsDecidedBy(hasExtension: bool, element: Element, inputs: seq<Element>)
    requires IsComplete(element)
    ensures RuleOf(hasExtension, element, inputs, "extension")
            == Or(By(element, "fileextensions", SingleVal(element, "fileextensions", "extensions")),
                  if hasExtension then By(element, "extension", SingleVal(element, "extension", "extension")) else UNDECIDED)
  {
    hide SetBy, RuleOf, Decided, OwnAttribute, ParamAttribute, Given, Low, High, Both, LoneLow, LoneHigh, SingleVal, PasswordParam, RemoteCheck, OtherInput, IsCheckbox;
    AllSet(hasExtension, element, inputs, "extension");
    OutsideTheLists(hasExtension, element, inputs, "extension");
  }

  /** Every element with the required attribute is required, except checkboxes. */
  lemma RequiredExceptCheckboxes(hasExtension: bool, element: Element, inputs: seq<Element>)
    requires IsComplete(element)
    ensures RuleOf(hasExtension, element, inputs, "required")
            == By(element, "required", FlagIf(OwnAttribute("required") in element.attributes && !IsCheckbox(element)))
  {
    hide SetBy, RuleOf, Decided, OwnAttribute, ParamAttribute, Given, Low, High, Both, LoneLow, LoneHigh, SingleVal, PasswordParam, RemoteCheck, OtherInput, IsCheckbox;
    AllSet(hasExtension, element, inputs, "required");
    OutsideTheLists(hasExtension, element, inputs, "required");
  }

  /** equalTo refers to the input the other attribute names, remote asks what its attributes say. */
  lemma OtherFieldsAreCompiled(hasExtension: bool, element: Element, inputs: seq<Element>)
    requires IsComplete(element)
    ensures RuleOf(hasExtension, element, inputs, "equalTo") == By(element, "equalto", OtherInput(element, inputs))
    ensures RuleOf(hasExtension, element, inputs, "remote") == By(element, "remote", RemoteCheck(element))
  {
    hide SetBy, RuleOf, Decided, OwnAttribute, ParamAttribute, Given, Low, High, Both, LoneLow, LoneHigh, SingleVal, PasswordParam, RemoteCheck, OtherInput, IsCheckbox;
    AllSet(hasExtension, element, inputs, "equalTo");
    OutsideTheLists(hasExtension, element, inputs, "equalTo");
    AllSet(hasExtension, element, inputs, "remote");
    OutsideTheLists(hasExtension, element, inputs, "remote");
  }

  /** Each format is checked exactly when its attribute is present. */
  lemma FormatRulesAreFlags(hasExtension: bool, element: Element, inputs: seq<Element>, format: string)
    requires IsComplete(element) && format in FORMATS
    ensures RuleOf(hasExtension, element, inputs, format)
            == By(element, format, FlagIf(OwnAttribute(format) in element.attributes))
  {
    hide SetBy, RuleOf, Decided, OwnAttribute, ParamAttribute, Given, Low, High, Both, LoneLow, LoneHigh, SingleVal, PasswordParam, RemoteCheck, OtherInput, IsCheckbox;
    AllSet(hasExtension, element, inputs, format);
    OutsideTheLists(hasExtension, element, inputs, format);
  }

  /** The adapters registered with fewer rules than bounds put what is left into a rule named undefined. */
  lemma UndefinedIsDecidedBy(hasExtension: bool, element: Element, inputs: seq<Element>)
    requires IsComplete(element)
    ensures RuleOf(hasExtension, element, inputs, "undefined")
            == Or(By(element, "maxlength", Both(element, "maxlength")),
                  By(element, "minlength",
                     if Both(element, "minlength").Some? then Both(element, "minlength") else LoneHigh(element, "minlength")))
  {
    hide SetBy, RuleOf, Decided, OwnAttribute, ParamAttribute, Given, Low, High, Both, LoneLow, LoneHigh, SingleVal, PasswordParam, RemoteCheck, OtherInput, IsCheckbox;
    AllSet(hasExtension, element, inputs, "undefined");
    OutsideTheLists(hasExtension, element, inputs, "undefined");
  }

  /** The rules that the lemmas above decide. */
  predicate IsDecidedAbove(rule: string) {
    || rule == "minlength" || rule == "maxlength" || rule == "rangelength" || rule == "min" || rule == "max" || rule == "range"
    || rule == "accept" || rule == "nonalphamin" || rule == "regex" || rule == "extension" || rule == "required"
    || rule == "equalTo" || rule == "remote" || rule == "undefined" || IsFormat(rule)
  }

  /** Every complete element has the dummy rule, without a message, and no rule beside those. */
  lemma NoOtherRules(hasExtension: bool, element: Element, inputs: seq<Element>, rule: string)
    requires IsComplete(element) && !IsDecidedAbove(rule)
    ensures RuleOf(hasExtension, element, inputs, rule) == Decision(FlagIf(rule == "__dummy__"), None)
  {
    hide SetBy, RuleOf, Decided, OwnAttribute, ParamAttribute, Given, Low, High, Both, LoneLow, LoneHigh, SingleVal, PasswordParam, RemoteCheck, OtherInput, IsCheckbox, IsFormat;
    AllSet(hasExtension, element, inputs, rule);
    OutsideTheLists(hasExtension, element, inputs, rule);
  }

  // ---------------------------------------------------------------- after a whole document

  /** The library's parsing of a document stops at the first element of a form with an equalto attribute but no name of the other field. */
  lemma ParsingStopsExactly(hasExtension: bool, elements: seq<Element>, inputs: nat -> seq<Element>, i: nat)
    requires i < |elements|
    ensures i < Reached(LibraryAdapters(hasExtension), elements, inputs) <==> forall j :: 0 <= j < i ==> !LacksOther(elements[j])
  {
    hide LibraryAdapters, ElementThrows, LacksOther, Reached;
    var adapters := LibraryAdapters(hasExtension);
    forall j | 0 <= j < |elements| ensures ElementThrows(adapters, elements[j], inputs) <==> LacksOther(elements[j]) {
      ElementThrowsExactly(hasExtension, elements[j], inputs);
    }
    var r := Reached(adapters, elements, inputs);
    if r <= i {
      assert LacksOther(elements[r - 1]);
    }
  }

  lemma ElementThrowsExactly(hasExtension: bool, element: Element, inputs: nat -> seq<Element>)
    ensures ElementThrows(LibraryAdapters(hasExtension), element, inputs) <==> LacksOther(element)
  {
    LibraryThrowsExactly(hasExtension, element, InputsOf(element, inputs));
    hide LibraryAdapters, Throws;
    assert OwnAttribute("equalto") == "data-val-equalto" && ParamAttribute("equalto", "other") == "data-val-equalto-other";
  }

  predicate LacksOther(element: Element) {
    element.form.Some? && "data-val-equalto" in element.attributes && "data-val-equalto-other" !in element.attributes
  }

  /**
   * After the library has parsed a document, equalTo of the last element with a form and name refers to
   * the first input of that form with exactly the resolved name, if the name holds no NUL.
   */
  lemma EqualToAfterParse(
    hasExtension: bool, table: RuleTable, elements: seq<Element>, inputs: nat -> seq<Element>, key: Key, i: nat)
    requires var seen := elements[..Reached(LibraryAdapters(hasExtension), elements, inputs)];
             && IsLastWithKey(seen, key, i)
             && "data-val-equalto" in seen[i].attributes && "data-val-equalto-other" in seen[i].attributes
    ensures var seen := elements[..Reached(LibraryAdapters(hasExtension), elements, inputs)];
            var name := AppendModelPrefix(seen[i].attributes["data-val-equalto-other"], GetModelPrefix(key.name));
            var after := ParseAll(table, LibraryAdapters(hasExtension), elements, inputs);
            && key in after
            && ('\0' !in name ==>
                  LookUp(after[key], "equalTo").value == Some(Input(FirstNamed(inputs(key.form), name, 0))))
  {
    hide LibraryAdapters, Compile, Reached, ParseAll, FirstNamed, ReadByFilter, AppendModelPrefix;
    var seen := elements[..Reached(LibraryAdapters(hasExtension), elements, inputs)];
    LastElementWins(table, LibraryAdapters(hasExtension), elements, inputs, key);
    assert OwnAttribute("equalto") == "data-val-equalto" && ParamAttribute("equalto", "other") == "data-val-equalto-other";
    OtherFieldsAreCompiled(hasExtension, seen[i], inputs(key.form));
    var name := AppendModelPrefix(seen[i].attributes["data-val-equalto-other"], GetModelPrefix(key.name));
    ReadByFilterExactly(|inputs(key.form)|, name);
  }

  // ------------------------------------------------------------------ a range check alone

  predicate Lacks(element: Element, name: string) {
    OwnAttribute(name) !in element.attributes
  }

  /** Of all adapters' attributes the element has that of range alone. */
  predicate HasOnlyRange(element: Element) {
    && !Lacks(element, "range")
    && Lacks(element, "accept") && Lacks(element, "extension") && Lacks(element, "fileextensions")
    && Lacks(element, "regex") && (forall i :: 0 <= i < |FORMATS| ==> Lacks(element, FORMATS[i]))
    && Lacks(element, "length") && Lacks(element, "minlength") && Lacks(element, "maxlength")
    && Lacks(element, "equalto") && Lacks(element, "required") && Lacks(element, "remote") && Lacks(element, "password")
  }

  lemma PresentWithOneMore(front: seq<Adapter>, adapter: Adapter, element: Element)
    ensures Present(front + [adapter], element)
            == Present(front, element) + if AttributeName(adapter) in element.attributes then [adapter] else []
  {
    assert (front + [adapter])[..|front|] == front;
  }

  lemma AbsentStaysAway(front: seq<Adapter>, adapter: Adapter, element: Element)
    requires AttributeName(adapter) !in element.attributes
    ensures Present(front + [adapter], element) == Present(front, element)
  {
    PresentWithOneMore(front, adapter, element);
    assert Present(front, element) + [] == Present(front, element);
  }

  lemma {:induction false} NoFormatPresent(front: seq<Adapter>, formats: seq<string>, element: Element)
    requires forall i :: 0 <= i < |formats| ==> Lacks(element, formats[i])
    ensures Present(front + FormatAdapters(formats), element) == Present(front, element)
    decreases |formats|
  {
    hide Present;
    if formats == [] {
      assert front + [] == front;
    } else {
      var some, last := formats[..|formats| - 1], formats[|formats| - 1];
      NoFormatPresent(front, some, element);
      assert front + FormatAdapters(formats) == (front + FormatAdapters(some)) + [BoolAdapter(last, last)];
      AbsentStaysAway(front + FormatAdapters(some), BoolAdapter(last, last), element);
    }
  }

  lemma ExtensionsAbsent(hasExtension: bool, element: Element)
    requires Lacks(element, "accept") && Lacks(element, "extension")
    ensures Present(ExtensionAdapters(hasExtension), element) == []
  {
    var extension := SingleValAdapter("extension", "extension", if hasExtension then "extension" else "accept");
    var front := if hasExtension then [SingleValAdapter("accept", "mimtype", "accept")] else [];
    assert ExtensionAdapters(hasExtension) == front + [extension];
    AbsentStaysAway(front, extension, element);
    if hasExtension {
      AbsentStaysAway([], front[0], element);
      assert [] + [front[0]] == front;
    }
  }

  lemma OnlyRangeIsPresent(hasExtension: bool, element: Element)
    requires HasOnlyRange(element)
    ensures Present(LibraryAdapters(hasExtension), element) == [Range()]
  {
    hide Present, FormatAdapters, ExtensionAdapters;
    var p0 := ExtensionAdapters(hasExtension);
    ExtensionsAbsent(hasExtension, element);
    AbsentStaysAway(p0, Regex(), element);
    var p1 := p0 + [Regex()];
    NoFormatPresent(p1, FORMATS, element);
    var p2 := p1 + FormatAdapters(FORMATS);
    AbsentStaysAway(p2, Length(), element);
    var p3 := p2 + [Length()];
    PresentWithOneMore(p3, Range(), element);
    var p4 := p3 + [Range()];
    AbsentStaysAway(p4, MinLength(), element);
    var p5 := p4 + [MinLength()];
    AbsentStaysAway(p5, MaxLength(), element);
    var p6 := p5 + [MaxLength()];
    AbsentStaysAway(p6, EqualToAdapter(), element);
    var p7 := p6 + [EqualToAdapter()];
    AbsentStaysAway(p7, RequiredAdapter(), element);
    var p8 := p7 + [RequiredAdapter()];
    AbsentStaysAway(p8, RemoteAdapter(), element);
    var p9 := p8 + [RemoteAdapter()];
    AbsentStaysAway(p9, PasswordAdapter(), element);
    var p10 := p9 + [PasswordAdapter()];
    AbsentStaysAway(p10, FileExtensions(), element);
  }

  /** The rules of a registry of just one adapter that sets at most one rule. */
  lemma CompileOne(adapter: Adapter, element: Element, inputs: seq<Element>)
    requires AttributeName(adapter) in element.attributes
    requires var a := Adapt(adapter, element, inputs); !a.throws && |a.settings| <= 1
    ensures var settings, message := Adapt(adapter, element, inputs).settings, MessageOf(adapter, element);
            Compile([adapter], element, inputs)
            == SetValidationValues(
                 if settings == [] then EMPTY
                 else SetValidationValues(EMPTY, Entry(settings[0].rule, settings[0].value, message)),
                 DUMMY)
  {
    NoAdapterYet([adapter], element, inputs);
    NextAdapter([adapter], element, inputs, 0);
    var entries := ToEntries(Adapt(adapter, element, inputs).settings, MessageOf(adapter, element));
    assert entries != [] ==> entries[..0] == [];
  }

  function WithDummy(rules: map<string, Value>, message: string): RuleSet {
    RuleSet(rules["__dummy__" := Flag], map r | r in rules && message != "" :: message)
  }

  lemma OneRuleWithDummy(rule: string, value: Value, message: string)
    ensures SetValidationValues(SetValidationValues(EMPTY, Entry(rule, value, message)), DUMMY)
            == WithDummy(map[rule := value], message)
    ensures SetValidationValues(EMPTY, DUMMY) == WithDummy(map[], message)
  {
  }

  /**
   * In the library's registry an element with just the range attributes gets a range from two
   * non-empty bounds, one bound from one, no rule but the dummy from none; the message goes with it.
   */
  lemma RangeAloneIsCompiled(hasExtension: bool, element: Element, inputs: seq<Element>)
    requires HasOnlyRange(element)
    ensures var rule := match (Low(element, "range"), High(element, "range"))
                        case (Some(low), Some(high)) => map["range" := Bounds(low, high)]
                        case (Some(low), None) => map["min" := Text(low)]
                        case (None, Some(high)) => map["max" := Text(high)]
                        case (None, None) => map[];
            Compile(LibraryAdapters(hasExtension), element, inputs)
            == WithDummy(rule, element.attributes[OwnAttribute("range")])
  {
    AbsentAdaptersDropOut(LibraryAdapters(hasExtension), element, inputs);
    OnlyRangeIsPresent(hasExtension, element);
    hide Adapt, Compile, LibraryAdapters, HasOnlyRange;
    MinMaxDoes("range", "min", "max", "range", element, inputs);
    CompileOne(Range(), element, inputs);
    hide SetValidationValues, WithDummy, Low, High, OwnAttribute;
    var message := element.attributes[OwnAttribute("range")];
    match (Low(element, "range"), High(element, "range"))
    case (Some(low), Some(high)) => OneRuleWithDummy("range", Bounds(low, high), message);
    case (Some(low), None) => OneRuleWithDummy("min", Text(low), message);
    case (None, Some(high)) => OneRuleWithDummy("max", Text(high), message);
    case (None, None) => OneRuleWithDummy("", Flag, message);
  }
}
