/** The adapters that come with the library. */
module Adapters {
  import opened JQuerySelectors
  import opened ListSplit
  import opened ModelPrefix
  import opened Options
  import opened RuleCompiler

  /** A parameter that is present and not empty. */
  function Param(request: Request, name: string): Option<string> {
    if name in request.params && request.params[name].Some? && request.params[name].value != ""
    then request.params[name] else None
  }

  function OneSetting(rule: string, value: Value): Adaptation {
    Adaptation([Setting(rule, value)], false)
  }

  const NOTHING := Adaptation([], false)
  const THROWN := Adaptation([], true)

  function BoolAdapter(name: string, rule: string): Adapter {
    Adapter(name, [], (request: Request) => OneSetting(rule, Flag))
  }

  function BoundsSetting(
    min: Option<string>, max: Option<string>, minRule: string, maxRule: string, minMaxRule: string): Adaptation
  {
    match (min, max)
    case (Some(low), Some(high)) => OneSetting(minMaxRule, Bounds(low, high))
    case (Some(low), None) => OneSetting(minRule, Text(low))
    case (None, Some(high)) => OneSetting(maxRule, Text(high))
    case (None, None) => NOTHING
  }

  function OrDefault(attribute: string, default: string): string {
    if attribute != "" then attribute else default
  }

  /** The bound attributes can be named, but the bounds are always looked up as min and max. */
  function MinMaxAdapter(
    name: string, minRule: string, maxRule: string, minMaxRule: string, minAttribute: string, maxAttribute: string)
    : Adapter
  {
    Adapter(name, [OrDefault(minAttribute, "min"), OrDefault(maxAttribute, "max")],
            (request: Request) =>
              BoundsSetting(Param(request, "min"), Param(request, "max"), minRule, maxRule, minMaxRule))
  }

  function SingleValAdapter(name: string, attribute: string, rule: string): Adapter {
    Adapter(name, [attribute],
            (request: Request) => OneSetting(rule,
                                  if attribute in request.params && request.params[attribute].Some?
                                  then Text(request.params[attribute].value) else Undefined))
  }

  function RequiredAdapter(): Adapter {
    Adapter("required", [],
            (request: Request) => if ToUpper(request.element.tagName) != "INPUT" || ToUpper(request.element.kind) != "CHECKBOX"
                       then OneSetting("required", Flag) else NOTHING)
  }

  function ToUpper(s: string): string {
    if s == "" then ""
    else [if 'a' <= s[0] <= 'z' then (s[0] as int - 32) as char else s[0]] + ToUpper(s[1..])
  }

  /** The first input with a name. */
  function FirstNamed(inputs: seq<Element>, name: string, from: nat): (index: Option<nat>)
    requires from <= |inputs|
    ensures index.Some? ==> from <= index.value < |inputs| && inputs[index.value].name == name
    ensures index.Some? ==> forall i :: from <= i < index.value ==> inputs[i].name != name
    ensures index.None? ==> forall i :: from <= i < |inputs| ==> inputs[i].name != name
    decreases |inputs| - from
  {
    if from == |inputs| then None
    else if inputs[from].name == name then Some(from)
    else FirstNamed(inputs, name, from + 1)
  }

  /** The first input left by the filter [name='...'] with the escaped name. */
  function SelectByName(inputs: seq<Element>, name: string): Option<nat> {
    FirstNamed(inputs, ReadByFilter(|inputs|, name), 0)
  }

  function AdaptEqualTo(request: Request): Adaptation {
    if "other" !in request.params || request.params["other"].None? then THROWN
    else
      var other := AppendModelPrefix(request.params["other"].value, GetModelPrefix(request.element.name));
      OneSetting("equalTo", Input(SelectByName(request.inputs, other)))
  }

  function EqualToAdapter(): Adapter {
    Adapter("equalto", ["other"], AdaptEqualTo)
  }

  /** The names of the fields sent with a remote check. */
  function RemoteFields(element: Element, additionalFields: Option<string>): set<string> {
    var names := SplitAndTrim(if additionalFields.Some? then additionalFields.value else element.name);
    set n | n in names :: AppendModelPrefix(n, GetModelPrefix(element.name))
  }

  function AdaptRemote(request: Request): Adaptation {
    OneSetting("remote",
               Remote(if "url" in request.params then request.params["url"] else None,
                      if Param(request, "type").Some? then Param(request, "type").value else "GET",
                      RemoteFields(request.element, Param(request, "additionalfields"))))
  }

  function RemoteAdapter(): Adapter {
    Adapter("remote", ["url", "type", "additionalfields"], AdaptRemote)
  }

  function SettingIfPresent(request: Request, param: string, rule: string): seq<Setting> {
    if Param(request, param).Some? then [Setting(rule, Text(Param(request, param).value))] else []
  }

  function AdaptPassword(request: Request): Adaptation {
    Adaptation(
      SettingIfPresent(request, "min", "minlength")
      + SettingIfPresent(request, "nonalphamin", "nonalphamin")
      + SettingIfPresent(request, "regex", "regex"),
      false)
  }

  function PasswordAdapter(): Adapter {
    Adapter("password", ["min", "nonalphamin", "regex"], AdaptPassword)
  }

  // ------------------------------------------------------------------ bounds and their names

  function OwnAttribute(name: string): string {
    "data-val-" + name
  }

  function ParamAttribute(name: string, param: string): string {
    OwnAttribute(name) + "-" + param
  }

  /** An attribute that is present and not empty. */
  function Given(element: Element, attribute: string): Option<string> {
    if attribute in element.attributes && element.attributes[attribute] != "" then Some(element.attributes[attribute])
    else None
  }

  lemma ParamIsGiven(adapter: Adapter, element: Element, inputs: seq<Element>, param: string)
    requires AttributeName(adapter) in element.attributes
    ensures Param(RequestFor(adapter, element, inputs), param)
            == if param in adapter.params then Given(element, AttributeName(adapter) + "-" + param) else None
  {
  }

  /** What the adapter is documented to do: take the bounds from the attributes of the names given. */
  function AdaptAsDocumented(
    name: string, minRule: string, maxRule: string, minMaxRule: string, minAttribute: string, maxAttribute: string,
    element: Element): Adaptation
  {
    if OwnAttribute(name) !in element.attributes then NOTHING
    else
      BoundsSetting(
        Given(element, ParamAttribute(name, OrDefault(minAttribute, "min"))),
        Given(element, ParamAttribute(name, OrDefault(maxAttribute, "max"))),
        minRule, maxRule, minMaxRule)
  }

  function GivenIf(b: bool, element: Element, attribute: string): Option<string> {
    if b then Given(element, attribute) else None
  }

  /** What it does: a bound is found only under min or max, and only if that name was given. */
  lemma BoundsAdapterDoes(
    name: string, minRule: string, maxRule: string, minMaxRule: string, minAttribute: string, maxAttribute: string,
    element: Element, inputs: seq<Element>)
    ensures var names := [OrDefault(minAttribute, "min"), OrDefault(maxAttribute, "max")];
            Adapt(MinMaxAdapter(name, minRule, maxRule, minMaxRule, minAttribute, maxAttribute), element, inputs)
            == if OwnAttribute(name) !in element.attributes then NOTHING
               else BoundsSetting(
                      GivenIf("min" in names, element, ParamAttribute(name, "min")),
                      GivenIf("max" in names, element, ParamAttribute(name, "max")),
                      minRule, maxRule, minMaxRule)
  {
    var adapter := MinMaxAdapter(name, minRule, maxRule, minMaxRule, minAttribute, maxAttribute);
    if OwnAttribute(name) in element.attributes {
      ParamIsGiven(adapter, element, inputs, "min");
      ParamIsGiven(adapter, element, inputs, "max");
    }
  }

  lemma AttributesDiffer(name: string, p: string, q: string)
    ensures ParamAttribute(name, p) == ParamAttribute(name, q) <==> p == q
    ensures ParamAttribute(name, p) != OwnAttribute(name)
  {
    var n := |OwnAttribute(name) + "-"|;
    assert ParamAttribute(name, p)[n..] == p && ParamAttribute(name, q)[n..] == q;
  }

  /** An element on which bounds named m and x are not found where they are documented to be. */
  function FailingElement(name: string, m: string, x: string): Element {
    var own := OwnAttribute(name);
    var attributes :=
      if m == "max" && x == "min" then map[own := "", ParamAttribute(name, m) := "1", ParamAttribute(name, x) := "2"]
      else if m != "min" && (m != "max" || x == "max") then map[own := "", ParamAttribute(name, m) := "1"]
      else map[own := "", ParamAttribute(name, x) := "1"];
    Element("", "INPUT", "TEXT", attributes, None)
  }

  lemma FailingElementFails(
    name: string, minRule: string, maxRule: string, minMaxRule: string, minAttribute: string, maxAttribute: string)
    requires OrDefault(minAttribute, "min") != "min" || OrDefault(maxAttribute, "max") != "max"
    ensures var element := FailingElement(name, OrDefault(minAttribute, "min"), OrDefault(maxAttribute, "max"));
            Adapt(MinMaxAdapter(name, minRule, maxRule, minMaxRule, minAttribute, maxAttribute), element, [])
            != AdaptAsDocumented(name, minRule, maxRule, minMaxRule, minAttribute, maxAttribute, element)
  {
    hide OwnAttribute, ParamAttribute, OrDefault;
    var m, x := OrDefault(minAttribute, "min"), OrDefault(maxAttribute, "max");
    BoundsAdapterDoes(name, minRule, maxRule, minMaxRule, minAttribute, maxAttribute, FailingElement(name, m, x), []);
    AttributesDiffer(name, m, x);
    AttributesDiffer(name, m, "min");
    AttributesDiffer(name, m, "max");
    AttributesDiffer(name, x, "min");
    AttributesDiffer(name, x, "max");
    AttributesDiffer(name, "min", "max");
  }

  /** The bounds are taken as documented from every element exactly when the names are min and max. */
  lemma BoundsAsDocumentedExactly(
    name: string, minRule: string, maxRule: string, minMaxRule: string, minAttribute: string, maxAttribute: string)
    ensures (forall element, inputs ::
              Adapt(MinMaxAdapter(name, minRule, maxRule, minMaxRule, minAttribute, maxAttribute), element, inputs)
              == AdaptAsDocumented(name, minRule, maxRule, minMaxRule, minAttribute, maxAttribute, element))
            <==> OrDefault(minAttribute, "min") == "min" && OrDefault(maxAttribute, "max") == "max"
  {
    if OrDefault(minAttribute, "min") == "min" && OrDefault(maxAttribute, "max") == "max" {
      forall element, inputs
        ensures Adapt(MinMaxAdapter(name, minRule, maxRule, minMaxRule, minAttribute, maxAttribute), element, inputs)
                == AdaptAsDocumented(name, minRule, maxRule, minMaxRule, minAttribute, maxAttribute, element)
      {
        BoundsAdapterDoes(name, minRule, maxRule, minMaxRule, minAttribute, maxAttribute, element, inputs);
      }
    } else {
      FailingElementFails(name, minRule, maxRule, minMaxRule, minAttribute, maxAttribute);
    }
  }

  /** A range check whose minimum is to be read from data-val-range-low ignores a minimum given there. */
  lemma RenamedMinimumIsIgnored()
    ensures var element := FailingElement("range", "low", "max");
            && Given(element, "data-val-range-low") == Some("1")
            && Adapt(MinMaxAdapter("range", "min", "max", "range", "low", ""), element, []) == NOTHING
            && AdaptAsDocumented("range", "min", "max", "range", "low", "", element) == OneSetting("min", Text("1"))
  {
    BoundsAdapterDoes("range", "min", "max", "range", "low", "", FailingElement("range", "low", "max"), []);
    AttributesDiffer("range", "low", "max");
    assert ParamAttribute("range", "low") == "data-val-range-low";
  }

  // ---------------------------------------------------------------------- equalTo, remote

  function OtherName(request: Request): string
    requires "other" in request.params && request.params["other"].Some?
  {
    AppendModelPrefix(request.params["other"].value, GetModelPrefix(request.element.name))
  }

  /** equalTo refers to the first input with exactly the resolved name, save that a lone input is not found by a name with a NUL and no line end. */
  lemma EqualToFindsTheOtherField(request: Request)
    requires "other" in request.params && request.params["other"].Some?
    ensures var name := OtherName(request);
            |request.inputs| != 1 || '\0' !in name || HasLineEnd(name) ==>
              AdaptEqualTo(request) == OneSetting("equalTo", Input(FirstNamed(request.inputs, name, 0)))
  {
    hide ReadByFilter, FirstNamed;
    ReadByFilterExactly(|request.inputs|, OtherName(request));
  }

  /** Whatever the inputs of the form, the first of exactly the resolved name is found, if and only if the name holds no NUL or has a line end. */
  lemma EqualToFindsExactly(request: Request)
    requires "other" in request.params && request.params["other"].Some?
    ensures var name := OtherName(request);
            (forall inputs :: AdaptEqualTo(request.(inputs := inputs))
                              == OneSetting("equalTo", Input(FirstNamed(inputs, name, 0))))
            <==> '\0' !in name || HasLineEnd(name)
  {
    var name := OtherName(request);
    if '\0' !in name || HasLineEnd(name) {
      forall inputs
        ensures AdaptEqualTo(request.(inputs := inputs)) == OneSetting("equalTo", Input(FirstNamed(inputs, name, 0)))
      {
        EqualToFindsTheOtherField(request.(inputs := inputs));
      }
    } else {
      var alone := [Element(name, "INPUT", "TEXT", map[], None)];
      ReadByFilterExactly(1, name);
      assert FirstNamed(alone, name, 0) == Some(0);
      var found := FirstNamed(alone, ReadByFilter(1, name), 0);
      assert alone[0].name != ReadByFilter(1, name);
      assert found != Some(0);
      assert AdaptEqualTo(request.(inputs := alone)) == OneSetting("equalTo", Input(found));
    }
  }

  /** *.x refers to the input with the same model prefix and last segment x. */
  lemma EqualToSibling(request: Request, x: string)
    requires "other" in request.params && request.params["other"] == Some("*." + x)
    requires !HasDollarPattern(GetModelPrefix(request.element.name))
    ensures var name := GetModelPrefix(request.element.name) + x;
            |request.inputs| != 1 || '\0' !in name || HasLineEnd(name) ==>
              AdaptEqualTo(request) == OneSetting("equalTo", Input(FirstNamed(request.inputs, name, 0)))
    ensures '.' !in x ==>
              var name := GetModelPrefix(request.element.name) + x;
              GetModelPrefix(name) == GetModelPrefix(request.element.name) && LastSegment(name) == x
  {
    PrefixIsLiteralExactlyWithoutPattern(GetModelPrefix(request.element.name));
    EqualToFindsTheOtherField(request);
    if '.' !in x {
      RelativeNameIsSibling(request.element.name, x);
    }
  }

  /** Without additional fields, a remote check sends the field itself, when its name reads as one list item. */
  lemma RemoteSendsTheFieldItself(element: Element)
    requires IsTrimmed(element.name) && ',' !in element.name && !("*." <= element.name)
    ensures RemoteFields(element, None) == {element.name}
  {
    SplitAndTrimIsSplitThenTrim(element.name);
    LonePiece(element.name);
    var names := SplitAndTrim(element.name);
    assert forall n :: n in names <==> n == element.name;
    assert AppendModelPrefix(element.name, GetModelPrefix(element.name)) == element.name;
  }

  /** The field a list item stands for: the sibling for a relative name, else the field of just that name. */
  function Meant(prefix: string, item: string): string {
    if |item| >= 2 && item[0] == '*' && item[1] == '.' then prefix + item[2..] else item
  }

  /** With a padded list of names, it sends exactly the fields meant: siblings for relative names, the others as they are. */
  lemma RemoteSendsTheFieldsMeant(element: Element, items: seq<Padded>)
    requires items != [] && forall i :: 0 <= i < |items| ==> IsListItem(items[i])
    requires !HasDollarPattern(GetModelPrefix(element.name))
    ensures RemoteFields(element, Some(JoinPadded(items)))
            == set i | 0 <= i < |items| :: Meant(GetModelPrefix(element.name), items[i].item)
  {
    JoinedListIsRecovered(items);
    hide SplitAndTrim, JoinPadded, GetModelPrefix, IsListItem, AppendModelPrefix, Meant, HasDollarPattern;
    var prefix, names := GetModelPrefix(element.name), SplitAndTrim(JoinPadded(items));
    assert RemoteFields(element, Some(JoinPadded(items))) == set n | n in names :: AppendModelPrefix(n, prefix);
    hide RemoteFields;
    forall i | 0 <= i < |items| ensures AppendModelPrefix(names[i], prefix) == Meant(prefix, items[i].item) {
      AppendedIsMeant(prefix, items[i].item);
    }
    SameFields(names, prefix, items);
  }

  lemma SameFields(names: seq<string>, prefix: string, items: seq<Padded>)
    requires |names| == |items|
    requires forall i :: 0 <= i < |items| ==> AppendModelPrefix(names[i], prefix) == Meant(prefix, items[i].item)
    ensures (set n | n in names :: AppendModelPrefix(n, prefix)) == set i | 0 <= i < |items| :: Meant(prefix, items[i].item)
  {
    hide AppendModelPrefix, Meant;
    var sent, meant := set n | n in names :: AppendModelPrefix(n, prefix), set i | 0 <= i < |items| :: Meant(prefix, items[i].item);
    forall f ensures f in sent <==> f in meant {
      if f in sent {
        var n :| n in names && f == AppendModelPrefix(n, prefix);
        var i :| 0 <= i < |names| && names[i] == n;
        assert f == Meant(prefix, items[i].item);
      }
      if f in meant {
        var i :| 0 <= i < |items| && f == Meant(prefix, items[i].item);
        assert names[i] in names && f == AppendModelPrefix(names[i], prefix);
      }
    }
  }

  lemma AppendedIsMeant(prefix: string, item: string)
    requires !HasDollarPattern(prefix)
    ensures AppendModelPrefix(item, prefix) == Meant(prefix, item)
  {
    PrefixIsLiteralExactlyWithoutPattern(prefix);
    if "*." <= item {
      assert item == "*." + item[2..];
    }
  }
}
