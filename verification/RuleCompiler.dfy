/** Compiling data-val attributes into validation rules by an ordered registry of adapters. */
module RuleCompiler {
  import opened Options

  datatype Value =
    | Flag                                  // true
    | Undefined
    | Text(text: string)
    | Bounds(min: string, max: string)
    | Input(index: Option<nat>)             // an input of the form, if one was found
    | Remote(url: Option<string>, kind: string, fields: set<string>)

  /** An HTML element, with the form it is in. */
  datatype Element = Element(
    name: string, tagName: string, kind: string, attributes: map<string, string>, form: Option<nat>)

  /** What an adapter is given: the element, the inputs of its form, the message and the parameters. */
  datatype Request = Request(
    element: Element, inputs: seq<Element>, message: string, params: map<string, Option<string>>)

  datatype Setting = Setting(rule: string, value: Value)

  /** The rules an adapter sets, in order, and whether it then throws. */
  datatype Adaptation = Adaptation(settings: seq<Setting>, throws: bool)

  datatype Adapter = Adapter(name: string, params: seq<string>, adapt: Request -> Adaptation)

  // --------------------------------------------------------------------- rule sets

  datatype RuleSet = RuleSet(rules: map<string, Value>, messages: map<string, string>)

  const EMPTY := RuleSet(map[], map[])

  /** A setting together with the message of the adapter that makes it. */
  datatype Entry = Entry(rule: string, value: Value, message: string)

  /** The rule is always set, the message only when it is not empty. */
  function SetValidationValues(s: RuleSet, e: Entry): RuleSet {
    RuleSet(
      s.rules[e.rule := e.value],
      if e.message != "" then s.messages[e.rule := e.message] else s.messages)
  }

  function SetAll(s: RuleSet, entries: seq<Entry>): RuleSet {
    if entries == [] then s
    else SetValidationValues(SetAll(s, entries[..|entries| - 1]), entries[|entries| - 1])
  }

  function Attribute(element: Element, name: string): Option<string> {
    if name in element.attributes then Some(element.attributes[name]) else None
  }

  function AttributeName(adapter: Adapter): string {
    "data-val-" + adapter.name
  }

  /** The parameter values, absent ones included. */
  function ParamValues(element: Element, adapter: Adapter): (params: map<string, Option<string>>)
    ensures forall p :: p in params <==> p in adapter.params
    ensures forall p :: p in params ==> params[p] == Attribute(element, AttributeName(adapter) + "-" + p)
  {
    map p | p in adapter.params :: Attribute(element, AttributeName(adapter) + "-" + p)
  }

  function RequestFor(adapter: Adapter, element: Element, inputs: seq<Element>): Request
    requires AttributeName(adapter) in element.attributes
  {
    Request(element, inputs, element.attributes[AttributeName(adapter)], ParamValues(element, adapter))
  }

  /** What an adapter does to an element: nothing unless the element has its attribute, even an empty one. */
  function Adapt(adapter: Adapter, element: Element, inputs: seq<Element>): Adaptation {
    if AttributeName(adapter) in element.attributes then adapter.adapt(RequestFor(adapter, element, inputs))
    else Adaptation([], false)
  }

  function MessageOf(adapter: Adapter, element: Element): string {
    if AttributeName(adapter) in element.attributes then element.attributes[AttributeName(adapter)] else ""
  }

  function ToEntries(settings: seq<Setting>, message: string): (entries: seq<Entry>)
    ensures |entries| == |settings|
  {
    seq(|settings|, i requires 0 <= i < |settings| => Entry(settings[i].rule, settings[i].value, message))
  }

  /** Some adapter among the first k throws. */
  predicate ThrowsWithin(adapters: seq<Adapter>, element: Element, inputs: seq<Element>, k: nat)
    requires k <= |adapters|
  {
    exists i :: 0 <= i < k && Adapt(adapters[i], element, inputs).throws
  }

  /** The entries made by the first k adapters, in registration order, up to one that throws. */
  function Entries(adapters: seq<Adapter>, element: Element, inputs: seq<Element>, k: nat): seq<Entry>
    requires k <= |adapters|
  {
    if k == 0 then []
    else if ThrowsWithin(adapters, element, inputs, k - 1) then Entries(adapters, element, inputs, k - 1)
    else
      var adapter := adapters[k - 1];
      Entries(adapters, element, inputs, k - 1)
      + ToEntries(Adapt(adapter, element, inputs).settings, MessageOf(adapter, element))
  }

  const DUMMY := Entry("__dummy__", Flag, "")

  /** The rules of an element: those of its adapters in order and, unless one throws, the dummy rule. */
  function Compile(adapters: seq<Adapter>, element: Element, inputs: seq<Element>): RuleSet {
    var s := SetAll(EMPTY, Entries(adapters, element, inputs, |adapters|));
    if Throws(adapters, element, inputs) then s else SetValidationValues(s, DUMMY)
  }

  predicate Throws(adapters: seq<Adapter>, element: Element, inputs: seq<Element>) {
    ThrowsWithin(adapters, element, inputs, |adapters|)
  }

  /** Rules by form and element name. */
  datatype Key = Key(form: nat, name: string)

  type RuleTable = map<Key, RuleSet>

  function Store(table: RuleTable, element: Element, s: RuleSet): RuleTable {
    if element.form.Some? then table[Key(element.form.value, element.name) := s] else table
  }

  class Registry {
    var adapters: seq<Adapter>
    var table: RuleTable

    constructor ()
      ensures adapters == [] && table == map[]
    {
      adapters, table := [], map[];
    }

    method Add(name: string, params: seq<string>, adapt: Request -> Adaptation)
      modifies this`adapters
      ensures adapters == old(adapters) + [Adapter(name, params, adapt)]
    {
      adapters := adapters + [Adapter(name, params, adapt)];
    }

    method ParseElement(element: Element, inputs: seq<Element>) returns (threw: bool)
      modifies this`table
      ensures table == Store(old(table), element, Compile(adapters, element, inputs))
      ensures threw <==> element.form.Some? && Throws(adapters, element, inputs)
    {
      if element.form.None? {
        return false;
      }
      table := table[Key(element.form.value, element.name) := EMPTY];
      threw := RunAdapters(element, inputs, Key(element.form.value, element.name));
    }

    /** All adapters, in registration order, on fresh rules. */
    method RunAdapters(element: Element, inputs: seq<Element>, key: Key) returns (threw: bool)
      requires key in table && table[key] == EMPTY
      modifies this`table
      ensures table == old(table)[key := Compile(adapters, element, inputs)]
      ensures threw <==> Throws(adapters, element, inputs)
    {
      hide *;
      NoAdapterYet(adapters, element, inputs);
      for k := 0 to |adapters|
        invariant key in table && table == old(table)[key := table[key]]
        invariant table[key] == SetAll(EMPTY, Entries(adapters, element, inputs, k))
        invariant !ThrowsWithin(adapters, element, inputs, k)
      {
        NextAdapter(adapters, element, inputs, k);
        threw := RunAdapter(adapters[k], element, inputs, key);
        if threw {
          ThrownCompile(adapters, element, inputs, k + 1);
          return;
        }
      }
      table := table[key := SetValidationValues(table[key], DUMMY)];
      FinishedCompile(adapters, element, inputs);
      threw := false;
    }

    /** One adapter's turn on the rules under construction. */
    method RunAdapter(adapter: Adapter, element: Element, inputs: seq<Element>, key: Key) returns (threw: bool)
      requires key in table
      modifies this`table
      ensures threw == Adapt(adapter, element, inputs).throws
      ensures table == old(table)[key :=
                SetAll(old(table)[key], ToEntries(Adapt(adapter, element, inputs).settings, MessageOf(adapter, element)))]
    {
      var prefix := "data-val-" + adapter.name;
      if prefix !in element.attributes {
        return false;
      }
      var message := element.attributes[prefix];
      var a := adapter.adapt(Request(element, inputs, message, ParamValues(element, adapter)));
      var entries := ToEntries(a.settings, message);
      var start := table[key];
      for i := 0 to |entries|
        invariant key in table && table == old(table)[key := SetAll(start, entries[..i])]
      {
        table := table[key := SetValidationValues(table[key], entries[i])];
        assert entries[..i + 1][..i] == entries[..i];
      }
      assert entries[..|entries|] == entries;
      threw := a.throws;
    }

    /** Elements are parsed in document order until one throws. */
    method Parse(elements: seq<Element>, inputs: nat -> seq<Element>) returns (threw: bool)
      modifies this`table
      ensures table == ParseAll(old(table), adapters, elements, inputs)
      ensures threw <==> exists i :: 0 <= i < |elements| && ElementThrows(adapters, elements[i], inputs)
    {
      for i := 0 to |elements|
        invariant forall n :: 0 <= n < i ==> !ElementThrows(adapters, elements[n], inputs)
        invariant ParseAll(table, adapters, elements[i..], inputs) == ParseAll(old(table), adapters, elements, inputs)
      {
        assert elements[i..][1..] == elements[i + 1..];
        threw := ParseElement(elements[i], InputsOf(elements[i], inputs));
        if threw {
          assert ElementThrows(adapters, elements[i], inputs);
          return;
        }
      }
      threw := false;
    }
  }

  /** The inputs of the element's form. */
  function InputsOf(element: Element, inputs: nat -> seq<Element>): seq<Element> {
    if element.form.Some? then inputs(element.form.value) else []
  }

  function CompileIn(adapters: seq<Adapter>, element: Element, inputs: nat -> seq<Element>): RuleSet {
    Compile(adapters, element, InputsOf(element, inputs))
  }

  predicate ElementThrows(adapters: seq<Adapter>, element: Element, inputs: nat -> seq<Element>) {
    element.form.Some? && Throws(adapters, element, InputsOf(element, inputs))
  }

  function ParseAll(
    table: RuleTable, adapters: seq<Adapter>, elements: seq<Element>, inputs: nat -> seq<Element>): RuleTable
    decreases |elements|
  {
    if elements == [] then table
    else
      var next := Store(table, elements[0], CompileIn(adapters, elements[0], inputs));
      if ElementThrows(adapters, elements[0], inputs) then next
      else ParseAll(next, adapters, elements[1..], inputs)
  }

  lemma {:induction false} SetAllOfConcat(s: RuleSet, a: seq<Entry>, b: seq<Entry>)
    ensures SetAll(s, a + b) == SetAll(SetAll(s, a), b)
    decreases |b|
  {
    if b == [] {
      assert a + b == a;
    } else {
      assert (a + b)[..|a + b| - 1] == a + b[..|b| - 1];
      SetAllOfConcat(s, a, b[..|b| - 1]);
    }
  }

  lemma NoAdapterYet(adapters: seq<Adapter>, element: Element, inputs: seq<Element>)
    ensures !ThrowsWithin(adapters, element, inputs, 0)
    ensures SetAll(EMPTY, Entries(adapters, element, inputs, 0)) == EMPTY
  {
  }

  lemma NextAdapter(adapters: seq<Adapter>, element: Element, inputs: seq<Element>, k: nat)
    requires k < |adapters| && !ThrowsWithin(adapters, element, inputs, k)
    ensures var a := Adapt(adapters[k], element, inputs);
            && (ThrowsWithin(adapters, element, inputs, k + 1) <==> a.throws)
            && SetAll(EMPTY, Entries(adapters, element, inputs, k + 1))
               == SetAll(SetAll(EMPTY, Entries(adapters, element, inputs, k)),
                         ToEntries(a.settings, MessageOf(adapters[k], element)))
  {
    var a := Adapt(adapters[k], element, inputs);
    var entries := ToEntries(a.settings, MessageOf(adapters[k], element));
    SetAllOfConcat(EMPTY, Entries(adapters, element, inputs, k), entries);
  }

  lemma ThrownCompile(adapters: seq<Adapter>, element: Element, inputs: seq<Element>, k: nat)
    requires k <= |adapters| && ThrowsWithin(adapters, element, inputs, k)
    ensures Throws(adapters, element, inputs)
    ensures Compile(adapters, element, inputs) == SetAll(EMPTY, Entries(adapters, element, inputs, k))
  {
    EntriesStopAtThrow(adapters, element, inputs, k, |adapters|);
  }

  lemma FinishedCompile(adapters: seq<Adapter>, element: Element, inputs: seq<Element>)
    requires !ThrowsWithin(adapters, element, inputs, |adapters|)
    ensures !Throws(adapters, element, inputs)
    ensures Compile(adapters, element, inputs)
            == SetValidationValues(SetAll(EMPTY, Entries(adapters, element, inputs, |adapters|)), DUMMY)
  {
  }

  lemma {:induction false} EntriesStopAtThrow(
    adapters: seq<Adapter>, element: Element, inputs: seq<Element>, k: nat, n: nat)
    requires k <= n <= |adapters| && ThrowsWithin(adapters, element, inputs, k)
    ensures Entries(adapters, element, inputs, n) == Entries(adapters, element, inputs, k)
  {
    if k < n {
      EntriesStopAtThrow(adapters, element, inputs, k, n - 1);
    }
  }

  // ------------------------------------------------------------- the last setting wins

  /** Entry i is the last one for its rule that carries a value, or a message. */
  predicate IsLast(entries: seq<Entry>, rule: string, i: nat, withMessage: bool) {
    && i < |entries| && entries[i].rule == rule && (withMessage ==> entries[i].message != "")
    && forall j :: i < j < |entries| && entries[j].rule == rule ==> withMessage && entries[j].message == ""
  }

  predicate IsSet(entries: seq<Entry>, rule: string, withMessage: bool) {
    exists i :: 0 <= i < |entries| && entries[i].rule == rule && (withMessage ==> entries[i].message != "")
  }

  /**
   * A rule is present exactly when some entry sets it, with the value of the last entry for it;
   * its message is that of the last entry for it whose message is not empty.
   */
  lemma {:induction false} LastSettingWins(entries: seq<Entry>, rule: string)
    ensures var s := SetAll(EMPTY, entries);
            && (rule in s.rules <==> IsSet(entries, rule, false))
            && (rule in s.messages <==> IsSet(entries, rule, true))
            && (forall i: nat :: IsLast(entries, rule, i, false) ==> rule in s.rules && s.rules[rule] == entries[i].value)
            && (forall i: nat :: IsLast(entries, rule, i, true) ==> rule in s.messages && s.messages[rule] == entries[i].message)
    decreases |entries|
  {
    hide IsSet;
    if entries == [] {
      NothingIsSet(rule);
    } else {
      var n := |entries| - 1;
      var front := entries[..n];
      LastSettingWins(front, rule);
      IsSetStep(entries, rule, false);
      IsSetStep(entries, rule, true);
      forall i: nat, m | i < n && IsLast(entries, rule, i, m)
        ensures IsLast(front, rule, i, m)
        ensures entries[n].rule == rule ==> m && entries[n].message == ""
      {
        IsLastStep(entries, rule, i, m);
      }
    }
  }

  lemma NothingIsSet(rule: string)
    ensures !IsSet([], rule, false) && !IsSet([], rule, true)
  {
  }

  lemma IsSetStep(entries: seq<Entry>, rule: string, m: bool)
    requires entries != []
    ensures var last := entries[|entries| - 1];
            IsSet(entries, rule, m)
            <==> IsSet(entries[..|entries| - 1], rule, m) || (last.rule == rule && (m ==> last.message != ""))
  {
    var n := |entries| - 1;
    var front, last := entries[..n], entries[n];
    if IsSet(front, rule, m) {
      var i :| 0 <= i < n && front[i].rule == rule && (m ==> front[i].message != "");
      assert entries[i] == front[i];
    }
    if IsSet(entries, rule, m) {
      var i :| 0 <= i < |entries| && entries[i].rule == rule && (m ==> entries[i].message != "");
      if i < n { assert front[i] == entries[i]; }
    }
  }

  lemma IsLastStep(entries: seq<Entry>, rule: string, i: nat, m: bool)
    requires i < |entries| - 1 && IsLast(entries, rule, i, m)
    ensures IsLast(entries[..|entries| - 1], rule, i, m)
    ensures entries[|entries| - 1].rule == rule ==> m && entries[|entries| - 1].message == ""
  {
    var front := entries[..|entries| - 1];
    assert forall j :: 0 <= j < |front| ==> front[j] == entries[j];
  }

  // ------------------------------------------------------- which adapter decides a rule

  /** What becomes of a rule: its value and its message. */
  datatype Decision = Decision(value: Option<Value>, message: Option<string>)

  const UNDECIDED := Decision(None, None)

  function LookUp(s: RuleSet, rule: string): Decision {
    Decision(if rule in s.rules then Some(s.rules[rule]) else None,
             if rule in s.messages then Some(s.messages[rule]) else None)
  }

  /** The first value and the first message that are there. */
  function Or(a: Decision, b: Decision): Decision {
    Decision(if a.value.Some? then a.value else b.value, if a.message.Some? then a.message else b.message)
  }

  /** The value of the last of some settings for a rule. */
  function LastOf(settings: seq<Setting>, rule: string): Option<Value> {
    if settings == [] then None
    else
      var last := settings[|settings| - 1];
      if last.rule == rule then Some(last.value) else LastOf(settings[..|settings| - 1], rule)
  }

  /** A value, if there is one, goes with the text of the element's own attribute for the adapter, unless that is empty. */
  function WithMessage(element: Element, attribute: string, value: Option<Value>): Decision {
    Decision(value,
             if value.Some? && attribute in element.attributes && element.attributes[attribute] != ""
             then Some(element.attributes[attribute]) else None)
  }

  function SetBy(adapter: Adapter, element: Element, inputs: seq<Element>, rule: string): Decision {
    WithMessage(element, "data-val-" + adapter.name, LastOf(Adapt(adapter, element, inputs).settings, rule))
  }

  /** The value set by the last of some adapters that sets the rule, and the last message that goes with one. */
  function Decided(adapters: seq<Adapter>, element: Element, inputs: seq<Element>, rule: string): Decision {
    if adapters == [] then UNDECIDED
    else
      Or(SetBy(adapters[|adapters| - 1], element, inputs, rule),
         Decided(adapters[..|adapters| - 1], element, inputs, rule))
  }

  lemma {:induction false} LastOfSetAll(s: RuleSet, settings: seq<Setting>, message: string, rule: string)
    ensures var value := LastOf(settings, rule);
            LookUp(SetAll(s, ToEntries(settings, message)), rule)
            == Or(Decision(value, if value.Some? && message != "" then Some(message) else None), LookUp(s, rule))
    decreases |settings|
  {
    if settings != [] {
      var n := |settings| - 1;
      assert ToEntries(settings, message)[..n] == ToEntries(settings[..n], message);
      LastOfSetAll(s, settings[..n], message, rule);
    }
  }

  /** What one adapter sets goes over what was set before. */
  lemma SetByIsSet(s: RuleSet, adapter: Adapter, element: Element, inputs: seq<Element>, rule: string)
    ensures var entries := ToEntries(Adapt(adapter, element, inputs).settings, MessageOf(adapter, element));
            LookUp(SetAll(s, entries), rule) == Or(SetBy(adapter, element, inputs, rule), LookUp(s, rule))
  {
    LastOfSetAll(s, Adapt(adapter, element, inputs).settings, MessageOf(adapter, element), rule);
  }

  lemma {:induction false} EntriesDecide(adapters: seq<Adapter>, element: Element, inputs: seq<Element>, rule: string)
    requires adapters == [] || !Throws(adapters[..|adapters| - 1], element, inputs)
    ensures LookUp(SetAll(EMPTY, AllEntries(adapters, element, inputs)), rule)
            == Decided(adapters, element, inputs, rule)
    decreases |adapters|
  {
    hide Throws, AllEntries, ToEntries;
    if adapters == [] {
      NothingDecided(element, inputs);
    } else {
      var front, last := adapters[..|adapters| - 1], adapters[|adapters| - 1];
      assert adapters == front + [last];
      EntriesOfOneMore(front, last, element, inputs);
      if front != [] {
        var before, one := front[..|front| - 1], front[|front| - 1];
        assert front == before + [one];
        EntriesOfOneMore(before, one, element, inputs);
      }
      EntriesDecide(front, element, inputs, rule);
      var entries := AllEntries(front, element, inputs);
      SetAllOfConcat(EMPTY, entries, ToEntries(Adapt(last, element, inputs).settings, MessageOf(last, element)));
      SetByIsSet(SetAll(EMPTY, entries), last, element, inputs, rule);
    }
  }

  lemma NothingDecided(element: Element, inputs: seq<Element>)
    ensures SetAll(EMPTY, AllEntries([], element, inputs)) == EMPTY
  {
  }

  /** Unless an adapter throws, a rule has the value of the last adapter in registration order that sets it, and the message of the last that sets it with one. */
  lemma LastAdapterDecides(adapters: seq<Adapter>, element: Element, inputs: seq<Element>, rule: string)
    requires !Throws(adapters, element, inputs)
    ensures LookUp(Compile(adapters, element, inputs), rule)
            == if rule == "__dummy__" then Decided(adapters, element, inputs, rule).(value := Some(Flag))
               else Decided(adapters, element, inputs, rule)
  {
    if adapters != [] {
      var front, last := adapters[..|adapters| - 1], adapters[|adapters| - 1];
      assert adapters == front + [last];
      EntriesOfOneMore(front, last, element, inputs);
    }
    EntriesDecide(adapters, element, inputs, rule);
    CompileFromEntries(adapters, element, inputs);
  }

  /** When one throws, the adapters up to and including it decide, and there is no dummy rule of the compiler's own. */
  lemma AdaptersUpToThrowDecide(adapters: seq<Adapter>, element: Element, inputs: seq<Element>, k: nat, rule: string)
    requires k < |adapters| && Adapt(adapters[k], element, inputs).throws
    requires forall i :: 0 <= i < k ==> !Adapt(adapters[i], element, inputs).throws
    ensures LookUp(Compile(adapters, element, inputs), rule) == Decided(adapters[..k + 1], element, inputs, rule)
  {
    ThrownCompile(adapters, element, inputs, k + 1);
    var front := adapters[..k + 1];
    assert front[..k] == adapters[..k];
    EntriesDecide(front, element, inputs, rule);
    EntriesOfFirst(adapters, element, inputs, k + 1, k + 1);
  }

  lemma {:induction false} EntriesOfFirst(adapters: seq<Adapter>, element: Element, inputs: seq<Element>, n: nat, k: nat)
    requires k <= n <= |adapters|
    ensures Entries(adapters[..n], element, inputs, k) == Entries(adapters, element, inputs, k)
  {
    assert forall i :: 0 <= i < n ==> adapters[..n][i] == adapters[i];
    if k > 0 {
      EntriesOfFirst(adapters, element, inputs, n, k - 1);
    }
  }

  lemma {:induction false} DecidedOfConcat(
    a: seq<Adapter>, b: seq<Adapter>, element: Element, inputs: seq<Element>, rule: string)
    ensures Decided(a + b, element, inputs, rule)
            == Or(Decided(b, element, inputs, rule), Decided(a, element, inputs, rule))
    decreases |b|
  {
    if b == [] {
      assert a + b == a;
    } else {
      assert (a + b)[..|a + b| - 1] == a + b[..|b| - 1];
      DecidedOfConcat(a, b[..|b| - 1], element, inputs, rule);
    }
  }

  // ------------------------------------------------------------------ parsing elements

  function AllEntries(adapters: seq<Adapter>, element: Element, inputs: seq<Element>): seq<Entry> {
    Entries(adapters, element, inputs, |adapters|)
  }

  /** What one more adapter at the end of the registry adds, unless an earlier one throws. */
  lemma EntriesOfOneMore(before: seq<Adapter>, adapter: Adapter, element: Element, inputs: seq<Element>)
    ensures var a, all := Adapt(adapter, element, inputs), before + [adapter];
            && (Throws(all, element, inputs) <==> Throws(before, element, inputs) || a.throws)
            && AllEntries(all, element, inputs)
               == AllEntries(before, element, inputs)
                  + if Throws(before, element, inputs) then [] else ToEntries(a.settings, MessageOf(adapter, element))
  {
    var all, n := before + [adapter], |before|;
    EntriesOfFront(before, adapter, element, inputs, n);
    assert all[n] == adapter;
    assert ThrowsWithin(all, element, inputs, n + 1) <==>
           ThrowsWithin(all, element, inputs, n) || Adapt(all[n], element, inputs).throws;
    assert AllEntries(before, element, inputs) + [] == AllEntries(before, element, inputs);
  }

  /** The adapters whose attribute the element has. */
  function Present(adapters: seq<Adapter>, element: Element): seq<Adapter> {
    if adapters == [] then []
    else
      var front, last := adapters[..|adapters| - 1], adapters[|adapters| - 1];
      Present(front, element) + if AttributeName(last) in element.attributes then [last] else []
  }

  /** Adapters whose attribute an element lacks change nothing for it, wherever they are registered. */
  lemma {:induction false} AbsentAdaptersDropOut(adapters: seq<Adapter>, element: Element, inputs: seq<Element>)
    ensures AllEntries(Present(adapters, element), element, inputs) == AllEntries(adapters, element, inputs)
    ensures Throws(Present(adapters, element), element, inputs) <==> Throws(adapters, element, inputs)
    ensures Compile(Present(adapters, element), element, inputs) == Compile(adapters, element, inputs)
    decreases |adapters|
  {
    hide AllEntries, Throws, Entries, ToEntries;
    if adapters != [] {
      var front, last := adapters[..|adapters| - 1], adapters[|adapters| - 1];
      assert adapters == front + [last];
      AbsentAdaptersDropOut(front, element, inputs);
      EntriesOfOneMore(front, last, element, inputs);
      if AttributeName(last) in element.attributes {
        EntriesOfOneMore(Present(front, element), last, element, inputs);
      } else {
        assert Present(front, element) + [] == Present(front, element);
        NothingFromAbsent(last, element, inputs, AllEntries(front, element, inputs));
      }
    }
    CompileFromEntries(adapters, element, inputs);
    CompileFromEntries(Present(adapters, element), element, inputs);
  }

  lemma NothingFromAbsent(adapter: Adapter, element: Element, inputs: seq<Element>, entries: seq<Entry>)
    requires AttributeName(adapter) !in element.attributes
    ensures !Adapt(adapter, element, inputs).throws
    ensures entries + ToEntries(Adapt(adapter, element, inputs).settings, MessageOf(adapter, element)) == entries
    ensures entries + [] == entries
  {
  }

  lemma CompileFromEntries(adapters: seq<Adapter>, element: Element, inputs: seq<Element>)
    ensures var s := SetAll(EMPTY, AllEntries(adapters, element, inputs));
            Compile(adapters, element, inputs)
            == if Throws(adapters, element, inputs) then s else SetValidationValues(s, DUMMY)
  {
  }

  lemma {:induction false} EntriesOfFront(
    before: seq<Adapter>, adapter: Adapter, element: Element, inputs: seq<Element>, k: nat)
    requires k <= |before|
    ensures Entries(before + [adapter], element, inputs, k) == Entries(before, element, inputs, k)
    ensures ThrowsWithin(before + [adapter], element, inputs, k) <==> ThrowsWithin(before, element, inputs, k)
  {
    var all := before + [adapter];
    assert forall i :: 0 <= i < |before| ==> all[i] == before[i];
    if k > 0 {
      EntriesOfFront(before, adapter, element, inputs, k - 1);
    }
  }

  function KeyOf(element: Element): Option<Key> {
    if element.form.Some? then Some(Key(element.form.value, element.name)) else None
  }

  /** How many elements are parsed: all of them, or those up to the first that throws. */
  function Reached(adapters: seq<Adapter>, elements: seq<Element>, inputs: nat -> seq<Element>): (r: nat)
    ensures r <= |elements|
    ensures forall i :: 0 <= i < r - 1 ==> !ElementThrows(adapters, elements[i], inputs)
    ensures r < |elements| ==> r > 0 && ElementThrows(adapters, elements[r - 1], inputs)
  {
    if elements == [] then 0
    else if ElementThrows(adapters, elements[0], inputs) then 1
    else 1 + Reached(adapters, elements[1..], inputs)
  }

  lemma {:induction false} ParseAllOfConcat(
    table: RuleTable, adapters: seq<Adapter>, a: seq<Element>, b: seq<Element>, inputs: nat -> seq<Element>)
    ensures var half := ParseAll(table, adapters, a, inputs);
            ParseAll(table, adapters, a + b, inputs)
            == if exists i :: 0 <= i < |a| && ElementThrows(adapters, a[i], inputs) then half
               else ParseAll(half, adapters, b, inputs)
    decreases |a|
  {
    hide CompileIn, ElementThrows, Store;
    if a == [] {
      assert a + b == b;
    } else {
      assert (a + b)[1..] == a[1..] + b && (a + b)[0] == a[0];
      assert forall i :: 0 < i < |a| ==> a[i] == a[1..][i - 1];
      ParseAllOfConcat(Store(table, a[0], CompileIn(adapters, a[0], inputs)), adapters, a[1..], b, inputs);
    }
  }

  /** Two neighbours of different forms or names can be parsed in either order. */
  lemma DifferentNamesCommute(
    table: RuleTable, adapters: seq<Adapter>, front: seq<Element>, a: Element, b: Element, back: seq<Element>,
    inputs: nat -> seq<Element>)
    requires KeyOf(a) != KeyOf(b) && !ElementThrows(adapters, a, inputs) && !ElementThrows(adapters, b, inputs)
    ensures ParseAll(table, adapters, front + ([a, b] + back), inputs)
            == ParseAll(table, adapters, front + ([b, a] + back), inputs)
  {
    var t := ParseAll(table, adapters, front, inputs);
    ParseAllOfConcat(table, adapters, front, [a, b] + back, inputs);
    ParseAllOfConcat(table, adapters, front, [b, a] + back, inputs);
    ParseAllOfConcat(t, adapters, [a, b], back, inputs);
    ParseAllOfConcat(t, adapters, [b, a], back, inputs);
    ParseTwo(t, adapters, a, b, inputs);
    ParseTwo(t, adapters, b, a, inputs);
    hide ParseAll, CompileIn, ElementThrows;
    StoresCommute(t, a, b, CompileIn(adapters, a, inputs), CompileIn(adapters, b, inputs));
    assert forall i :: 0 <= i < 2 ==> !ElementThrows(adapters, [a, b][i], inputs);
    assert forall i :: 0 <= i < 2 ==> !ElementThrows(adapters, [b, a][i], inputs);
  }

  lemma StoresCommute(table: RuleTable, a: Element, b: Element, s: RuleSet, t: RuleSet)
    requires KeyOf(a) != KeyOf(b)
    ensures Store(Store(table, a, s), b, t) == Store(Store(table, b, t), a, s)
  {
  }

  lemma ParseTwo(table: RuleTable, adapters: seq<Adapter>, a: Element, b: Element, inputs: nat -> seq<Element>)
    requires !ElementThrows(adapters, a, inputs)
    ensures ParseAll(table, adapters, [a, b], inputs)
            == Store(Store(table, a, CompileIn(adapters, a, inputs)), b, CompileIn(adapters, b, inputs))
  {
    var next := Store(table, a, CompileIn(adapters, a, inputs));
    assert [a, b][1..] == [b] && [b][1..] == [];
    assert ParseAll(table, adapters, [a, b], inputs) == ParseAll(next, adapters, [b], inputs);
    var end := Store(next, b, CompileIn(adapters, b, inputs));
    assert ParseAll(end, adapters, [b][1..], inputs) == end;
  }

  /** The last element with a key. */
  predicate IsLastWithKey(elements: seq<Element>, key: Key, i: nat) {
    && i < |elements| && KeyOf(elements[i]) == Some(key)
    && forall j :: i < j < |elements| ==> KeyOf(elements[j]) != Some(key)
  }

  predicate HasKey(elements: seq<Element>, key: Key) {
    exists i :: 0 <= i < |elements| && KeyOf(elements[i]) == Some(key)
  }

  /**
   * After parsing a document, the rules under each form and name are those compiled from the last
   * element reached that has them; every other entry of the table is as before.
   */
  lemma {:induction false} LastElementWins(
    table: RuleTable, adapters: seq<Adapter>, elements: seq<Element>, inputs: nat -> seq<Element>, key: Key)
    ensures var seen := elements[..Reached(adapters, elements, inputs)];
            var after := ParseAll(table, adapters, elements, inputs);
            && (key in after <==> key in table || HasKey(seen, key))
            && (!HasKey(seen, key) && key in table ==> after[key] == table[key])
            && (forall i: nat :: IsLastWithKey(seen, key, i) ==>
                  key in after && after[key] == Compile(adapters, seen[i], inputs(key.form)))
    decreases |elements|
  {
    if elements != [] {
      var first, rest := elements[0], elements[1..];
      var next := Store(table, first, CompileIn(adapters, first, inputs));
      var seen := elements[..Reached(adapters, elements, inputs)];
      var tail := seen[1..];
      if ElementThrows(adapters, first, inputs) {
        assert tail == [];
      } else {
        LastElementWins(next, adapters, rest, inputs, key);
        assert tail == rest[..Reached(adapters, rest, inputs)];
      }
      HasKeyStep(seen, key);
      forall i: nat | IsLastWithKey(seen, key, i)
        ensures i > 0 ==> IsLastWithKey(tail, key, i - 1) && tail[i - 1] == seen[i]
        ensures i == 0 ==> !HasKey(tail, key)
      {
        LastWithKeyStep(seen, key, i);
      }
    }
  }

  lemma LastWithKeyStep(elements: seq<Element>, key: Key, i: nat)
    requires IsLastWithKey(elements, key, i)
    ensures i > 0 ==> IsLastWithKey(elements[1..], key, i - 1) && elements[1..][i - 1] == elements[i]
    ensures i == 0 ==> !HasKey(elements[1..], key)
  {
    assert forall j :: 0 <= j < |elements[1..]| ==> elements[1..][j] == elements[j + 1];
  }

  lemma HasKeyStep(elements: seq<Element>, key: Key)
    requires elements != []
    ensures HasKey(elements, key) <==> KeyOf(elements[0]) == Some(key) || HasKey(elements[1..], key)
  {
    var rest := elements[1..];
    if HasKey(elements, key) {
      var i :| 0 <= i < |elements| && KeyOf(elements[i]) == Some(key);
      if i > 0 { assert rest[i - 1] == elements[i]; }
    }
    if HasKey(rest, key) {
      var i :| 0 <= i < |rest| && KeyOf(rest[i]) == Some(key);
      assert elements[i + 1] == rest[i];
    }
  }

  lemma LastWithKey(elements: seq<Element>, key: Key) returns (i: nat)
    requires HasKey(elements, key)
    ensures IsLastWithKey(elements, key, i)
  {
    i := |elements| - 1;
    while KeyOf(elements[i]) != Some(key)
      invariant i < |elements|
      invariant exists n :: 0 <= n <= i && KeyOf(elements[n]) == Some(key)
      invariant forall j :: i < j < |elements| ==> KeyOf(elements[j]) != Some(key)
      decreases i
    {
      i := i - 1;
    }
  }

  /** Parsing an unchanged document again changes nothing. */
  lemma ReparsingDocumentIsIdempotent(
    table: RuleTable, adapters: seq<Adapter>, elements: seq<Element>, inputs: nat -> seq<Element>)
    ensures var once := ParseAll(table, adapters, elements, inputs);
            ParseAll(once, adapters, elements, inputs) == once
  {
    var once := ParseAll(table, adapters, elements, inputs);
    var twice := ParseAll(once, adapters, elements, inputs);
    forall key ensures (key in twice <==> key in once) && (key in once ==> twice[key] == once[key]) {
      LastElementWins(table, adapters, elements, inputs, key);
      LastElementWins(once, adapters, elements, inputs, key);
      var seen := elements[..Reached(adapters, elements, inputs)];
      if HasKey(seen, key) {
        var i := LastWithKey(seen, key);
      }
    }
  }

  /** The same elements come last for every form and name. */
  ghost predicate SameLastElements(a: seq<Element>, b: seq<Element>, key: Key) {
    && (HasKey(a, key) <==> HasKey(b, key))
    && forall i: nat, j: nat :: IsLastWithKey(a, key, i) && IsLastWithKey(b, key, j) ==> a[i] == b[j]
  }

  /** Only the last element of each form and name matters: documents that agree on those compile alike, in any order. */
  lemma OrderOfDifferentNamesIsIrrelevant(
    table: RuleTable, adapters: seq<Adapter>, a: seq<Element>, b: seq<Element>, inputs: nat -> seq<Element>)
    requires Reached(adapters, a, inputs) == |a| && Reached(adapters, b, inputs) == |b|
    requires forall key :: SameLastElements(a, b, key)
    ensures ParseAll(table, adapters, a, inputs) == ParseAll(table, adapters, b, inputs)
  {
    var s, t := ParseAll(table, adapters, a, inputs), ParseAll(table, adapters, b, inputs);
    assert a[..|a|] == a && b[..|b|] == b;
    forall key ensures (key in s <==> key in t) && (key in s ==> s[key] == t[key]) {
      assert SameLastElements(a, b, key);
      LastElementWins(table, adapters, a, inputs, key);
      LastElementWins(table, adapters, b, inputs, key);
      if HasKey(a, key) {
        var i := LastWithKey(a, key);
        var j := LastWithKey(b, key);
        assert a[i] == b[j];
      }
    }
  }
}
