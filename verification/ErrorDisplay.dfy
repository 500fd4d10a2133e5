/** The validation messages of one form: which containers show an error, and which labels point at them. */
module ErrorDisplay {
  import opened JQuerySelectors
  import opened Options

  /** An error label element. */
  type Note = nat

  /** What data-valmsg-replace says, once read as JSON; an empty attribute counts as absent. */
  datatype ReplaceAttribute = Absent | Malformed | JsonFalse | JsonOtherFalsy | JsonTruthy

  datatype Field = Field(valmsgFor: string, replace: ReplaceAttribute)

  /** The parts of the form that stay as they are: message containers in document order, and summaries. */
  datatype Page = Page(fields: seq<Field>, summaries: seq<bool>)   // a summary may have a list or not

  datatype Display = Display(
    valid: set<nat>, error: set<nat>,                  // containers with the valid class, the error class
    home: map<Note, nat>,                             // the container an error label has been put into
    data: map<Note, seq<nat>>,                        // "unobtrusiveContainer" of each label that has it
    summaryValid: set<nat>, summaryError: set<nat>,
    listed: seq<string>,                               // the messages in the summary list
    resetting: bool)

  // ------------------------------------------------------------------ finding containers

  function Named(fields: seq<Field>, name: string, k: nat): (found: seq<nat>)
    requires k <= |fields|
    ensures forall c: nat :: c in found <==> c < k && fields[c].valmsgFor == name
  {
    if k == 0 then []
    else Named(fields, name, k - 1) + if fields[k - 1].valmsgFor == name then [k - 1] else []
  }

  /** The containers of [data-valmsg-for='...'] with the escaped name. */
  function Select(page: Page, name: string): (found: seq<nat>)
    ensures forall c: nat :: c in found ==> c < |page.fields|
    ensures forall i :: 0 <= i < |found| ==> found[i] < |page.fields|
  {
    var found := Named(page.fields, ReadByFind(name), |page.fields|);
    assert forall i :: 0 <= i < |found| ==> found[i] in found;
    found
  }

  function AttributeOf(page: Page, containers: seq<nat>): ReplaceAttribute
    requires forall c: nat :: c in containers ==> c < |page.fields|
  {
    if containers == [] then Absent
    else
      assert containers[0] in containers;
      page.fields[containers[0]].replace
  }

  function AsSet(containers: seq<nat>): set<nat> {
    set c | c in containers
  }

  /** The labels inside some containers. */
  function Housed(home: map<Note, nat>, containers: set<nat>): set<Note> {
    set l | l in home && home[l] in containers
  }

  // ------------------------------------------------------------------------- the steps

  /** Emptying containers removes the labels in them and cleans the labels' data. */
  function Emptied(d: Display, containers: set<nat>): Display {
    var gone := Housed(d.home, containers);
    d.(home := d.home - gone, data := d.data - gone)
  }

  predicate ErrorThrows(page: Page, name: string) {
    AttributeOf(page, Select(page, name)) == Malformed
  }

  /** onError puts the label into the container unless the attribute is absent or false. */
  predicate ErrorReplaces(a: ReplaceAttribute) {
    a == JsonOtherFalsy || a == JsonTruthy
  }

  function AfterError(page: Page, d: Display, note: Note, name: string): Display {
    if ErrorThrows(page, name) then d
    else
      var cs := Select(page, name);
      var marked := d.(valid := d.valid - AsSet(cs), error := d.error + AsSet(cs), data := d.data[note := cs]);
      if ErrorReplaces(AttributeOf(page, cs)) then
        var e := Emptied(marked, AsSet(cs));
        e.(home := e.home[note := cs[|cs| - 1]])
      else marked
  }

  predicate InPage(page: Page, d: Display) {
    forall l, c: nat :: l in d.data && c in d.data[l] ==> c < |page.fields|
  }

  predicate SuccessThrows(page: Page, d: Display, note: Note)
    requires InPage(page, d)
  {
    note in d.data && AttributeOf(page, d.data[note]) == Malformed
  }

  function AfterSuccess(page: Page, d: Display, note: Note): Display
    requires InPage(page, d)
  {
    if note !in d.data || SuccessThrows(page, d, note) then d
    else
      var cs := d.data[note];
      var marked := d.(valid := d.valid + AsSet(cs), error := d.error - AsSet(cs), data := d.data - {note});
      if AttributeOf(page, cs) == JsonTruthy then Emptied(marked, AsSet(cs)) else marked
  }

  /** The numbers below n. */
  function Below(n: nat): (r: set<nat>)
    ensures forall c: nat :: c in r <==> c < n
  {
    if n == 0 then {} else Below(n - 1) + {n - 1}
  }

  function AllSummaries(page: Page): set<nat> {
    Below(|page.summaries|)
  }

  function AfterErrors(page: Page, d: Display, messages: seq<string>): Display {
    if true in page.summaries && messages != [] then
      d.(summaryValid := d.summaryValid - AllSummaries(page),
         summaryError := d.summaryError + AllSummaries(page),
         listed := messages)
    else d
  }

  /** The effect of a reset event whose resetForm call throws or not. */
  function AfterReset(d: Display, throws: bool): Display {
    if d.resetting || throws then d
    else
      d.(summaryValid := d.summaryValid + d.summaryError, summaryError := {},
         valid := d.valid + d.error, error := {},
         data := d.data - Housed(d.home, d.error))
  }

  // --------------------------------------------------------------------------- the form

  class Form {
    const page: Page
    var valid: set<nat>
    var error: set<nat>
    var home: map<Note, nat>
    var data: map<Note, seq<nat>>
    var summaryValid: set<nat>
    var summaryError: set<nat>
    var listed: seq<string>
    var resetting: bool

    function View(): Display
      reads this
    {
      Display(valid, error, home, data, summaryValid, summaryError, listed, resetting)
    }

    constructor (page: Page, d: Display)
      ensures this.page == page && View() == d
    {
      this.page := page;
      valid, error, home, data := d.valid, d.error, d.home, d.data;
      summaryValid, summaryError, listed, resetting := d.summaryValid, d.summaryError, d.listed, d.resetting;
    }

    method Empty(containers: set<nat>)
      modifies this`home, this`data
      ensures View() == Emptied(old(View()), containers)
    {
      var gone := Housed(home, containers);
      data := data - gone;
      home := home - gone;
    }

    method OnError(note: Note, name: string) returns (threw: bool)
      modifies this
      ensures View() == AfterError(page, old(View()), note, name)
      ensures threw <==> ErrorThrows(page, name)
    {
      var container := Select(page, name);
      var attribute := AttributeOf(page, container);
      if attribute == Malformed {
        return true;
      }
      var replace := attribute != Absent && attribute != JsonFalse;
      valid := valid - AsSet(container);
      error := error + AsSet(container);
      data := data[note := container];
      if replace {
        Empty(AsSet(container));
        home := home[note := container[|container| - 1]];
      }
      threw := false;
    }

    method OnErrors(messages: seq<string>)
      modifies this
      ensures View() == AfterErrors(page, old(View()), messages)
    {
      if true in page.summaries && messages != [] {
        listed := [];
        summaryError := summaryError + AllSummaries(page);
        summaryValid := summaryValid - AllSummaries(page);
        for i := 0 to |messages|
          invariant listed == messages[..i]
          invariant View() == AfterErrors(page, old(View()), messages).(listed := listed)
        {
          listed := listed + [messages[i]];
        }
      }
    }

    method OnSuccess(note: Note) returns (threw: bool)
      requires InPage(page, View())
      modifies this
      ensures View() == AfterSuccess(page, old(View()), note)
      ensures threw <==> SuccessThrows(page, old(View()), note)
    {
      if note !in data {
        return false;
      }
      var container := data[note];
      var attribute := AttributeOf(page, container);
      if attribute == Malformed {
        return true;
      }
      valid := valid + AsSet(container);
      error := error - AsSet(container);
      data := data - {note};
      if attribute == JsonTruthy {
        Empty(AsSet(container));
      }
      threw := false;
    }

    /**
     * Resetting the form may fire reset events of its own, `nested` of them, and may throw. A nested
     * call finds the flag set and changes nothing; the flag is cleared however the call ends.
     */
    method OnReset(nested: nat, throws: bool) returns (threw: bool)
      modifies this
      ensures View() == AfterReset(old(View()), throws)
      ensures resetting == old(resetting)
      ensures threw <==> !old(resetting) && throws
      decreases nested
    {
      if resetting {
        return false;
      }
      resetting := true;
      for i := 0 to nested
        invariant View() == old(View()).(resetting := true)
      {
        var _ := OnReset(0, false);
      }
      resetting := false;
      if throws {
        return true;
      }
      summaryValid := summaryValid + summaryError;
      summaryError := {};
      var shown := error;
      valid := valid + shown;
      error := {};
      data := data - Housed(home, shown);
      threw := false;
    }
  }

  // ---------------------------------------------------------------------- over whole runs

  datatype Event =
    | ErrorShown(note: Note, name: string)
    | ErrorsListed(messages: seq<string>)
    | Succeeded(note: Note)
    | Reset(throws: bool)

  /** Nothing has both its valid class and its error class. */
  predicate Exclusive(d: Display) {
    d.valid !! d.error && d.summaryValid !! d.summaryError
  }

  /** Every container and summary of the page has one of its two classes. */
  predicate Complete(page: Page, d: Display) {
    d.valid + d.error == Below(|page.fields|) && d.summaryValid + d.summaryError == AllSummaries(page)
  }

  /** Every label points at containers of the page, and the attribute it depends on can be read. */
  ghost predicate Readable(page: Page, d: Display) {
    InPage(page, d) && forall l :: l in d.data ==> AttributeOf(page, d.data[l]) != Malformed
  }

  function Step(page: Page, d: Display, e: Event): (next: Display)
    requires InPage(page, d)
    ensures InPage(page, next)
  {
    match e
    case ErrorShown(note, name) => AfterError(page, d, note, name)
    case ErrorsListed(messages) => AfterErrors(page, d, messages)
    case Succeeded(note) => AfterSuccess(page, d, note)
    case Reset(throws) => AfterReset(d, throws)
  }

  function Run(page: Page, d: Display, events: seq<Event>, k: nat): (after: Display)
    requires InPage(page, d) && k <= |events|
    ensures InPage(page, after)
  {
    if k == 0 then d else Step(page, Run(page, d, events, k - 1), events[k - 1])
  }

  /** Over every run nothing carries both its classes, and no reset stays under way. */
  lemma {:induction false} RunsStayExclusive(page: Page, d: Display, events: seq<Event>, k: nat)
    requires InPage(page, d) && k <= |events| && Exclusive(d) && !d.resetting
    ensures Exclusive(Run(page, d, events, k)) && !Run(page, d, events, k).resetting
  {
    hide Step, Exclusive;
    if k > 0 {
      RunsStayExclusive(page, d, events, k - 1);
      StepKeepsExclusive(page, Run(page, d, events, k - 1), events[k - 1]);
    }
  }

  lemma StepKeepsExclusive(page: Page, d: Display, e: Event)
    requires InPage(page, d) && Exclusive(d) && !d.resetting
    ensures Exclusive(Step(page, d, e)) && !Step(page, d, e).resetting
  {
  }

  /** Where every container and summary starts with one of its classes, over every run each has one. */
  lemma {:induction false} RunsStayComplete(page: Page, d: Display, events: seq<Event>, k: nat)
    requires InPage(page, d) && k <= |events| && Complete(page, d)
    ensures Complete(page, Run(page, d, events, k))
  {
    hide Step, Complete;
    if k > 0 {
      RunsStayComplete(page, d, events, k - 1);
      StepKeepsComplete(page, Run(page, d, events, k - 1), events[k - 1]);
    }
  }

  lemma StepKeepsComplete(page: Page, d: Display, e: Event)
    requires InPage(page, d) && Complete(page, d)
    ensures Complete(page, Step(page, d, e))
  {
  }

  /** Over every run no success event throws: an unreadable attribute never gets as far as a label. */
  lemma {:induction false} SuccessNeverThrows(page: Page, d: Display, events: seq<Event>, k: nat)
    requires Readable(page, d) && k <= |events|
    ensures Readable(page, Run(page, d, events, k))
    ensures forall note :: !SuccessThrows(page, Run(page, d, events, k), note)
  {
    hide Step;
    if k > 0 {
      SuccessNeverThrows(page, d, events, k - 1);
      StepKeepsReadable(page, Run(page, d, events, k - 1), events[k - 1]);
    }
  }

  lemma StepKeepsReadable(page: Page, d: Display, e: Event)
    requires Readable(page, d)
    ensures Readable(page, Step(page, d, e))
  {
    match e
    case ErrorShown(note, name) => DataAfterError(page, d, note, name); hide AfterError, Select;
    case Succeeded(note) => hide AfterError, AfterErrors, AfterReset, Select, AttributeOf, SuccessThrows;
    case _ => hide AfterError, AfterSuccess, Select, AttributeOf;
  }

  lemma DataAfterError(page: Page, d: Display, note: Note, name: string)
    ensures var after := AfterError(page, d, note, name);
            forall l :: l in after.data ==>
              || (l in d.data && after.data[l] == d.data[l])
              || (after.data[l] == Select(page, name) && !ErrorThrows(page, name))
  {
    hide Select, AttributeOf;
  }

  /** A place that shows an error or not: a field's container or a summary. */
  datatype Place = Container(c: nat) | Summary(c: nat)

  predicate InError(d: Display, p: Place) {
    match p
    case Container(c) => c in d.error
    case Summary(c) => c in d.summaryError
  }

  /** The event marks the place as erroneous. */
  predicate Shows(page: Page, e: Event, p: Place) {
    match p
    case Container(c) => e.ErrorShown? && !ErrorThrows(page, e.name) && c in Select(page, e.name)
    case Summary(c) => e.ErrorsListed? && true in page.summaries && e.messages != [] && c < |page.summaries|
  }

  /** The event, in this state, marks the place as valid. */
  predicate Clears(page: Page, d: Display, e: Event, p: Place)
    requires InPage(page, d)
  {
    match e
    case Succeeded(note) => p.Container? && note in d.data && !SuccessThrows(page, d, note) && p.c in d.data[note]
    case Reset(throws) => !d.resetting && !throws
    case _ => false
  }

  /** Events i..k leave the place's error standing. */
  predicate KeptFrom(page: Page, d: Display, events: seq<Event>, i: nat, k: nat, p: Place)
    requires InPage(page, d) && i <= k <= |events|
  {
    forall j :: i <= j < k ==> !Clears(page, Run(page, d, events, j), events[j], p)
  }

  /** Event i shows the place's error and no later event clears it. */
  predicate ShownSince(page: Page, d: Display, events: seq<Event>, i: nat, k: nat, p: Place)
    requires InPage(page, d) && i < k <= |events|
  {
    Shows(page, events[i], p) && KeptFrom(page, d, events, i + 1, k, p)
  }

  lemma StepDecides(page: Page, d: Display, e: Event, p: Place)
    requires InPage(page, d)
    ensures InError(Step(page, d, e), p) <==> Shows(page, e, p) || (InError(d, p) && !Clears(page, d, e, p))
  {
  }

  predicate InValid(d: Display, p: Place) {
    match p
    case Container(c) => c in d.valid
    case Summary(c) => c in d.summaryValid
  }

  /** A place gets the valid class from the events that clear it, a reset just where there is an error, and loses it to a shown error. */
  lemma ValidClassAfterEvent(page: Page, d: Display, e: Event, p: Place)
    requires InPage(page, d)
    ensures InValid(Step(page, d, e), p) <==>
            || (Clears(page, d, e, p) && (e.Reset? ==> InError(d, p)))
            || (InValid(d, p) && !Shows(page, e, p))
  {
  }

  lemma OneMoreEvent(page: Page, d: Display, events: seq<Event>, i: nat, k: nat, p: Place)
    requires InPage(page, d) && i <= k < |events|
    ensures KeptFrom(page, d, events, i, k + 1, p) <==>
            KeptFrom(page, d, events, i, k, p) && !Clears(page, Run(page, d, events, k), events[k], p)
  {
    hide Clears, Run;
  }

  /** The last event that concerns a place decides whether it shows an error. */
  lemma {:induction false} LastEventDecides(page: Page, d: Display, events: seq<Event>, k: nat, p: Place)
    requires InPage(page, d) && k <= |events|
    ensures InError(Run(page, d, events, k), p) <==>
            || (InError(d, p) && KeptFrom(page, d, events, 0, k, p))
            || exists i: nat :: i < k && ShownSince(page, d, events, i, k, p)
  {
    hide Clears, Step, Shows, KeptFrom, InError;
    if k == 0 {
      NoEventYet(page, d, events, p);
    } else {
      var m := k - 1;
      var before, e := Run(page, d, events, m), events[m];
      LastEventDecides(page, d, events, m, p);
      StepDecides(page, before, e, p);
      OneMoreEvent(page, d, events, 0, m, p);
      forall i: nat | i < m
        ensures ShownSince(page, d, events, i, k, p) <==>
                ShownSince(page, d, events, i, m, p) && !Clears(page, before, e, p)
      {
        OneMoreEvent(page, d, events, i + 1, m, p);
      }
      NothingAfter(page, d, events, k, p);
      assert Shows(page, e, p) <==> ShownSince(page, d, events, m, k, p);
      if i: nat :| i < k && ShownSince(page, d, events, i, k, p) {
        assert i == m || ShownSince(page, d, events, i, m, p);
      }
      if i: nat :| i < m && ShownSince(page, d, events, i, m, p) {
        assert Clears(page, before, e, p) || ShownSince(page, d, events, i, k, p);
      }
    }
  }

  lemma NoEventYet(page: Page, d: Display, events: seq<Event>, p: Place)
    requires InPage(page, d)
    ensures KeptFrom(page, d, events, 0, 0, p)
  {
  }

  lemma NothingAfter(page: Page, d: Display, events: seq<Event>, k: nat, p: Place)
    requires InPage(page, d) && k <= |events|
    ensures KeptFrom(page, d, events, k, k, p)
  {
  }

  /** A reset that does not throw leaves no error, and exactly the labels inside containers that showed one lose their data. */
  lemma ResetClears(page: Page, d: Display)
    requires !d.resetting
    ensures var after := AfterReset(d, false);
            && after.error == {} && after.summaryError == {}
            && (Complete(page, d) ==> after.valid == Below(|page.fields|) && after.summaryValid == AllSummaries(page))
            && after.home == d.home
            && forall l :: l in after.data <==> l in d.data && !(l in d.home && d.home[l] in d.error)
  {
  }

  // ------------------------------------------------------------- what a label points at

  /** Labels are made when their error is first shown, so each is shown once and is nowhere in the page before. */
  predicate FreshNotes(d: Display, events: seq<Event>) {
    forall i :: 0 <= i < |events| && events[i].ErrorShown? ==>
      events[i].note !in d.home && forall j :: 0 <= j < i && events[j].ErrorShown? ==> events[j].note != events[i].note
  }

  predicate IsInside(d: Display, note: Note, containers: set<nat>) {
    note in d.home && d.home[note] in containers
  }

  /** The event takes away what is stored on the label. */
  predicate Releases(page: Page, d: Display, e: Event, note: Note)
    requires InPage(page, d)
  {
    match e
    case Succeeded(other) =>
      && other in d.data && !SuccessThrows(page, d, other)
      && (other == note
          || (AttributeOf(page, d.data[other]) == JsonTruthy && IsInside(d, note, AsSet(d.data[other]))))
    case ErrorShown(other, name) =>
      && !ErrorThrows(page, name)
      && ErrorReplaces(AttributeOf(page, Select(page, name))) && IsInside(d, note, AsSet(Select(page, name)))
    case Reset(throws) => !d.resetting && !throws && IsInside(d, note, d.error)
    case ErrorsListed(_) => false
  }

  lemma StepReleases(page: Page, d: Display, e: Event, note: Note)
    requires InPage(page, d) && !(e.ErrorShown? && e.note == note)
    ensures note in Step(page, d, e).data <==> note in d.data && !Releases(page, d, e, note)
    ensures note in Step(page, d, e).data ==> Step(page, d, e).data[note] == d.data[note]
  {
  }

  /** Only labels that were shown get into the page. */
  lemma {:induction false} NewNotesAreOutside(page: Page, d: Display, events: seq<Event>, i: nat, k: nat)
    requires InPage(page, d) && FreshNotes(d, events)
    requires k <= i < |events| && events[i].ErrorShown?
    ensures events[i].note !in Run(page, d, events, k).home
  {
    hide Step;
    if k > 0 {
      NewNotesAreOutside(page, d, events, i, k - 1);
      assert events[k - 1].ErrorShown? ==> events[k - 1].note != events[i].note;
      StepBringsInOnlyTheShown(page, Run(page, d, events, k - 1), events[k - 1], events[i].note);
    }
  }

  lemma StepBringsInOnlyTheShown(page: Page, d: Display, e: Event, note: Note)
    requires InPage(page, d) && !(e.ErrorShown? && e.note == note) && note !in d.home
    ensures note !in Step(page, d, e).home
  {
  }

  /** Events i..k leave what is stored on the label. */
  predicate HeldFrom(page: Page, d: Display, events: seq<Event>, i: nat, k: nat, note: Note)
    requires InPage(page, d) && i <= k <= |events|
  {
    forall j :: i <= j < k ==> !Releases(page, Run(page, d, events, j), events[j], note)
  }

  lemma HeldThroughNext(page: Page, d: Display, events: seq<Event>, i: nat, k: nat, note: Note)
    requires InPage(page, d) && i <= k < |events|
    ensures HeldFrom(page, d, events, i, k + 1, note) <==>
            HeldFrom(page, d, events, i, k, note) && !Releases(page, Run(page, d, events, k), events[k], note)
    ensures HeldFrom(page, d, events, i, i, note)
  {
    hide Releases, Run;
  }

  /** Once its error is shown, a label points at the containers of its field until an event releases it. */
  lemma {:induction false} StoredUntilReleased(page: Page, d: Display, events: seq<Event>, i: nat, k: nat)
    requires InPage(page, d) && FreshNotes(d, events)
    requires i < k <= |events| && events[i].ErrorShown? && !ErrorThrows(page, events[i].name)
    ensures var note, now := events[i].note, Run(page, d, events, k);
            && (note in now.data <==> HeldFrom(page, d, events, i + 1, k, note))
            && (note in now.data ==> now.data[note] == Select(page, events[i].name))
    decreases k
  {
    hide Step, Releases, HeldFrom, ErrorThrows, Select;
    var note, name, m := events[i].note, events[i].name, k - 1;
    var before := Run(page, d, events, m);
    if m == i {
      NewNotesAreOutside(page, d, events, i, i);
      ShownNoteIsStored(page, before, note, name);
      HeldThroughNext(page, d, events, i, m, note);
      NothingReleases(page, d, events, k, note);
    } else {
      StoredUntilReleased(page, d, events, i, m);
      assert events[m].ErrorShown? ==> events[m].note != note;
      StepReleases(page, before, events[m], note);
      HeldThroughNext(page, d, events, i + 1, m, note);
    }
  }

  lemma NothingReleases(page: Page, d: Display, events: seq<Event>, k: nat, note: Note)
    requires InPage(page, d) && k <= |events|
    ensures HeldFrom(page, d, events, k, k, note)
  {
  }

  /** A success event for a shown label that nothing has released makes exactly its field's containers valid. */
  lemma SuccessReachesItsContainers(page: Page, d: Display, events: seq<Event>, i: nat, k: nat)
    requires InPage(page, d) && FreshNotes(d, events)
    requires i < k <= |events| && events[i].ErrorShown? && !ErrorThrows(page, events[i].name)
    requires HeldFrom(page, d, events, i + 1, k, events[i].note)
    ensures var cs, now := Select(page, events[i].name), Run(page, d, events, k);
            var after := AfterSuccess(page, now, events[i].note);
            && !SuccessThrows(page, now, events[i].note)
            && after.valid == now.valid + AsSet(cs) && after.error == now.error - AsSet(cs)
  {
    StoredUntilReleased(page, d, events, i, k);
  }

  // ------------------------------------------------------------------ where a label is

  predicate InOrder(found: seq<nat>) {
    forall i, j :: 0 <= i < j < |found| ==> found[i] < found[j]
  }

  lemma {:induction false} NamedInOrder(fields: seq<Field>, name: string, k: nat)
    requires k <= |fields|
    ensures InOrder(Named(fields, name, k))
  {
    if k > 0 {
      NamedInOrder(fields, name, k - 1);
      var front, found := Named(fields, name, k - 1), Named(fields, name, k);
      forall i | 0 <= i < |front| ensures front[i] < k - 1 {
        var c: nat := front[i];
        assert c in front;
      }
      assert found == front + if fields[k - 1].valmsgFor == name then [k - 1] else [];
    }
  }

  /** The containers of a name are found in document order, each once. */
  lemma ContainersInDocumentOrder(page: Page, name: string)
    ensures InOrder(Select(page, name))
  {
    NamedInOrder(page.fields, ReadByFind(name), |page.fields|);
    assert Select(page, name) == Named(page.fields, ReadByFind(name), |page.fields|);
  }

  /** The attribute of the first of these containers is one that onError acts on. */
  predicate FirstAsksForLabel(page: Page, cs: seq<nat>)
    requires forall i :: 0 <= i < |cs| ==> cs[i] < |page.fields|
  {
    cs != [] && (page.fields[cs[0]].replace == JsonTruthy || page.fields[cs[0]].replace == JsonOtherFalsy)
  }

  /**
   * A shown error marks all its containers. If the first one's attribute is there and not false, they are
   * emptied of other labels and the last gets the new one; else no label moves. An unreadable one changes nothing.
   */
  lemma ShownErrorMovesLabels(page: Page, d: Display, note: Note, name: string)
    ensures var cs, after := Select(page, name), AfterError(page, d, note, name);
            && (cs != [] && page.fields[cs[0]].replace == Malformed <==> ErrorThrows(page, name))
            && (cs != [] && page.fields[cs[0]].replace == Malformed ==> after == d)
            && (cs == [] || page.fields[cs[0]].replace != Malformed ==>
                  && (forall c: nat :: c in after.error <==> c in d.error || c in cs)
                  && (forall c: nat :: c in after.valid <==> c in d.valid && c !in cs))
            && (FirstAsksForLabel(page, cs) ==>
                  && note in after.home && after.home[note] == cs[|cs| - 1]
                  && forall l :: l != note ==>
                       && (l in after.home <==> l in d.home && d.home[l] !in cs)
                       && (l in after.home ==> after.home[l] == d.home[l]))
            && (!FirstAsksForLabel(page, cs) ==> after.home == d.home)
  {
    ReplacesExactly(page, name);
    hide Select, ErrorReplaces, FirstAsksForLabel, AttributeOf;
  }

  lemma ReplacesExactly(page: Page, name: string)
    ensures var cs := Select(page, name);
            && (FirstAsksForLabel(page, cs) <==> ErrorReplaces(AttributeOf(page, cs)))
            && (FirstAsksForLabel(page, cs) ==> cs != [] && !ErrorThrows(page, name))
            && (cs != [] && page.fields[cs[0]].replace == Malformed <==> ErrorThrows(page, name))
  {
    hide Select;
  }

  /** The event empties the container. */
  predicate Empties(page: Page, d: Display, e: Event, c: nat)
    requires InPage(page, d)
  {
    match e
    case ErrorShown(_, name) => c in Select(page, name) && FirstAsksForLabel(page, Select(page, name))
    case Succeeded(other) =>
      other in d.data && c in d.data[other]
      && (assert d.data[other][0] in d.data[other]; page.fields[d.data[other][0]].replace == JsonTruthy)
    case _ => false
  }

  lemma StepEmpties(page: Page, d: Display, e: Event, note: Note)
    requires InPage(page, d) && !(e.ErrorShown? && e.note == note)
    ensures note in Step(page, d, e).home <==> note in d.home && !Empties(page, d, e, d.home[note])
    ensures note in Step(page, d, e).home ==> Step(page, d, e).home[note] == d.home[note]
  {
    match e
    case ErrorShown(other, name) =>
      ShownErrorMovesLabels(page, d, other, name);
      hide FirstAsksForLabel, AfterError, Select, ErrorThrows;
    case Succeeded(other) => hide AfterError, AfterErrors, AfterReset, Select;
    case _ =>
  }

  /** Events i..k leave the container's content. */
  predicate UntouchedFrom(page: Page, d: Display, events: seq<Event>, i: nat, k: nat, c: nat)
    requires InPage(page, d) && i <= k <= |events|
  {
    forall j :: i <= j < k ==> !Empties(page, Run(page, d, events, j), events[j], c)
  }

  lemma UntouchedThroughNext(page: Page, d: Display, events: seq<Event>, i: nat, k: nat, c: nat)
    requires InPage(page, d) && i <= k < |events|
    ensures UntouchedFrom(page, d, events, i, k + 1, c) <==>
            UntouchedFrom(page, d, events, i, k, c) && !Empties(page, Run(page, d, events, k), events[k], c)
    ensures UntouchedFrom(page, d, events, i, i, c)
  {
    hide Empties, Run;
  }

  lemma NothingTouches(page: Page, d: Display, events: seq<Event>, k: nat, c: nat)
    requires InPage(page, d) && k <= |events|
    ensures UntouchedFrom(page, d, events, k, k, c)
  {
  }

  lemma NewLabelIsPlaced(page: Page, d: Display, note: Note, name: string)
    requires InPage(page, d) && note !in d.home
    ensures var cs, after := Select(page, name), Step(page, d, ErrorShown(note, name));
            && (note in after.home <==> FirstAsksForLabel(page, cs))
            && (FirstAsksForLabel(page, cs) ==> after.home[note] == cs[|cs| - 1])
  {
    ShownErrorMovesLabels(page, d, note, name);
  }

  /** Over every run the label of a shown error is in the last container of its field until an event empties that one. */
  lemma {:induction false} LabelStaysUntilEmptied(page: Page, d: Display, events: seq<Event>, i: nat, k: nat)
    requires InPage(page, d) && FreshNotes(d, events)
    requires i < k <= |events| && events[i].ErrorShown?
    ensures var note, cs, now := events[i].note, Select(page, events[i].name), Run(page, d, events, k);
            && (note in now.home <==>
                  FirstAsksForLabel(page, cs) && UntouchedFrom(page, d, events, i + 1, k, cs[|cs| - 1]))
            && (note in now.home ==> now.home[note] == cs[|cs| - 1])
    decreases k
  {
    hide Step, Empties, UntouchedFrom, Select;
    var note, cs, m := events[i].note, Select(page, events[i].name), k - 1;
    var before := Run(page, d, events, m);
    if m == i {
      NewNotesAreOutside(page, d, events, i, i);
      NewLabelIsPlaced(page, before, note, events[i].name);
      if cs != [] {
        NothingTouches(page, d, events, k, cs[|cs| - 1]);
      }
    } else {
      LabelStaysUntilEmptied(page, d, events, i, m);
      assert events[m].ErrorShown? ==> events[m].note != note;
      StepEmpties(page, before, events[m], note);
      if cs != [] {
        UntouchedThroughNext(page, d, events, i + 1, m, cs[|cs| - 1]);
      }
    }
  }

  // ---------------------------------------------------------------- the summary list

  predicate ListsMessages(e: Event) {
    e.ErrorsListed? && e.messages != []
  }

  /** Over every run a summary list holds the messages of the last event that listed any; other pages never change it. */
  lemma {:induction false} ListHoldsLastMessages(page: Page, d: Display, events: seq<Event>, k: nat)
    requires InPage(page, d) && k <= |events|
    ensures true !in page.summaries || (forall j :: 0 <= j < k ==> !ListsMessages(events[j])) ==>
              Run(page, d, events, k).listed == d.listed
    ensures forall i :: 0 <= i < k && true in page.summaries && ListsMessages(events[i])
                        && (forall j :: i < j < k ==> !ListsMessages(events[j])) ==>
              Run(page, d, events, k).listed == events[i].messages
  {
    hide Step;
    if k > 0 {
      ListHoldsLastMessages(page, d, events, k - 1);
      StepLists(page, Run(page, d, events, k - 1), events[k - 1]);
    }
  }

  lemma StepLists(page: Page, d: Display, e: Event)
    requires InPage(page, d)
    ensures Step(page, d, e).listed == if true in page.summaries && ListsMessages(e) then e.messages else d.listed
  {
  }

  lemma ShownNoteIsStored(page: Page, d: Display, note: Note, name: string)
    requires InPage(page, d) && note !in d.home && !ErrorThrows(page, name)
    ensures var after := Step(page, d, ErrorShown(note, name));
            note in after.data && after.data[note] == Select(page, name)
  {
  }

  /**
   * After an error and its success, a new label is still in the page exactly when the attribute is a
   * falsy JSON value other than false: onError reads such a value as true, onSuccess as false.
   */
  lemma LabelIsLeftBehindExactly(page: Page, d: Display, note: Note, name: string)
    requires InPage(page, d) && !ErrorThrows(page, name) && note !in d.home
    ensures var after := AfterSuccess(page, AfterError(page, d, note, name), note);
            note in after.home <==> AttributeOf(page, Select(page, name)) == JsonOtherFalsy
  {
    var cs := Select(page, name);
    ShownNoteIsStored(page, d, note, name);
    assert cs != [] ==> cs[|cs| - 1] in AsSet(cs);
  }

  /** A container whose attribute is 0 keeps the label of a field named a. */
  lemma ZeroLeavesTheLabelBehind(d: Display)
    requires d.home == map[] && d.data == map[]
    ensures var page := Page([Field("a", JsonOtherFalsy)], []);
            0 in AfterSuccess(page, AfterError(page, d, 0, "a"), 0).home
  {
    var page := Page([Field("a", JsonOtherFalsy)], []);
    ReadByFindExactly("a");
    assert Named(page.fields, "a", 1) == Named(page.fields, "a", 0) + [0] == [0];
    LabelIsLeftBehindExactly(page, d, 0, "a");
  }

  ghost predicate SelectsByName(page: Page, name: string) {
    forall c: nat :: c in Select(page, name) <==> c < |page.fields| && page.fields[c].valmsgFor == name
  }

  /** On every page exactly the containers made for the name are selected, if and only if the name holds no NUL or has a line end. */
  lemma ErrorsGoToTheirContainersExactly(name: string)
    ensures (forall page :: SelectsByName(page, name)) <==> '\0' !in name || HasLineEnd(name)
  {
    ReadByFindExactly(name);
    var page := Page([Field(name, Absent)], []);
    assert 0 in Select(page, name) <==> ReadByFind(name) == name;
    assert SelectsByName(page, name) ==> 0 in Select(page, name);
  }
}
