/** The verdict every check builds: events, the highest severity and whether the checks ran to the end. */
module Failures {
  import opened Bytes

  datatype Event = Event(id: string, severity: nat, recoverable: bool)

  // Severity configuration

  /** `matches` stands for the full match of the policy's regular expression. */
  datatype SeverityRule = SeverityRule(matches: string -> bool, level: string)

  /** The level a label name gets: a repeated name keeps its last position. */
  function LabelLevel(labels: seq<string>, name: string): (r: Option<nat>)
    ensures r.Some? <==> name in labels
    ensures r.Some? ==> r.value < |labels|
  {
    if labels == [] then None
    else if labels[|labels| - 1] == name then Some(|labels| - 1)
    else
      assert labels == labels[..|labels| - 1] + [labels[|labels| - 1]];
      LabelLevel(labels[..|labels| - 1], name)
  }

  function MaxLevel(labels: seq<string>): nat
    requires labels != []
  {
    LabelLevel(labels, labels[|labels| - 1]).value
  }

  function SeverityMatch(labels: seq<string>, rules: seq<SeverityRule>, id: string): nat
    requires labels != []
  {
    if rules == [] then MaxLevel(labels)
    else if rules[0].matches(id) then
      var level := LabelLevel(labels, rules[0].level);
      if level.Some? then level.value else MaxLevel(labels)
    else SeverityMatch(labels, rules[1..], id)
  }

  /** The last position of the name. */
  ghost predicate LastAt(labels: seq<string>, name: string, i: nat) {
    i < |labels| && labels[i] == name && forall j | i < j < |labels| :: labels[j] != name
  }

  /** A label's level is the last position of its name. */
  lemma {:induction false} LabelLevelExactly(labels: seq<string>, name: string, i: nat)
    ensures LabelLevel(labels, name) == Some(i) <==> LastAt(labels, name, i)
  {
    if labels != [] && labels[|labels| - 1] != name {
      LabelLevelExactly(labels[..|labels| - 1], name, i);
    }
  }

  ghost predicate FirstToMatch(rules: seq<SeverityRule>, id: string, i: nat) {
    i < |rules| && rules[i].matches(id) && forall j | 0 <= j < i :: !rules[j].matches(id)
  }

  /** The first rule that matches decides; without one, or where it names no label, the event gets the top label. */
  lemma {:induction false} SeverityExactly(labels: seq<string>, rules: seq<SeverityRule>, id: string)
    requires labels != []
    ensures (forall i | 0 <= i < |rules| :: !rules[i].matches(id)) ==> SeverityMatch(labels, rules, id) == |labels| - 1
    ensures forall i: nat :: FirstToMatch(rules, id, i) ==>
              if rules[i].level in labels then LastAt(labels, rules[i].level, SeverityMatch(labels, rules, id))
              else SeverityMatch(labels, rules, id) == |labels| - 1
  {
    LabelLevelExactly(labels, labels[|labels| - 1], |labels| - 1);
    if rules != [] {
      var level, rest := rules[0].level, rules[1..];
      if rules[0].matches(id) {
        if level in labels {
          LabelLevelExactly(labels, level, LabelLevel(labels, level).value);
        }
      } else {
        SeverityExactly(labels, rest, id);
        forall i: nat | FirstToMatch(rules, id, i)
          ensures i > 0 && FirstToMatch(rest, id, i - 1) && rest[i - 1] == rules[i]
        {
          assert forall j | 0 <= j < i - 1 :: rest[j] == rules[j + 1];
        }
      }
    }
  }

  /** No rule can exceed the label that irrecoverable events are raised to. */
  lemma {:induction false} SeverityBounded(labels: seq<string>, rules: seq<SeverityRule>, id: string)
    requires labels != []
    ensures SeverityMatch(labels, rules, id) <= MaxLevel(labels) == |labels| - 1
  {
    if rules != [] {
      SeverityBounded(labels, rules[1..], id);
    }
  }

  const DEFAULT_LABELS: seq<string> := ["info", "notice", "warning", "error", "critical", "alert", "emergency"]

  /** The default policy gives every event the top label, whatever its one pattern matches. */
  lemma DefaultSeverityIsTop(matches: string -> bool, id: string)
    ensures SeverityMatch(DEFAULT_LABELS, [SeverityRule(matches, "emergency")], id) == MaxLevel(DEFAULT_LABELS) == 6
  {
    assert SeverityMatch(DEFAULT_LABELS, [SeverityRule(matches, "emergency")][1..], id) == 6;
  }

  // The verdict as a value

  datatype Verdict = Verdict(events: seq<Event>, recoverable: bool, highest: Option<nat>, highestEvent: Option<Event>)

  const NO_FAILURE := Verdict([], true, None, None)

  /** Irrecoverable events are raised to the top label. */
  function Raised(max: nat, e: Event): Event {
    if e.recoverable then e else e.(severity := max)
  }

  function AddEvent(max: nat, v: Verdict, e: Event): Verdict {
    var e' := Raised(max, e);
    var higher := v.highest.None? || e'.severity > v.highest.value;
    Verdict(v.events + [e'], v.recoverable && e.recoverable,
            if higher then Some(e'.severity) else v.highest,
            if higher then Some(e') else v.highestEvent)
  }

  function MergeVerdicts(v: Verdict, w: Verdict): Verdict {
    var higher := v.highest.None? || (w.highest.Some? && v.highest.value < w.highest.value);
    Verdict(v.events + w.events, v.recoverable && w.recoverable,
            if higher then w.highest else v.highest,
            if higher then w.highestEvent else v.highestEvent)
  }

  predicate Failed(v: Verdict) {
    !v.recoverable || |v.events| > 0
  }

  class Failure {
    var events: seq<Event>
    var recoverable: bool
    var highestSeverity: Option<nat>
    var highestSeverityEvent: Option<Event>

    constructor ()
      ensures Model() == NO_FAILURE
    {
      events, recoverable, highestSeverity, highestSeverityEvent := [], true, None, None;
    }

    ghost function Model(): Verdict
      reads this
    {
      Verdict(events, recoverable, highestSeverity, highestSeverityEvent)
    }

    method Add(max: nat, event: Event)
      modifies this
      ensures Model() == AddEvent(max, old(Model()), event)
    {
      var e := event;
      if !e.recoverable {
        recoverable := false;
        if e.severity != max {
          e := e.(severity := max);
        }
      }
      if highestSeverity == None || e.severity > highestSeverity.value {
        highestSeverity := Some(e.severity);
        highestSeverityEvent := Some(e);
      }
      events := events + [e];
    }

    method Merge(other: Failure)
      modifies this
      ensures Model() == MergeVerdicts(old(Model()), old(other.Model()))
    {
      if recoverable {
        recoverable := other.recoverable;
      }
      if highestSeverity == None {
        highestSeverity := other.highestSeverity;
        highestSeverityEvent := other.highestSeverityEvent;
      } else if other.highestSeverity != None && highestSeverity.value < other.highestSeverity.value {
        highestSeverity := other.highestSeverity;
        highestSeverityEvent := other.highestSeverityEvent;
      }
      events := events + other.events;
    }

    method IsFailure() returns (b: bool)
      ensures b == Failed(Model())
    {
      b := !recoverable || |events| > 0;
    }
  }

  // Any nesting of additions and merges

  datatype History = Fresh | Adding(before: History, event: Event) | Merging(before: History, other: History)

  function Outcome(max: nat, h: History): Verdict {
    match h
    case Fresh => NO_FAILURE
    case Adding(before, event) => AddEvent(max, Outcome(max, before), event)
    case Merging(before, other) => MergeVerdicts(Outcome(max, before), Outcome(max, other))
  }

  function FlatEvents(h: History): seq<Event> {
    match h
    case Fresh => []
    case Adding(before, event) => FlatEvents(before) + [event]
    case Merging(before, other) => FlatEvents(before) + FlatEvents(other)
  }

  function FromEvents(max: nat, es: seq<Event>): Verdict {
    if es == [] then NO_FAILURE else AddEvent(max, FromEvents(max, es[..|es| - 1]), es[|es| - 1])
  }

  lemma {:induction false} MergeIsConcatenation(max: nat, es: seq<Event>, fs: seq<Event>)
    ensures MergeVerdicts(FromEvents(max, es), FromEvents(max, fs)) == FromEvents(max, es + fs)
  {
    if fs == [] {
      assert es + fs == es;
    } else {
      var init := fs[..|fs| - 1];
      MergeIsConcatenation(max, es, init);
      assert (es + fs)[..|es + fs| - 1] == es + init;
      FromEventsMeaning(max, init);
    }
  }

  /** How a verdict was assembled cannot be seen in it: only the flat list of events counts. */
  lemma {:induction false} OnlyFlatEventsCount(max: nat, h: History)
    ensures Outcome(max, h) == FromEvents(max, FlatEvents(h))
  {
    match h
    case Fresh =>
    case Adding(before, event) =>
      OnlyFlatEventsCount(max, before);
      assert FlatEvents(h)[..|FlatEvents(h)| - 1] == FlatEvents(before);
    case Merging(before, other) =>
      OnlyFlatEventsCount(max, before);
      OnlyFlatEventsCount(max, other);
      MergeIsConcatenation(max, FlatEvents(before), FlatEvents(other));
  }

  /** `i` is the first event of the highest severity. */
  ghost predicate FirstHighest(es: seq<Event>, i: nat) {
    && i < |es|
    && (forall j | 0 <= j < |es| :: es[j].severity <= es[i].severity)
    && (forall j | 0 <= j < i :: es[j].severity < es[i].severity)
  }

  /** What the verdict on a flat list says about the list. */
  lemma {:induction false} FromEventsMeaning(max: nat, es: seq<Event>)
    ensures var v := FromEvents(max, es);
            && v.events == seq(|es|, i requires 0 <= i < |es| => Raised(max, es[i]))
            && (v.recoverable <==> forall i | 0 <= i < |es| :: es[i].recoverable)
            && (v.highest.None? <==> es == [])
            && (es != [] ==> exists i: nat :: FirstHighest(v.events, i)
                                         && v.highestEvent == Some(v.events[i])
                                         && v.highest == Some(v.events[i].severity))
            && (Failed(v) <==> es != [])
  {
    if es != [] {
      var init, last := es[..|es| - 1], es[|es| - 1];
      FromEventsMeaning(max, init);
      var u, v := FromEvents(max, init), FromEvents(max, es);
      if u.highest.None? || Raised(max, last).severity > u.highest.value {
        assert FirstHighest(v.events, |init|);
      } else {
        var i: nat :| FirstHighest(u.events, i)
                 && u.highestEvent == Some(u.events[i]) && u.highest == Some(u.events[i].severity);
        assert v.events[i] == u.events[i];
        assert FirstHighest(v.events, i);
      }
      assert forall i | 0 <= i < |init| :: es[i] == init[i];
    }
  }

  /** A verdict is a failure exactly when some check, however deeply merged, added an event. */
  lemma FailureMeansEvents(max: nat, h: History)
    ensures Failed(Outcome(max, h)) <==> FlatEvents(h) != []
  {
    OnlyFlatEventsCount(max, h);
    FromEventsMeaning(max, FlatEvents(h));
  }

  lemma FlatIrrecoverableIsTop(max: nat, es: seq<Event>, k: nat)
    requires forall i | 0 <= i < |es| :: es[i].severity <= max
    requires k < |es| && !es[k].recoverable
    ensures FromEvents(max, es).highest == Some(max)
  {
    FromEventsMeaning(max, es);
    var v := FromEvents(max, es);
    var i: nat :| FirstHighest(v.events, i) && v.highest == Some(v.events[i].severity);
    assert v.events[k].severity == max;
    assert v.events[i] == Raised(max, es[i]);
  }

  /** A verdict that stopped checks early always carries the top label, however it was assembled. */
  lemma IrrecoverableIsTop(max: nat, h: History)
    requires forall i | 0 <= i < |FlatEvents(h)| :: FlatEvents(h)[i].severity <= max
    ensures !Outcome(max, h).recoverable ==> Outcome(max, h).highest == Some(max)
  {
    var es := FlatEvents(h);
    OnlyFlatEventsCount(max, h);
    FromEventsMeaning(max, es);
    if !FromEvents(max, es).recoverable {
      var k: nat :| k < |es| && !es[k].recoverable;
      FlatIrrecoverableIsTop(max, es, k);
    }
  }
}
