/** `parseEvents`: each class row of a course becomes one calendar event with
    a synthetic id, a title, a selection group, a flag telling whether its
    activity runs in several rows, and a weekly recurrence rule restricted to
    the row's explicit week numbers. */
module Events {
  import opened Js
  import opened Weeks

  /** One row of the timetable data: a recurring class slot. `day` is
      0-based (Monday is 0); `start` and `finish` are "HH:mm"; `extra` holds
      the row's other fields (such as `locationID`, `lat`, `lon`), which the
      event carries through. */
  datatype ClassRow = ClassRow(
    moduleCode: string,
    activity: string,
    occurrence: string,
    location: string,
    day: int,
    start: string,
    finish: string,
    weeks: string,
    duration: string,
    extra: map<string, string>)

  /** The instant Luxon produces from `DateTime.fromFormat(time, 'HH:mm',
      { zone: 'UTC' }).set({ weekYear, weekNumber, weekday })`. Luxon's
      calendar arithmetic is not modelled: the value records the arguments,
      so two instants built from the same arguments are the same instant. */
  datatype Instant = LuxonWeekTime(time: string, weekYear: Primitive, weekNumber: Option<Number>, weekday: int)

  datatype RRule = RRule(
    freq: string,
    dtstart: Instant,
    until: Instant,
    byweekno: seq<Number>,
    tzid: string)

  datatype Event = Event(
    moduleCode: string,
    activity: string,
    occurrence: Number,
    location: string,
    day: int,
    start: string,
    finish: string,
    weeks: string,
    duration: string,
    extra: map<string, string>,
    hasMultipleOccurrences: bool,
    id: string,
    title: string,
    groupId: string,
    rrule: RRule)

  /** The keys the event literal writes after spreading the row; a row field
      of the same name is overridden. */
  const EventKeys: set<string> :=
    {"occurrence", "hasMultipleOccurrences", "id", "title", "groupId", "location", "duration", "rrule"}

  const Weekly: string := "weekly"
  const TimeZone: string := "Australia/Canberra"

  // ---------------------------------------------------------------------
  // Activities that occur in more than one row

  /** `indexOf`: the first position of x in a, or -1. */
  function IndexOf(a: seq<string>, x: string): (i: int)
    ensures -1 <= i < |a|
    ensures i == -1 <==> x !in a
    ensures i >= 0 ==> a[i] == x && forall j :: 0 <= j < i ==> a[j] != x
  {
    if a == [] then -1
    else if a[0] == x then 0
    else
      var k := IndexOf(a[1..], x);
      if k == -1 then -1 else k + 1
  }

  /** `lastIndexOf`: the last position of x in a, or -1. */
  function LastIndexOf(a: seq<string>, x: string): (i: int)
    ensures -1 <= i < |a|
    ensures i == -1 <==> x !in a
    ensures i >= 0 ==> a[i] == x && forall j :: i < j < |a| ==> a[j] != x
  {
    if a == [] then -1
    else if a[|a| - 1] == x then |a| - 1
    else LastIndexOf(a[..|a| - 1], x)
  }

  /** The filter callback at index i: the element occurs before i and does
      not occur after it. */
  predicate KeptAt(a: seq<string>, i: nat)
    requires i < |a|
  {
    IndexOf(a, a[i]) != i && LastIndexOf(a, a[i]) == i
  }

  /** The callback's verdict at every index. */
  function Verdicts(a: seq<string>): (keep: seq<bool>)
    ensures |keep| == |a|
    ensures forall i :: 0 <= i < |a| ==> keep[i] == KeptAt(a, i)
  {
    seq(|a|, i requires 0 <= i < |a| => KeptAt(a, i))
  }

  /** `filter` from index i on, given the callback's verdicts. */
  function FilterFrom(a: seq<string>, keep: seq<bool>, i: nat): seq<string>
    requires |keep| == |a| && i <= |a|
    decreases |a| - i
  {
    if i == |a| then []
    else (if keep[i] then [a[i]] else []) + FilterFrom(a, keep, i + 1)
  }

  /** The activities that occur more than once, each kept at its last
      position (the filter in src/utils.js at line 91). */
  function MultipleOccurrenceActivities(a: seq<string>): seq<string> {
    FilterFrom(a, Verdicts(a), 0)
  }

  /** `x` stands in two different positions of `a`. */
  predicate Repeated(a: seq<string>, x: string) {
    exists i, j :: 0 <= i < j < |a| && a[i] == x && a[j] == x
  }

  predicate NoDuplicates(s: seq<string>) {
    forall i, j :: 0 <= i < j < |s| ==> s[i] != s[j]
  }

  /** Every kept entry comes from a position the callback accepts ... */
  lemma {:induction false} FilterFromSound(a: seq<string>, keep: seq<bool>, i: nat, x: string) returns (k: nat)
    requires |keep| == |a| && i <= |a|
    requires x in FilterFrom(a, keep, i)
    ensures i <= k < |a| && a[k] == x && keep[k]
    decreases |a| - i
  {
    var head := if keep[i] then [a[i]] else [];
    assert FilterFrom(a, keep, i) == head + FilterFrom(a, keep, i + 1);
    if x in head {
      k := i;
    } else {
      k := FilterFromSound(a, keep, i + 1, x);
    }
  }

  /** ... and every accepted position contributes its entry. */
  lemma {:induction false} FilterFromComplete(a: seq<string>, keep: seq<bool>, i: nat, k: nat)
    requires |keep| == |a| && i <= k < |a| && keep[k]
    ensures a[k] in FilterFrom(a, keep, i)
    decreases k - i
  {
    var head := if keep[i] then [a[i]] else [];
    assert FilterFrom(a, keep, i) == head + FilterFrom(a, keep, i + 1);
    if i < k {
      FilterFromComplete(a, keep, i + 1, k);
    }
  }

  lemma NoDuplicatesCons(x: string, s: seq<string>)
    requires NoDuplicates(s) && x !in s
    ensures NoDuplicates([x] + s)
  {
    var t := [x] + s;
    forall i, j | 0 <= i < j < |t| ensures t[i] != t[j] {
      assert t[j] == s[j - 1];
      if i > 0 {
        assert t[i] == s[i - 1];
      }
    }
  }

  /** The callback accepts only the last position of each value. */
  predicate AtLastOnly(a: seq<string>, keep: seq<bool>)
    requires |keep| == |a|
  {
    forall i, j :: 0 <= i < j < |a| && keep[i] ==> a[j] != a[i]
  }

  lemma {:induction false} FilterFromNoDuplicates(a: seq<string>, keep: seq<bool>, i: nat)
    requires |keep| == |a| && i <= |a|
    requires AtLastOnly(a, keep)
    ensures NoDuplicates(FilterFrom(a, keep, i))
    decreases |a| - i
  {
    if i < |a| {
      FilterFromNoDuplicates(a, keep, i + 1);
      var rest := FilterFrom(a, keep, i + 1);
      if keep[i] {
        if a[i] in rest {
          var k := FilterFromSound(a, keep, i + 1, a[i]);
          assert false;
        }
        assert FilterFrom(a, keep, i) == [a[i]] + rest;
        NoDuplicatesCons(a[i], rest);
      } else {
        assert FilterFrom(a, keep, i) == rest;
      }
    }
  }

  lemma VerdictsAtLastOnly(a: seq<string>)
    ensures AtLastOnly(a, Verdicts(a))
  {
    var keep := Verdicts(a);
    forall i, j | 0 <= i < j < |a| && keep[i] ensures a[j] != a[i] {
      assert LastIndexOf(a, a[i]) == i;
    }
  }

  /** An activity is in the helper list exactly when it stands in two or
      more rows, and the list names each such activity once. */
  lemma MultipleOccurrenceActivitiesSpec(a: seq<string>, x: string)
    ensures x in MultipleOccurrenceActivities(a) <==> Repeated(a, x)
    ensures NoDuplicates(MultipleOccurrenceActivities(a))
  {
    var keep := Verdicts(a);
    VerdictsAtLastOnly(a);
    FilterFromNoDuplicates(a, keep, 0);
    if Repeated(a, x) {
      var i, j :| 0 <= i < j < |a| && a[i] == x && a[j] == x;
      var k := LastIndexOf(a, x);
      assert IndexOf(a, x) <= i < j <= k;
      assert KeptAt(a, k);
      FilterFromComplete(a, keep, 0, k);
    }
    if x in MultipleOccurrenceActivities(a) {
      var k := FilterFromSound(a, keep, 0, x);
      var f := IndexOf(a, x);
      assert 0 <= f < k && a[f] == x;
    }
  }

  // ---------------------------------------------------------------------
  // One event per row

  function Activities(classes: seq<ClassRow>): (r: seq<string>)
    ensures |r| == |classes|
    ensures forall i :: 0 <= i < |classes| ==> r[i] == classes[i].activity
  {
    seq(|classes|, i requires 0 <= i < |classes| => classes[i].activity)
  }

  /** The title: module and activity, then the occurrence unless the
      activity starts with "Lec", separated by spaces. */
  function Title(c: ClassRow, occurrence: Number): string {
    Join([c.moduleCode, c.activity] + (if "Lec" <= c.activity then [] else [NumberToString(occurrence)]), " ")
  }

  /** The event id: module, activity and occurrence joined by underscores. */
  function EventId(moduleCode: string, activity: string, occurrence: Number): string {
    Join([moduleCode, activity, NumberToString(occurrence)], "_")
  }

  function First(weeks: seq<Number>): Option<Number> {
    if weeks == [] then None else Some(weeks[0])
  }

  /** The last week, undefined for an empty list. */
  function Last(weeks: seq<Number>): Option<Number> {
    if weeks == [] then None else Some(weeks[|weeks| - 1])
  }

  function ToEvent(c: ClassRow, year: Primitive, multiple: seq<string>): Event {
    var occurrence := ParseInt(c.occurrence);
    var weeks := ExpandWeeks(c.weeks);
    var rrule := RRule(
      Weekly,
      LuxonWeekTime(c.start, year, First(weeks), c.day + 1),
      LuxonWeekTime(c.finish, year, Last(weeks), c.day + 1),
      weeks,
      TimeZone);
    Event(
      c.moduleCode, c.activity, occurrence, c.location, c.day, c.start, c.finish, c.weeks, c.duration,
      c.extra - EventKeys,
      IndexOf(multiple, c.activity) != -1,
      EventId(c.moduleCode, c.activity, occurrence),
      Title(c, occurrence),
      c.activity,
      rrule)
  }

  /** `parseEvents(classes, year, session, id)`; the session and the course
      id are accepted and not used. */
  function ParseEvents(classes: seq<ClassRow>, year: Primitive, session: Primitive, courseId: Primitive): (events: seq<Event>)
    ensures |events| == |classes|
  {
    var multiple := MultipleOccurrenceActivities(Activities(classes));
    seq(|classes|, i requires 0 <= i < |classes| => ToEvent(classes[i], year, multiple))
  }

  /** One event per row, in row order; the row's fields are carried through
      unchanged except `occurrence`, which becomes its integer value, and
      the extra fields the event literal overrides. The group is the
      activity; the rule recurs weekly on the expanded week list. */
  lemma ParseEventsShape(classes: seq<ClassRow>, year: Primitive, session: Primitive, courseId: Primitive, i: nat)
    requires i < |classes|
    ensures var e := ParseEvents(classes, year, session, courseId)[i]; var c := classes[i];
      && e.moduleCode == c.moduleCode && e.activity == c.activity && e.location == c.location
      && e.day == c.day && e.start == c.start && e.finish == c.finish
      && e.weeks == c.weeks && e.duration == c.duration
      && (forall k :: k in c.extra && k !in EventKeys ==> k in e.extra && e.extra[k] == c.extra[k])
      && e.extra.Keys <= c.extra.Keys && e.extra.Keys !! EventKeys
      && e.id == EventId(c.moduleCode, c.activity, e.occurrence)
      && e.title == Title(c, e.occurrence)
      && e.occurrence == ParseInt(c.occurrence)
      && e.groupId == c.activity
      && e.rrule.freq == "weekly"
      && e.rrule.byweekno == ExpandWeeks(c.weeks)
      && e.rrule.tzid == "Australia/Canberra"
      && e.rrule.dtstart == LuxonWeekTime(c.start, year, First(ExpandWeeks(c.weeks)), c.day + 1)
      && e.rrule.until == LuxonWeekTime(c.finish, year, Last(ExpandWeeks(c.weeks)), c.day + 1)
  {
  }

  /** `hasMultipleOccurrences` holds exactly when another row has the same
      activity. */
  lemma MultipleOccurrencesFlag(classes: seq<ClassRow>, year: Primitive, session: Primitive, courseId: Primitive, i: nat)
    requires i < |classes|
    ensures ParseEvents(classes, year, session, courseId)[i].hasMultipleOccurrences <==>
      exists j :: 0 <= j < |classes| && j != i && classes[j].activity == classes[i].activity
  {
    var a := Activities(classes);
    var x := classes[i].activity;
    MultipleOccurrenceActivitiesSpec(a, x);
    if exists j :: 0 <= j < |classes| && j != i && classes[j].activity == x {
      var j :| 0 <= j < |classes| && j != i && classes[j].activity == x;
      if i < j { assert a[i] == x && a[j] == x; } else { assert a[j] == x && a[i] == x; }
    }
    if Repeated(a, x) {
      var p, q :| 0 <= p < q < |a| && a[p] == x && a[q] == x;
      var j := if p == i then q else p;
      assert classes[j].activity == x;
    }
  }

  /** The title is module and activity, then the occurrence unless the
      activity starts with "Lec", separated by single spaces; the id is
      module, activity and occurrence separated by underscores. */
  lemma TitleAndId(c: ClassRow, occurrence: Number)
    ensures Title(c, occurrence) == c.moduleCode + " " + c.activity +
      (if "Lec" <= c.activity then "" else " " + NumberToString(occurrence))
    ensures EventId(c.moduleCode, c.activity, occurrence) == c.moduleCode + "_" + c.activity + "_" + NumberToString(occurrence)
  {
    var m, a, o := c.moduleCode, c.activity, NumberToString(occurrence);
    EventIdText(m, a, occurrence);
    assert Join([o], " ") == o;
    assert Join([a], " ") == a;
    if "Lec" <= a {
      assert [m, a] + [] == [m, a];
      assert Join([m, a], " ") == m + " " + a by { assert [m, a][1..] == [a]; }
    } else {
      assert [m, a] + [o] == [m, a, o];
      assert Join([a, o], " ") == a + " " + o by { assert [a, o][1..] == [o]; }
      assert Join([m, a, o], " ") == m + " " + (a + " " + o) by { assert [m, a, o][1..] == [a, o]; }
    }
  }

  lemma EventIdText(m: string, a: string, occurrence: Number)
    ensures EventId(m, a, occurrence) == m + "_" + a + "_" + NumberToString(occurrence)
  {
    var o := NumberToString(occurrence);
    assert Join([o], "_") == o;
    assert Join([a, o], "_") == a + "_" + o by { assert [a, o][1..] == [o]; }
    assert Join([m, a, o], "_") == m + "_" + (a + "_" + o) by { assert [m, a, o][1..] == [a, o]; }
  }

  lemma NumberStringHasNoUnderscore(n: Number)
    ensures '_' !in NumberToString(n)
  {
    match n
    case NaN =>
    case Int(v) =>
      if v < 0 {
        assert '_' !in NatToString(-v);
      } else {
        assert '_' !in NatToString(v);
      }
  }

  /** With no underscore in module and activity, the id splits back into
      its three parts. */
  lemma EventIdSplits(moduleCode: string, activity: string, occurrence: Number)
    requires '_' !in moduleCode && '_' !in activity
    ensures Split(EventId(moduleCode, activity, occurrence), '_') == [moduleCode, activity, NumberToString(occurrence)]
  {
    NumberStringHasNoUnderscore(occurrence);
    SplitJoin([moduleCode, activity, NumberToString(occurrence)], '_');
  }

  /** Ids are unique per (module, activity, occurrence) triple, provided
      module and activity contain no underscore. */
  lemma EventIdInjective(m: string, a: string, o: Number, m': string, a': string, o': Number)
    requires '_' !in m && '_' !in a
    requires '_' !in m' && '_' !in a'
    requires EventId(m, a, o) == EventId(m', a', o')
    ensures m == m' && a == a' && o == o'
  {
    EventIdSplits(m, a, o);
    EventIdSplits(m', a', o');
    NumberToStringInjective(o, o');
  }

  /** Without the underscore condition ids collide: module "A_B" with
      activity "C" and module "A" with activity "B_C" share an id. */
  lemma EventIdCollision(o: Number)
    ensures EventId("A_B", "C", o) == EventId("A", "B_C", o)
  {
    EventIdText("A_B", "C", o);
    EventIdText("A", "B_C", o);
    assert "A_B" + "_" + "C" == "A" + "_" + "B_C";
  }
}
