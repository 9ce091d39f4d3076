/** `getInitialState`: the year, session, module parameters and hidden
    events the timetable starts from, read from the page's query string;
    and `getStartOfSession`, the start date of the session that state names.
    The current month and year are parameters (the source reads them from
    the clock). */
module InitialState {
  import opened Js
  import opened Query
  import opened Events

  // ---------------------------------------------------------------------
  // Year and session

  /** A query parameter as the value `qs.get` hands to JavaScript. */
  function FromQuery(v: Option<string>): (r: Primitive)
    ensures v.None? ==> r == Null
    ensures v.Some? ==> r == Str(v.value)
  {
    match v
    case None => Null
    case Some(s) => Str(s)
  }

  /** The year and session `getInitialState` returns, given the `y` and `s`
      parameters, the 0-based month and the full year of today's date. */
  function YearAndSession(y: Option<string>, s: Option<string>, month: int, fullYear: int): (Primitive, string) {
    var year := FromQuery(y);
    var session := FromQuery(s);
    if Truthy(session) then (Or(year, Num(Int(fullYear))), session.text)
    else if !Truthy(year) && month > 9 then (Or(Num(Int(fullYear + 1)), Num(Int(fullYear))), "S1")
    else (Or(year, Num(Int(fullYear))), if month < 5 then "S1" else "S2")
  }

  predicate Given(v: Option<string>) {
    v.Some? && v.value != ""
  }

  /** What the defaulting rules amount to. A non-empty `s` is taken as it
      is. Without one, the session is S1 from January to May and S2 from
      June on, except that in November and December, when no year is given
      either, it is S1 of next year. A non-empty `y` is the year whenever it
      is taken into account; otherwise the year is this year. */
  lemma YearAndSessionCases(y: Option<string>, s: Option<string>, month: int, fullYear: int)
    ensures var (year, session) := YearAndSession(y, s, month, fullYear);
      && (Given(s) ==> session == s.value)
      && (Given(s) || Given(y) || month <= 9 ==>
            year == (if Given(y) then Str(y.value) else Num(Int(fullYear))))
      && (!Given(s) && month < 5 ==> session == "S1")
      && (!Given(s) && 5 <= month && (Given(y) || month <= 9) ==> session == "S2")
      && (!Given(s) && !Given(y) && month > 9 ==>
            session == "S1" && year == Num(Int(if fullYear == -1 then fullYear else fullYear + 1)))
  {
  }

  /** With neither `y` nor `s`, and the month as `getMonth` gives it
      (0 = January): January to May is S1 and June to October is S2 of this
      year; November and December are S1 of next year. October, month 9,
      is not past `month > 9`, although the comment above that test speaks
      of "after Sept". */
  lemma DefaultsOverTheYear(month: int, fullYear: nat)
    requires 0 <= month <= 11
    ensures YearAndSession(None, None, month, fullYear) ==
      if month <= 4 then (Num(Int(fullYear)), "S1")
      else if month <= 9 then (Num(Int(fullYear)), "S2")
      else (Num(Int(fullYear + 1)), "S1")
  {
  }

  // ---------------------------------------------------------------------
  // Hidden events

  /** One entry of the `hide` parameter: module, group and occurrence; an
      entry with fewer than three parts leaves the group undefined and the
      occurrence NaN (`parseInt(undefined)`). */
  datatype Hidden = Hidden(moduleCode: string, groupId: Option<string>, occurrence: Number)

  /** One `hide` entry split on '_': the module, the group and the
      occurrence read with `parseInt`. */
  function ParseHiddenEntry(x: string): (h: Hidden)
    ensures var parts := Split(x, '_');
      && h.moduleCode == parts[0]
      && (h.groupId.Some? <==> |parts| >= 2)
      && (|parts| >= 2 ==> h.groupId.value == parts[1])
      && h.occurrence == (if |parts| >= 3 then ParseInt(parts[2]) else NaN)
  {
    var parts := Split(x, '_');
    Hidden(parts[0], if |parts| >= 2 then Some(parts[1]) else None,
           if |parts| >= 3 then ParseInt(parts[2]) else NaN)
  }

  /** The hidden events: the `hide` value split on commas, each entry read
      as above; none when the parameter is absent. */
  function ParseHidden(hideParam: Option<string>): (r: seq<Hidden>)
    ensures hideParam.None? ==> r == []
    ensures hideParam.Some? ==>
      |r| == |Split(hideParam.value, ',')| &&
      forall i :: 0 <= i < |r| ==> r[i] == ParseHiddenEntry(Split(hideParam.value, ',')[i])
  {
    if hideParam.None? then []
    else
      var entries := Split(hideParam.value, ',');
      seq(|entries|, i requires 0 <= i < |entries| => ParseHiddenEntry(entries[i]))
  }

  /** A present but empty `hide` is not null, so it yields one entry: empty
      module, no group, NaN occurrence. */
  lemma ParseHiddenEmpty()
    ensures ParseHidden(Some("")) == [Hidden("", None, NaN)]
  {
  }

  /** An entry written as an event id reads back as its module, group and
      occurrence, when module and group contain no underscore. */
  lemma ParseEventIdEntry(moduleCode: string, groupId: string, occurrence: Number)
    requires '_' !in moduleCode && '_' !in groupId
    ensures ParseHiddenEntry(EventId(moduleCode, groupId, occurrence)) == Hidden(moduleCode, Some(groupId), occurrence)
  {
    EventIdSplits(moduleCode, groupId, occurrence);
    ParseNumberToString(occurrence);
  }

  predicate Writable(h: Hidden) {
    h.groupId.Some? && '_' !in h.moduleCode && '_' !in h.groupId.value
    && ',' !in h.moduleCode && ',' !in h.groupId.value
  }

  /** The `hide` text for a list of hidden events: their ids joined by commas. */
  function HideText(hs: seq<Hidden>): (r: string)
    requires forall i :: 0 <= i < |hs| ==> hs[i].groupId.Some?
  {
    Join(seq(|hs|, i requires 0 <= i < |hs| => EventId(hs[i].moduleCode, hs[i].groupId.value, hs[i].occurrence)), ",")
  }

  lemma EventIdHasNoComma(moduleCode: string, groupId: string, occurrence: Number)
    requires ',' !in moduleCode && ',' !in groupId
    ensures ',' !in EventId(moduleCode, groupId, occurrence)
  {
    EventIdText(moduleCode, groupId, occurrence);
    match occurrence
    case NaN =>
    case Int(v) =>
      if v < 0 {
        assert ',' !in NatToString(-v);
      } else {
        assert ',' !in NatToString(v);
      }
  }

  /** A non-empty list of hidden events written as comma-separated ids is
      parsed back into the same list. */
  lemma ParseHideText(hs: seq<Hidden>)
    requires hs != []
    requires forall i :: 0 <= i < |hs| ==> hs[i].groupId.Some? && Writable(hs[i])
    ensures ParseHidden(Some(HideText(hs))) == hs
  {
    var ids := seq(|hs|, i requires 0 <= i < |hs| => EventId(hs[i].moduleCode, hs[i].groupId.value, hs[i].occurrence));
    forall i | 0 <= i < |ids| ensures ',' !in ids[i] {
      EventIdHasNoComma(hs[i].moduleCode, hs[i].groupId.value, hs[i].occurrence);
    }
    SplitJoin(ids, ',');
    forall i | 0 <= i < |hs| ensures ParseHiddenEntry(ids[i]) == hs[i] {
      ParseEventIdEntry(hs[i].moduleCode, hs[i].groupId.value, hs[i].occurrence);
    }
  }

  // ---------------------------------------------------------------------
  // Module parameters

  /** The parameters `getInitialState` reads and deletes itself. */
  const ReservedNames: set<string> := {"y", "s", "hide"}

  /** The query without `y`, `s` and `hide`. */
  function Remaining(q: seq<Param>): seq<Param> {
    Delete(Delete(Delete(q, "y"), "s"), "hide")
  }

  /** The name contains a decimal digit. */
  predicate HasDigit(name: string) {
    exists i :: 0 <= i < |name| && IsDecimalDigit(name[i])
  }

  /** The entries whose name has a digit, in order. */
  function ModuleParams(q: seq<Param>): (r: seq<Param>)
    ensures forall p :: p in r <==> p in q && HasDigit(p.name)
  {
    if q == [] then []
    else (if HasDigit(q[0].name) then [q[0]] else []) + ModuleParams(q[1..])
  }

  /** The names `moduleFormat` unsets: those of the entries without a digit. */
  function NoDigitNames(q: seq<Param>): set<string> {
    set p | p in q && !HasDigit(p.name) :: p.name
  }

  /** The pairs whose name is not in `names`, in order. */
  function Without(q: seq<Param>, names: set<string>): (r: seq<Param>)
    ensures forall p :: p in r <==> p in q && p.name !in names
  {
    if q == [] then []
    else (if q[0].name in names then [] else [q[0]]) + Without(q[1..], names)
  }

  lemma {:induction false} WithoutNothing(q: seq<Param>)
    ensures Without(q, {}) == q
  {
    if q != [] {
      WithoutNothing(q[1..]);
    }
  }

  predicate KeptName(name: string) {
    name in ReservedNames || HasDigit(name)
  }

  /** The query the location is left with: `y`, `s`, `hide` and the
      parameters whose names have a digit, in their original order. */
  function AfterLoad(q: seq<Param>): (r: seq<Param>)
    ensures forall p :: p in r <==> p in q && KeptName(p.name)
  {
    if q == [] then []
    else (if KeptName(q[0].name) then [q[0]] else []) + AfterLoad(q[1..])
  }

  lemma {:induction false} ModuleParamsAppend(a: seq<Param>, b: seq<Param>)
    ensures ModuleParams(a + b) == ModuleParams(a) + ModuleParams(b)
  {
    if a == [] {
      assert a + b == b;
    } else {
      assert (a + b)[0] == a[0] && (a + b)[1..] == a[1..] + b;
      ModuleParamsAppend(a[1..], b);
    }
  }

  lemma ModuleParamsSingle(p: Param)
    ensures ModuleParams([p]) == if HasDigit(p.name) then [p] else []
  {
    assert [p][1..] == [];
  }

  lemma NoDigitNamesAppend(q: seq<Param>, p: Param)
    ensures NoDigitNames(q + [p]) == NoDigitNames(q) + (if HasDigit(p.name) then {} else {p.name})
  {
    assert forall x :: x in q + [p] <==> x in q || x == p;
  }

  lemma {:induction false} DeleteWithout(q: seq<Param>, names: set<string>, name: string)
    ensures Delete(Without(q, names), name) == Without(q, names + {name})
  {
    if q != [] {
      DeleteWithout(q[1..], names, name);
      var head := if q[0].name in names then [] else [q[0]];
      assert Without(q, names) == head + Without(q[1..], names);
      DeleteAppend(head, Without(q[1..], names), name);
      assert head != [] ==> Delete(head, name) == if q[0].name == name then [] else [q[0]] by {
        if head != [] { assert head[1..] == []; }
      }
    }
  }

  lemma {:induction false} DeleteAppend(a: seq<Param>, b: seq<Param>, name: string)
    ensures Delete(a + b, name) == Delete(a, name) + Delete(b, name)
  {
    if a == [] {
      assert a + b == b;
    } else {
      assert (a + b)[0] == a[0] && (a + b)[1..] == a[1..] + b;
      DeleteAppend(a[1..], b, name);
    }
  }

  lemma {:induction false} WithoutIsAfterLoad(q: seq<Param>, names: set<string>)
    requires forall p :: p in q ==> (p.name in names <==> !KeptName(p.name))
    ensures Without(q, names) == AfterLoad(q)
  {
    if q != [] {
      assert q[0] in q;
      assert forall p :: p in q[1..] ==> p in q;
      WithoutIsAfterLoad(q[1..], names);
    }
  }

  /** Unsetting the digit-free names of what remains of the query keeps
      exactly the reserved and the digit-named parameters. */
  lemma UnsetNoDigitNames(q: seq<Param>)
    ensures Without(q, NoDigitNames(Remaining(q))) == AfterLoad(q)
  {
    var names := NoDigitNames(Remaining(q));
    forall p | p in q ensures p.name in names <==> !KeptName(p.name) {
      if !KeptName(p.name) {
        assert p in Remaining(q);
      }
    }
    WithoutIsAfterLoad(q, names);
  }

  lemma {:induction false} ModuleParamsOfDelete(q: seq<Param>, name: string)
    requires !HasDigit(name)
    ensures ModuleParams(Delete(q, name)) == ModuleParams(q)
  {
    if q != [] {
      ModuleParamsOfDelete(q[1..], name);
      var head := if q[0].name == name then [] else [q[0]];
      ModuleParamsAppend(head, Delete(q[1..], name));
      if head != [] {
        ModuleParamsSingle(q[0]);
      }
    }
  }

  /** The module parameters are those of the whole query, in order:
      deleting `y`, `s` and `hide` takes none of them away. */
  lemma ModuleParamsOfRemaining(q: seq<Param>)
    ensures ModuleParams(Remaining(q)) == ModuleParams(q)
  {
    assert !IsDecimalDigit('y') && !IsDecimalDigit('s');
    assert forall i :: 0 <= i < 4 ==> !IsDecimalDigit("hide"[i]);
    ModuleParamsOfDelete(q, "y");
    ModuleParamsOfDelete(Delete(q, "y"), "s");
    ModuleParamsOfDelete(Delete(Delete(q, "y"), "s"), "hide");
  }

  lemma ReservedHaveNoDigit(name: string)
    requires name in ReservedNames
    ensures !HasDigit(name)
  {
    if name == "hide" {
      assert forall i :: 0 <= i < |name| ==> name[i] in "hide";
    }
  }

  /** `y`, `s` and `hide` are never module parameters. */
  lemma ReservedNotModules(q: seq<Param>, p: Param)
    requires p in ModuleParams(q)
    ensures p.name !in ReservedNames
  {
    if p.name in ReservedNames {
      ReservedHaveNoDigit(p.name);
    }
  }

  /** Loading again from the query a load leaves behind changes nothing and
      finds the same module parameters. */
  lemma {:induction false} AfterLoadStable(q: seq<Param>)
    ensures AfterLoad(AfterLoad(q)) == AfterLoad(q)
    ensures ModuleParams(AfterLoad(q)) == ModuleParams(q)
  {
    if q != [] {
      AfterLoadStable(q[1..]);
      var head := if KeptName(q[0].name) then [q[0]] else [];
      ModuleParamsAppend(head, AfterLoad(q[1..]));
      ModuleParamsSingle(q[0]);
      assert AfterLoad(q) == head + AfterLoad(q[1..]);
      AfterLoadAppend(head, AfterLoad(q[1..]));
      if head != [] {
        assert head[1..] == [];
      }
    }
  }

  lemma {:induction false} AfterLoadAppend(a: seq<Param>, b: seq<Param>)
    ensures AfterLoad(a + b) == AfterLoad(a) + AfterLoad(b)
  {
    if a == [] {
      assert a + b == b;
    } else {
      assert (a + b)[0] == a[0] && (a + b)[1..] == a[1..] + b;
      AfterLoadAppend(a[1..], b);
    }
  }

  // ---------------------------------------------------------------------
  // getInitialState

  /** `[year, session, modules, hidden]` */
  datatype State = State(year: Primitive, session: string, modules: seq<Param>, hidden: seq<Hidden>)

  /** The state a query yields. */
  function StateOf(q: seq<Param>, month: int, fullYear: int): State {
    var (year, session) := YearAndSession(Get(q, "y"), Get(q, "s"), month, fullYear);
    State(year, session, ModuleParams(Remaining(q)), ParseHidden(Get(q, "hide")))
  }

  /** An entry whose name has a digit joins the modules and unsets nothing. */
  lemma FilterKeep(q0: seq<Param>, qs: seq<Param>, i: nat)
    requires i < |qs| && HasDigit(qs[i].name)
    ensures ModuleParams(qs[..i + 1]) == ModuleParams(qs[..i]) + [qs[i]]
    ensures Without(q0, NoDigitNames(qs[..i + 1])) == Without(q0, NoDigitNames(qs[..i]))
  {
    var done, entry := qs[..i], qs[i];
    assert qs[..i + 1] == done + [entry];
    ModuleParamsAppend(done, [entry]);
    ModuleParamsSingle(entry);
    NoDigitNamesAppend(done, entry);
  }

  /** Any other entry adds no module and unsets its name. */
  lemma FilterUnset(q0: seq<Param>, qs: seq<Param>, i: nat)
    requires i < |qs| && !HasDigit(qs[i].name)
    ensures ModuleParams(qs[..i + 1]) == ModuleParams(qs[..i])
    ensures Without(q0, NoDigitNames(qs[..i + 1])) == Delete(Without(q0, NoDigitNames(qs[..i])), qs[i].name)
  {
    var done, entry := qs[..i], qs[i];
    assert qs[..i + 1] == done + [entry];
    ModuleParamsAppend(done, [entry]);
    ModuleParamsSingle(entry);
    NoDigitNamesAppend(done, entry);
    DeleteWithout(q0, NoDigitNames(done), entry.name);
  }

  /** The filter over the remaining entries: keeps the entries
      whose name has a digit and unsets each other name on the location. */
  method FilterModules(loc: Location, qs: seq<Param>) returns (modules: seq<Param>)
    modifies loc
    ensures modules == ModuleParams(qs)
    ensures loc.query == Without(old(loc.query), NoDigitNames(qs))
  {
    ghost var q0 := loc.query;
    WithoutNothing(q0);
    assert qs[..0] == [] && NoDigitNames([]) == {};
    modules := [];
    var i := 0;
    while i < |qs|
      invariant 0 <= i <= |qs|
      invariant modules == ModuleParams(qs[..i])
      invariant loc.query == Without(q0, NoDigitNames(qs[..i]))
    {
      var entry := qs[i];
      if HasDigit(entry.name) {
        FilterKeep(q0, qs, i);
        modules := modules + [entry];
      } else {
        FilterUnset(q0, qs, i);
        loc.UnsetQueryParam(entry.name);
      }
      i := i + 1;
    }
    assert qs[..i] == qs;
  }

  /** `getInitialState()`: reads the location's query, and unsets on the
      location every parameter other than `y`, `s` and `hide` whose name
      has no digit. */
  method GetInitialState(loc: Location, month: int, fullYear: int) returns (st: State)
    modifies loc
    ensures st == StateOf(old(loc.query), month, fullYear)
    ensures forall p :: p in st.modules <==> p in old(loc.query) && HasDigit(p.name)
    ensures st.modules == ModuleParams(old(loc.query))
    ensures loc.query == AfterLoad(old(loc.query))
  {
    var q0 := loc.query;
    var year := FromQuery(Get(q0, "y"));
    var session := FromQuery(Get(q0, "s"));
    if !Truthy(session) {
      if !Truthy(year) && month > 9 {
        year := Num(Int(fullYear + 1));
        session := Str("S1");
      } else {
        session := Str(if month < 5 then "S1" else "S2");
      }
    }
    var hidden := ParseHidden(Get(q0, "hide"));
    var qs := Remaining(q0);
    var modules := FilterModules(loc, qs);
    UnsetNoDigitNames(q0);
    ModuleParamsOfRemaining(q0);
    st := State(Or(year, Num(Int(fullYear))), session.text, modules, hidden);
  }

  // ---------------------------------------------------------------------
  // getStartOfSession

  /** A JavaScript Date, as milliseconds since the Unix epoch. */
  datatype Date = Date(epochMillis: int)

  /** 2022-02-20T21:00:00Z, 8 AM on 21 February in Canberra. */
  const FirstSessionStart: Date := Date(1645390800000)

  /** The one session start the code knows, by key. */
  const SessionStarts: map<string, Date> := map["2022S1" := FirstSessionStart]

  /** `year + session`: the string concatenation the lookup key is. */
  function SessionKey(st: State): string {
    PrimitiveToString(st.year) + st.session
  }

  /** `{ '2022S1': ... }?.[key]` as written: an Object.prototype name finds
      the inherited member instead of undefined. */
  function SessionStartAsWritten(key: string): (r: Property<Date>)
    ensures r.Own? <==> key == "2022S1"
    ensures r.Own? ==> r.value == FirstSessionStart
    ensures r.Undefined? <==> key != "2022S1" && key !in ObjectPrototypeNames
  {
    GetProperty(SessionStarts, key)
  }

  /** The lookup as intended: only the listed session has a start date. */
  function SessionStart(key: string): (r: Option<Date>)
    ensures r.Some? <==> key == "2022S1"
    ensures r.Some? ==> r.value == FirstSessionStart
    ensures r.Some? <==> SessionStartAsWritten(key).Own?
  {
    if key in SessionStarts then Some(SessionStarts[key]) else None
  }

  /** `?y=construc&s=tor` makes the key "constructor", for which the
      literal yields Object's constructor function rather than undefined. */
  lemma InheritedSessionStart(month: int, fullYear: int)
    ensures SessionKey(StateOf([Param("y", "construc"), Param("s", "tor")], month, fullYear)) == "constructor"
    ensures SessionStartAsWritten("constructor") == Inherited("constructor")
    ensures SessionStart("constructor") == None
  {
    var q := [Param("y", "construc"), Param("s", "tor")];
    assert Get(q, "y") == Some("construc");
    assert Get(q, "s") == Some("tor") by {
      assert q[1..] == [Param("s", "tor")];
    }
  }

  /** `getStartOfSession()`: the start of the session the query names, with
      the side effects of `getInitialState`. */
  method GetStartOfSession(loc: Location, month: int, fullYear: int) returns (start: Option<Date>)
    modifies loc
    ensures start == SessionStart(SessionKey(StateOf(old(loc.query), month, fullYear)))
    ensures loc.query == AfterLoad(old(loc.query))
  {
    var st := GetInitialState(loc, month, fullYear);
    start := SessionStart(PrimitiveToString(st.year) + st.session);
  }

  /** S1 of 2022 starts on 21 February, whether the query names it or,
      without `y` and `s`, the date falls in January to May 2022. */
  lemma StartOfFirstSession(q: seq<Param>, month: int)
    requires (Get(q, "y") == Some("2022") && Get(q, "s") == Some("S1"))
          || (!HasName(q, "y") && !HasName(q, "s") && 0 <= month < 5)
    ensures SessionStart(SessionKey(StateOf(q, month, 2022))) == Some(FirstSessionStart)
  {
    var st := StateOf(q, month, 2022);
    if Get(q, "y") == Some("2022") && Get(q, "s") == Some("S1") {
      assert st.year == Str("2022") && st.session == "S1";
    } else {
      assert st.year == Num(Int(2022)) && st.session == "S1";
      Numeral2022();
    }
    assert SessionKey(st) == "2022S1";
  }

  lemma Numeral2022()
    ensures PrimitiveToString(Num(Int(2022))) == "2022"
  {
    assert NatToString(2022) == "2022" by {
      assert NatToString(2) == "2" && NatToString(20) == "20" && NatToString(202) == "202";
    }
  }
}
