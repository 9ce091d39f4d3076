# ANU timetable utilities, modelled in Dafny

This project models `src/utils.js` of the ANU timetable web app. It covers the functions the app uses to read its state from the page URL and to turn the university's class rows into calendar events:

- **`parseEvents`** turns each class row of a course into one calendar event. An event carries:
  - the id `module_activity_occurrence` and a title;
  - a selection group, which is the activity;
  - a flag saying whether the activity runs in several rows;
  - a weekly recurrence rule restricted to the row's week numbers. A weeks text such as `1‑3,5‑7` lists ranges joined by the non-breaking hyphen U+2011, and it expands to an explicit list of weeks.
- **`getInitialState`** reads the year `y`, the session `s` and the hidden events `hide` from the query string:
  - it defaults the year and the session from today's month;
  - it keeps the parameters whose name contains a digit as module parameters;
  - it unsets on the location every parameter other than `y`, `s` and `hide` whose name has no digit.
- **`setQueryParam` / `unsetQueryParam`** rewrite the location's query following the `set` and `delete` operations of URLSearchParams (section 6.2 of the WHATWG URL Standard).
- **`getStartOfSession`** looks up the start date of the session the state names.
- **`stringToColor`** gives each distinct string an HSL colour the first time it is seen, taking the next hue from a 24-hue palette, and keeps that colour.

Modules:

- `Js` holds the JavaScript built-ins the code relies on:
  - `parseInt`, as ECMA-262 defines it for a call without a radix;
  - conversion of integers to strings;
  - `split` and `join` with a one-character separator;
  - truthiness and `||`;
  - property lookup on a plain object literal, which also sees the names inherited from Object.prototype.
- `Weeks` and `Events` model `parseEvents`.
- `Query` models the query string and the `Location` class that owns it.
- `InitialState` models `getInitialState` and `getStartOfSession`.
- `Colors` models `stringToColor`, with the `ColorCache` class holding the colour table.

Three points where the model follows the code rather than its comments:

- The comment at `src/utils.js:103` pairs `1‑3,5‑7` with `[1,2,3,6,7,8]`. The code gives `[1,2,3,5,6,7]`, and `[1,2,3,6,7,8]` is what `1‑3,6‑8` gives (`Weeks.ExampleTwoRanges`, `Weeks.ExampleCommentRanges`).
- The comment at `src/utils.js:28` switches to next year "after Sept". The test `month > 9` uses a 0-based month, so it switches in November and December; October still gives S2 of this year (`InitialState.DefaultsOverTheYear`).
- `hasMultipleOccurrences` holds when another row has the same activity. It counts rows, not distinct occurrence values (`Events.MultipleOccurrencesFlag`).

## Model

| member | source | states |
|---|---|---|
| Js.ParseNumberToString | src/utils.js:94 | `parseInt` reads every number the model handles back from its string form, NaN included |
| Js.NumberToStringInjective | src/utils.js:132 | two numbers with the same string form are equal |
| Js.JoinSplit | src/utils.js:105 | joining the pieces of a split with the same separator gives back the input |
| Js.SplitJoin | src/utils.js:105 | splitting a join of pieces that do not contain the separator gives back the pieces |
| Weeks.Range | src/utils.js:102 | the range of an ascending pair runs from lo to hi in steps of one, hi-lo+1 weeks all within [lo, hi]; a descending pair gives no weeks |
| Weeks.ExpandSpanText | src/utils.js:102-105 | piece `a` expands to `[a]`; piece `a‑b` with a <= b expands to a..b, which is b-a+1 weeks |
| Weeks.ExpandDescendingSpan | src/utils.js:102 | a descending piece `a‑b` with 0 < b < a expands to no weeks at all |
| Weeks.ExpandWeeksOfSpans | src/utils.js:105 | a weeks text made of ascending pieces joined by commas expands to the concatenation of each piece's weeks, in input order |
| Weeks.ExampleTwoRanges | src/utils.js:103-105 | `1‑3,5‑7` expands to [1,2,3,5,6,7] |
| Weeks.ExampleCommentRanges | src/utils.js:103 | `1‑3,6‑8` expands to [1,2,3,6,7,8] |
| Weeks.ExampleSingleWeek | src/utils.js:104-105 | `8` expands to [8] |
| Events.IndexOf | src/utils.js:91 | `indexOf`: the first position holding x, or -1 exactly when x is absent |
| Events.LastIndexOf | src/utils.js:91 | `lastIndexOf`: the last position holding x, or -1 exactly when x is absent |
| Events.MultipleOccurrenceActivitiesSpec | src/utils.js:91 | the filtered list holds x exactly when x occurs at two positions, and it holds each such activity once |
| Events.ParseEvents | src/utils.js:92 | one event per class row |
| Events.ParseEventsShape | src/utils.js:92-138 | event i carries row i's fields, the overridden keys removed from the extra fields; its id is the module_activity_occurrence id and its title the row's title; occurrence is `parseInt` of the row's; groupId is the activity; the rule is weekly over the expanded weeks in Australia/Canberra, from the first week's start time to the last week's finish time, on Luxon weekday day+1 |
| Events.MultipleOccurrencesFlag | src/utils.js:91-129 | `hasMultipleOccurrences` holds exactly when some other row has the same activity |
| Events.TitleAndId | src/utils.js:96-132 | the title is "module activity", with " occurrence" after it unless the activity starts with "Lec"; the id is module_activity_occurrence |
| Events.EventIdText | src/utils.js:132 | the id is module, activity and occurrence separated by underscores |
| Events.EventIdSplits | src/utils.js:132 | without '_' in module and activity, the id splits back into its three parts |
| Events.EventIdInjective | src/utils.js:132 | without '_' in module and activity, equal ids mean equal (module, activity, occurrence) |
| Events.EventIdCollision | src/utils.js:132 | with '_' allowed, distinct (module, activity) pairs share an id |
| Query.FirstIndex | src/utils.js:58 | the first pair with the name, or -1 exactly when the name is absent |
| Query.Get | src/utils.js:21-22 | `get` is null exactly when no pair has the name; otherwise it is the value of the first pair with the name |
| Query.Named | src/utils.js:58 | the pairs with the name, exactly those of the query |
| Query.Delete | src/utils.js:64 | `delete` keeps exactly the pairs of other names |
| Query.DeleteKeepsOthers | src/utils.js:64 | deleting a name leaves every other name's pairs as they were, in order |
| Query.DeleteIdempotent | src/utils.js:64 | deleting twice is deleting once |
| Query.SetNamed | src/utils.js:58 | after `set`, exactly one pair has the name, and it holds the value |
| Query.SetKeepsOthers | src/utils.js:58 | `set` leaves the pairs of other names unchanged and in order |
| Query.SetPosition | src/utils.js:58 | `set` puts the pair in place of the first pair of that name, or appends it when there is none |
| Query.SetThenGet | src/utils.js:58 | `get` after `set` gives the value set |
| Query.SetThenDelete | src/utils.js:58-64 | `delete` after `set` gives the query without the name; when the name was absent, exactly the query before |
| Query.Location.SetQueryParam | src/utils.js:56-60 | the parameter ends up present once, with the value given; with none given, its first previous value, or "" if it had none; other parameters unchanged |
| Query.Location.UnsetQueryParam | src/utils.js:62-66 | no pair of the name is left; the others keep their values and their order |
| InitialState.YearAndSessionCases | src/utils.js:21-35 | a non-empty `s` is kept; without one: S1 in January-May, S2 from June, and S1 of next year in November-December when `y` is also absent; otherwise a non-empty `y`, or this year |
| InitialState.DefaultsOverTheYear | src/utils.js:25-35 | with no `y` and no `s`: months 0-4 give (this year, S1), months 5-9 give (this year, S2), months 10-11 give (next year, S1) |
| InitialState.ParseHiddenEmpty | src/utils.js:37-40 | an empty `hide` still yields one entry: empty module, no group, NaN occurrence |
| InitialState.ParseEventIdEntry | src/utils.js:38-39 | an event id as a hide entry parses back to its module, group and occurrence |
| InitialState.ParseHideText | src/utils.js:37-40 | a comma-joined list of event ids parses back to the same list of hidden events |
| InitialState.ModuleParams | src/utils.js:47-51 | the kept entries are exactly those whose name has a digit |
| InitialState.AfterLoad | src/utils.js:42-51 | the location keeps exactly `y`, `s`, `hide` and the digit-named parameters |
| InitialState.UnsetNoDigitNames | src/utils.js:42-51 | unsetting the digit-free names among the other parameters leaves exactly that query |
| InitialState.ModuleParamsOfRemaining | src/utils.js:42-53 | deleting `y`, `s` and `hide` removes no module parameter, and their order is unchanged |
| InitialState.ReservedNotModules | src/utils.js:42-51 | `y`, `s` and `hide` never appear among the module parameters |
| InitialState.AfterLoadStable | src/utils.js:42-53 | a second load finds the same module parameters and changes nothing more |
| InitialState.FilterModules | src/utils.js:47-53 | the filter returns the digit-named entries and unsets every other name on the location |
| InitialState.GetInitialState | src/utils.js:19-54 | the state holds year and session as defaulted, the digit-named parameters of the whole query in order, and the parsed `hide`; the location keeps `y`, `s`, `hide` and the digit-named parameters |
| InitialState.SessionStartAsWritten | src/utils.js:70-72 | the lookup finds the date exactly for "2022S1"; with any other key it gives undefined, unless the key is an Object.prototype name |
| InitialState.SessionStart | src/utils.js:70-72 | a date exactly for "2022S1", and absent for every other key |
| InitialState.InheritedSessionStart | src/utils.js:68-72 | `?y=construc&s=tor` makes the key "constructor", which finds an inherited member |
| InitialState.GetStartOfSession | src/utils.js:68-73 | the start date is the lookup of year + session from the initial state, with that call's effect on the location |
| InitialState.StartOfFirstSession | src/utils.js:68-73 | `y=2022&s=S1`, or no `y` and `s` in January-May 2022, gives 21 February 2022 |
| Colors.Hue | src/utils.js:10-12 | the hue is (palette entry count mod 24, plus 60) mod 360, below 360 |
| Colors.Remember | src/utils.js:8-15 | a known string gets its colour back and the table is unchanged; a new one gets the colour for the table's size, and the table grows by exactly that entry; old entries keep their colours |
| Colors.RememberIdempotent | src/utils.js:8-15 | calling twice returns the same colour and leaves the same table |
| Colors.ColorOfKthDistinct | src/utils.js:8-15 | after any run of calls, the k-th distinct string seen has the colour of palette entry k, and the table holds exactly the strings seen |
| Colors.HuesDistinct | src/utils.js:7-12 | the 24 rotated hues are pairwise distinct |
| Colors.ColorsDistinct | src/utils.js:7-12 | the first 24 distinct strings get pairwise different colours; the 25th gets the first colour again |
| Colors.FirstColor | src/utils.js:11-12 | the first colour is "hsl(60, 100%, 30%)" |
| Colors.ColorCache.StringToColor | src/utils.js:8-15 | the colour returned and the new table are those of one call on the old table |
| Colors.RememberAsWritten | src/utils.js:9-14 | with `in` and `[]` also seeing the inherited names: a string not among those names behaves as in the own-key version, and an inherited name gets the inherited member back |
| Colors.ToStringHasNoColor | src/utils.js:9-14 | as written, "toString" on a fresh table gets Object's `toString` back and nothing is recorded; the own-key version gives the first colour |

## Left out

- Luxon's calendar arithmetic (`DateTime.fromFormat(...).set(...)`, `toJSDate`) is not modelled. An instant records the arguments it is built from.
- `byweekday`, Luxon's weekday minus one, is not modelled, because it needs Luxon's arithmetic.
- `new Date()` is not modelled. The month and the full year it gives are parameters of `GetInitialState` and `GetStartOfSession`.
- `window.location.search`, `qs.toString()` and `history.replaceState` are not modelled. The location is the `Query.Location` object, its query is a list of decoded (name, value) pairs, and percent-encoding is not modelled.
- `fetchJsObject`, `saveAs` and `cropCanvas` are not modelled; they only do I/O and DOM work.
- `src/Calendar.js` is not part of this model.
- Numbers are unbounded integers or NaN. Not modelled:
  - `parseInt` rounding beyond 2^53;
  - the RangeError `Array.from` raises for a length above 2^32-1;
  - exponent notation for numbers from 1e21 up;
  - -0, which only truthiness and string conversion see, and both treat it as 0.
- Class row fields are typed as the timetable data holds them: strings, with an integer day. Row fields other than the named ones are strings in `extra`.
- `parseEvents` accepts `session` and `id` and does not use them, so they do not appear in any result.
- Colors.ColorCache.StringToColor: tests membership on the table's own keys, which is the corrected behaviour. The code as written is `Colors.RememberAsWritten` (see Findings).
- InitialState.GetStartOfSession: returns the corrected lookup `SessionStart`. The code as written is `SessionStartAsWritten`.

## Findings

| source | as written | input that shows it | evidently intended | confidence | as-written member | corrected member |
|---|---|---|---|---|---|---|
| src/utils.js:9-14 | `str in stringColorMap` and `stringColorMap[str]` on a plain object also find Object.prototype's members | `stringToColor("toString")` returns Object's `toString` function, not a colour | every string gets an HSL colour string | low; not executed | Colors.ToStringHasNoColor | Colors.Remember |
| src/utils.js:70-72 | `{...}?.[year + session]` also finds Object.prototype's members | `?y=construc&s=tor` makes the key "constructor", and the result is Object's constructor, not a date or undefined | a date for a known session, otherwise undefined | low; not executed | InitialState.InheritedSessionStart | InitialState.SessionStart |
