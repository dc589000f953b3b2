# Event calendar: a verified model of `calendar.js`

The calendar page loads a plain-text event file, one event per line
(date, time, title and category, separated by a vertical bar). It shows one month as a table of weeks, Monday
first. The cells before the first of the month and after its last day show
the neighbouring months' days, dimmed and without events. The buttons move
the view one month back or forward. `assets/calendar.js` does all of this in
the browser. This project states its logic in Dafny and proves properties of
it:

- `Strings` models the JavaScript string operations the script uses: `split`, `trim`, `startsWith`, `padStart` and `String(n)`.
- `Sequences` models the array operations the script uses: `filter`, `map`, the removal of `null`s, and the rows of a table read in order.
- `Gregorian` replaces the `Date` object with explicit proleptic Gregorian arithmetic on day numbers, following ECMAScript's `MakeDay`. It covers the day-0 idiom for the month length, `getDay`, and the way `setMonth` runs a day on into the next month.
- `Events` covers the event record, `parseEvents`, `getEventsForDay`, `getIconForType`, and what `addEventToCell` writes for one event.
- `MonthGrid` covers `generateCalendar`. `LayoutWith` says what goes into each cell. `BuildGrid` is the script's nested loop with its two day counters and its early `break`, proved to build exactly that layout. The lemmas give the shape of the table, the order of its days, its weekday columns and where events appear.
- `Navigation` covers `changeMonth`, both as written and corrected (see Findings).
- `Session` holds the `Calendar` class. Its fields are the globals `currentDate` and `eventsList`, plus the heading and table body that `generateCalendar` writes. Its methods are `loadEvents`, `generateCalendar`, `changeMonth` and the start-up handler.

## Model

| member | source | states |
|---|---|---|
| Strings.Trim | assets/calendar.js:37 | the result is a contiguous piece of the input with no white space at either end and only white space cut off; `TrimUnique` shows it is the only such piece |
| Strings.Split | assets/calendar.js:36 | `split` gives one more piece than there are separators, none of them containing the separator; `JoinSplit` and `SplitJoin` make it the inverse of joining |
| Strings.StartsWith | assets/calendar.js:37 | `startsWith` with one character holds exactly when that character is the string's first, a one-character prefix |
| Strings.JoinSplit | assets/calendar.js:36 | joining the pieces of `split` with the separator gives back the text, so splitting loses nothing |
| Strings.SplitJoin | assets/calendar.js:36 | splitting a join of separator-free pieces gives back exactly those pieces |
| Strings.IntToString | assets/calendar.js:54 | `String(n)` is at least one character, a minus sign only before a negative number, and digits everywhere else; `IntToStringInjective` reads it back |
| Strings.PadStart | assets/calendar.js:54 | `padStart(width, fill)` keeps the string as its suffix, reaches `width` characters, and fills in front with `fill` only |
| Strings.Pad2 | assets/calendar.js:54 | `String(n).padStart(2, '0')` is at least two characters and ends with `String(n)` |
| Strings.IntToStringInjective | assets/calendar.js:54 | different integers have different decimal notations, read back by `DecimalRoundTrip` |
| Strings.Pad2Digits | assets/calendar.js:54 | `String(n).padStart(2, '0')` for 0..99 is the tens digit followed by the units digit |
| Sequences.Filter | assets/calendar.js:37 | the result has each element satisfying the test with all its duplicates and nothing else; `FilterAppend` shows the order of the input is kept |
| Sequences.FilterMapIndices | assets/calendar.js:36-50 | after filter, map to optional values and removal of missing ones, result `k` is the value at the `k`-th position that survives both steps |
| Gregorian.DaysInMonth | assets/calendar.js:64-65 | every month has 28 to 31 days, and February has 29 exactly in a leap year |
| Gregorian.MakeDay | assets/calendar.js:63-64 | ECMAScript's day number of `new Date(year, month, day)`; `MakeDayCarries`, `MonthStep` and `DayNumberInjective` state what it means |
| Gregorian.MakeDayCarries | assets/calendar.js:64 | a month outside 0..11 carries into the year, month 12 being January of the next year and -1 December of the year before, and day `d` lies `d - 1` days after the first |
| Gregorian.MonthStep | assets/calendar.js:63-65 | the first of the next month, December to January included, comes `DaysInMonth` days after the first of the month |
| Gregorian.DayNumberInjective | assets/calendar.js:63-65 | two valid dates with the same day number are the same date |
| Gregorian.DayZeroIsLastDay | assets/calendar.js:64-65 | the only valid date on day 0 of the following month is the last day of the month, so `getDate()` of it is the month's length |
| Gregorian.DayZero | assets/calendar.js:64 | `new Date(year, month + 1, 0)` is a valid date of the same year and month, with the day number of day 0 of the next month |
| Gregorian.WeekDay | assets/calendar.js:66 | `getDay()` lies in 0..6; `Epoch` anchors it on a Thursday for day 0 |
| Gregorian.FirstWeekday | assets/calendar.js:63-66 | the Monday-based weekday of the first of a month lies in 0..6; `NextFirstWeekday` relates consecutive months |
| Gregorian.MondayBased | assets/calendar.js:66 | `(getDay() + 6) % 7` lies in 0..6, with 0 exactly for Monday and 6 exactly for Sunday |
| Gregorian.Epoch | assets/calendar.js:63 | 1 January 1970 is day 0 and a Thursday, which anchors `getDay` |
| Gregorian.NextFirstWeekday | assets/calendar.js:63-66 | the weekday of the first of the next month is the month's weekday shifted by its length, mod 7 |
| Gregorian.SetMonth | assets/calendar.js:164 | `setMonth` gives a valid date whose day number is `MakeDay(year, month, day)`, with the day kept and any overflow carried on |
| Events.Fields | assets/calendar.js:39 | one trimmed part per piece between separators, one more part than there are separators |
| Events.KeepLine | assets/calendar.js:37 | a line passes the first filter exactly when it is not all white space and does not begin with `#` |
| Events.ParseLine | assets/calendar.js:38-49 | a line gives a record exactly when it has at least three separators, that is, at least four parts |
| Events.IsRecordLine | assets/calendar.js:37-49 | a line that yields a record does not begin with `#` and has at least three separators; `RecordLineRule` gives the converse |
| Events.ParseLines | assets/calendar.js:36-50 | the filter, map and filter chain gives at most one record per line; `ParseLinesExactly` says which and in what order |
| Events.ParseEvents | assets/calendar.js:35-51 | at most one record per line of the text; `ParseLinesExactly` gives one per record line in order, and `SerializeRoundTrip` makes parsing the inverse of writing the file |
| Events.RecordLineRule | assets/calendar.js:37-40 | a line yields a record exactly when it does not begin with `#` and has at least three separators: the blank-line test is implied by the field count |
| Events.IndentedHashIsData | assets/calendar.js:37-49 | every line beginning with a space, a `#` after it included, is not a comment and gives a record once it has three separators |
| Events.IndentedHashExample | assets/calendar.js:37-49 | example: the indented line of the four fields `#a`, `b`, `c`, `d` gives the record whose date is `#a` |
| Events.ParseLinesAppend | assets/calendar.js:36-50 | the lines before and after a point parse independently, and their records are concatenated in order |
| Events.ParseLinesSingle | assets/calendar.js:36-50 | one line gives its record if it is a record line and nothing otherwise |
| Events.ParseLinesExactly | assets/calendar.js:36-50 | `parseEvents` emits exactly one record per record line, in line order, each the parse of its line |
| Events.RecordIndicesSpec | assets/calendar.js:36-50 | the record lines are listed in increasing order, each once, none missed |
| Events.ParseFourFields | assets/calendar.js:39-47 | a line of four separator-free fields gives the record of those fields, trimmed, in the order date, time, title, category |
| Events.RecordOfFields | assets/calendar.js:37-47 | four fields that trim to an event's fields, joined by the separator, make a record line that parses to that event |
| Events.ExtraFieldsIgnored | assets/calendar.js:40-47 | fields after the fourth do not change the record |
| Events.FormatRoundTrip | assets/calendar.js:38-49 | a well-formed record written as a line parses back to itself |
| Events.SerializeRoundTrip | assets/calendar.js:35-51 | a file written from well-formed records parses back to the same records in the same order |
| Events.TwoEventsOneDay | assets/calendar.js:35-51 | a two-line file gives both records in order, with a blank time field trimmed to the empty string |
| Events.EventsForDay | assets/calendar.js:53-56 | the result holds exactly the events whose date is the day's key, each with all its duplicates, and every result carries that key |
| Events.DateKey | assets/calendar.js:54 | the key starts with `String(year)` and a dash, with room for two digits of month and of day; `DateKeyParts` gives it whole |
| Events.EventsForDayAppend | assets/calendar.js:55 | the query keeps the order of the list |
| Events.DateKeyInjective | assets/calendar.js:54 | a key `year-MM-DD` names one date: different days never share events |
| Events.DateKeyParts | assets/calendar.js:54 | the key is the year's notation followed by `-MM-DD`, the month shifted to 1-based and both padded to two digits |
| Events.ExampleDayQuery | assets/calendar.js:53-56 | both example records fall on 15 March 2024 (0-based month 2) and none on the 16th |
| Events.IconForType | assets/calendar.js:153-161 | a non-empty result exactly for jeux, magic, jdr and special, each `assets/icon-<category>-small.png` |
| Events.IconForTypeInjective | assets/calendar.js:154-159 | different categories with an icon get different icon files |
| Events.IconAsWrittenAgrees | assets/calendar.js:160 | outside the names every object inherits, the object lookup as written is the four-entry table |
| Events.IconForTypeAsWritten | assets/calendar.js:153-161 | the lookup `icons[type]` with its empty-string fallback, as written: truthy exactly for the four categories and the inherited names, the table's path for the four, the inherited member for the others, and the empty string otherwise |
| Events.ConstructorGetsAnImage | assets/calendar.js:153-161 | for the category `constructor` the lookup as written is truthy and not a path, while the table has no icon for it |
| Events.Label | assets/calendar.js:147 | `time - title` for a non-empty time, the title alone otherwise; the title always ends the label |
| Events.RenderEvent | assets/calendar.js:131-151 | class `event <category>`, an icon exactly when the four-entry table has one for the category (its source and alternative text), and the label |
| Events.ImageAsWritten | assets/calendar.js:136-143 | as written, an image is emitted exactly for the four categories and the inherited names, and its source is the truthy lookup result |
| Events.RenderEventAsWrittenAgrees | assets/calendar.js:136-143 | outside the inherited names, the rendered entry has an icon exactly when the script emits an image, with the same source |
| Events.InheritedCategoryGetsAnImage | assets/calendar.js:136-160 | for a category named after an inherited property, the script emits an image of the inherited member while the rendered entry has none |
| MonthGrid.DayEntries | assets/calendar.js:111-116 | one entry per event of the day, in list order, each rendered as `addEventToCell` renders it |
| MonthGrid.GeometryOf | assets/calendar.js:63-75 | the first's weekday is in 0..6, both month lengths are in 28..31, and both neighbouring months are in 0..11 |
| MonthGrid.CellAt | assets/calendar.js:88-116 | the cell in reading position `i`; `ReadingOrder`, `ConsecutiveDays` and `OnlyMonthCellsHaveEntries` state its three branches |
| MonthGrid.LayoutWith | assets/calendar.js:78-126 | the table for a month and a day renderer; `BuildGrid` equals it, and `LayoutShape`, `ReadingOrder` and `ColumnsAreWeekdays` describe it |
| MonthGrid.Layout | assets/calendar.js:58-126 | the table for the loaded events; `EventsPlacement`, `RenderedOnItsDay` and `RenderedFromItsDay` say where the events appear |
| MonthGrid.MonthGeometry | assets/calendar.js:63-75 | the quantities computed before the loops, through `Date` as the script computes them, equal `GeometryOf` |
| MonthGrid.FillWeek | assets/calendar.js:81-123 | the inner loop builds row `week` of the layout, one cell per weekday, and moves both day counters on by that row |
| MonthGrid.BuildGrid | assets/calendar.js:71-126 | the two nested loops with their counters and the early `break` build exactly `LayoutWith` |
| MonthGrid.LayoutShape | assets/calendar.js:78-125 | 4 to 6 rows of 7 cells, as many rows as `ceil((start + days) / 7)`; four rows exactly for a 28-day month starting on a Monday |
| MonthGrid.FirstOfFebruary2021 | assets/calendar.js:63-66 | February 2021 starts on a Monday and has 28 days, so `LayoutShape` gives it four rows |
| MonthGrid.FirstWeekdays2024 | assets/calendar.js:63-66 | 1 January 2024 is a Monday and 1 February 2024 a Thursday |
| MonthGrid.ReadingOrder | assets/calendar.js:78-126 | read in order, the table shows the previous month's last `start` days, then every day of the month once and in order with its events, then fewer than seven days of the next month |
| MonthGrid.ConsecutiveDays | assets/calendar.js:88-105 | every cell holds a valid date, and cell `i` is `i` days after the Monday on or before the first, across both month boundaries and the year boundary |
| MonthGrid.PrevMonthStep | assets/calendar.js:73-75 | the previous month (December of the year before, for January) ends the day before the first of the month |
| MonthGrid.NextMonthIsNormalised | assets/calendar.js:99-100 | the month after December is January of the next year |
| MonthGrid.ColumnsAreWeekdays | assets/calendar.js:66-123 | column `d` of every row shows a day whose Monday-based weekday is `d` |
| MonthGrid.OnlyMonthCellsHaveEntries | assets/calendar.js:110-116 | cells outside the displayed month never carry events |
| MonthGrid.EventsPlacement | assets/calendar.js:102-116 | the cell of day `d` holds exactly the rendered events of day `d`, in list order |
| MonthGrid.RenderedOnItsDay | assets/calendar.js:111-115 | every event dated on day `d` appears, rendered, among that day's entries |
| MonthGrid.RenderedFromItsDay | assets/calendar.js:111-115 | every entry of day `d` renders an event of the list dated on that day |
| Navigation.ChangeMonthAsWritten | assets/calendar.js:164 | the cursor after `setMonth(getMonth() + direction)` is a valid date |
| Navigation.AsWrittenExact | assets/calendar.js:164 | when the target month has the cursor's day, the cursor moves by exactly `direction` months and keeps its day |
| Navigation.AsWrittenOverflow | assets/calendar.js:164 | when the target month is shorter than the cursor's day, the cursor lands one month too far, on day 1 to 3 |
| Navigation.AsWrittenNextFromDecember | assets/calendar.js:164 | as written, "next month" from December is January of the next year, on the same day |
| Navigation.AsWrittenPreviousFromJanuary | assets/calendar.js:164 | as written, "previous month" from January is December of the year before, on the same day |
| Navigation.NextMonthSkipsFebruary | assets/calendar.js:163-166 | from 31 January 2025, "next month" shows March 2025 |
| Navigation.PreviousMonthStaysInMarch | assets/calendar.js:163-166 | from 31 March 2025, "previous month" shows March again |
| Navigation.ChangeMonth | assets/calendar.js:163-166 | the corrected move always lands on the first of the month exactly `direction` months away, across year boundaries |
| Navigation.NextFromDecember | assets/calendar.js:164 | "next month" from December is January of the next year |
| Navigation.PreviousFromJanuary | assets/calendar.js:164 | "previous month" from January is December of the year before |
| Navigation.ChangeMonthUndo | assets/calendar.js:163-166 | moving forward and back by the same amount returns to the month started from |
| Navigation.ChangeMonthAgrees | assets/calendar.js:164 | wherever the original does not overflow, the correction shows the same month |
| Navigation.MonthIndex | assets/calendar.js:164 | `12 * year + month`, from which a month in 0..11 and its year are read back by division |
| Navigation.MonthIndexInjective | assets/calendar.js:164 | a position on the month scale names one year and one month |
| Session.MonthNamesFacts | assets/calendar.js:1-4 | twelve month names, none containing a space, no two alike |
| Session.Title | assets/calendar.js:61 | the heading is the month's name, one space, then `String(year)` |
| Session.TitleNamesMonth | assets/calendar.js:61 | the heading `<month name> <year>` names the month it shows: different months get different headings |
| Session.TitleSplits | assets/calendar.js:61 | split at its one space, the heading gives the month's name and the year |
| Session.LoadServedFile | assets/calendar.js:17-27 | serving a file written from well-formed records with a status in 200..299 loads exactly those records, in order |
| Session.FailedLoadShowsNoEvents | assets/calendar.js:19-32 | after an error status or a failed request, no cell of the drawn month carries an event |
| Session.Calendar.constructor | assets/calendar.js:6-7 | the cursor is the date passed in, and there are no events and an empty page |
| Session.Calendar.LoadEvents | assets/calendar.js:14-33 | `eventsList` becomes the parsed text after a status in 200..299 and the empty list after any other status or a failed request, and nothing else changes |
| Session.Calendar.GenerateCalendar | assets/calendar.js:58-129 | the heading becomes the month's title and the body the layout of the loaded events for that month |
| Session.Calendar.ChangeMonth | assets/calendar.js:163-166 | the cursor moves by exactly `direction` months, and heading and body show the month it lands in |
| Session.Calendar.Start | assets/calendar.js:169-173 | the events are loaded, then the month of the cursor is drawn from them |

## Left out

- The DOM is not modelled: `getElementById`, `createElement`, `innerHTML`, `appendChild`, styles and `img` elements. The table is a sequence of rows of `Cell` values. An event's `div` is an `Entry` value, and the dimming at opacity `0.3` is the `current = false` flag.
- `console.log` and `console.error` are left out: they only log.
- `fetch` and the `async`/`await` sequencing are left out. `Calendar.LoadEvents` receives the outcome of the request as a `FetchOutcome` value. Any exception caught by the `catch` is `NetworkError`.
- `Calendar.constructor`: the clock read by `new Date()` is the parameter `now`.
- The `DOMContentLoaded` event wiring is left out. `Calendar.Start` is the body of its handler.
- `MonthGrid.MonthGeometry` does not model the two-digit-year rule of `new Date(year, month, day)` for years 0 to 99, which ECMAScript maps to 1900 to 1999. It treats those years as themselves.
- Dates outside the range `Date` can represent, about 275,000 years either side of 1970, are not modelled. Such dates become `NaN`, but the day-number arithmetic is unbounded.
- Local time zones and daylight saving are not modelled. Dates are whole days, which is what the script reads back through `getDate`, `getDay` and `getMonth`.
- `MonthGrid.BuildGrid`: the per-day rendering is passed in as the function `entries`. `Layout` and `EntriesOf` tie it to `getEventsForDay`. The `forEach` over one day's events (`assets/calendar.js:113-115`) is modelled as a map over the day's events, not as a separate loop.
- `Session.Calendar.ChangeMonth` implements the corrected navigation of the Findings. The code as written is `Navigation.ChangeMonthAsWritten`, and its consequences are proved there.
- `Events.IconForType` is the four-entry table. The object lookup as written, inherited properties included, is `Events.IconForTypeAsWritten`.
- Events.RenderEvent reads the corrected lookup, and so do `MonthGrid.DayEntries`, `MonthGrid.Layout` and `Session.Calendar.GenerateCalendar`, which use it. For a category named after an inherited property (`constructor`, `toString`, `__proto__` and the others of `Events.IsInheritedName`), the script emits an image whose source is the inherited value, while the model's entry has no icon. `Events.ImageAsWritten` models the script's image, and `Events.InheritedCategoryGetsAnImage` states the difference.
- Strings are sequences of Unicode code points, not UTF-16 code units. This changes lengths only for characters outside the Basic Multilingual Plane, and the script never counts lengths of user text.
- `trim` removes ECMAScript white space and line terminators. The Unicode space separators are those of Unicode 15, listed in `Strings.IsSpace`.
- The comment rule follows the code, not the written description of the format. A line is a comment only when its very first character is `#`. With a space before the `#`, the line is data (`Events.IndentedHashIsData`).

## Findings

| source | as written | input that shows it | evidently intended | confidence | as-written member | corrected member |
|---|---|---|---|---|---|---|
| assets/calendar.js:163-166 | `currentDate.setMonth(currentDate.getMonth() + direction)` keeps the day of the month, so a day the target month lacks runs on into the month after | `currentDate` on 31 January 2025, `direction = 1`: the cursor becomes 3 March 2025 and February is never shown; from 31 March, `-1` shows March again | move to the adjacent month whatever the day, e.g. set the day to 1 before `setMonth` | not executed | Navigation.NextMonthSkipsFebruary | Navigation.ChangeMonth |
| assets/calendar.js:153-161 | the lookup `icons[type]` with its empty-string fallback also finds the properties every object inherits | an event of category `constructor`: the lookup gives the `Object` function, which is truthy, so an `img` is emitted whose source is the function's text | the empty string, and no icon, for any category other than the four | not executed | Events.ConstructorGetsAnImage | Events.IconForType |
