/**
 * The page's state and its entry points: the globals `currentDate` and
 * `eventsList`, the month title and the table body that `generateCalendar`
 * writes, `loadEvents` with the outcome of its request passed in, and
 * `changeMonth`.
 */
module Session {
  import opened Strings
  import opened Gregorian
  import opened Events
  import opened MonthGrid
  import Navigation

  /** `monthNames`: the French month names, January first. */
  const MonthNames: seq<string> := [
    "Janvier", "Février", "Mars", "Avril", "Mai", "Juin",
    "Juillet", "Août", "Septembre", "Octobre", "Novembre", "Décembre"]

  /** Twelve names with no space in any of them, no two alike. */
  lemma MonthNamesFacts()
    ensures |MonthNames| == 12
    ensures forall m :: 0 <= m < 12 ==> ' ' !in MonthNames[m]
    ensures forall m, n :: 0 <= m < 12 && 0 <= n < 12 && MonthNames[m] == MonthNames[n] ==> m == n
  {
    forall m, n | 0 <= m < 12 && 0 <= n < 12 && MonthNames[m] == MonthNames[n]
      ensures m == n
    {
      NamesDiffer(m, n);
    }
  }

  /** Two month names that are equal are the same month: their lengths and first letters tell them apart. */
  lemma NamesDiffer(m: int, n: int)
    requires 0 <= m < 12 && 0 <= n < 12 && MonthNames[m] == MonthNames[n]
    ensures m == n
  {
    var a, b := MonthNames[m], MonthNames[n];
    assert |a| == |b| && a[0] == b[0] && a[|a| - 1] == b[|b| - 1];
  }

  /** The text of the `currentMonth` heading: the month's name, a space, the year. */
  function Title(year: int, month: int): (t: string)
    requires 0 <= month < 12
    ensures |t| > |MonthNames[month]| + 1
    ensures t[..|MonthNames[month]|] == MonthNames[month] && t[|MonthNames[month]|] == ' '
    ensures t[|MonthNames[month]| + 1..] == IntToString(year)
  {
    MonthNames[month] + " " + IntToString(year)
  }

  /** The heading names the month it shows: different months have different headings. */
  lemma TitleNamesMonth(y1: int, m1: int, y2: int, m2: int)
    requires 0 <= m1 < 12 && 0 <= m2 < 12
    requires Title(y1, m1) == Title(y2, m2)
    ensures y1 == y2 && m1 == m2
  {
    MonthNamesFacts();
    TitleSplits(y1, m1);
    TitleSplits(y2, m2);
    IntToStringInjective(y1, y2);
  }

  /** Split at its one space, the heading falls into the name and the year. */
  lemma TitleSplits(year: int, month: int)
    requires 0 <= month < 12
    ensures Split(Title(year, month), ' ') == [MonthNames[month], IntToString(year)]
  {
    MonthNamesFacts();
    NoSpaceInNumber(year);
    SplitAt(MonthNames[month], IntToString(year), ' ');
    SplitFree(MonthNames[month], ' ');
    SplitFree(IntToString(year), ' ');
  }

  lemma NoSpaceInNumber(n: int)
    ensures ' ' !in IntToString(n)
  {
    var s := IntToString(n);
    if n < 0 {
      assert s == "-" + NatToString(-n);
      assert forall i :: 1 <= i < |s| ==> IsDigit(s[i]);
    }
  }

  /** What `fetch(EVENTS_FILE)` gave: a response with its status and text, or a failure to reach the server. */
  datatype FetchOutcome = Response(status: int, text: string) | NetworkError

  /** `response.ok`: a status in 200..299. */
  predicate Ok(outcome: FetchOutcome)
  {
    outcome.Response? && 200 <= outcome.status <= 299
  }

  /** The list `loadEvents` leaves behind: the parsed file on success, the empty list otherwise. */
  function LoadedEvents(outcome: FetchOutcome): seq<Event>
  {
    if Ok(outcome) then ParseEvents(outcome.text) else []
  }

  /** Serving a file written from well-formed records with an ok status loads exactly those records, in order. */
  lemma LoadServedFile(status: int, events: seq<Event>)
    requires 200 <= status <= 299
    requires forall i :: 0 <= i < |events| ==> WellFormed(events[i])
    ensures LoadedEvents(Response(status, Serialize(events))) == events
  {
    SerializeRoundTrip(events);
  }

  /** After an error status or a failed request, the drawn month carries no events in any cell. */
  lemma FailedLoadShowsNoEvents(outcome: FetchOutcome, year: int, month: int)
    requires !Ok(outcome) && 0 <= month < 12
    ensures forall w, d :: 0 <= w < |Layout(LoadedEvents(outcome), year, month)| && 0 <= d < |Layout(LoadedEvents(outcome), year, month)[w]| ==>
      Layout(LoadedEvents(outcome), year, month)[w][d].entries == []
  {
    var rows: seq<seq<Cell>> := Layout([], year, month);
    var g := GeometryOf(year, month);
    forall w: int, d: int | 0 <= w < |rows| && 0 <= d < |rows[w]|
      ensures rows[w][d].entries == []
    {
      assert rows[w][d] == CellAt(EntriesOf([], year, month), year, month, g, 7 * w + d);
      var day := 7 * w + d - g.start + 1;
      assert EventsForDay([], year, month, day) == [];
    }
  }

  /** The page: the two globals and what `generateCalendar` last wrote into the document. */
  class Calendar {
    /** The cursor: a date in the month shown. */
    var currentDate: CivilDate
    var eventsList: seq<Event>
    /** The text of the `currentMonth` element. */
    var title: string
    /** The rows of the `calendarBody` element. */
    var body: seq<seq<Cell>>

    ghost predicate Valid()
      reads this
    {
      ValidDate(currentDate)
    }

    /** The script's start: `currentDate` is the current date, no events yet, an empty page. */
    constructor(now: CivilDate)
      requires ValidDate(now)
      ensures Valid()
      ensures currentDate == now && eventsList == [] && title == "" && body == []
    {
      currentDate := now;
      eventsList := [];
      title := "";
      body := [];
    }

    /** `loadEvents`, once the request has finished with `outcome`. */
    method LoadEvents(outcome: FetchOutcome)
      modifies this`eventsList
      ensures Ok(outcome) ==> eventsList == ParseEvents(outcome.text)
      ensures !Ok(outcome) ==> eventsList == []
      ensures eventsList == LoadedEvents(outcome)
    {
      match outcome {
        case NetworkError =>
          eventsList := [];
        case Response(status, text) =>
          if !(200 <= status <= 299) {
            eventsList := [];
            return;
          }
          eventsList := ParseEvents(text);
      }
    }

    /** `generateCalendar(year, month)`: a new heading and a new table for the loaded events. */
    method GenerateCalendar(year: int, month: int)
      requires 0 <= month < 12
      modifies this`title, this`body
      ensures title == Title(year, month)
      ensures body == Layout(eventsList, year, month)
    {
      title := MonthNames[month] + " " + IntToString(year);
      body := BuildGrid(EntriesOf(eventsList, year, month), year, month);
    }

    /**
     * `changeMonth(direction)`, with the cursor moved to the first of its month
     * before `setMonth`, so that exactly `direction` months are skipped.
     */
    method ChangeMonth(direction: int)
      requires Valid()
      modifies this`currentDate, this`title, this`body
      ensures Valid()
      ensures currentDate == Navigation.ChangeMonth(old(currentDate), direction)
      ensures Navigation.MonthIndex(currentDate.year, currentDate.month)
        == Navigation.MonthIndex(old(currentDate).year, old(currentDate).month) + direction
      ensures title == Title(currentDate.year, currentDate.month)
      ensures body == Layout(eventsList, currentDate.year, currentDate.month)
    {
      currentDate := Navigation.ChangeMonth(currentDate, direction);
      GenerateCalendar(currentDate.year, currentDate.month);
    }

    /** The `DOMContentLoaded` handler: load the events, then draw the month of `currentDate`. */
    method Start(outcome: FetchOutcome)
      requires Valid()
      modifies this`eventsList, this`title, this`body
      ensures Valid() && currentDate == old(currentDate)
      ensures eventsList == LoadedEvents(outcome)
      ensures title == Title(currentDate.year, currentDate.month)
      ensures body == Layout(eventsList, currentDate.year, currentDate.month)
    {
      LoadEvents(outcome);
      GenerateCalendar(currentDate.year, currentDate.month);
    }
  }
}
