/**
 * `generateCalendar(year, month)`: the weeks of a month as rows of seven
 * cells, Monday first. Cells before the first of the month show the last days
 * of the previous month, cells after its last day the first days of the next
 * one; only the cells of the month itself carry events. `Layout` says which
 * cell goes where, `BuildGrid` is the nested loop that fills the table, and
 * the lemmas relate the layout to the calendar.
 */
module MonthGrid {
  import opened Sequences
  import opened Gregorian
  import opened Events

  /** One table cell: the date it shows, whether that date is in the displayed month, its events. */
  datatype Cell = Cell(year: int, month: int, day: int, current: bool, entries: seq<Entry>)

  /** The date a cell stands for. */
  function CellDate(c: Cell): CivilDate
  {
    CivilDate(c.year, c.month, c.day)
  }

  /** The events of one day, each rendered as `addEventToCell` does, in file order. */
  function DayEntries(events: seq<Event>, year: int, month: int, day: int): (r: seq<Entry>)
    ensures |r| == |EventsForDay(events, year, month, day)|
    ensures forall k :: 0 <= k < |r| ==> r[k] == RenderEvent(EventsForDay(events, year, month, day)[k])
  {
    MapSeq(EventsForDay(events, year, month, day), RenderEvent)
  }

  /** The renderer of the days of one month: day of the month to its entries. */
  function EntriesOf(events: seq<Event>, year: int, month: int): int -> seq<Entry>
  {
    (day: int) => DayEntries(events, year, month, day)
  }

  /**
   * The quantities `generateCalendar` computes before its loops: the weekday of
   * the first (0 for Monday), the lengths of the month and of the previous one,
   * and the year and month of the neighbouring months.
   */
  datatype Geometry = Geometry(
    start: int, days: int,
    prevYear: int, prevMonth: int, prevDays: int,
    nextYear: int, nextMonth: int)

  function GeometryOf(year: int, month: int): (g: Geometry)
    requires 0 <= month < 12
    ensures 0 <= g.start < 7 && 28 <= g.days <= 31 && 28 <= g.prevDays <= 31
    ensures 0 <= g.prevMonth < 12 && 0 <= g.nextMonth < 12
  {
    var prevMonth := if month == 0 then 11 else month - 1;
    var prevYear := if month == 0 then year - 1 else year;
    Geometry(
      FirstWeekday(year, month), DaysInMonth(year, month),
      prevYear, prevMonth, DaysInMonth(prevYear, prevMonth),
      if month == 11 then year + 1 else year, if month == 11 then 0 else month + 1)
  }

  /** The table stops after the first row that reaches the last day of the month. */
  function RowCount(g: Geometry): int
  {
    (g.start + g.days + 6) / 7
  }

  /**
   * The cell at position `i` in reading order (row `i / 7`, column `i % 7`);
   * `entries` renders the events of a day of the displayed month.
   */
  function CellAt(entries: int -> seq<Entry>, year: int, month: int, g: Geometry, i: int): (c: Cell)
  {
    if i < g.start then Cell(g.prevYear, g.prevMonth, g.prevDays - g.start + i + 1, false, [])
    else if i - g.start < g.days then Cell(year, month, i - g.start + 1, true, entries(i - g.start + 1))
    else Cell(g.nextYear, g.nextMonth, i - g.start - g.days + 1, false, [])
  }

  function LayoutRow(entries: int -> seq<Entry>, year: int, month: int, g: Geometry, w: int): seq<Cell>
  {
    seq(7, d requires 0 <= d < 7 => CellAt(entries, year, month, g, 7 * w + d))
  }

  /** The table `generateCalendar` builds for `month` of `year`, whatever the events. */
  function LayoutWith(entries: int -> seq<Entry>, year: int, month: int): (rows: seq<seq<Cell>>)
    requires 0 <= month < 12
  {
    var g := GeometryOf(year, month);
    seq(RowCount(g), w requires 0 <= w < RowCount(g) => LayoutRow(entries, year, month, g, w))
  }

  /** The table for the loaded events. */
  function Layout(events: seq<Event>, year: int, month: int): (rows: seq<seq<Cell>>)
    requires 0 <= month < 12
  {
    LayoutWith(EntriesOf(events, year, month), year, month)
  }

  /**
   * The loops of `generateCalendar`: up to six weeks of seven days, a counter
   * for the days of the month and one for the days of the next month, and a
   * stop after the row in which the month ran out. `entries` stands for
   * `getEventsForDay` followed by `addEventToCell` on each event found.
   */
  method BuildGrid(entries: int -> seq<Entry>, year: int, month: int) returns (rows: seq<seq<Cell>>)
    requires 0 <= month < 12
    ensures rows == LayoutWith(entries, year, month)
  {
    var g := MonthGeometry(year, month);
    var date := 1;
    var nextMonthDate := 1;
    rows := [];
    var week := 0;
    while week < 6
      invariant 0 <= week <= 6 && |rows| == week
      invariant forall w :: 0 <= w < week ==> rows[w] == LayoutRow(entries, year, month, g, w)
      invariant week == 0 || 7 * (week - 1) < g.start + g.days
      invariant week < 6 ==> 7 * week < g.start + g.days
      invariant date == 1 + Clamp(7 * week - g.start, g.days)
      invariant nextMonthDate == 1 + Clamp(7 * week - g.start - g.days, 7 * week)
    {
      var row;
      row, date, nextMonthDate := FillWeek(entries, year, month, g, week, date, nextMonthDate);
      rows := rows + [row];
      week := week + 1;
      if date > g.days {
        break;
      }
    }
    assert |rows| == RowCount(g);
    forall w | 0 <= w < |rows|
      ensures rows[w] == LayoutWith(entries, year, month)[w]
    {
    }
  }

  /**
   * The quantities computed before the loops: `new Date(year, month, 1)` and
   * its weekday, the length of the month read off day 0 of the next month, and
   * the same for the previous month.
   */
  method MonthGeometry(year: int, month: int) returns (g: Geometry)
    requires 0 <= month < 12
    ensures g == GeometryOf(year, month)
  {
    var daysInMonth := DayZero(year, month).day;
    var startingDayOfWeek := MondayBased(WeekDay(DayNumber(CivilDate(year, month, 1))));
    var prevMonth := if month == 0 then 11 else month - 1;
    var prevYear := if month == 0 then year - 1 else year;
    var daysInPrevMonth := DayZero(prevYear, prevMonth).day;
    g := Geometry(startingDayOfWeek, daysInMonth, prevYear, prevMonth, daysInPrevMonth,
      if month == 11 then year + 1 else year, if month == 11 then 0 else month + 1);
  }

  /**
   * The inner loop of `generateCalendar`: the seven cells of week `week`,
   * with the day counters of the month and of the next month as they stand
   * before and after the week.
   */
  method FillWeek(entries: int -> seq<Entry>, year: int, month: int, g: Geometry, week: int, date0: int, next0: int)
    returns (row: seq<Cell>, date: int, nextMonthDate: int)
    requires 0 <= g.start < 7 && 28 <= g.days && 0 <= week
    requires g.nextYear == (if month == 11 then year + 1 else year)
    requires g.nextMonth == (if month == 11 then 0 else month + 1)
    requires date0 == 1 + Clamp(7 * week - g.start, g.days)
    requires next0 == 1 + Clamp(7 * week - g.start - g.days, 7 * week)
    ensures row == LayoutRow(entries, year, month, g, week)
    ensures date == 1 + Clamp(7 * week + 7 - g.start, g.days)
    ensures nextMonthDate == 1 + Clamp(7 * week + 7 - g.start - g.days, 7 * week + 7)
  {
    date, nextMonthDate := date0, next0;
    row := [];
    var day := 0;
    while day < 7
      invariant 0 <= day <= 7 && |row| == day
      invariant forall d :: 0 <= d < day ==> row[d] == CellAt(entries, year, month, g, 7 * week + d)
      invariant date == 1 + Clamp(7 * week + day - g.start, g.days)
      invariant nextMonthDate == 1 + Clamp(7 * week + day - g.start - g.days, 7 * week + day)
    {
      var cell;
      if week == 0 && day < g.start {
        cell := Cell(g.prevYear, g.prevMonth, g.prevDays - g.start + day + 1, false, []);
      } else if date > g.days {
        var cellYear := if month == 11 then year + 1 else year;
        var cellMonth := if month == 11 then 0 else month + 1;
        cell := Cell(cellYear, cellMonth, nextMonthDate, false, []);
        nextMonthDate := nextMonthDate + 1;
      } else {
        var cellDate := date;
        date := date + 1;
        cell := Cell(year, month, cellDate, true, entries(cellDate));
      }
      row := row + [cell];
      day := day + 1;
    }
  }

  /** `x` limited to `0..hi`. */
  function Clamp(x: int, hi: int): (r: int)
    ensures 0 <= hi ==> 0 <= r <= hi
    ensures 0 <= x <= hi ==> r == x
  {
    if x < 0 then 0 else if x > hi then hi else x
  }

  // ---------------------------------------------------------------------------
  // Properties of the layout

  /**
   * Four to six rows of seven cells; the rows cover the month and the last one
   * still holds a day of it. Four rows happen only for a 28-day February that
   * starts on a Monday.
   */
  lemma LayoutShape(entries: int -> seq<Entry>, year: int, month: int)
    requires 0 <= month < 12
    ensures 4 <= |LayoutWith(entries, year, month)| <= 6
    ensures forall w :: 0 <= w < |LayoutWith(entries, year, month)| ==> |LayoutWith(entries, year, month)[w]| == 7
    ensures 7 * (|LayoutWith(entries, year, month)| - 1) < FirstWeekday(year, month) + DaysInMonth(year, month)
    ensures FirstWeekday(year, month) + DaysInMonth(year, month) <= 7 * |LayoutWith(entries, year, month)|
    ensures |LayoutWith(entries, year, month)| == 4 <==> FirstWeekday(year, month) == 0 && DaysInMonth(year, month) == 28
  {
    var g := GeometryOf(year, month);
    var n := g.start + g.days;
    var r := RowCount(g);
    assert 28 <= n <= 37;
    assert 7 * r <= n + 6 < 7 * r + 7;
  }

  /**
   * Read left to right and top to bottom, the table shows the last `start` days
   * of the previous month, then every day of the month once and in order with
   * its events, then the first days of the next month, fewer than seven.
   */
  lemma ReadingOrder(entries: int -> seq<Entry>, year: int, month: int)
    requires 0 <= month < 12
    ensures |Flatten(LayoutWith(entries, year, month))| == 7 * |LayoutWith(entries, year, month)|
    ensures forall i :: 0 <= i < |Flatten(LayoutWith(entries, year, month))| ==>
      Flatten(LayoutWith(entries, year, month))[i] == CellAt(entries, year, month, GeometryOf(year, month), i)
    ensures forall i :: 0 <= i < |Flatten(LayoutWith(entries, year, month))| ==>
      (Flatten(LayoutWith(entries, year, month))[i].current <==>
        FirstWeekday(year, month) <= i < FirstWeekday(year, month) + DaysInMonth(year, month))
    ensures forall d :: 1 <= d <= DaysInMonth(year, month) ==>
      Flatten(LayoutWith(entries, year, month))[FirstWeekday(year, month) + d - 1]
        == Cell(year, month, d, true, entries(d))
    ensures |Flatten(LayoutWith(entries, year, month))| - (FirstWeekday(year, month) + DaysInMonth(year, month)) < 7
  {
    var rows := LayoutWith(entries, year, month);
    var g := GeometryOf(year, month);
    LayoutShape(entries, year, month);
    FlattenWeeks(rows);
    forall i | 0 <= i < 7 * |rows|
      ensures Flatten(rows)[i] == CellAt(entries, year, month, g, i)
    {
      assert rows[i / 7][i % 7] == CellAt(entries, year, month, g, 7 * (i / 7) + i % 7);
    }
  }

  /**
   * The table shows consecutive days with no gap or repeat: every cell holds a
   * valid date, and the cell at reading position `i` is `i` days after the
   * Monday-aligned day before the first of the month.
   */
  lemma ConsecutiveDays(entries: int -> seq<Entry>, year: int, month: int)
    requires 0 <= month < 12
    ensures forall i :: 0 <= i < |Flatten(LayoutWith(entries, year, month))| ==>
      ValidDate(CellDate(Flatten(LayoutWith(entries, year, month))[i])) &&
      DayNumber(CellDate(Flatten(LayoutWith(entries, year, month))[i]))
        == MakeDay(year, month, 1) - FirstWeekday(year, month) + i
  {
    var g := GeometryOf(year, month);
    ReadingOrder(entries, year, month);
    PrevMonthStep(year, month);
    MonthStep(year, month);
    NextMonthIsNormalised(year, month);
    forall i | 0 <= i < |Flatten(LayoutWith(entries, year, month))|
      ensures ValidDate(CellDate(CellAt(entries, year, month, g, i)))
      ensures DayNumber(CellDate(CellAt(entries, year, month, g, i))) == MakeDay(year, month, 1) - g.start + i
    {
      var c := CellAt(entries, year, month, g, i);
      if i < g.start {
        MakeDayInYear(g.prevYear, g.prevMonth, c.day);
        MakeDayInYear(g.prevYear, g.prevMonth, 1);
      } else if i - g.start < g.days {
        MakeDayInYear(year, month, c.day);
        MakeDayInYear(year, month, 1);
      } else {
        MakeDayInYear(g.nextYear, g.nextMonth, c.day);
        MakeDayInYear(g.nextYear, g.nextMonth, 1);
      }
    }
  }

  /** The previous month ends the day before the first of `month`. */
  lemma PrevMonthStep(year: int, month: int)
    requires 0 <= month < 12
    ensures MakeDay(GeometryOf(year, month).prevYear, GeometryOf(year, month).prevMonth, 1) + GeometryOf(year, month).prevDays
      == MakeDay(year, month, 1)
  {
    var g := GeometryOf(year, month);
    MonthStep(g.prevYear, g.prevMonth);
    if month == 0 {
      MakeDayTwelve(year - 1, 1);
      MakeDayInYear(year, 0, 1);
    } else {
      assert g.prevMonth + 1 == month;
    }
  }

  /** The first of the next month, with December rolling over to January of the next year. */
  lemma NextMonthIsNormalised(year: int, month: int)
    requires 0 <= month < 12
    ensures MakeDay(GeometryOf(year, month).nextYear, GeometryOf(year, month).nextMonth, 1) == MakeDay(year, month + 1, 1)
  {
    if month == 11 {
      MakeDayTwelve(year, 1);
      MakeDayInYear(year + 1, 0, 1);
    }
  }

  /** Each column is one weekday, Monday first: column `d` shows only days whose `(getDay() + 6) % 7` is `d`. */
  lemma ColumnsAreWeekdays(entries: int -> seq<Entry>, year: int, month: int)
    requires 0 <= month < 12
    ensures forall w, d :: 0 <= w < |LayoutWith(entries, year, month)| && 0 <= d < 7 ==>
      d < |LayoutWith(entries, year, month)[w]| &&
      MondayBased(WeekDay(DayNumber(CellDate(LayoutWith(entries, year, month)[w][d])))) == d
  {
    LayoutShape(entries, year, month);
    forall w, d | 0 <= w < |LayoutWith(entries, year, month)| && 0 <= d < 7
      ensures MondayBased(WeekDay(DayNumber(CellDate(LayoutWith(entries, year, month)[w][d])))) == d
    {
      CellWeekday(entries, year, month, w, d);
    }
  }

  /** The weekday of the cell in row `w`, column `d`. */
  lemma CellWeekday(entries: int -> seq<Entry>, year: int, month: int, w: int, d: int)
    requires 0 <= month < 12
    requires 0 <= w < |LayoutWith(entries, year, month)| && 0 <= d < 7
    ensures d < |LayoutWith(entries, year, month)[w]|
    ensures MondayBased(WeekDay(DayNumber(CellDate(LayoutWith(entries, year, month)[w][d])))) == d
  {
    var rows := LayoutWith(entries, year, month);
    var x := MakeDay(year, month, 1);
    var i := 7 * w + d;
    LayoutShape(entries, year, month);
    ConsecutiveDays(entries, year, month);
    MondayBasedWeekDay(x);
    assert i / 7 == w && i % 7 == d;
    WeekdayAt(rows, i);
    WeekdayOffset(x, FirstWeekday(year, month), i);
  }

  /** Cell `i` of a table of weeks is cell `i % 7` of week `i / 7`. */
  lemma WeekdayAt(rows: seq<seq<Cell>>, i: int)
    requires forall w :: 0 <= w < |rows| ==> |rows[w]| == 7
    requires 0 <= i < 7 * |rows|
    ensures |Flatten(rows)| == 7 * |rows|
    ensures i / 7 < |rows| && rows[i / 7][i % 7] == Flatten(rows)[i]
  {
    FlattenWeeks(rows);
  }

  /** Counting on `i` days from the Monday on or before day `x` lands on weekday `i % 7`. */
  lemma WeekdayOffset(x: int, s: int, i: int)
    requires s == (x + 3) % 7
    ensures MondayBased(WeekDay(x - s + i)) == i % 7
  {
    MondayBasedWeekDay(x - s + i);
    ModShift(x + 3, i - s);
  }

  /** Cells of the previous and the next month never carry events. */
  lemma OnlyMonthCellsHaveEntries(entries: int -> seq<Entry>, year: int, month: int)
    requires 0 <= month < 12
    ensures forall w, d :: 0 <= w < |LayoutWith(entries, year, month)| && 0 <= d < |LayoutWith(entries, year, month)[w]| ==>
      (!LayoutWith(entries, year, month)[w][d].current ==> LayoutWith(entries, year, month)[w][d].entries == [])
  {
    var rows: seq<seq<Cell>> := LayoutWith(entries, year, month);
    var g := GeometryOf(year, month);
    forall w: int, d: int | 0 <= w < |rows| && 0 <= d < |rows[w]|
      ensures !rows[w][d].current ==> rows[w][d].entries == []
    {
      assert rows[w][d] == CellAt(entries, year, month, g, 7 * w + d);
    }
  }

  /**
   * The cell of day `d` of the displayed month holds the events dated `d`,
   * rendered, in file order (`RenderedOnItsDay` and `RenderedFromItsDay`
   * say which events those are).
   */
  lemma EventsPlacement(events: seq<Event>, year: int, month: int, d: int)
    requires 0 <= month < 12 && 1 <= d <= DaysInMonth(year, month)
    ensures FirstWeekday(year, month) + d - 1 < |Flatten(Layout(events, year, month))|
    ensures Flatten(Layout(events, year, month))[FirstWeekday(year, month) + d - 1].entries == DayEntries(events, year, month, d)
  {
    DayCell(EntriesOf(events, year, month), year, month, d);
  }

  /** The cell of day `d` of the month, and the entries it shows. */
  lemma DayCell(entries: int -> seq<Entry>, year: int, month: int, d: int)
    requires 0 <= month < 12 && 1 <= d <= DaysInMonth(year, month)
    ensures FirstWeekday(year, month) + d - 1 < |Flatten(LayoutWith(entries, year, month))|
    ensures Flatten(LayoutWith(entries, year, month))[FirstWeekday(year, month) + d - 1].entries == entries(d)
  {
    ReadingOrder(entries, year, month);
  }

  /** Every event whose date is the key of day `d` appears, rendered, among the day's entries. */
  lemma RenderedOnItsDay(events: seq<Event>, e: Event, year: int, month: int, d: int)
    requires e in events && e.date == DateKey(year, month, d)
    ensures RenderEvent(e) in DayEntries(events, year, month, d)
  {
    var found := EventsForDay(events, year, month, d);
    assert multiset(found)[e] == multiset(events)[e];
    assert e in found;
    var k :| 0 <= k < |found| && found[k] == e;
    assert DayEntries(events, year, month, d)[k] == RenderEvent(e);
  }

  /** Every entry of day `d` is the rendering of an event dated on that day. */
  lemma RenderedFromItsDay(events: seq<Event>, x: Entry, year: int, month: int, d: int)
    requires x in DayEntries(events, year, month, d)
    ensures exists e :: e in events && e.date == DateKey(year, month, d) && x == RenderEvent(e)
  {
    var found := EventsForDay(events, year, month, d);
    var k :| 0 <= k < |found| && DayEntries(events, year, month, d)[k] == x;
    var e := found[k];
    assert e in multiset(found);
    assert e in multiset(events);
  }

  // ---------------------------------------------------------------------------
  // Examples

  /** 1 January 2024 was a Monday and 1 February 2024 a Thursday. */
  lemma FirstWeekdays2024()
    ensures FirstWeekday(2024, 0) == 0
    ensures FirstWeekday(2024, 1) == 3
  {
    MakeDayInYear(2024, 0, 1);
    MakeDayInYear(2024, 1, 1);
    assert DayFromYear(2024) == 19723;
    MondayBasedWeekDay(19723);
    MondayBasedWeekDay(19754);
  }

  /**
   * 1 February 2021 was a Monday and the month had 28 days: by `LayoutShape`
   * it is one of the months that fill exactly four rows.
   */
  lemma FirstOfFebruary2021()
    ensures FirstWeekday(2021, 1) == 0 && DaysInMonth(2021, 1) == 28
  {
    MakeDayInYear(2021, 1, 1);
    assert DayFromYear(2021) == 18628;
    MondayBasedWeekDay(18659);
  }
}
