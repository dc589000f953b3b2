/**
 * `changeMonth(direction)`: the month cursor `currentDate` moves by
 * `direction` months with `setMonth(getMonth() + direction)`. Months are
 * counted on one scale, `12 * year + month`, so that moving across a year
 * boundary is plain addition.
 */
module Navigation {
  import opened Gregorian

  /** The position of a month on a single scale: December 2024 and January 2025 are neighbours. */
  function MonthIndex(year: int, month: int): (i: int)
    // for a month in 0..11 the index gives back the year and the month
    ensures 0 <= month < 12 ==> i / 12 == year && i % 12 == month
  {
    12 * year + month
  }

  /** A month index names one year and one month. */
  lemma MonthIndexInjective(y1: int, m1: int, y2: int, m2: int)
    requires 0 <= m1 < 12 && 0 <= m2 < 12
    requires MonthIndex(y1, m1) == MonthIndex(y2, m2)
    ensures y1 == y2 && m1 == m2
  {
  }

  /** The year and month that `setMonth(month)` aims at, with months past 11 or below 0 carried into the year. */
  lemma TargetMonth(year: int, month: int)
    ensures 0 <= month % 12 < 12
    ensures MonthIndex(year + month / 12, month % 12) == 12 * year + month
  {
  }

  /**
   * `changeMonth` as written: the day of the month is kept, so from a day the
   * target month does not have, `setMonth` runs on into the month after it.
   */
  function ChangeMonthAsWritten(current: CivilDate, direction: int): (r: CivilDate)
    requires ValidDate(current)
    ensures ValidDate(r)
  {
    SetMonth(current, current.month + direction)
  }

  /** When the target month has the current day of the month, the cursor moves by exactly `direction` months and keeps its day. */
  lemma AsWrittenExact(current: CivilDate, direction: int)
    requires ValidDate(current)
    requires current.day <= DaysInMonth(current.year + (current.month + direction) / 12, (current.month + direction) % 12)
    ensures MonthIndex(ChangeMonthAsWritten(current, direction).year, ChangeMonthAsWritten(current, direction).month)
      == MonthIndex(current.year, current.month) + direction
    ensures ChangeMonthAsWritten(current, direction).day == current.day
  {
    TargetMonth(current.year, current.month + direction);
  }

  /**
   * When the target month is too short for the current day, the cursor lands
   * one month further, on day 1 to 3 of that month.
   */
  lemma AsWrittenOverflow(current: CivilDate, direction: int)
    requires ValidDate(current)
    requires current.day > DaysInMonth(current.year + (current.month + direction) / 12, (current.month + direction) % 12)
    ensures MonthIndex(ChangeMonthAsWritten(current, direction).year, ChangeMonthAsWritten(current, direction).month)
      == MonthIndex(current.year, current.month) + direction + 1
    ensures 1 <= ChangeMonthAsWritten(current, direction).day <= 3
  {
    TargetMonth(current.year, current.month + direction);
  }

  /** As written, "next month" from December is January of the following year: both months have 31 days. */
  lemma AsWrittenNextFromDecember(current: CivilDate)
    requires ValidDate(current) && current.month == 11
    ensures ChangeMonthAsWritten(current, 1) == CivilDate(current.year + 1, 0, current.day)
  {
    var r := ChangeMonthAsWritten(current, 1);
    AsWrittenExact(current, 1);
    MonthIndexInjective(r.year, r.month, current.year + 1, 0);
  }

  /** As written, "previous month" from January is December of the year before. */
  lemma AsWrittenPreviousFromJanuary(current: CivilDate)
    requires ValidDate(current) && current.month == 0
    ensures ChangeMonthAsWritten(current, -1) == CivilDate(current.year - 1, 11, current.day)
  {
    var r := ChangeMonthAsWritten(current, -1);
    AsWrittenExact(current, -1);
    MonthIndexInjective(r.year, r.month, current.year - 1, 11);
  }

  /** From 31 January 2025, "next month" shows March 2025: February is skipped. */
  lemma NextMonthSkipsFebruary()
    ensures ChangeMonthAsWritten(CivilDate(2025, 0, 31), 1) == CivilDate(2025, 2, 3)
  {
    assert DaysInMonth(2025, 1) == 28;
  }

  /** From 31 March 2025, "previous month" shows March again (3 March): the button seems to do nothing. */
  lemma PreviousMonthStaysInMarch()
    ensures ChangeMonthAsWritten(CivilDate(2025, 2, 31), -1) == CivilDate(2025, 2, 3)
  {
    assert DaysInMonth(2025, 1) == 28;
  }

  /**
   * `changeMonth` as intended: the cursor is put on the first of its month
   * before `setMonth`, so it always moves by exactly `direction` months.
   */
  function ChangeMonth(current: CivilDate, direction: int): (r: CivilDate)
    requires ValidDate(current)
    ensures ValidDate(r) && r.day == 1
    ensures MonthIndex(r.year, r.month) == MonthIndex(current.year, current.month) + direction
  {
    TargetMonth(current.year, current.month + direction);
    SetMonth(CivilDate(current.year, current.month, 1), current.month + direction)
  }

  /** "Next month" from December is January of the following year. */
  lemma NextFromDecember(current: CivilDate)
    requires ValidDate(current) && current.month == 11
    ensures ChangeMonth(current, 1) == CivilDate(current.year + 1, 0, 1)
  {
    var r := ChangeMonth(current, 1);
    MonthIndexInjective(r.year, r.month, current.year + 1, 0);
  }

  /** "Previous month" from January is December of the year before. */
  lemma PreviousFromJanuary(current: CivilDate)
    requires ValidDate(current) && current.month == 0
    ensures ChangeMonth(current, -1) == CivilDate(current.year - 1, 11, 1)
  {
    var r := ChangeMonth(current, -1);
    MonthIndexInjective(r.year, r.month, current.year - 1, 11);
  }

  /** Going forward and back again returns to the month started from. */
  lemma ChangeMonthUndo(current: CivilDate, direction: int)
    requires ValidDate(current)
    ensures ChangeMonth(ChangeMonth(current, direction), -direction) == CivilDate(current.year, current.month, 1)
  {
    var r := ChangeMonth(ChangeMonth(current, direction), -direction);
    MonthIndexInjective(r.year, r.month, current.year, current.month);
  }

  /** Where the day of the month exists in the target month, the correction shows the same month as the original code. */
  lemma ChangeMonthAgrees(current: CivilDate, direction: int)
    requires ValidDate(current)
    requires current.day <= DaysInMonth(current.year + (current.month + direction) / 12, (current.month + direction) % 12)
    ensures ChangeMonth(current, direction).year == ChangeMonthAsWritten(current, direction).year
    ensures ChangeMonth(current, direction).month == ChangeMonthAsWritten(current, direction).month
  {
    var r := ChangeMonth(current, direction);
    var s := ChangeMonthAsWritten(current, direction);
    AsWrittenExact(current, direction);
    MonthIndexInjective(r.year, r.month, s.year, s.month);
  }
}
