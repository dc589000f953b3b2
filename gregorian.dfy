/**
 * The part of the JavaScript `Date` object the calendar uses, as explicit
 * proleptic Gregorian arithmetic on day numbers (days since 1 January 1970,
 * as in ECMAScript's `Day(t)`). Months are 0-based, as in `getMonth()`.
 */
module Gregorian {

  /** A calendar date; `month` is 0-based and `day` is the day of the month. */
  datatype CivilDate = CivilDate(year: int, month: int, day: int)

  predicate IsLeapYear(year: int)
  {
    year % 4 == 0 && (year % 100 != 0 || year % 400 == 0)
  }

  function DaysInYear(year: int): int
  {
    if IsLeapYear(year) then 366 else 365
  }

  /** The length of a month: 29 days in February of a leap year. */
  function DaysInMonth(year: int, month: int): (n: int)
    requires 0 <= month < 12
    ensures 28 <= n <= 31
    ensures month == 1 ==> (n == 29 <==> IsLeapYear(year))
  {
    if month == 1 then (if IsLeapYear(year) then 29 else 28)
    else if month == 3 || month == 5 || month == 8 || month == 10 then 30
    else 31
  }

  predicate ValidDate(d: CivilDate)
  {
    0 <= d.month < 12 && 1 <= d.day <= DaysInMonth(d.year, d.month)
  }

  /** The number of the first day of a year: ECMAScript's `DayFromYear`. */
  function DayFromYear(year: int): int
  {
    365 * (year - 1970) + (year - 1969) / 4 - (year - 1901) / 100 + (year - 1601) / 400
  }

  /** Days of the year before the first of `month` (ECMAScript's cumulative month table). */
  function DaysBeforeMonth(year: int, month: int): (n: int)
    requires 0 <= month <= 12
    ensures month == 12 ==> n == DaysInYear(year)
  {
    var common :=
      if month == 0 then 0 else if month == 1 then 31 else if month == 2 then 59
      else if month == 3 then 90 else if month == 4 then 120 else if month == 5 then 151
      else if month == 6 then 181 else if month == 7 then 212 else if month == 8 then 243
      else if month == 9 then 273 else if month == 10 then 304 else if month == 11 then 334
      else 365;
    common + (if month >= 2 && IsLeapYear(year) then 1 else 0)
  }

  /**
   * ECMAScript's `MakeDay(year, month, day)`: months outside 0..11 carry into the
   * year (floor division), and any day number, 0 or past the end of the month
   * included, is counted on from the first of the month.
   */
  function MakeDay(year: int, month: int, day: int): (n: int)
  {
    var y := year + month / 12;
    var m := month % 12;
    DayFromYear(y) + DaysBeforeMonth(y, m) + day - 1
  }

  function DayNumber(d: CivilDate): (n: int)
  {
    MakeDay(d.year, d.month, d.day)
  }

  /**
   * `MakeDay` normalises: a month outside 0..11 is the same month of the year
   * it carries into, and day `day` is `day - 1` days after the first.
   */
  lemma MakeDayCarries(year: int, month: int, day: int)
    ensures MakeDay(year, month, day) == MakeDay(year + month / 12, month % 12, day)
    ensures MakeDay(year, month, day) == MakeDay(year, month, 1) + day - 1
    ensures MakeDay(year, 12, day) == MakeDay(year + 1, 0, day)
    ensures MakeDay(year, -1, day) == MakeDay(year - 1, 11, day)
  {
  }

  /** `getDay()`: 0 for Sunday up to 6 for Saturday; day 0 was a Thursday. */
  function WeekDay(dayNumber: int): (w: int)
    ensures 0 <= w < 7
  {
    (dayNumber + 4) % 7
  }

  /** `(getDay() + 6) % 7`: 0 for Monday up to 6 for Sunday. */
  function MondayBased(weekDay: int): (w: int)
    requires 0 <= weekDay < 7
    ensures 0 <= w < 7
    ensures w == 0 <==> weekDay == 1
    ensures w == 6 <==> weekDay == 0
  {
    (weekDay + 6) % 7
  }

  /** The Monday-based weekday of the first of a month. */
  function FirstWeekday(year: int, month: int): (w: int)
    ensures 0 <= w < 7
  {
    MondayBased(WeekDay(MakeDay(year, month, 1)))
  }

  // ---------------------------------------------------------------------------
  // Lemmas tying the closed formulas to the leap-year rule

  lemma FloorStep(x: int, d: int)
    requires d == 4 || d == 100 || d == 400
    ensures (x + 1) / d == x / d + (if (x + 1) % d == 0 then 1 else 0)
  {
  }

  /** Consecutive years start `DaysInYear` days apart. */
  lemma DayFromYearStep(year: int)
    ensures DayFromYear(year + 1) == DayFromYear(year) + DaysInYear(year)
  {
    FloorStep(year - 1969, 4);
    FloorStep(year - 1901, 100);
    FloorStep(year - 1601, 400);
    assert (year - 1968) % 4 == 0 <==> year % 4 == 0;
    assert (year - 1900) % 100 == 0 <==> year % 100 == 0;
    assert (year - 1600) % 400 == 0 <==> year % 400 == 0;
  }

  lemma {:induction false} DayFromYearMonotone(a: int, b: int)
    requires a <= b
    ensures DayFromYear(a) + 365 * (b - a) <= DayFromYear(b)
    decreases b - a
  {
    if a < b {
      DayFromYearMonotone(a, b - 1);
      DayFromYearStep(b - 1);
    }
  }

  /** Consecutive months start `DaysInMonth` days apart within a year. */
  lemma DaysBeforeMonthStep(year: int, month: int)
    requires 0 <= month < 12
    ensures DaysBeforeMonth(year, month + 1) == DaysBeforeMonth(year, month) + DaysInMonth(year, month)
  {
  }

  lemma {:induction false} DaysBeforeMonthMonotone(year: int, a: int, b: int)
    requires 0 <= a <= b <= 12
    ensures DaysBeforeMonth(year, a) <= DaysBeforeMonth(year, b)
    decreases b - a
  {
    if a < b {
      DaysBeforeMonthMonotone(year, a, b - 1);
      DaysBeforeMonthStep(year, b - 1);
    }
  }

  lemma MakeDayInYear(year: int, month: int, day: int)
    requires 0 <= month < 12
    ensures MakeDay(year, month, day) == DayFromYear(year) + DaysBeforeMonth(year, month) + day - 1
  {
    assert month / 12 == 0 && month % 12 == month;
  }

  lemma MakeDayTwelve(year: int, day: int)
    ensures MakeDay(year, 12, day) == DayFromYear(year + 1) + day - 1
  {
    assert 12 / 12 == 1 && 12 % 12 == 0;
  }

  /** The first of the following month (December to January included) comes `DaysInMonth` days later. */
  lemma MonthStep(year: int, month: int)
    requires 0 <= month < 12
    ensures MakeDay(year, month + 1, 1) == MakeDay(year, month, 1) + DaysInMonth(year, month)
  {
    if month == 11 {
      DecemberStep(year);
    } else {
      DaysBeforeMonthStep(year, month);
      MakeDayInYear(year, month, 1);
      MakeDayInYear(year, month + 1, 1);
    }
  }

  lemma DecemberStep(year: int)
    ensures MakeDay(year, 12, 1) == MakeDay(year, 11, 1) + 31
  {
    DaysBeforeMonthStep(year, 11);
    MakeDayInYear(year, 11, 1);
    MakeDayTwelve(year, 1);
    DayFromYearStep(year);
  }

  /** A valid date lies within its year. */
  lemma DayNumberInYear(d: CivilDate)
    requires ValidDate(d)
    ensures InYear(d.year, DayNumber(d))
  {
    DaysBeforeMonthStep(d.year, d.month);
    DayFromYearStep(d.year);
    MakeDayInYear(d.year, d.month, d.day);
    assert DaysBeforeMonth(d.year, d.month + 1) <= DaysInYear(d.year);
  }

  /** Valid dates are named by their day numbers: different dates, different days. */
  lemma DayNumberInjective(d: CivilDate, e: CivilDate)
    requires ValidDate(d) && ValidDate(e)
    requires DayNumber(d) == DayNumber(e)
    ensures d == e
  {
    SameYear(d, e);
    SameMonth(d, e);
    MakeDayInYear(d.year, d.month, d.day);
    MakeDayInYear(e.year, e.month, e.day);
  }

  /** Two valid dates with the same day number are in the same year. */
  lemma SameYear(d: CivilDate, e: CivilDate)
    requires ValidDate(d) && ValidDate(e)
    requires DayNumber(d) == DayNumber(e)
    ensures d.year == e.year
  {
    DayNumberInYear(d);
    DayNumberInYear(e);
    YearOfDay(d.year, e.year, DayNumber(d));
  }

  /** Day `n` is one of the days of `year`. */
  predicate InYear(year: int, n: int)
  {
    DayFromYear(year) <= n < DayFromYear(year + 1)
  }

  /** A day number lies in one year only. */
  lemma YearOfDay(y1: int, y2: int, n: int)
    requires InYear(y1, n) && InYear(y2, n)
    ensures y1 == y2
  {
    if y1 < y2 {
      DayFromYearMonotone(y1 + 1, y2);
    } else if y2 < y1 {
      DayFromYearMonotone(y2 + 1, y1);
    }
  }

  /** Two valid dates of one year with the same day number are in the same month. */
  lemma SameMonth(d: CivilDate, e: CivilDate)
    requires ValidDate(d) && ValidDate(e) && d.year == e.year
    requires DayNumber(d) == DayNumber(e)
    ensures d.month == e.month
  {
    MakeDayInYear(d.year, d.month, d.day);
    MakeDayInYear(e.year, e.month, e.day);
    if d.month < e.month {
      MonthsApart(d.year, d.month, e.month);
    } else if e.month < d.month {
      MonthsApart(d.year, e.month, d.month);
    }
  }

  /** A month ends no later than any later month of the year begins. */
  lemma MonthsApart(year: int, a: int, b: int)
    requires 0 <= a < b < 12
    ensures DaysBeforeMonth(year, a) + DaysInMonth(year, a) <= DaysBeforeMonth(year, b)
  {
    DaysBeforeMonthStep(year, a);
    DaysBeforeMonthMonotone(year, a + 1, b);
  }

  /**
   * The "day 0" idiom `new Date(year, month + 1, 0).getDate()`: day 0 of the
   * following month is the last day of `month`, so the date that `Date` builds
   * for it has `DaysInMonth(year, month)` as its day of the month.
   */
  lemma DayZeroIsLastDay(year: int, month: int, e: CivilDate)
    requires 0 <= month < 12
    requires ValidDate(e) && DayNumber(e) == MakeDay(year, month + 1, 0)
    ensures e == CivilDate(year, month, DaysInMonth(year, month))
  {
    MonthStep(year, month);
    DayNumberInjective(e, CivilDate(year, month, DaysInMonth(year, month)));
  }

  /**
   * `new Date(year, month + 1, 0)`: day 0 of the following month, which `Date`
   * normalises to the last day of `month`; `DayZeroIsLastDay` shows that no
   * other valid date has that day number.
   */
  function DayZero(year: int, month: int): (r: CivilDate)
    requires 0 <= month < 12
    ensures ValidDate(r) && DayNumber(r) == MakeDay(year, month + 1, 0)
    ensures r.year == year && r.month == month
  {
    MonthStep(year, month);
    MakeDayInYear(year, month, DaysInMonth(year, month));
    MakeDayInYear(year, month, 1);
    CivilDate(year, month, DaysInMonth(year, month))
  }

  /** 1 January 1970 is day 0, a Thursday. */
  lemma Epoch()
    ensures DayNumber(CivilDate(1970, 0, 1)) == 0
    ensures WeekDay(DayNumber(CivilDate(1970, 0, 1))) == 4
  {
    MakeDayInYear(1970, 0, 1);
  }

  /** The first of the following month falls `DaysInMonth` weekdays later. */
  lemma NextFirstWeekday(year: int, month: int)
    requires 0 <= month < 12
    ensures FirstWeekday(year, month + 1) == (FirstWeekday(year, month) + DaysInMonth(year, month)) % 7
  {
    var x := MakeDay(year, month, 1);
    MonthStep(year, month);
    MondayBasedWeekDay(x);
    MondayBasedWeekDay(x + DaysInMonth(year, month));
    ModShift(x + 3, DaysInMonth(year, month));
  }

  /** The Monday-based weekday of day `x`, in one step. */
  lemma MondayBasedWeekDay(x: int)
    ensures MondayBased(WeekDay(x)) == (x + 3) % 7
  {
    var r := (x + 4) % 7;
    assert x + 4 == 7 * ((x + 4) / 7) + r;
    assert (r + 6) % 7 == (x + 3) % 7;
  }

  lemma ModShift(x: int, n: int)
    ensures (x + n) % 7 == (x % 7 + n) % 7
  {
    assert x == 7 * (x / 7) + x % 7;
  }

  // ---------------------------------------------------------------------------
  // Date.prototype.setMonth

  /**
   * `date.setMonth(month)` for a valid `date`: the day of the month is kept,
   * and when the target month is too short for it `Date` counts on into the
   * following month (31 January with month 1 gives 2 or 3 March). The result
   * is the valid date whose day number is `MakeDay(year, month, day)`.
   */
  function SetMonth(date: CivilDate, month: int): (r: CivilDate)
    requires ValidDate(date)
    ensures ValidDate(r)
    ensures DayNumber(r) == MakeDay(date.year, month, date.day)
  {
    var y := date.year + month / 12;
    var m := month % 12;
    var n := DaysInMonth(y, m);
    if date.day <= n then
      MakeDayInYear(y, m, date.day);
      CivilDate(y, m, date.day)
    else
      RunOn(y, m, date.day);
      if m == 11 then CivilDate(y + 1, 0, date.day - n)
      else CivilDate(y, m + 1, date.day - n)
  }

  /** Day `day` of `month`, past the end of the month, is day `day - DaysInMonth` of the following month. */
  lemma RunOn(year: int, month: int, day: int)
    requires 0 <= month < 12
    ensures month == 11 ==>
      MakeDay(year + 1, 0, day - DaysInMonth(year, month)) == DayFromYear(year) + DaysBeforeMonth(year, month) + day - 1
    ensures month < 11 ==>
      MakeDay(year, month + 1, day - DaysInMonth(year, month)) == DayFromYear(year) + DaysBeforeMonth(year, month) + day - 1
  {
    if month == 11 {
      RunOnIntoJanuary(year, day);
    } else {
      DaysBeforeMonthStep(year, month);
      MakeDayInYear(year, month + 1, day - DaysInMonth(year, month));
    }
  }

  lemma RunOnIntoJanuary(year: int, day: int)
    ensures MakeDay(year + 1, 0, day - 31) == DayFromYear(year) + DaysBeforeMonth(year, 11) + day - 1
  {
    DaysBeforeMonthStep(year, 11);
    DayFromYearStep(year);
    MakeDayInYear(year + 1, 0, day - 31);
  }
}
