/** Calendar dates as the dashboard reads them: `DD/MM/YYYY` fields turned into
    `new Date(year, month - 1, day)`, i.e. local midnight of that day, and the
    inclusive day counts `Math.floor((b - a) / 86400000) + 1` taken between them.
    An instant is an integer number of milliseconds; day 0 is 1 January 1970. */
module Dates {
  import opened Wrappers

  /** 1000 * 60 * 60 * 24. */
  const MsPerDay: int := 86400000

  /** The three parts of a `DD/MM/YYYY` field after splitting on '/'. */
  datatype CivilDate = CivilDate(day: int, month: int, year: int)

  predicate IsLeapYear(y: int) {
    y % 4 == 0 && (y % 100 != 0 || y % 400 == 0)
  }

  function YearLength(y: int): int {
    if IsLeapYear(y) then 366 else 365
  }

  function DaysInMonth(y: int, m: int): int
    requires 1 <= m <= 12
  {
    if m == 2 then (if IsLeapYear(y) then 29 else 28)
    else if m == 4 || m == 6 || m == 9 || m == 11 then 30
    else 31
  }

  /** Days of year y before the first of month m; month 13 stands for the next
      1 January. */
  function DaysBeforeMonth(y: int, m: int): int
    requires 1 <= m <= 13
  {
    [0, 31, 59, 90, 120, 151, 181, 212, 243, 273, 304, 334, 365][m - 1]
      + (if m > 2 && IsLeapYear(y) then 1 else 0)
  }

  lemma MonthStep(y: int, m: int)
    requires 1 <= m <= 12
    ensures DaysBeforeMonth(y, m + 1) == DaysBeforeMonth(y, m) + DaysInMonth(y, m)
    ensures DaysBeforeMonth(y, 13) == YearLength(y)
  {
  }

  lemma {:induction false} MonthsOrdered(y: int, m1: int, m2: int)
    requires 1 <= m1 < m2 <= 13
    ensures DaysBeforeMonth(y, m1) + DaysInMonth(y, m1) <= DaysBeforeMonth(y, m2)
    decreases m2 - m1
  {
    MonthStep(y, m1);
    if m1 + 1 < m2 {
      MonthsOrdered(y, m1 + 1, m2);
      MonthStep(y, m1 + 1);
    }
  }

  /** A day that `new Date(year, month - 1, day)` takes literally: a real day of
      a real month, in a four-digit year from 100 on (years 0 to 99 would be
      read as 1900 to 1999). */
  predicate ValidDate(d: CivilDate) {
    && 100 <= d.year <= 9999
    && 1 <= d.month <= 12
    && 1 <= d.day <= DaysInMonth(d.year, d.month)
  }

  type Date = d: CivilDate | ValidDate(d) witness CivilDate(1, 1, 1970)

  /** Days from 1 January 1970 to 1 January of year y (negative before 1970). */
  function DaysBeforeYear(y: int): int
    decreases if y < 1970 then 1970 - y else y - 1970
  {
    if y == 1970 then 0
    else if y > 1970 then DaysBeforeYear(y - 1) + YearLength(y - 1)
    else DaysBeforeYear(y + 1) - YearLength(y)
  }

  lemma NextYear(y: int)
    ensures DaysBeforeYear(y + 1) == DaysBeforeYear(y) + YearLength(y)
  {
  }

  lemma {:induction false} YearsOrdered(y1: int, y2: int)
    requires y1 <= y2
    ensures DaysBeforeYear(y1) <= DaysBeforeYear(y2)
    decreases y2 - y1
  {
    if y1 < y2 {
      YearsOrdered(y1 + 1, y2);
      NextYear(y1);
    }
  }

  /** The day number of a date: days since 1 January 1970. */
  function DayNumber(d: Date): int {
    DaysBeforeYear(d.year) + DaysBeforeMonth(d.year, d.month) + d.day - 1
  }

  /** A date's day lies inside its own year. */
  lemma DayInYear(d: Date)
    ensures DaysBeforeYear(d.year) <= DayNumber(d) < DaysBeforeYear(d.year + 1)
  {
    NextYear(d.year);
    MonthsOrdered(d.year, d.month, 13);
    MonthStep(d.year, d.month);
  }

  /** Calendar order: by year, then month, then day. */
  predicate Before(a: CivilDate, b: CivilDate) {
    || a.year < b.year
    || (a.year == b.year && a.month < b.month)
    || (a.year == b.year && a.month == b.month && a.day < b.day)
  }

  /** Day numbers follow calendar order exactly, and tell dates apart. */
  lemma DayNumberOrder(a: Date, b: Date)
    ensures DayNumber(a) < DayNumber(b) <==> Before(a, b)
    ensures DayNumber(a) == DayNumber(b) <==> a == b
  {
    DayInYear(a);
    DayInYear(b);
    if a.year < b.year {
      YearsOrdered(a.year + 1, b.year);
    } else if b.year < a.year {
      YearsOrdered(b.year + 1, a.year);
    } else if a.month < b.month {
      MonthsOrdered(a.year, a.month, b.month);
    } else if b.month < a.month {
      MonthsOrdered(a.year, b.month, a.month);
    }
  }

  /** `new Date(year, month - 1, day)`: local midnight starting that day. */
  function Midnight(d: Date): int {
    DayNumber(d) * MsPerDay
  }

  /** `parseDate`: a missing (null, undefined or empty) field gives null,
      otherwise the midnight of the date it names. */
  function ParseDate(field: Option<Date>): (r: Option<int>)
    ensures r.None? <==> field.None?
    ensures r.Some? ==> r.value % MsPerDay == 0
    ensures field.Some? ==> r == Some(Midnight(field.value))
  {
    match field
    case None => None
    case Some(d) => Some(Midnight(d))
  }

  /** Comparing two parsed dates (`<`, `>=`, ...) is comparing the calendar dates. */
  lemma MidnightOrder(a: Date, b: Date)
    ensures Midnight(a) < Midnight(b) <==> Before(a, b)
    ensures Midnight(a) == Midnight(b) <==> a == b
  {
    DayNumberOrder(a, b);
  }

  /** `Math.floor((b - a) / 86400000) + 1`: the days from a to b, both counted.
      Dafny's division by a positive divisor rounds down, as Math.floor does. */
  function DayCount(a: int, b: int): int {
    (b - a) / MsPerDay + 1
  }

  /** Between two midnights the count is exact: first and last day included. */
  lemma DayCountMidnights(a: Date, b: Date)
    ensures DayCount(Midnight(a), Midnight(b)) == DayNumber(b) - DayNumber(a) + 1
  {
    var k := DayNumber(b) - DayNumber(a);
    assert Midnight(b) - Midnight(a) == k * MsPerDay;
  }

  function YearUp(day: int, y: int): (r: int)
    requires DaysBeforeYear(y) <= day
    ensures DaysBeforeYear(r) <= day < DaysBeforeYear(r + 1)
    decreases day - DaysBeforeYear(y)
  {
    NextYear(y);
    if day < DaysBeforeYear(y + 1) then y else YearUp(day, y + 1)
  }

  function YearDown(day: int, y: int): (r: int)
    requires day < DaysBeforeYear(y + 1)
    ensures DaysBeforeYear(r) <= day < DaysBeforeYear(r + 1)
    decreases DaysBeforeYear(y + 1) - day
  {
    NextYear(y);
    if DaysBeforeYear(y) <= day then y else YearDown(day, y - 1)
  }

  /** The year a day number falls in. */
  function YearOfDay(day: int): (y: int)
    ensures DaysBeforeYear(y) <= day < DaysBeforeYear(y + 1)
  {
    if day >= 0 then YearUp(day, 1970) else YearDown(day, 1969)
  }

  /** Years do not overlap, so the year of a day is the only one containing it. */
  lemma YearOfDayUnique(day: int, y: int)
    requires DaysBeforeYear(y) <= day < DaysBeforeYear(y + 1)
    ensures YearOfDay(day) == y
  {
    var z := YearOfDay(day);
    if z < y {
      YearsOrdered(z + 1, y);
    } else if y < z {
      YearsOrdered(y + 1, z);
    }
  }

  /** `now.getFullYear()` for an instant in local time. */
  function YearOf(t: int): int {
    YearOfDay(t / MsPerDay)
  }

  /** `getFullYear()` of a parsed date is the year it was written with. */
  lemma YearOfMidnight(d: Date)
    ensures YearOf(Midnight(d)) == d.year
  {
    DayInYear(d);
    assert Midnight(d) / MsPerDay == DayNumber(d);
    YearOfDayUnique(DayNumber(d), d.year);
  }

  /** `new Date(y, 0, 1)`. */
  function YearStart(y: int): int {
    DaysBeforeYear(y) * MsPerDay
  }

  /** `new Date(y, 11, 31)`: midnight STARTING 31 December. */
  function YearEnd(y: int): int {
    (DaysBeforeYear(y + 1) - 1) * MsPerDay
  }

  /** The year bounds are the midnights of 1 January and 31 December. */
  lemma YearBoundsAreMidnights(y: int)
    requires 100 <= y <= 9999
    ensures ValidDate(CivilDate(1, 1, y)) && ValidDate(CivilDate(31, 12, y))
    ensures YearStart(y) == Midnight(CivilDate(1, 1, y))
    ensures YearEnd(y) == Midnight(CivilDate(31, 12, y))
  {
    NextYear(y);
    MonthStep(y, 12);
  }

  /** `now` lies between the start of its year and the end of 31 December of
      that year, and the start lies before 31 December. */
  lemma NowInYear(now: int)
    ensures YearStart(YearOf(now)) <= now < YearEnd(YearOf(now)) + MsPerDay
    ensures YearStart(YearOf(now)) < YearEnd(YearOf(now))
  {
    var y := YearOf(now);
    NextYear(y);
  }

  /** Any instant between 1 January and the end of 31 December of y is in year y. */
  lemma YearOfWithin(now: int, y: int)
    requires YearStart(y) <= now < YearEnd(y) + MsPerDay
    ensures YearOf(now) == y
  {
    YearOfDayUnique(now / MsPerDay, y);
  }
}
