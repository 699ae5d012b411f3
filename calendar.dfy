/**
  The part of Python's `datetime.date` that post.py uses: the proleptic
  Gregorian calendar over the years 1..9999, the day count from
  0001-01-01 and the weekday (`date.weekday()`, Monday = 0).
*/
module Calendar {

  const MinYear: int := 1
  const MaxYear: int := 9999

  predicate IsLeap(y: int) {
    y % 4 == 0 && (y % 100 != 0 || y % 400 == 0)
  }

  function DaysInMonth(y: int, m: int): (n: int)
    requires 1 <= m <= 12
    ensures 28 <= n <= 31
  {
    if m == 2 then (if IsLeap(y) then 29 else 28)
    else if m == 4 || m == 6 || m == 9 || m == 11 then 30
    else 31
  }

  function DaysInYear(y: int): int {
    if IsLeap(y) then 366 else 365
  }

  /** A calendar date; `Valid` is what the `datetime.date` constructor accepts. */
  datatype Date = Date(year: int, month: int, day: int) {
    predicate Valid() {
      MinYear <= year <= MaxYear && 1 <= month <= 12 && 1 <= day <= DaysInMonth(year, month)
    }
  }

  /** Days in the years before `y`, by the closed form CPython uses. */
  function DaysBeforeYear(y: int): int
    requires y >= 1
  {
    var z := y - 1;
    z * 365 + z / 4 - z / 100 + z / 400
  }

  /** Days in the months of year `y` before month `m`, from a table of
      cumulative month lengths, plus one after February of a leap year. */
  function DaysBeforeMonth(y: int, m: int): int
    requires 1 <= m <= 12
  {
    [0, 31, 59, 90, 120, 151, 181, 212, 243, 273, 304, 334][m - 1]
    + (if m > 2 && IsLeap(y) then 1 else 0)
  }

  /** `date.toordinal()`: 0001-01-01 is day 1. */
  function Ordinal(d: Date): int
    requires d.year >= 1 && 1 <= d.month <= 12
  {
    DaysBeforeYear(d.year) + DaysBeforeMonth(d.year, d.month) + d.day
  }

  /** `date.weekday()`: Monday is 0 and Sunday is 6. */
  function Weekday(d: Date): (w: int)
    requires d.year >= 1 && 1 <= d.month <= 12
    ensures 0 <= w < 7
  {
    (Ordinal(d) + 6) % 7
  }

  // ---------------------------------------------------------------------
  // Reference definitions: counting day by day
  // ---------------------------------------------------------------------

  /** Days in the years before `y`, summed year by year. */
  function YearsLength(y: int): int
    requires y >= 1
    decreases y
  {
    if y == 1 then 0 else YearsLength(y - 1) + DaysInYear(y - 1)
  }

  /** Days in the months before `m`, summed month by month. */
  function MonthsLength(y: int, m: int): int
    requires 1 <= m <= 12
    decreases m
  {
    if m == 1 then 0 else MonthsLength(y, m - 1) + DaysInMonth(y, m - 1)
  }

  /** The day after `d`. */
  function NextDay(d: Date): Date
    requires d.Valid()
  {
    if d.day < DaysInMonth(d.year, d.month) then Date(d.year, d.month, d.day + 1)
    else if d.month < 12 then Date(d.year, d.month + 1, 1)
    else Date(d.year + 1, 1, 1)
  }

  lemma DivStep(y: int)
    requires y >= 1
    ensures y / 4 - (y - 1) / 4 == (if y % 4 == 0 then 1 else 0)
    ensures y / 100 - (y - 1) / 100 == (if y % 100 == 0 then 1 else 0)
    ensures y / 400 - (y - 1) / 400 == (if y % 400 == 0 then 1 else 0)
  {
  }

  /** A multiple of 400 is a multiple of 100, and a multiple of 100 is a
      multiple of 4. */
  lemma DivisorChain(y: int)
    ensures y % 400 == 0 ==> y % 100 == 0
    ensures y % 100 == 0 ==> y % 4 == 0
  {
    if y % 400 == 0 {
      var k := y / 400;
      assert y == 100 * (4 * k);
      MultipleOf100(4 * k);
    }
    if y % 100 == 0 {
      var k := y / 100;
      assert y == 4 * (25 * k);
      MultipleOf4(25 * k);
    }
  }

  lemma MultipleOf100(j: int)
    ensures (100 * j) % 100 == 0
  {
  }

  lemma MultipleOf4(j: int)
    ensures (4 * j) % 4 == 0
  {
  }

  /** Consecutive values of the closed form differ by the length of a year. */
  lemma DaysBeforeNextYear(y: int)
    requires y >= 1
    ensures DaysBeforeYear(y + 1) == DaysBeforeYear(y) + DaysInYear(y)
  {
    DivStep(y);
    DivisorChain(y);
    var leap4, leap100, leap400 := y / 4 - (y - 1) / 4, y / 100 - (y - 1) / 100, y / 400 - (y - 1) / 400;
    assert DaysBeforeYear(y + 1) - DaysBeforeYear(y) == 365 + leap4 - leap100 + leap400;
  }

  /** The closed form of CPython equals the year-by-year count. */
  lemma {:induction false} DaysBeforeYearCounts(y: int)
    requires y >= 1
    ensures DaysBeforeYear(y) == YearsLength(y)
    decreases y
  {
    if y > 1 {
      DaysBeforeYearCounts(y - 1);
      DaysBeforeNextYear(y - 1);
    }
  }

  /** The month table equals the month-by-month count. */
  lemma {:induction false} DaysBeforeMonthCounts(y: int, m: int)
    requires 1 <= m <= 12
    ensures DaysBeforeMonth(y, m) == MonthsLength(y, m)
    decreases m
  {
    if m > 1 {
      DaysBeforeMonthCounts(y, m - 1);
    }
  }

  /** The ordinal of a date is one plus the number of days from 0001-01-01. */
  lemma OrdinalCountsDays(d: Date)
    requires d.Valid()
    ensures Ordinal(d) == YearsLength(d.year) + MonthsLength(d.year, d.month) + d.day
  {
    DaysBeforeYearCounts(d.year);
    DaysBeforeMonthCounts(d.year, d.month);
  }

  /** The next day is still a date, unless `d` is the last one, 9999-12-31. */
  lemma NextDayValid(d: Date)
    requires d.Valid() && d != Date(MaxYear, 12, 31)
    ensures NextDay(d).Valid()
  {
  }

  /** Consecutive days have consecutive ordinals. */
  lemma OrdinalNextDay(d: Date)
    requires d.Valid()
    ensures Ordinal(NextDay(d)) == Ordinal(d) + 1
  {
    if d.day == DaysInMonth(d.year, d.month) {
      if d.month < 12 {
        DaysBeforeMonthCounts(d.year, d.month);
        DaysBeforeMonthCounts(d.year, d.month + 1);
      } else {
        DaysBeforeNextYear(d.year);
      }
    }
  }

  /** 0001-01-01 is a Monday, and each day advances the weekday by one:
      together these fix `Weekday` on every date. */
  lemma WeekdayFirstDay()
    ensures Weekday(Date(1, 1, 1)) == 0
  {
  }

  lemma WeekdayNextDay(d: Date)
    requires d.Valid()
    ensures Weekday(NextDay(d)) == (Weekday(d) + 1) % 7
  {
    OrdinalNextDay(d);
    var o := Ordinal(d) + 6;
    assert Weekday(NextDay(d)) == (o + 1) % 7;
    ModSucc(o);
  }

  lemma ModSucc(a: int)
    ensures (a + 1) % 7 == (a % 7 + 1) % 7
  {
  }
}
