/**
 * Calendar arithmetic of the host `Date` object, as the picker consumes it:
 * leap years, month lengths, day numbers counted from 1 January 1970 (the
 * ECMAScript `Day(t)`), weekdays, the "roll over" of `setMonth`,
 * `setFullYear` and the three-argument constructor, and the calendar-day
 * order in which the script compares a local-midnight date with the
 * moment `new Date()`.
 */
module Dates {

  /** A calendar date: month is 1..12 (the script's `getMonth() + 1`). */
  datatype Date = Date(year: int, month: int, day: int)

  /** Gregorian leap-year rule (proleptic, every integer year). */
  predicate IsLeap(y: int) {
    y % 4 == 0 && (y % 100 != 0 || y % 400 == 0)
  }

  function DaysInMonth(y: int, m: int): (n: int)
    requires 1 <= m <= 12
    ensures 28 <= n <= 31
    ensures n == 29 <==> m == 2 && IsLeap(y)
    ensures n == 28 <==> m == 2 && !IsLeap(y)
    ensures n == 30 <==> m == 4 || m == 6 || m == 9 || m == 11
  {
    if m == 2 then (if IsLeap(y) then 29 else 28)
    else if m == 4 || m == 6 || m == 9 || m == 11 then 30
    else 31
  }

  /** The numbers form a real date of the Gregorian calendar. */
  predicate IsRealDate(d: Date) {
    1 <= d.month <= 12 && 1 <= d.day <= DaysInMonth(d.year, d.month)
  }

  function DaysInYear(y: int): int {
    if IsLeap(y) then 366 else 365
  }

  /** ECMAScript DayFromYear: the day number of 1 January of year y. */
  function DayFromYear(y: int): int {
    365 * (y - 1970) + (y - 1969) / 4 - (y - 1901) / 100 + (y - 1601) / 400
  }

  /** Days of year y that precede the first day of month m. */
  function DaysBeforeMonth(y: int, m: int): (n: int)
    requires 1 <= m <= 12
    ensures 0 <= n <= 335
  {
    [0, 31, 59, 90, 120, 151, 181, 212, 243, 273, 304, 334][m - 1]
      + (if m > 2 && IsLeap(y) then 1 else 0)
  }

  /** Days since 1 January 1970 (negative before it), the ECMAScript `Day(t)` of local midnight. */
  function DayNumber(d: Date): int
    requires 1 <= d.month <= 12
  {
    DayFromYear(d.year) + DaysBeforeMonth(d.year, d.month) + d.day - 1
  }

  /** `getDay()`: 0 = Sunday .. 6 = Saturday; 1 January 1970 was a Thursday. */
  function Weekday(d: Date): (w: int)
    requires 1 <= d.month <= 12
    ensures 0 <= w < 7
  {
    (DayNumber(d) + 4) % 7
  }

  /** The month before (y, m), wrapping into December of the previous year. */
  function PrevMonthOf(y: int, m: int): (r: (int, int))
    requires 1 <= m <= 12
    ensures 1 <= r.1 <= 12
    ensures r.0 * 12 + r.1 == y * 12 + m - 1
  {
    if m == 1 then (y - 1, 12) else (y, m - 1)
  }

  /** The month after (y, m), wrapping into January of the next year. */
  function NextMonthOf(y: int, m: int): (r: (int, int))
    requires 1 <= m <= 12
    ensures 1 <= r.1 <= 12
    ensures r.0 * 12 + r.1 == y * 12 + m + 1
  {
    if m == 12 then (y + 1, 1) else (y, m + 1)
  }

  /**
   * ECMAScript MakeDay for a day of month 1..31: the date `day - 1` days
   * after the first of (y, m) (RollDayNumber). A day beyond the month's
   * length spills into the next month (30 February becomes 1 or 2 March).
   */
  function Roll(y: int, m: int, day: int): (r: Date)
    requires 1 <= m <= 12 && 1 <= day <= 31
    ensures IsRealDate(r)
  {
    if day <= DaysInMonth(y, m) then Date(y, m, day)
    else
      var next := NextMonthOf(y, m);
      Date(next.0, next.1, day - DaysInMonth(y, m))
  }

  /** `getMonth()`: the zero-based month index. */
  function GetMonth(d: Date): int {
    d.month - 1
  }

  /**
   * `d.setMonth(index)`: the month index may lie outside 0..11 and then
   * moves the year (floor division, as in the host); the day of month is
   * kept and rolls over when the target month is shorter.
   */
  function SetMonth(d: Date, index: int): (r: Date)
    requires IsRealDate(d)
    ensures IsRealDate(r)
  {
    Roll(d.year + index / 12, index % 12 + 1, d.day)
  }

  /** `d.setFullYear(y)`: month and day kept; 29 February rolls to 1 March. */
  function SetFullYear(d: Date, y: int): (r: Date)
    requires IsRealDate(d)
    ensures IsRealDate(r)
  {
    Roll(y, d.month, d.day)
  }

  /** The constructor's MakeFullYear step: `new Date(y, ...)` reads years 0..99 as 1900..1999. */
  function MakeFullYear(y: int): (r: int)
    ensures 0 <= y <= 99 ==> r == 1900 + y
    ensures !(0 <= y <= 99) ==> r == y
  {
    if 0 <= y <= 99 then 1900 + y else y
  }

  /** `new Date(y, index, day)` for a month index 0..11 and day 1..31. */
  function ConstructDate(y: int, index: int, day: int): (r: Date)
    requires 0 <= index <= 11 && 1 <= day <= 31
    ensures IsRealDate(r)
  {
    Roll(MakeFullYear(y), index + 1, day)
  }

  /**
   * `date > new Date()` for the local midnight of a and a moment of day b,
   * read on calendar days: a is a later calendar day than b.
   */
  predicate After(a: Date, b: Date) {
    a.year > b.year
    || (a.year == b.year && a.month > b.month)
    || (a.year == b.year && a.month == b.month && a.day > b.day)
  }

  // ---------------------------------------------------------------------
  // Lemmas
  // ---------------------------------------------------------------------

  /** Consecutive integers differ in their quotient by 4, 100 or 400 exactly when the larger is a multiple. */
  lemma FloorDivStep(n: int)
    ensures n / 4 - (n - 1) / 4 == if n % 4 == 0 then 1 else 0
    ensures n / 100 - (n - 1) / 100 == if n % 100 == 0 then 1 else 0
    ensures n / 400 - (n - 1) / 400 == if n % 400 == 0 then 1 else 0
  {
  }

  /** Adding to a number adds to its residue modulo 7. */
  lemma ModSeven(a: int, b: int)
    ensures (a + b) % 7 == (a % 7 + b) % 7
  {
  }

  /** A year contributes DaysInYear days: the leap-day counts of DayFromYear step by one exactly in leap years. */
  lemma DayFromYearStep(y: int)
    ensures DayFromYear(y + 1) == DayFromYear(y) + DaysInYear(y)
  {
    var a := (y - 1968) / 4 - (y - 1969) / 4;
    var b := (y - 1900) / 100 - (y - 1901) / 100;
    var c := (y - 1600) / 400 - (y - 1601) / 400;
    LeapCounts(y);
    LeapDivisors(y);
    DayFromYearSplit(y, a, b, c);
  }

  /** A multiple of 400 is one of 100, and a multiple of 100 is one of 4. */
  lemma LeapDivisors(y: int)
    ensures y % 400 == 0 ==> y % 100 == 0
    ensures y % 100 == 0 ==> y % 4 == 0
  {
    if y % 400 == 0 {
      var j := 4 * (y / 400);
      assert y == 100 * j;
      assert y / 100 == j;
    }
    if y % 100 == 0 {
      var j := 25 * (y / 100);
      assert y == 4 * j;
      assert y / 4 == j;
    }
  }

  lemma LeapCounts(y: int)
    ensures (y - 1968) / 4 - (y - 1969) / 4 == if y % 4 == 0 then 1 else 0
    ensures (y - 1900) / 100 - (y - 1901) / 100 == if y % 100 == 0 then 1 else 0
    ensures (y - 1600) / 400 - (y - 1601) / 400 == if y % 400 == 0 then 1 else 0
  {
    FloorDivStep(y - 1968);
    FloorDivStep(y - 1900);
    FloorDivStep(y - 1600);
    ModShifts(y);
  }

  lemma ModShifts(y: int)
    ensures (y - 1968) % 4 == y % 4
    ensures (y - 1900) % 100 == y % 100
    ensures (y - 1600) % 400 == y % 400
  {
    assert y - 1968 == 4 * (y / 4 - 492) + y % 4;
    assert y - 1900 == 100 * (y / 100 - 19) + y % 100;
    assert y - 1600 == 400 * (y / 400 - 4) + y % 400;
  }

  lemma DayFromYearSplit(y: int, a: int, b: int, c: int)
    requires a == (y - 1968) / 4 - (y - 1969) / 4
    requires b == (y - 1900) / 100 - (y - 1901) / 100
    requires c == (y - 1600) / 400 - (y - 1601) / 400
    ensures DayFromYear(y + 1) == DayFromYear(y) + 365 + a - b + c
  {
  }

  /** The first of the next month is DaysInMonth days after the first of this one. */
  lemma NextMonthFirstDay(y: int, m: int)
    requires 1 <= m <= 12
    ensures var n := NextMonthOf(y, m);
      DayNumber(Date(n.0, n.1, 1)) == DayNumber(Date(y, m, 1)) + DaysInMonth(y, m)
  {
    if m == 12 {
      DayFromYearStep(y);
    }
  }

  /** Every real date of year y lies within that year's day numbers. */
  lemma WithinYear(d: Date)
    requires IsRealDate(d)
    ensures DayFromYear(d.year) <= DayNumber(d) < DayFromYear(d.year) + DaysInYear(d.year)
  {
  }

  /** January 1 of a later year has a larger day number, by the gap in days at least. */
  lemma {:induction false} DayFromYearMonotone(a: int, b: int)
    requires a < b
    ensures DayFromYear(a) + DaysInYear(a) <= DayFromYear(b)
    decreases b - a
  {
    DayFromYearStep(a);
    if a + 1 < b {
      DayFromYearMonotone(a + 1, b);
    }
  }

  /** For real dates, the calendar-day order After is the order of day numbers. */
  lemma AfterIsLaterDay(a: Date, b: Date)
    requires IsRealDate(a) && IsRealDate(b)
    ensures After(a, b) <==> DayNumber(a) > DayNumber(b)
  {
    WithinYear(a);
    WithinYear(b);
    if a.year < b.year {
      DayFromYearMonotone(a.year, b.year);
    } else if a.year > b.year {
      DayFromYearMonotone(b.year, a.year);
    }
  }

  /** A real date is determined by its day number. */
  lemma DayNumberInjective(a: Date, b: Date)
    requires IsRealDate(a) && IsRealDate(b) && DayNumber(a) == DayNumber(b)
    ensures a == b
  {
    AfterIsLaterDay(a, b);
    AfterIsLaterDay(b, a);
  }

  /** MakeDay counts days from the first of the month, spilling over its end. */
  lemma RollDayNumber(y: int, m: int, day: int)
    requires 1 <= m <= 12 && 1 <= day <= 31
    ensures DayNumber(Roll(y, m, day)) == DayNumber(Date(y, m, 1)) + day - 1
  {
    if day > DaysInMonth(y, m) {
      NextMonthFirstDay(y, m);
    }
  }

  /** `setMonth(index)` lands `day - 1` days after the first of the month the index folds to. */
  lemma SetMonthDayNumber(d: Date, index: int)
    requires IsRealDate(d)
    ensures DayNumber(SetMonth(d, index)) == DayNumber(Date(d.year + index / 12, index % 12 + 1, 1)) + d.day - 1
  {
    RollDayNumber(d.year + index / 12, index % 12 + 1, d.day);
  }

  /** `setFullYear(y)` lands `day - 1` days after the first of the same month of year y. */
  lemma SetFullYearDayNumber(d: Date, y: int)
    requires IsRealDate(d)
    ensures DayNumber(SetFullYear(d, y)) == DayNumber(Date(y, d.month, 1)) + d.day - 1
  {
    RollDayNumber(y, d.month, d.day);
  }

  /** `new Date(y, index, day)` lands `day - 1` days after the first of that month of MakeFullYear(y). */
  lemma ConstructDateDayNumber(y: int, index: int, day: int)
    requires 0 <= index <= 11 && 1 <= day <= 31
    ensures DayNumber(ConstructDate(y, index, day)) == DayNumber(Date(MakeFullYear(y), index + 1, 1)) + day - 1
  {
    RollDayNumber(MakeFullYear(y), index + 1, day);
  }

  /** A day that exists in the target month is kept as it is. */
  lemma RollKeeps(y: int, m: int, day: int)
    requires 1 <= m <= 12 && 1 <= day <= DaysInMonth(y, m)
    ensures Roll(y, m, day) == Date(y, m, day)
  {
  }

  /** A day past the end of the target month lands early in the following month. */
  lemma RollSpills(y: int, m: int, day: int)
    requires 1 <= m <= 12 && DaysInMonth(y, m) < day <= 31
    ensures var n := NextMonthOf(y, m);
      Roll(y, m, day) == Date(n.0, n.1, day - DaysInMonth(y, m))
      && 1 <= day - DaysInMonth(y, m) <= 3
  {
  }

  /** The weekday advances by one for each day of the month. */
  lemma WeekdayInMonth(y: int, m: int, day: int)
    requires 1 <= m <= 12
    ensures Weekday(Date(y, m, day)) == (Weekday(Date(y, m, 1)) + day - 1) % 7
  {
    ModSeven(DayNumber(Date(y, m, 1)) + 4, day - 1);
  }

  /** Anchors: 1 January 1970 was a Thursday and 1 January 2024 a Monday. */
  lemma KnownWeekdays()
    ensures DayNumber(Date(1970, 1, 1)) == 0 && Weekday(Date(1970, 1, 1)) == 4
    ensures Weekday(Date(2024, 1, 1)) == 1
  {
    assert DayFromYear(1970) == 0;
    assert DayFromYear(2024) == 19723;
    assert DayNumber(Date(2024, 1, 1)) == 19723;
  }
}
