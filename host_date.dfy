/**
 * The parts of JavaScript's `Date` the widget depends on, written out by
 * hand: `new Date(year, month, day)` with its normalisation of out-of-range
 * months and days, `getFullYear`/`getMonth`/`getDate` of the result, and
 * `getDay()` of the first of a month. Dates are counted as ECMAScript counts
 * them: a day number is the number of days since 1 January 1970 in the
 * proleptic Gregorian calendar, and the week day of day number `t` is
 * `(t + 4) mod 7` (1970-01-01 was a Thursday, Sunday is 0).
 */
module HostDate {
  import opened Dates

  /** The `{year, month, day}` decomposition of a date value; months are 0..11. */
  datatype Date = Date(year: int, month: int, day: int)

  predicate ValidDate(d: Date) {
    ValidMonth(d.month) && 1 <= d.day <= DaysInMonth(d.year, d.month)
  }

  /** Leap years among the years 1..n (a negative count below year 1). */
  function LeapsThrough(n: int): int {
    n / 4 - n / 100 + n / 400
  }

  lemma DivStep4(n: int)
    ensures n / 4 - (n - 1) / 4 == if n % 4 == 0 then 1 else 0
  {
  }

  lemma DivStep100(n: int)
    ensures n / 100 - (n - 1) / 100 == if n % 100 == 0 then 1 else 0
  {
  }

  lemma DivStep400(n: int)
    ensures n / 400 - (n - 1) / 400 == if n % 400 == 0 then 1 else 0
  {
  }

  lemma ModWeek(a: int, b: int)
    ensures (a + b) % 7 == (a % 7 + b) % 7
  {
  }

  /** The leap-year count grows by one exactly at a leap year. */
  lemma LeapsStep(n: int)
    ensures LeapsThrough(n) - LeapsThrough(n - 1) == if IsLeapYear(n) then 1 else 0
  {
    DivStep4(n);
    DivStep100(n);
    DivStep400(n);
    if n % 100 == 0 {
      assert n % 4 == 0;
    }
    if n % 400 == 0 {
      assert n % 100 == 0;
    }
  }

  /** Day number of 1 January of `year`. */
  function DaysBeforeYear(year: int): int {
    365 * (year - 1970) + LeapsThrough(year - 1) - LeapsThrough(1969)
  }

  lemma DaysBeforeYearStep(year: int)
    ensures DaysBeforeYear(year + 1) == DaysBeforeYear(year) + DaysInYear(year)
  {
    LeapsStep(year);
  }

  const DAYS_BEFORE_MONTH: seq<int> := [0, 31, 59, 90, 120, 151, 181, 212, 243, 273, 304, 334]

  /** Days of `year` before the first of `month`. */
  function DaysBeforeMonth(year: int, month: int): int
    requires ValidMonth(month)
  {
    DAYS_BEFORE_MONTH[month] + (if month >= 2 && IsLeapYear(year) then 1 else 0)
  }

  /** Day number of a `{year, month, day}` triple (ECMAScript's `MakeDay`, for a month in range). */
  function DayNumber(year: int, month: int, day: int): int
    requires ValidMonth(month)
  {
    DaysBeforeYear(year) + DaysBeforeMonth(year, month) + day - 1
  }

  /** The first of the next month comes `DaysInMonth` days after the first of this one. */
  lemma NextMonthDayNumber(year: int, month: int)
    requires ValidMonth(month)
    ensures var n := NextMonth(YearMonth(year, month));
      DayNumber(n.year, n.month, 1) == DayNumber(year, month, 1) + DaysInMonth(year, month)
  {
    if month == 11 {
      DaysBeforeYearStep(year);
    }
  }

  /** `getDay()`: the week day of a date, Sunday being 0. */
  function WeekDay(year: int, month: int, day: int): (w: int)
    requires ValidMonth(month)
    ensures 0 <= w < 7
    ensures w == (DayNumber(year, month, day) + 4) % 7
  {
    (DayNumber(year, month, day) + 4) % 7
  }

  /** The first of the next month falls `DaysInMonth` week days after the first of this one. */
  lemma WeekDayNextMonth(year: int, month: int)
    requires ValidMonth(month)
    ensures var n := NextMonth(YearMonth(year, month));
      WeekDay(n.year, n.month, 1) == (WeekDay(year, month, 1) + DaysInMonth(year, month)) % 7
  {
    NextMonthDayNumber(year, month);
    ModWeek(DayNumber(year, month, 1) + 4, DaysInMonth(year, month));
  }

  lemma LeapsCycle(n: int)
    ensures LeapsThrough(n + 400) == LeapsThrough(n) + 97
  {
    assert (n + 400) / 4 == n / 4 + 100;
    assert (n + 400) / 100 == n / 100 + 4;
    assert (n + 400) / 400 == n / 400 + 1;
  }

  lemma LeapYearCycle(year: int)
    ensures IsLeapYear(year + 400) == IsLeapYear(year)
  {
    assert (year + 400) % 4 == year % 4;
    assert (year + 400) % 100 == year % 100;
    assert (year + 400) % 400 == year % 400;
  }

  lemma DaysBeforeYearCycle(year: int)
    ensures DaysBeforeYear(year + 400) == DaysBeforeYear(year) + 7 * 20871
  {
    LeapsCycle(year - 1);
  }

  /** The Gregorian calendar repeats its week days every 400 years. */
  lemma WeekDayCycle(year: int, month: int, day: int)
    requires ValidMonth(month)
    ensures WeekDay(year + 400, month, day) == WeekDay(year, month, day)
  {
    DaysBeforeYearCycle(year);
    LeapYearCycle(year);
    assert DaysBeforeMonth(year + 400, month) == DaysBeforeMonth(year, month);
    var n := DayNumber(year, month, day);
    assert DayNumber(year + 400, month, day) == n + 7 * 20871;
    ModWeek(n + 4, 7 * 20871);
    assert (n + 4 + 7 * 20871) % 7 == ((n + 4) % 7 + 7 * 20871) % 7;
  }

  /** Anchors: 1 January 1970 was a Thursday, 1 January 2000 a Saturday, 1 January 2023 a Sunday. */
  lemma KnownWeekDays()
    ensures WeekDay(1970, 0, 1) == 4
    ensures WeekDay(2000, 0, 1) == 6
    ensures WeekDay(2023, 0, 1) == 0
  {
    assert DaysBeforeYear(2000) == 10957;
    assert DaysBeforeYear(2023) == 19358;
  }

  /** The days of a month have consecutive day numbers. */
  lemma DayNumberInMonth(year: int, month: int, day: int)
    requires ValidMonth(month)
    ensures DayNumber(year, month, day) == DayNumber(year, month, 1) + day - 1
  {
  }

  /** Every day of an earlier month has a smaller day number than the first of a later month. */
  lemma {:induction false} FirstOfMonthMonotone(a: YearMonth, b: YearMonth)
    requires ValidMonth(a.month) && ValidMonth(b.month)
    requires MonthIndex(a) < MonthIndex(b)
    ensures DayNumber(a.year, a.month, 1) + DaysInMonth(a.year, a.month) <= DayNumber(b.year, b.month, 1)
    decreases MonthIndex(b) - MonthIndex(a)
  {
    var n := NextMonth(a);
    NextMonthDayNumber(a.year, a.month);
    if MonthIndex(n) == MonthIndex(b) {
      MonthIndexInjective(n, b);
    } else {
      FirstOfMonthMonotone(n, b);
    }
  }

  /** Valid dates are told apart by their day numbers. */
  lemma DayNumberInjective(a: Date, b: Date)
    requires ValidDate(a) && ValidDate(b)
    requires DayNumber(a.year, a.month, a.day) == DayNumber(b.year, b.month, b.day)
    ensures a == b
  {
    var ma, mb := YearMonth(a.year, a.month), YearMonth(b.year, b.month);
    if MonthIndex(ma) < MonthIndex(mb) {
      FirstOfMonthMonotone(ma, mb);
      assert false;
    } else if MonthIndex(mb) < MonthIndex(ma) {
      FirstOfMonthMonotone(mb, ma);
      assert false;
    } else {
      MonthIndexInjective(ma, mb);
    }
  }

  /**
   * The date `day - 1` days after the first of `year`/`month`, for any `day`:
   * days past the end of the month run into the following months, days
   * below 1 into the preceding ones.
   */
  function NormalizeDay(year: int, month: int, day: int): (d: Date)
    requires ValidMonth(month)
    ensures ValidDate(d)
    ensures DayNumber(d.year, d.month, d.day) == DayNumber(year, month, 1) + day - 1
    decreases if day < 1 then 1 - day else 0, if day < 1 then 0 else day
  {
    if day < 1 then
      var p := PrevMonth(YearMonth(year, month));
      NextMonthDayNumber(p.year, p.month);
      MonthPagingRoundTrip(YearMonth(year, month));
      NormalizeDay(p.year, p.month, day + DaysInMonth(p.year, p.month))
    else if day > DaysInMonth(year, month) then
      var n := NextMonth(YearMonth(year, month));
      NextMonthDayNumber(year, month);
      NormalizeDay(n.year, n.month, day - DaysInMonth(year, month))
    else
      Date(year, month, day)
  }

  /**
   * ECMAScript's `MakeDay(year, month, day)` for any integers: the month
   * carries into the year (`year + floor(month / 12)`, `month mod 12`), then
   * the day counts from the first of that month.
   */
  function MakeDate(year: int, month: int, day: int): (d: Date)
    ensures ValidDate(d)
    ensures DayNumber(d.year, d.month, d.day) == DayNumber(year + month / 12, month % 12, 1) + day - 1
  {
    NormalizeDay(year + month / 12, month % 12, day)
  }

  /** `MakeDate` gives the one valid date at the required day number. */
  lemma MakeDateUnique(year: int, month: int, day: int, e: Date)
    requires ValidDate(e)
    requires DayNumber(e.year, e.month, e.day) == DayNumber(year + month / 12, month % 12, 1) + day - 1
    ensures MakeDate(year, month, day) == e
  {
    DayNumberInjective(MakeDate(year, month, day), e);
  }

  /** A triple that already names a valid date is taken as it is. */
  lemma MakeDateValid(d: Date)
    requires ValidDate(d)
    ensures MakeDate(d.year, d.month, d.day) == d
  {
    MakeDateUnique(d.year, d.month, d.day, d);
  }

  /** ECMAScript's Date constructor reads a year 0..99 as 1900..1999. */
  function ConstructorYear(year: int): (y: int)
    ensures 0 <= year <= 99 ==> y == 1900 + year
    ensures !(0 <= year <= 99) ==> y == year
  {
    if 0 <= year <= 99 then 1900 + year else year
  }

  /** `new Date(year, month, day)` decomposed by `getFullYear`, `getMonth`, `getDate`. */
  function NewDate(year: int, month: int, day: int): (d: Date)
    ensures ValidDate(d)
    ensures !(0 <= year <= 99) && ValidDate(Date(year, month, day)) ==> d == Date(year, month, day)
  {
    var d := MakeDate(ConstructorYear(year), month, day);
    if !(0 <= year <= 99) && ValidDate(Date(year, month, day)) then
      MakeDateValid(Date(year, month, day));
      d
    else
      d
  }

  /** `new Date(year, month, 1).getDay()`: the week day the month starts on. */
  function FirstWeekDay(year: int, month: int): (w: int)
    ensures 0 <= w < 7
  {
    var d := NewDate(year, month, 1);
    WeekDay(d.year, d.month, d.day)
  }

  /** Over the constructor's own years, the first week day follows the month lengths. */
  lemma FirstWeekDayOfValidMonth(year: int, month: int)
    requires ValidMonth(month) && !(0 <= year <= 99)
    ensures FirstWeekDay(year, month) == WeekDay(year, month, 1)
  {
    assert ValidDate(Date(year, month, 1));
  }

  /** Day 32 of January is 1 February; day 0 of March is the last day of February. */
  lemma NormalisationExamples()
    ensures NewDate(2023, 0, 32) == Date(2023, 1, 1)
    ensures NewDate(2024, 2, 0) == Date(2024, 1, 29)
    ensures NewDate(2023, 12, 1) == Date(2024, 0, 1)
  {
    MakeDateUnique(2023, 0, 32, Date(2023, 1, 1));
    MakeDateUnique(2024, 2, 0, Date(2024, 1, 29));
    MakeDateUnique(2023, 12, 1, Date(2024, 0, 1));
  }
}
