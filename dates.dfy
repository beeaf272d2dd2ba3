/**
 * Calendar arithmetic of `dates.js`: the Gregorian month lengths, paging a
 * `{year, month}` cursor by a month, a year or a window of `SHOW_YEARS`
 * years, and snapping a year to its window. Months are numbered 0..11 as in
 * JavaScript's `Date`.
 *
 * `START_YEAR`, which the source computes once from the wall clock, is the
 * parameter `start` here; `HomeStart` is the computation itself.
 */
module Dates {

  /** Number of years shown by the years view, and the paging step there. */
  const SHOW_YEARS: int := 25

  /** The `{year, month}` record the paging functions take and return. */
  datatype YearMonth = YearMonth(year: int, month: int)

  predicate ValidMonth(month: int) {
    0 <= month < 12
  }

  /** Months elapsed since January of year 0: one step per month, twelve per year. */
  function MonthIndex(ym: YearMonth): int {
    ym.year * 12 + ym.month
  }

  /**
   * The first year of the home window, `Math.floor(year - (SHOW_YEARS - 1) / 2)`
   * for the current year: the current year sits in the middle of its window.
   */
  function HomeStart(currentYear: int): (start: int)
    ensures start <= currentYear < start + SHOW_YEARS
    ensures currentYear - start == (start + SHOW_YEARS - 1) - currentYear
  {
    currentYear - (SHOW_YEARS - 1) / 2
  }

  /**
   * The first year of the window of `SHOW_YEARS` years that holds `year`,
   * the windows being tiled from `start`.
   */
  function GetStartYear(start: int, year: int): (r: int)
    ensures r <= year < r + SHOW_YEARS
    ensures (r - start) % SHOW_YEARS == 0
  {
    if year == start then start
    else if year > start && year < start + SHOW_YEARS then start
    else start + ((year - start) / SHOW_YEARS) * SHOW_YEARS
  }

  /** The two early returns agree with the general formula. */
  lemma GetStartYearFormula(start: int, year: int)
    ensures GetStartYear(start, year) == start + ((year - start) / SHOW_YEARS) * SHOW_YEARS
  {
    if start <= year < start + SHOW_YEARS {
      assert (year - start) / SHOW_YEARS == 0;
    }
  }

  /**
   * The window start is the only year that lies at most `SHOW_YEARS - 1`
   * below `year` on the tiling from `start`.
   */
  lemma GetStartYearUnique(start: int, year: int, w: int)
    requires w <= year < w + SHOW_YEARS
    requires (w - start) % SHOW_YEARS == 0
    ensures GetStartYear(start, year) == w
  {
    var r := GetStartYear(start, year);
    var q := (w - start) / SHOW_YEARS;
    var p := (r - start) / SHOW_YEARS;
    assert w == start + q * SHOW_YEARS;
    assert r == start + p * SHOW_YEARS;
    assert -SHOW_YEARS < (p - q) * SHOW_YEARS < SHOW_YEARS;
  }

  /** Snapping a window start gives it back. */
  lemma GetStartYearIdempotent(start: int, year: int)
    ensures GetStartYear(start, GetStartYear(start, year)) == GetStartYear(start, year)
  {
    var r := GetStartYear(start, year);
    GetStartYearUnique(start, r, r);
  }

  /** Moving a year by one window moves its window by exactly one window. */
  lemma GetStartYearShift(start: int, year: int)
    ensures GetStartYear(start, year + SHOW_YEARS) == GetStartYear(start, year) + SHOW_YEARS
    ensures GetStartYear(start, year - SHOW_YEARS) == GetStartYear(start, year) - SHOW_YEARS
  {
    var r := GetStartYear(start, year);
    assert (r + SHOW_YEARS - start) % SHOW_YEARS == 0;
    GetStartYearUnique(start, year + SHOW_YEARS, r + SHOW_YEARS);
    assert (r - SHOW_YEARS - start) % SHOW_YEARS == 0;
    GetStartYearUnique(start, year - SHOW_YEARS, r - SHOW_YEARS);
  }

  /** The home window starts at `HomeStart` and holds the current year. */
  lemma HomeWindow(currentYear: int)
    ensures GetStartYear(HomeStart(currentYear), currentYear) == HomeStart(currentYear)
    ensures GetStartYear(HomeStart(currentYear), HomeStart(currentYear) + SHOW_YEARS - 1) == HomeStart(currentYear)
  {
  }

  /** The window boundaries: `[H, H+24]` is home, `H+25` opens the next window, `H-1` closes the previous. */
  lemma WindowBoundaries(h: int)
    ensures GetStartYear(h, h) == h
    ensures GetStartYear(h, h + 24) == h
    ensures GetStartYear(h, h + 25) == h + 25
    ensures GetStartYear(h, h - 1) == h - 25
  {
    GetStartYearUnique(h, h + 25, h + 25);
    GetStartYearUnique(h, h - 1, h - 25);
  }

  /**
   * The Gregorian leap-year rule. JavaScript's `%` truncates where Dafny's is
   * Euclidean, but the two agree on whether the remainder is zero, so the
   * rule reads the same for years before year 0.
   */
  predicate IsLeapYear(year: int) {
    (year % 4 == 0 && year % 100 != 0) || year % 400 == 0
  }

  const DAYS_IN_MONTH: seq<int> := [31, 28, 31, 30, 31, 30, 31, 31, 30, 31, 30, 31]

  /** Length of a month: the fixed table, with February taking 29 days in a leap year. */
  function DaysInMonth(year: int, month: int): (days: int)
    requires ValidMonth(month)
    ensures 28 <= days <= 31
    ensures month == 1 ==> (days == 29 <==> IsLeapYear(year)) && (days == 28 <==> !IsLeapYear(year))
    ensures month != 1 ==> days == (if month in {3, 5, 8, 10} then 30 else 31)
  {
    if month == 1 && ((year % 4 == 0 && year % 100 != 0) || year % 400 == 0) then 29
    else DAYS_IN_MONTH[month]
  }

  function DaysInYear(year: int): int {
    if IsLeapYear(year) then 366 else 365
  }

  function SumDays(year: int, months: nat): int
    requires months <= 12
  {
    if months == 0 then 0 else SumDays(year, months - 1) + DaysInMonth(year, months - 1)
  }

  /** The twelve month lengths add up to the length of the year. */
  lemma MonthsFillYear(year: int)
    ensures SumDays(year, 12) == DaysInYear(year)
  {
    assert SumDays(year, 1) == 31;
    assert SumDays(year, 2) == 31 + DaysInMonth(year, 1);
    assert SumDays(year, 3) == SumDays(year, 2) + 31;
    assert SumDays(year, 4) == SumDays(year, 2) + 61;
    assert SumDays(year, 5) == SumDays(year, 2) + 92;
    assert SumDays(year, 6) == SumDays(year, 2) + 122;
    assert SumDays(year, 7) == SumDays(year, 2) + 153;
    assert SumDays(year, 8) == SumDays(year, 2) + 184;
    assert SumDays(year, 9) == SumDays(year, 2) + 214;
    assert SumDays(year, 10) == SumDays(year, 2) + 245;
    assert SumDays(year, 11) == SumDays(year, 2) + 275;
  }

  /** One month back, wrapping January to December of the previous year. */
  function PrevMonth(ym: YearMonth): (r: YearMonth)
    ensures ValidMonth(ym.month) ==> ValidMonth(r.month) && MonthIndex(r) == MonthIndex(ym) - 1
  {
    if ym.month == 0 then YearMonth(ym.year - 1, 11)
    else YearMonth(ym.year, ym.month - 1)
  }

  /** One month forward, wrapping December to January of the next year. */
  function NextMonth(ym: YearMonth): (r: YearMonth)
    ensures ValidMonth(ym.month) ==> ValidMonth(r.month) && MonthIndex(r) == MonthIndex(ym) + 1
  {
    if ym.month == 11 then YearMonth(ym.year + 1, 0)
    else YearMonth(ym.year, ym.month + 1)
  }

  /** On valid months the month index determines the cursor. */
  lemma MonthIndexInjective(a: YearMonth, b: YearMonth)
    requires ValidMonth(a.month) && ValidMonth(b.month)
    requires MonthIndex(a) == MonthIndex(b)
    ensures a == b
  {
  }

  /** Paging a month forward and back (or back and forward) returns to the start. */
  lemma MonthPagingRoundTrip(ym: YearMonth)
    requires ValidMonth(ym.month)
    ensures PrevMonth(NextMonth(ym)) == ym
    ensures NextMonth(PrevMonth(ym)) == ym
  {
    MonthIndexInjective(PrevMonth(NextMonth(ym)), ym);
    MonthIndexInjective(NextMonth(PrevMonth(ym)), ym);
  }

  /** The year rolls over exactly at the December/January boundary. */
  lemma MonthPagingRollover(ym: YearMonth)
    requires ValidMonth(ym.month)
    ensures NextMonth(ym).year == if ym.month == 11 then ym.year + 1 else ym.year
    ensures PrevMonth(ym).year == if ym.month == 0 then ym.year - 1 else ym.year
  {
  }

  function PrevYear(ym: YearMonth): (r: YearMonth)
    ensures r.month == ym.month && MonthIndex(r) == MonthIndex(ym) - 12
  {
    YearMonth(ym.year - 1, ym.month)
  }

  function NextYear(ym: YearMonth): (r: YearMonth)
    ensures r.month == ym.month && MonthIndex(r) == MonthIndex(ym) + 12
  {
    YearMonth(ym.year + 1, ym.month)
  }

  function PrevYears(ym: YearMonth): (r: YearMonth)
    ensures r.month == ym.month && MonthIndex(r) == MonthIndex(ym) - 12 * SHOW_YEARS
  {
    YearMonth(ym.year - SHOW_YEARS, ym.month)
  }

  function NextYears(ym: YearMonth): (r: YearMonth)
    ensures r.month == ym.month && MonthIndex(r) == MonthIndex(ym) + 12 * SHOW_YEARS
  {
    YearMonth(ym.year + SHOW_YEARS, ym.month)
  }

  /** Year paging and window paging are undone by their opposite. */
  lemma YearPagingRoundTrip(ym: YearMonth)
    ensures PrevYear(NextYear(ym)) == ym && NextYear(PrevYear(ym)) == ym
    ensures PrevYears(NextYears(ym)) == ym && NextYears(PrevYears(ym)) == ym
  {
  }

  /** Window paging moves the year window shown by exactly one window. */
  lemma WindowPaging(start: int, ym: YearMonth)
    ensures GetStartYear(start, NextYears(ym).year) == GetStartYear(start, ym.year) + SHOW_YEARS
    ensures GetStartYear(start, PrevYears(ym).year) == GetStartYear(start, ym.year) - SHOW_YEARS
  {
    GetStartYearShift(start, ym.year);
  }
}
