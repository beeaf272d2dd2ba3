/**
 * What the widget shows: its three modes, its state (the value, the page
 * shown and the selection), the grids `showDays`, `showMonths` and
 * `showYears` fill, and the paging `back` and `forward` do in each mode.
 *
 * A grid is a title and a list of cells; a cell is either empty or a link
 * with a label, the `select` target of its `href` and whether it carries
 * the `calendar-current` class. The HTML markup around them is not
 * modelled.
 */
module View {
  import opened Wrappers
  import opened Text
  import opened Dates
  import opened HostDate
  import opened Dispatch
  import opened Locale

  // ---------------------------------------------------------------------
  // Modes
  // ---------------------------------------------------------------------

  datatype Mode = Days | Months | Years

  /** The mode's name in `MODES`. */
  function ModeName(m: Mode): string {
    match m
    case Days => "days"
    case Months => "months"
    case Years => "years"
  }

  /** `getNextMode`: days, then months, then years, then days again. */
  function NextMode(m: Mode): (r: Mode)
    ensures r != m
  {
    match m
    case Days => Months
    case Months => Years
    case Years => Days
  }

  /** Cycling three times returns to the start, and visits every mode on the way. */
  lemma NextModeCycle(m: Mode)
    ensures NextMode(NextMode(NextMode(m))) == m
    ensures {m, NextMode(m), NextMode(NextMode(m))} == {Days, Months, Years}
  {
  }

  /** The render method `toCamelCase('show-' + mode)` names: `showDays`, `showMonths`, `showYears`. */
  lemma ShowMethodName(m: Mode)
    ensures ToCamelCase("show-" + ModeName(m)) == "show" + Capitalize(ModeName(m))
  {
    var name := ModeName(m);
    assert NoSeparator("show");
    assert IsCamelWord(name);
    CamelPair("show", name);
    assert "show" + "-" + name == "show-" + name;
  }

  // ---------------------------------------------------------------------
  // State
  // ---------------------------------------------------------------------

  /** The `{year, month, day}` record of the page shown; paging leaves out the day. */
  datatype Cursor = Cursor(year: int, month: int, day: Option<int>)

  /** `this.state`: the value, the page shown and the selected date. */
  datatype State = State(date: Date, display: Cursor, selected: Date)

  /** The state `value(date)` sets: the page and the selection both at the date. */
  function StateOf(d: Date): (s: State)
    ensures s.date == d && s.selected == d
    ensures s.display.year == d.year && s.display.month == d.month && s.display.day == Some(d.day)
  {
    State(d, Cursor(d.year, d.month, Some(d.day)), d)
  }

  /**
   * `isDayActive`: the day is the selected day and the page shown is the
   * selected month. A day is marked exactly when its page's month would be
   * marked in the months grid and it is the selected day.
   */
  predicate IsDayActive(s: State, day: int)
    ensures IsDayActive(s, day) <==> IsMonthActive(s, s.display.month) && day == s.selected.day
  {
    day == s.selected.day && s.display.month == s.selected.month && s.display.year == s.selected.year
  }

  /**
   * `isMonthActive`: the month is the selected month and the page shown is
   * the selected year. A month is marked exactly when its page's year would
   * be marked in the years grid and it is the selected month.
   */
  predicate IsMonthActive(s: State, month: int)
    ensures IsMonthActive(s, month) <==> IsYearActive(s, s.display.year) && month == s.selected.month
  {
    month == s.selected.month && s.display.year == s.selected.year
  }

  /** `isYearActive`: the year is the selected year, whatever page is shown. */
  predicate IsYearActive(s: State, year: int) {
    year == s.selected.year
  }

  /**
   * Right after `value(d)`, the marks are the date's own: in the grids of
   * the date's pages exactly its day, its month and its year are marked.
   */
  lemma ValueMarks(d: Date, day: int, month: int, year: int)
    ensures IsDayActive(StateOf(d), day) <==> day == d.day
    ensures IsMonthActive(StateOf(d), month) <==> month == d.month
    ensures IsYearActive(StateOf(d), year) <==> year == d.year
  {
  }

  // ---------------------------------------------------------------------
  // Grids
  // ---------------------------------------------------------------------

  /** The text `setTitle` writes: a wide month name and a year, a year, or a year range. */
  datatype Title =
    | MonthTitle(name: string, year: int)
    | YearTitle(year: int)
    | RangeTitle(first: int, last: int)

  /** An empty `<li>`, or an `<li>` holding a `select` link. */
  datatype Cell =
    | Blank
    | Pick(text: string, target: Target, active: bool)

  datatype Screen = Screen(title: Title, cells: seq<Cell>)

  predicate Active(c: Cell) {
    c.Pick? && c.active
  }

  predicate HasActive(cells: seq<Cell>) {
    exists k :: 0 <= k < |cells| && Active(cells[k])
  }

  predicate AtMostOneActive(cells: seq<Cell>) {
    forall i, j :: 0 <= i < |cells| && 0 <= j < |cells| && Active(cells[i]) && Active(cells[j]) ==> i == j
  }

  /**
   * The empty cells before day 1: the week day of the first of the month,
   * counted from the first day of the week (Monday when `weekStarts` is 1,
   * Sunday otherwise).
   */
  function StartingDay(weekStarts: int, firstDay: int): (sd: int)
    requires 0 <= firstDay < 7
    ensures 0 <= sd < 7
    ensures (sd + (if weekStarts == 1 then 1 else 0)) % 7 == firstDay
    ensures weekStarts == 1 ==> sd == (firstDay + 6) % 7
  {
    if weekStarts == 1 then (if firstDay == 0 then 6 else firstDay - 1) else firstDay
  }

  /** The empty cells the days grid of the page shown starts with. */
  function DaysStart(weekStarts: int, s: State): (sd: int)
    ensures 0 <= sd < 7
  {
    StartingDay(weekStarts, FirstWeekDay(s.display.year, s.display.month))
  }

  /** Cell `k` of the days grid: empty before the first, then day `k - sd + 1`. */
  function DayGridCell(s: State, sd: int, k: int): Cell {
    if k < sd then Blank
    else
      var day := k - sd + 1;
      Pick(FormatDecimal(day), DayOf(s.display.year, s.display.month, day), IsDayActive(s, day))
  }

  /** The first `count` cells of the days grid. */
  function DayGrid(s: State, sd: int, count: nat): (cells: seq<Cell>)
    ensures |cells| == count
    ensures forall k :: 0 <= k < count ==> cells[k] == DayGridCell(s, sd, k)
  {
    seq(count, k requires 0 <= k < count => DayGridCell(s, sd, k))
  }

  lemma DayGridSnoc(s: State, sd: int, count: nat)
    ensures DayGrid(s, sd, count + 1) == DayGrid(s, sd, count) + [DayGridCell(s, sd, count)]
  {
  }

  /**
   * `showDays`: the wide month name and the year as the title; the starting
   * blanks, then one link per day of the month in order, and nothing after.
   */
  function DaysScreen(locale: Locale, weekStarts: int, s: State): (sc: Screen)
    requires ValidMonth(s.display.month)
    ensures var sd, n := DaysStart(weekStarts, s), DaysInMonth(s.display.year, s.display.month);
      && sc.title == MonthTitle(Name(locale.monthsWide, s.display.month), s.display.year)
      && |sc.cells| == sd + n
      && (forall k :: 0 <= k < |sc.cells| ==> (sc.cells[k].Blank? <==> k < sd))
      && (forall d :: 1 <= d <= n ==>
            sc.cells[sd + d - 1] == Pick(FormatDecimal(d), DayOf(s.display.year, s.display.month, d), IsDayActive(s, d)))
  {
    var sd := DaysStart(weekStarts, s);
    Screen(
      MonthTitle(Name(locale.monthsWide, s.display.month), s.display.year),
      DayGrid(s, sd, sd + DaysInMonth(s.display.year, s.display.month)))
  }

  function MonthCell(locale: Locale, s: State, month: int): Cell {
    Pick(Name(locale.monthsAbbreviated, month), MonthOf(s.display.year, month), IsMonthActive(s, month))
  }

  /** `showMonths`: the year title and the twelve months of the year shown. */
  function MonthsScreen(locale: Locale, s: State): (sc: Screen)
    ensures sc.title == YearTitle(s.display.year) && |sc.cells| == 12
    ensures forall k :: 0 <= k < 12 ==>
      sc.cells[k] == Pick(Name(locale.monthsAbbreviated, k), MonthOf(s.display.year, k), IsMonthActive(s, k))
  {
    Screen(YearTitle(s.display.year), seq(12, k requires 0 <= k < 12 => MonthCell(locale, s, k)))
  }

  function YearCell(s: State, year: int): Cell {
    Pick(FormatDecimal(year), YearOf(year), IsYearActive(s, year))
  }

  /** The cells of the `count` years from `first` on. */
  function YearRow(s: State, first: int, count: nat): (cells: seq<Cell>)
    ensures |cells| == count
    ensures forall k :: 0 <= k < count ==> cells[k] == YearCell(s, first + k)
  {
    seq(count, k requires 0 <= k < count => YearCell(s, first + k))
  }

  lemma YearRowSnoc(s: State, first: int, count: nat)
    ensures YearRow(s, first, count + 1) == YearRow(s, first, count) + [YearCell(s, first + count)]
  {
  }

  /** `showYears`: the range title and the `SHOW_YEARS` years of the window holding the year shown. */
  function YearsScreen(start: int, s: State): (sc: Screen)
    ensures sc.title.RangeTitle? && sc.title.last == sc.title.first + SHOW_YEARS - 1
    ensures sc.title.first <= s.display.year <= sc.title.last && (sc.title.first - start) % SHOW_YEARS == 0
    ensures |sc.cells| == SHOW_YEARS
    ensures forall k :: 0 <= k < SHOW_YEARS ==>
      sc.cells[k] == Pick(FormatDecimal(sc.title.first + k), YearOf(sc.title.first + k), IsYearActive(s, sc.title.first + k))
  {
    var first := GetStartYear(start, s.display.year);
    Screen(RangeTitle(first, first + SHOW_YEARS - 1), YearRow(s, first, SHOW_YEARS))
  }

  /** What `show-<mode>` renders. */
  function Render(locale: Locale, weekStarts: int, start: int, mode: Mode, s: State): (sc: Screen)
    requires ValidMonth(s.display.month)
    ensures sc.title.MonthTitle? <==> mode == Days
    ensures sc.title.YearTitle? <==> mode == Months
    ensures sc.title.RangeTitle? <==> mode == Years
    ensures |sc.cells| == match mode
      case Days => DaysStart(weekStarts, s) + DaysInMonth(s.display.year, s.display.month)
      case Months => 12
      case Years => SHOW_YEARS
  {
    match mode
    case Days => DaysScreen(locale, weekStarts, s)
    case Months => MonthsScreen(locale, s)
    case Years => YearsScreen(start, s)
  }

  /**
   * `showDays`: nine rows of seven cells at most; the first row is empty up
   * to the starting day, and filling stops after the last day of the month.
   */
  method ShowDays(locale: Locale, weekStarts: int, s: State) returns (screen: Screen)
    requires ValidMonth(s.display.month)
    ensures screen == DaysScreen(locale, weekStarts, s)
  {
    var year, month := s.display.year, s.display.month;
    var firstDay := FirstWeekDay(year, month);
    var startingDay := StartingDay(weekStarts, firstDay);
    var days := DaysInMonth(year, month);
    var day := 1;
    var cells: seq<Cell> := [];
    var i := 0;
    while i < 9
      invariant 0 <= i <= 9
      invariant |cells| == 7 * i
      invariant cells == DayGrid(s, startingDay, |cells|)
      invariant day == 1 + (if |cells| <= startingDay then 0 else |cells| - startingDay)
      invariant day <= days
    {
      var j := 0;
      while j <= 6
        invariant 0 <= j <= 7
        invariant |cells| == 7 * i + j
        invariant cells == DayGrid(s, startingDay, |cells|)
        invariant day == 1 + (if |cells| <= startingDay then 0 else |cells| - startingDay)
        invariant day <= days + 1
      {
        if day <= days && ((j >= startingDay && i == 0) || i > 0) {
          DayGridSnoc(s, startingDay, |cells|);
          cells := cells + [Pick(FormatDecimal(day), DayOf(year, month, day), IsDayActive(s, day))];
          day := day + 1;
        } else if day > days {
          break;
        } else {
          DayGridSnoc(s, startingDay, |cells|);
          cells := cells + [Blank];
        }
        j := j + 1;
      }
      if day > days {
        break;
      }
      i := i + 1;
    }
    screen := Screen(MonthTitle(Name(locale.monthsWide, month), year), cells);
  }

  /** `showMonths`: one cell per month, January to December. */
  method ShowMonths(locale: Locale, s: State) returns (screen: Screen)
    ensures screen == MonthsScreen(locale, s)
  {
    var year := s.display.year;
    var cells: seq<Cell> := [];
    for month := 0 to 12
      invariant cells == seq(month, k requires 0 <= k < month => MonthCell(locale, s, k))
    {
      cells := cells + [Pick(Name(locale.monthsAbbreviated, month), MonthOf(year, month), IsMonthActive(s, month))];
    }
    screen := Screen(YearTitle(year), cells);
  }

  /** `showYears`: one cell per year of the window, in order. */
  method ShowYears(start: int, s: State) returns (screen: Screen)
    ensures screen == YearsScreen(start, s)
  {
    var year := GetStartYear(start, s.display.year);
    var lastYear := year + SHOW_YEARS;
    var title := RangeTitle(year, lastYear - 1);
    ghost var first := year;
    var cells: seq<Cell> := [];
    while year < lastYear
      invariant first <= year <= lastYear
      invariant cells == YearRow(s, first, year - first)
    {
      YearRowSnoc(s, first, year - first);
      cells := cells + [Pick(FormatDecimal(year), YearOf(year), IsYearActive(s, year))];
      year := year + 1;
    }
    screen := Screen(title, cells);
  }

  // ---------------------------------------------------------------------
  // What the grids show
  // ---------------------------------------------------------------------

  /**
   * Every day sits in the column of its week day: column 0 is Sunday, or
   * Monday when `weekStarts` is 1. The constructor reads the years 0..99 as
   * 1900..1999 when it finds the first week day, so those years are left out.
   */
  lemma DaysColumns(weekStarts: int, s: State, d: int)
    requires ValidMonth(s.display.month) && !(0 <= s.display.year <= 99)
    requires 1 <= d <= DaysInMonth(s.display.year, s.display.month)
    ensures var k := DaysStart(weekStarts, s) + d - 1;
      (k % 7 + (if weekStarts == 1 then 1 else 0)) % 7 == WeekDay(s.display.year, s.display.month, d)
  {
    FullYearColumns(weekStarts, s, d);
  }

  /**
   * The blanks before day 1 counted from the week day of the first of the
   * month in the year shown itself, as `setFullYear(year, month, 1)` would
   * give it; outside the years 0..99 this is what the widget computes.
   */
  function FullYearStart(weekStarts: int, s: State): (sd: int)
    requires ValidMonth(s.display.month)
    ensures 0 <= sd < 7
    ensures (sd + (if weekStarts == 1 then 1 else 0)) % 7 == WeekDay(s.display.year, s.display.month, 1)
    ensures !(0 <= s.display.year <= 99) ==> sd == DaysStart(weekStarts, s)
  {
    var sd := StartingDay(weekStarts, WeekDay(s.display.year, s.display.month, 1));
    if 0 <= s.display.year <= 99 then sd
    else
      FirstWeekDayOfValidMonth(s.display.year, s.display.month);
      sd
  }

  /** Counted from `FullYearStart`, every day of every year sits in the column of its week day. */
  lemma FullYearColumns(weekStarts: int, s: State, d: int)
    requires ValidMonth(s.display.month)
    requires 1 <= d <= DaysInMonth(s.display.year, s.display.month)
    ensures var k := FullYearStart(weekStarts, s) + d - 1;
      (k % 7 + (if weekStarts == 1 then 1 else 0)) % 7 == WeekDay(s.display.year, s.display.month, d)
  {
    var y, m := s.display.year, s.display.month;
    var n := DayNumber(y, m, 1);
    assert WeekDay(y, m, 1) == (n + 4) % 7;
    ColumnArithmetic(FullYearStart(weekStarts, s), if weekStarts == 1 then 1 else 0, n, d);
    DayNumberInMonth(y, m, d);
    assert WeekDay(y, m, d) == (n + d - 1 + 4) % 7;
  }

  /** Counting `d - 1` days on from column `sd` matches counting them on from day number `n`. */
  lemma ColumnArithmetic(sd: int, w1: int, n: int, d: int)
    requires (sd + w1) % 7 == (n + 4) % 7
    ensures ((sd + d - 1) % 7 + w1) % 7 == (n + d - 1 + 4) % 7
  {
    ModWeek(sd + d - 1, w1);
    ModWeek(sd + w1, d - 1);
    ModWeek(n + 4, d - 1);
  }

  /**
   * As the widget computes it, February of year 0 is laid out on the week
   * days of February 1900: it starts on a Thursday though 1 February 0 was a
   * Tuesday, and it has 29 days where February 1900 has 28.
   */
  lemma TwoDigitYearColumns(s: State)
    requires s.display.year == 0 && s.display.month == 1
    ensures DaysStart(0, s) == 4 && FullYearStart(0, s) == 2
    ensures DaysInMonth(0, 1) == 29 && DaysInMonth(1900, 1) == 28
  {
    TwoDigitYearLink(0, 1, 1);
    assert DaysBeforeYear(1900) == -25567;
    assert DaysBeforeYear(0) == -719528;
  }

  /** January 2023 starts on a Sunday: six empty cells before the first in a week from Monday, none in a week from Sunday. */
  lemma January2023(s: State)
    requires s.display.year == 2023 && s.display.month == 0
    ensures DaysStart(1, s) == 6 && DaysStart(0, s) == 0
  {
    FirstDayOf2023();
  }

  /** 1 January 2023 was a Sunday. */
  lemma FirstDayOf2023()
    ensures FirstWeekDay(2023, 0) == 0
  {
    FirstWeekDayOfValidMonth(2023, 0);
    KnownWeekDays();
  }

  /** The days grid marks exactly the selected day, and only on the page of the selected month. */
  lemma DaysActive(locale: Locale, weekStarts: int, s: State)
    requires ValidMonth(s.display.month) && ValidDate(s.selected)
    ensures var cells := DaysScreen(locale, weekStarts, s).cells;
      && AtMostOneActive(cells)
      && (HasActive(cells) <==> s.display.year == s.selected.year && s.display.month == s.selected.month)
      && (HasActive(cells) ==> Active(cells[DaysStart(weekStarts, s) + s.selected.day - 1]))
  {
    var sd, n := DaysStart(weekStarts, s), DaysInMonth(s.display.year, s.display.month);
    assert DaysScreen(locale, weekStarts, s).cells == DayGrid(s, sd, sd + n);
    DayGridActive(s, sd, n);
  }

  lemma DayGridActive(s: State, sd: nat, n: nat)
    requires s.display.year == s.selected.year && s.display.month == s.selected.month ==> 1 <= s.selected.day <= n
    ensures var cells := DayGrid(s, sd, sd + n);
      && AtMostOneActive(cells)
      && (HasActive(cells) <==> s.display.year == s.selected.year && s.display.month == s.selected.month)
      && (HasActive(cells) ==> Active(cells[sd + s.selected.day - 1]))
  {
    var cells := DayGrid(s, sd, sd + n);
    forall i, j | 0 <= i < |cells| && 0 <= j < |cells| && Active(cells[i]) && Active(cells[j])
      ensures i == j
    {
      assert cells[i] == DayGridCell(s, sd, i) && cells[j] == DayGridCell(s, sd, j);
    }
    if HasActive(cells) {
      var k :| 0 <= k < |cells| && Active(cells[k]);
      assert cells[k] == DayGridCell(s, sd, k);
    }
    if s.display.year == s.selected.year && s.display.month == s.selected.month {
      var k := sd + s.selected.day - 1;
      assert cells[k] == DayGridCell(s, sd, k);
      assert Active(cells[k]);
    }
  }

  /**
   * A month or year link keeps the selected day, and `new Date` carries a
   * day the new month lacks into the month after it: with 31 January
   * selected, the link to February selects the third (or, in a leap year,
   * the second) of March.
   */
  lemma DayCarry(year: int, month: int, day: int)
    requires 0 <= month < 11 && !(0 <= year <= 99)
    requires DaysInMonth(year, month) < day <= DaysInMonth(year, month) + DaysInMonth(year, month + 1)
    ensures NewDate(year, month, day) == Date(year, month + 1, day - DaysInMonth(year, month))
  {
    var n := DaysInMonth(year, month);
    var e := Date(year, month + 1, day - n);
    NextMonthDayNumber(year, month);
    assert NextMonth(YearMonth(year, month)) == YearMonth(year, month + 1);
    DayNumberInMonth(year, month + 1, day - n);
    assert DayNumber(e.year, e.month, e.day) == DayNumber(year, month, 1) + day - 1;
    assert month / 12 == 0 && month % 12 == month;
    MakeDateUnique(year, month, day, e);
    assert NewDate(year, month, day) == MakeDate(year, month, day);
  }

  /**
   * A year link below 100 selects a year of the 1900s: `select(year)` keeps
   * the selected month and day, and `new Date` reads the year as 1900 + year.
   * The day is kept too, except 29 February of a leap year below 100 whose
   * year in the 1900s is not leap: it becomes 1 March.
   */
  lemma TwoDigitYearLink(year: int, month: int, day: int)
    requires 0 <= year <= 99 && ValidDate(Date(year, month, day))
    ensures NewDate(year, month, day).year == 1900 + year
    ensures day <= DaysInMonth(1900 + year, month) ==> NewDate(year, month, day) == Date(1900 + year, month, day)
    ensures day > DaysInMonth(1900 + year, month) ==> month == 1 && day == 29 && NewDate(year, month, day) == Date(1900 + year, 2, 1)
  {
    var y := 1900 + year;
    assert NewDate(year, month, day) == MakeDate(y, month, day);
    if day <= DaysInMonth(y, month) {
      MakeDateValid(Date(y, month, day));
    } else {
      assert month == 1 && day == 29;
      DayCarry(y, 1, 29);
      assert NewDate(y, 1, 29) == MakeDate(y, 1, 29);
    }
  }

  /**
   * The link of day `d` on a page outside the years 0..99: it shows the day's
   * number, its `href` dispatches to `select(year, month, d)` of the page
   * shown, and `new Date` of those numbers is that very date.
   */
  lemma DayLinks(locale: Locale, weekStarts: int, s: State, d: int)
    requires ValidMonth(s.display.month) && !(0 <= s.display.year <= 99)
    requires 1 <= d <= DaysInMonth(s.display.year, s.display.month)
    ensures var c := DaysScreen(locale, weekStarts, s).cells[DaysStart(weekStarts, s) + d - 1];
      && c.Pick? && c.text == FormatDecimal(d) && ParseDecimal(c.text) == Some(d)
      && ParseHash(Href(c.target)) == Some(Select(Some(s.display.year), Some(s.display.month), Some(d)))
      && NewDate(s.display.year, s.display.month, d) == Date(s.display.year, s.display.month, d)
  {
    var y, m := s.display.year, s.display.month;
    var sd := DaysStart(weekStarts, s);
    assert DaysScreen(locale, weekStarts, s).cells[sd + d - 1] == Pick(FormatDecimal(d), DayOf(y, m, d), IsDayActive(s, d));
    DayHref(y, m, d);
    assert ValidDate(Date(y, m, d));
  }

  lemma DayHref(y: int, m: int, d: int)
    ensures ParseHash(Href(DayOf(y, m, d))) == Some(Select(Some(y), Some(m), Some(d)))
    ensures ParseDecimal(FormatDecimal(d)) == Some(d)
  {
    DispatchRoundTrip(DayOf(y, m, d));
    ParseFormatDecimal(d, "");
    assert FormatDecimal(d) + "" == FormatDecimal(d);
  }

  /** The months grid lists the twelve months of the year shown and marks the selected one on its year. */
  lemma MonthsActive(locale: Locale, s: State)
    requires ValidMonth(s.selected.month)
    ensures var cells := MonthsScreen(locale, s).cells;
      && |cells| == 12
      && (forall k :: 0 <= k < 12 ==> cells[k].Pick? && cells[k].target == MonthOf(s.display.year, k))
      && AtMostOneActive(cells)
      && (HasActive(cells) <==> s.display.year == s.selected.year)
      && (HasActive(cells) ==> Active(cells[s.selected.month]))
  {
    var cells := MonthsScreen(locale, s).cells;
    if s.display.year == s.selected.year {
      assert Active(cells[s.selected.month]);
    }
  }

  /**
   * The years grid is the window of `SHOW_YEARS` consecutive years on the
   * tiling from `start` that holds the year shown; the selected year is
   * marked when it falls in the window.
   */
  lemma YearsWindow(start: int, s: State)
    ensures var sc := YearsScreen(start, s);
      && sc.title.RangeTitle?
      && sc.title.last == sc.title.first + SHOW_YEARS - 1
      && sc.title.first <= s.display.year <= sc.title.last
      && (sc.title.first - start) % SHOW_YEARS == 0
      && |sc.cells| == SHOW_YEARS
      && (forall k :: 0 <= k < SHOW_YEARS ==> sc.cells[k].Pick? && sc.cells[k].target == YearOf(sc.title.first + k))
      && AtMostOneActive(sc.cells)
      && (HasActive(sc.cells) <==> sc.title.first <= s.selected.year <= sc.title.last)
  {
    var sc := YearsScreen(start, s);
    var first := sc.title.first;
    if first <= s.selected.year <= sc.title.last {
      assert Active(sc.cells[s.selected.year - first]);
    }
  }

  // ---------------------------------------------------------------------
  // Paging
  // ---------------------------------------------------------------------

  /** How far `back` and `forward` move the page, in months. */
  function PageStep(mode: Mode): int {
    match mode
    case Days => 1
    case Months => 12
    case Years => 12 * SHOW_YEARS
  }

  /** `back`: the previous month, year or window of years; the new page has no day. */
  function PageBack(mode: Mode, c: Cursor): (r: Cursor)
    ensures r.day.None?
    ensures ValidMonth(c.month) ==>
      ValidMonth(r.month) && MonthIndex(YearMonth(r.year, r.month)) == MonthIndex(YearMonth(c.year, c.month)) - PageStep(mode)
  {
    var ym := YearMonth(c.year, c.month);
    var p := match mode
      case Days => PrevMonth(ym)
      case Months => PrevYear(ym)
      case Years => PrevYears(ym);
    Cursor(p.year, p.month, None)
  }

  /** `forward`: the next month, year or window of years; the new page has no day. */
  function PageForward(mode: Mode, c: Cursor): (r: Cursor)
    ensures r.day.None?
    ensures ValidMonth(c.month) ==>
      ValidMonth(r.month) && MonthIndex(YearMonth(r.year, r.month)) == MonthIndex(YearMonth(c.year, c.month)) + PageStep(mode)
  {
    var ym := YearMonth(c.year, c.month);
    var n := match mode
      case Days => NextMonth(ym)
      case Months => NextYear(ym)
      case Years => NextYears(ym);
    Cursor(n.year, n.month, None)
  }

  /** `back` undoes `forward` and `forward` undoes `back`, up to the dropped day. */
  lemma PagingRoundTrip(mode: Mode, c: Cursor)
    requires ValidMonth(c.month)
    ensures PageBack(mode, PageForward(mode, c)) == Cursor(c.year, c.month, None)
    ensures PageForward(mode, PageBack(mode, c)) == Cursor(c.year, c.month, None)
  {
    var f := PageForward(mode, c);
    var b := PageBack(mode, c);
    MonthIndexInjective(YearMonth(PageBack(mode, f).year, PageBack(mode, f).month), YearMonth(c.year, c.month));
    MonthIndexInjective(YearMonth(PageForward(mode, b).year, PageForward(mode, b).month), YearMonth(c.year, c.month));
  }

  /** Paging in years mode moves the years grid by exactly one window. */
  lemma YearsPaging(start: int, s: State)
    ensures YearsScreen(start, s.(display := PageForward(Years, s.display))).title.first
      == YearsScreen(start, s).title.first + SHOW_YEARS
    ensures YearsScreen(start, s.(display := PageBack(Years, s.display))).title.first
      == YearsScreen(start, s).title.first - SHOW_YEARS
  {
    WindowPaging(start, YearMonth(s.display.year, s.display.month));
  }
}
