/**
 * The `Calendar` widget itself: its mode, its state, the grid its display
 * element holds, and the operations that change them — paging, switching
 * mode, selecting, setting the value, and the click handler that turns a
 * link's hash into one of those calls.
 *
 * The DOM is reduced to the grid the display holds (`screen`); `onChange`
 * is reduced to whether it was given (`hasOnChange`) and the list of dates
 * it has been called with (`changes`).
 */
module Widget {
  import opened Wrappers
  import opened Dates
  import opened HostDate
  import opened Dispatch
  import opened Locale
  import opened View

  /**
   * The options the constructor reads: `locale`, `weekStarts`, `value`,
   * `mode`, and whether an `onChange` callback was passed.
   */
  datatype Options = Options(
    locale: Option<Locale>,
    weekStarts: Option<int>,
    value: Option<Date>,
    mode: Option<Mode>,
    hasOnChange: bool)

  class Calendar {
    /** `START_YEAR` of `dates.js`, fixed when the module is loaded. */
    const start: int
    const locale: Locale
    const weekStarts: int
    const hasOnChange: bool

    var mode: Mode
    var state: State
    /** The grid the display element holds. */
    var screen: Screen
    /** The dates `onChange` has been called with, oldest first. */
    ghost var changes: seq<Date>

    /** The value is a date, the selection is the value, and the page shown has a month in range. */
    predicate StateValid()
      reads this
    {
      ValidDate(state.date) && state.selected == state.date && ValidMonth(state.display.month)
    }

    /** A consistent state, with the display showing the grid of the current mode. */
    predicate Valid()
      reads this
    {
      StateValid() && screen == Render(locale, weekStarts, start, mode, state)
    }

    /**
     * `new Calendar(opts)`: the locale defaults to `en_US` and the first day
     * of the week to the locale's; the value (today when none is given) is
     * set silently, then the requested mode (days when none) is shown.
     * `now` is the wall clock's date and `start` the loaded `START_YEAR`.
     */
    constructor(start: int, now: Date, opts: Options)
      requires ValidDate(now)
      requires opts.value.Some? ==> ValidDate(opts.value.value)
      ensures Valid()
      ensures this.start == start && hasOnChange == opts.hasOnChange
      ensures locale == opts.locale.GetOr(EN_US)
      ensures weekStarts == opts.weekStarts.GetOr(locale.weekStarts)
      ensures state == StateOf(opts.value.GetOr(now))
      ensures mode == opts.mode.GetOr(Days)
      ensures changes == []
    {
      this.start := start;
      var l := opts.locale.GetOr(EN_US);
      locale := l;
      weekStarts := opts.weekStarts.GetOr(l.weekStarts);
      hasOnChange := opts.hasOnChange;
      // No mode is set yet; `value` treats that like any mode other than years.
      mode := Days;
      state := StateOf(now);
      screen := Screen(YearTitle(now.year), []);
      changes := [];
      new;
      var _ := Value(opts.value.GetOr(now), true);
      SetMode(Some(opts.mode.GetOr(Days)), false);
    }

    /** `this[toCamelCase('show-' + this.mode)]()`: renders the grid of the current mode. */
    method Show()
      requires StateValid()
      modifies this`screen
      ensures Valid()
    {
      match mode
      case Days => screen := ShowDays(locale, weekStarts, state);
      case Months => screen := ShowMonths(locale, state);
      case Years => screen := ShowYears(start, state);
    }

    /** `back`: pages to the previous month, year or window of years, keeping the selection. */
    method Back()
      requires Valid()
      modifies this`state, this`screen
      ensures Valid()
      ensures state == old(state).(display := PageBack(mode, old(state.display)))
    {
      state := state.(display := PageBack(mode, state.display));
      Show();
    }

    /** `forward`: pages to the next month, year or window of years, keeping the selection. */
    method Forward()
      requires Valid()
      modifies this`state, this`screen
      ensures Valid()
      ensures state == old(state).(display := PageForward(mode, old(state.display)))
    {
      state := state.(display := PageForward(mode, state.display));
      Show();
    }

    /**
     * `setMode(mode, force)`: nothing happens when the mode is already the
     * current one and `force` is off; no mode means the next mode; otherwise
     * the mode is set and its grid shown.
     */
    method SetMode(m: Option<Mode>, force: bool)
      requires StateValid()
      requires !force ==> Valid()
      modifies this`mode, this`screen
      ensures Valid()
      ensures mode == (if m.None? then NextMode(old(mode)) else m.value)
      ensures m == Some(old(mode)) && !force ==> screen == old(screen)
    {
      if m == Some(mode) && !force {
        return;
      }
      mode := if m.None? then NextMode(mode) else m.value;
      Show();
    }

    /**
     * `value(date, silent)`: the date becomes the value, the page shown and
     * the selection. From years mode the widget moves to months mode and
     * `onChange` is not called; otherwise it moves to days mode and, unless
     * `silent`, calls `onChange` with the date. Calling `onChange` when none
     * was given throws, after the new state is in place: `thrown` says so.
     */
    method Value(date: Date, silent: bool) returns (thrown: bool)
      requires ValidDate(date)
      modifies this`mode, this`state, this`screen, this`changes
      ensures Valid()
      ensures state == StateOf(date)
      ensures mode == (if old(mode) == Years then Months else Days)
      ensures var fires := old(mode) != Years && !silent;
        && thrown == (fires && !hasOnChange)
        && changes == old(changes) + (if fires && hasOnChange then [date] else [])
    {
      state := StateOf(date);
      thrown := false;
      if mode == Years {
        SetMode(Some(Months), true);
      } else {
        SetMode(Some(Days), true);
        if !silent {
          if hasOnChange {
            changes := changes + [date];
          } else {
            thrown := true;
          }
        }
      }
    }

    /** `value()` with no argument: the current value. */
    method GetValue() returns (d: Date)
      requires Valid()
      ensures d == state.date && ValidDate(d)
    {
      d := state.date;
    }

    /**
     * `select(year, month, day)`: `new Date(year, month, day)` becomes the
     * value, each missing part taken from the selected date.
     */
    method Select(year: Option<int>, month: Option<int>, day: Option<int>) returns (thrown: bool)
      requires Valid()
      modifies this`mode, this`state, this`screen, this`changes
      ensures Valid()
      ensures state == StateOf(NewDate(
        year.GetOr(old(state.selected.year)),
        month.GetOr(old(state.selected.month)),
        day.GetOr(old(state.selected.day))))
      ensures mode == (if old(mode) == Years then Months else Days)
      ensures var fires := old(mode) != Years;
        && thrown == (fires && !hasOnChange)
        && changes == old(changes) + (if fires && hasOnChange then [state.date] else [])
    {
      var d := NewDate(
        year.GetOr(state.selected.year),
        month.GetOr(state.selected.month),
        day.GetOr(state.selected.day));
      thrown := Value(d, false);
    }

    /**
     * A click on a link inside the widget: the hash names the action and its
     * numeric arguments, and that action is called. A hash that names none
     * of the actions changes nothing.
     */
    method Click(hash: string) returns (thrown: bool)
      requires Valid()
      modifies this`mode, this`state, this`screen, this`changes
      ensures Valid()
      ensures ParseHash(hash).None? ==>
        !thrown && mode == old(mode) && state == old(state) && screen == old(screen) && changes == old(changes)
      ensures ParseHash(hash) == Some(Command.Back) ==>
        !thrown && mode == old(mode) && state == old(state).(display := PageBack(mode, old(state.display)))
      ensures ParseHash(hash) == Some(Command.Forward) ==>
        !thrown && mode == old(mode) && state == old(state).(display := PageForward(mode, old(state.display)))
      ensures ParseHash(hash) == Some(Command.SetMode) ==>
        !thrown && mode == NextMode(old(mode)) && state == old(state)
      ensures ParseHash(hash).Some? && ParseHash(hash).value.Select? ==>
        var c := ParseHash(hash).value;
        state == StateOf(NewDate(
          c.year.GetOr(old(state.selected.year)),
          c.month.GetOr(old(state.selected.month)),
          c.day.GetOr(old(state.selected.day))))
        && mode == (if old(mode) == Years then Months else Days)
        && thrown == (old(mode) != Years && !hasOnChange)
        && changes == old(changes) + (if old(mode) != Years && hasOnChange then [state.date] else [])
      ensures ParseHash(hash).Some? && !ParseHash(hash).value.Select? ==> changes == old(changes)
    {
      thrown := false;
      var command := ParseHash(hash);
      if command.Some? {
        var c := command.value;
        if c.Back? {
          Back();
        } else if c.Forward? {
          Forward();
        } else if c.SetMode? {
          SetMode(None, false);
        } else {
          thrown := Select(c.year, c.month, c.day);
        }
      }
    }
  }

  /**
   * Drilling down from the years view: a widget valued `today`, put in
   * years mode and given `select(year)`, keeps the selected month and day,
   * settles in months mode and does not call `onChange`.
   */
  method YearsDrillDown(start: int, today: Date, year: int) returns (c: Calendar)
    requires ValidDate(today) && !(0 <= year <= 99) && ValidDate(Date(year, today.month, today.day))
    ensures c.Valid()
    ensures c.state.selected == Date(year, today.month, today.day) && c.mode == Months
    ensures c.changes == []
  {
    c := new Calendar(start, today, Options(None, None, None, None, true));
    c.SetMode(Some(Years), false);
    var _ := c.Select(Some(year), None, None);
  }
}
