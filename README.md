# Calendar date picker, modelled in Dafny

This project models the logic of the `unchainedui/calendar` date-picker widget. It covers three parts.

- **Calendar arithmetic (`dates.js`).**
  - Month lengths under the Gregorian leap-year rule.
  - Paging a `{year, month}` cursor by a month, by a year, or by a window of `SHOW_YEARS` = 25 years.
  - Snapping a year to its 25-year window. The windows are tiled from `START_YEAR`, which is the current year minus 12.
- **The `Calendar` controller (`index.js`).**
  - The three modes (days, months, years) and their cycle.
  - The state `{date, display, selected}`.
  - `back`, `forward`, `setMode`, `select` and `value`, including the settle rule that `value` applies per mode.
  - The grids that `showDays`, `showMonths` and `showYears` fill. Each grid is a title plus a list of cells: an empty cell, or a link with its text, its `select` target and whether it is marked current.
  - The click dispatch that turns a link's `#/action/n/m/...` fragment into a call.
- **The string helpers bundled in `test/test.js`.**
  - The `query` selector tokenizer and `create`'s use of its first token.
  - `toCamelCase`.
  - The class-list rewrite of `replaceClass`.

The modules, one per file:

- `Text` (text.dfy) covers `split`/`join` on one character, the regular-expression character classes and `toCamelCase`.
- `Dates` (dates.dfy) covers `dates.js`. `START_YEAR` is the parameter `start` here, and `HomeStart` is its initialiser.
- `HostDate` (host_date.dfy) covers the parts of JavaScript's `Date` the widget relies on, written out by hand:
  - `new Date(year, month, day)`, with its carrying of out-of-range months and days and its reading of years 0..99 as 1900..1999.
  - `getDay()`, via ECMAScript's day count from 1 January 1970.
- `Dispatch` (dispatch.dfy) covers `${n}` and `parseInt(s, 10)`, the `href` of every link, and the parsing of a fragment into a typed `Command`.
- `Dom` (dom.dfy) covers `query`, `create` and the `replaceClass` rewrite.
- `Locale` (locale.dfy) holds the locale record and the `en_US` constant.
- `View` (view.dfy) covers the modes, the state, the activity predicates, the grids with the methods that build them loop by loop, and the paging.
- `Widget` (calendar.dfy) holds the `Calendar` class. Its fields `mode`, `state` and `screen` are updated in place, and the ghost log `changes` records the calls to `onChange`.

Two behaviours of the code that a reader might not expect; the model follows the code:

- The constructor stores `opts.onChange` as given, with no default (index.js:28). A non-silent `value` without an `onChange` therefore throws a `TypeError` at index.js:243, after the new state is in place. `Widget.Calendar.Value` reports this as `thrown`. The constructor's own call is silent (index.js:33), so it does not throw.
- In years mode, `value` moves to months mode without calling `onChange` (index.js:239-240). Only the other modes reach the call at index.js:243. `Widget.YearsDrillDown` shows the sequence.

## Model

| member | source | states |
|---|---|---|
| Dates.HomeStart | dates.js:1-5 | `START_YEAR` is the current year minus 12, so the current year is inside the home window, at its centre |
| Dates.HomeWindow | dates.js:1-17 | the home window snaps to itself and holds both the current year and its last year |
| Dates.GetStartYear | dates.js:7-17 | the window start is at most the year and more than the year minus 25, and is a multiple of 25 away from `START_YEAR` |
| Dates.GetStartYearFormula | dates.js:7-17 | the two early returns agree with `START_YEAR + floor((y - START_YEAR) / 25) * 25` |
| Dates.GetStartYearUnique | dates.js:7-17 | the window start is the only year on the tiling that lies within 24 years below `y` |
| Dates.GetStartYearIdempotent | dates.js:7-17 | snapping a window start gives it back |
| Dates.GetStartYearShift | dates.js:16 | moving a year by ±25 moves its window by exactly ±25 |
| Dates.WindowBoundaries | dates.js:7-17 | with home start H: H and H+24 snap to H, H+25 to H+25, H-1 to H-25 |
| Dates.DaysInMonth | dates.js:19-25 | always 28..31; February has 29 days exactly in leap years and 28 otherwise; the other months come from the fixed table |
| Dates.MonthsFillYear | dates.js:19-25 | the twelve month lengths add up to 365, or 366 in a leap year |
| Dates.PrevMonth | dates.js:27-39 | on a month in 0..11 the result month is in 0..11 and one month earlier |
| Dates.NextMonth | dates.js:41-53 | on a month in 0..11 the result month is in 0..11 and one month later |
| Dates.MonthPagingRoundTrip | dates.js:27-53 | `prevMonth(nextMonth(d)) == d` and `nextMonth(prevMonth(d)) == d` |
| Dates.MonthPagingRollover | dates.js:27-53 | the year goes up exactly from December to January, and down exactly from January to December |
| Dates.PrevYear | dates.js:55-60 | same month, one year earlier |
| Dates.NextYear | dates.js:62-67 | same month, one year later |
| Dates.PrevYears | dates.js:69-74 | same month, 25 years earlier |
| Dates.NextYears | dates.js:76-81 | same month, 25 years later |
| Dates.YearPagingRoundTrip | dates.js:55-81 | year paging and window paging are each undone by their opposite |
| Dates.WindowPaging | dates.js:69-81 | `nextYears`/`prevYears` move the year window by exactly one window |
| HostDate.WeekDay | index.js:140 | `getDay()` is in 0..6 and follows the day count from 1 January 1970 (a Thursday) |
| HostDate.WeekDayNextMonth | index.js:140 | the next month starts `daysInMonth` week days after this one |
| HostDate.WeekDayCycle | index.js:140 | week days repeat every 400 years |
| HostDate.KnownWeekDays | index.js:140 | 1 January of 1970, 2000 and 2023 fall on Thursday, Saturday and Sunday |
| HostDate.DayNumberInjective | index.js:128 | distinct valid dates have distinct day numbers |
| HostDate.NormalizeDay | index.js:128 | the result is a valid date exactly `day - 1` days after the first of the month, for any `day` |
| HostDate.MakeDate | index.js:128 | the month carries into the year as `floor(m / 12)` and `m mod 12`, then the day is counted from the first of that month |
| HostDate.MakeDateUnique | index.js:128 | `new Date` yields the one valid date at the required day number |
| HostDate.MakeDateValid | index.js:128 | a triple that already names a valid date is kept as it is |
| HostDate.ConstructorYear | index.js:128 | years 0..99 are read as 1900..1999, and other years are kept |
| HostDate.NewDate | index.js:128 | the result is always a valid date, and a valid triple outside 0..99 comes back unchanged |
| HostDate.FirstWeekDay | index.js:140 | `new Date(year, month, 1).getDay()` is in 0..6 |
| HostDate.FirstWeekDayOfValidMonth | index.js:140 | outside the years 0..99, that is the week day of the first of the month |
| HostDate.NormalisationExamples | index.js:128 | day 32 of January is 1 February, day 0 of March 2024 is 29 February, and month 12 is January of the next year |
| Text.UpperString | test/test.js:34 | upper-casing keeps the length and maps each character through `toUpperCase` |
| Text.Split | test/test.js:36 | a split always has at least one piece, and no piece holds the separator |
| Text.SplitJoin | test/test.js:36 | splitting a join gives the pieces back |
| Text.JoinSplit | test/test.js:36 | joining the pieces of a split gives the string back |
| Text.ToCamelCase | test/test.js:277-279 | the result is no longer than the input, and non-empty when the input is |
| Text.ToCamelCaseNoSeparator | test/test.js:277-279 | a string with no `-` or `_` is unchanged |
| Text.ToCamelCasePrefix | test/test.js:277-279 | a prefix with no separator passes through unchanged |
| Text.ToCamelCaseDashed | test/test.js:277-279 | words joined by `-` camel-case to the first word followed by the others capitalized |
| Text.CamelPair | test/test.js:277-279 | `a-b` camel-cases to `a` followed by `b` capitalized |
| Text.CamelPairUnderscore | test/test.js:277-279 | `a_b` camel-cases to `a` followed by `b` capitalized, as `a-b` does |
| Text.SetModeName | index.js:64 | the action `set-mode` names the method `setMode` |
| Dispatch.FormatDecimal | index.js:150 | `${n}` is non-empty, made of digits, with at most a leading `-` |
| Dispatch.ParseDecimal | index.js:10-12 | `parseInt` is `NaN` (`None`) exactly when no digit follows the white space and the sign |
| Dispatch.ParseFormatDecimal | index.js:10-12 | parsing `${n}`, followed by anything that is not a digit, gives `n` back |
| Dispatch.ParseArgs | index.js:52 | every argument piece parsed as a decimal, or `None` when one is `NaN` |
| Dispatch.ParseHash | index.js:49-53 | the command is resolved from the camel-cased second piece of the fragment and the parsed remaining pieces |
| Dispatch.Resolve | index.js:52 | `back`, `forward`, `setMode` without arguments, and `select` with its first three arguments are the calls a name makes |
| Dispatch.Href | index.js:150 | splitting a cell's `#/select/...` link on `/` gives back `#`, `select` and the cell's numbers as decimals; the month links (index.js:175) and year links (index.js:189) have the same form with fewer numbers |
| Dispatch.FormatAll | index.js:150 | each number is formatted in place |
| Dispatch.DispatchRoundTrip | index.js:150 | the link of every grid cell, when parsed, calls `select` with the cell's own year, month and day |
| Dispatch.BackLink | index.js:63 | `#/back` calls `back()` |
| Dispatch.ForwardLink | index.js:65 | `#/forward` calls `forward()` |
| Dispatch.SetModeLink | index.js:64 | `#/set-mode` calls `setMode()` with no arguments |
| Text.RunEnd | test/test.js:4 | the longest run of one character class, starting at a given position: every character in it is in the class, and the one after it is not |
| Text.SpaceEnd | test/test.js:4 | the `\s*` at the front of the pattern: the longest run of white space from a given position |
| Dom.GroupEnd | test/test.js:4 | an optional `#id` or `.class` group is taken only when a name character follows its lead character, and then as far as it goes |
| Dom.MatchGroups | test/test.js:4 | the captures of `rxQuery`: the combinator is one of `>+~`, and the tag, id and class group are runs of their character classes; an empty match captures nothing |
| Dom.MatchToken | test/test.js:32-37 | the token's tag is the tag upper-cased (`''` when absent), and its classes are the `.`-split of the class group when there is one |
| Dom.Tokens | test/test.js:26-39 | there are never more tokens than characters |
| Dom.Consumed | test/test.js:26-39 | the matched texts, joined together, form a prefix of the selector |
| Dom.Query | test/test.js:22-43 | a non-string selector gives no tokens; otherwise the loop pushes one token per non-empty match and stops at the first empty match or the end of the text |
| Dom.TokensWellFormed | test/test.js:32-37 | every token has a combinator among `>+~` or none, an upper-cased tag of tag characters, a non-empty id, and classes that join back into the class group |
| Dom.TokensConsumeText | test/test.js:26-39 | each match consumes at least one character |
| Dom.Create | test/test.js:65-88 | no token means a `TypeError`; a first token with no tag means `null`; otherwise an element with that token's tag (upper-cased, as the pattern captured it) and id, and with its classes joined by spaces as the class name when it has a class group; the DOM's rejection of some tags is left out |
| Dom.CreateUsesFirstToken | test/test.js:65-70 | when the first match of the pattern on `a + b` ends exactly at the end of `a`, `create(a + b)` and `create(a)` make the same thing |
| Dom.MatchGroupsPrefix | test/test.js:4 | a match of the pattern depends only on the characters it consumes: cutting the text where the match ends leaves the match unchanged |
| Dom.Rewrite | test/test.js:184-185 | each class that matches becomes `newClass`, and every other class is kept |
| Dom.Dedup | test/test.js:186-189 | de-duplicating never lengthens the list |
| Dom.DedupContents | test/test.js:186-189 | no duplicates remain, and exactly the input's elements are kept |
| Dom.FirstIndex | test/test.js:186-189 | the position of the first occurrence |
| Dom.DedupOrder | test/test.js:186-189 | the kept elements appear in the order of their first occurrences |
| Dom.ReplaceClass | test/test.js:182-195 | the loop writes back the de-duplicated rewrite joined by spaces, and returns its length |
| Dom.ReplaceClassResult | test/test.js:182-195 | the new list has no duplicates and is no longer than the old one; each new class is `newClass` or an unmatched old class; each old class is kept or replaced |
| Locale.EnUsComplete | en_US.js:1-15 | the default locale has the code `en-US`, starts its weeks on Sunday, names all twelve months and seven days in every width, and so names every valid month in a title |
| Locale.Name | index.js:132-134 | an index inside the array gives the name; outside it gives the text `undefined` |
| View.NextMode | index.js:14-22 | the next mode always differs from the current one |
| View.NextModeCycle | index.js:14-22 | three steps return to the start, and they visit every mode |
| View.ShowMethodName | index.js:93 | `show-<mode>` names `show` plus the capitalized mode |
| View.StateOf | index.js:233-237 | `value` puts the date, the page shown and the selection all at the new date |
| View.StartingDay | index.js:141 | the number of blanks is in 0..6: `firstDay` when the week starts on Sunday, `(firstDay + 6) % 7` when it starts on Monday |
| View.DaysScreen | index.js:137-166 | the title is the wide month name and the year; the cells are `startingDay` blanks, then days 1..`daysInMonth` in order, and nothing after |
| View.ShowDays | index.js:137-166 | the nested row/column loop with its `day` counter builds exactly that grid |
| View.ShowMonths | index.js:168-180 | the month loop builds the months grid |
| View.ShowYears | index.js:182-194 | the year loop builds the years grid |
| View.DaysColumns | index.js:137-150 | on a page outside the years 0..99, each day sits in the column of its week day, where column 0 is Sunday or Monday as `weekStarts` says; within them it does not, see Findings |
| View.January2023 | index.js:137-141 | on a page showing January 2023 there are six leading blanks in a week from Monday and none in a week from Sunday |
| View.FirstDayOf2023 | index.js:140 | 1 January 2023 was a Sunday |
| View.IsDayActive | index.js:196-199 | a day is marked exactly when it is the selected day and the month of the page shown would itself be marked |
| View.IsMonthActive | index.js:201-204 | a month is marked exactly when it is the selected month and the year of the page shown would itself be marked |
| View.ValueMarks | index.js:196-208 | right after `value(d)`, a day, month or year is marked exactly when it is `d`'s own; `isYearActive` looks at the selection only, whatever page is shown |
| View.DaysActive | index.js:196-199 | at most one day is marked; one is marked exactly when the page shown is the selected month, and it is the selected day |
| View.DayGridActive | index.js:149-150 | the same, for the grid with any number of blanks |
| View.DayLinks | index.js:150 | on a page outside the years 0..99, the link of day `d` shows `d`, its `href` parses back to `select(year, month, d)` of the page shown, and `new Date` of those numbers is exactly that date |
| View.DayCarry | index.js:127-128 | for January to November of a year outside 0..99, `new Date(year, month, day)` with a day past the end of the month, by at most the next month's length, is that many days into the next month; this is what a month or year link gives when the selected day is missing from the new month |
| View.TwoDigitYearLink | index.js:127-128 | for any valid date in a year 0..99, `new Date` moves it to 1900 + year with the same month and day, except 29 February of a year whose 1900s counterpart is not leap, which becomes 1 March |
| View.FullYearStart | index.js:139-141 | the blanks counted from the week day of the first of the month in the year itself; outside the years 0..99 they equal the widget's `startingDay` |
| View.FullYearColumns | index.js:139-150 | counted from `FullYearStart`, every day of every month of every year sits in the column of its own week day |
| View.TwoDigitYearColumns | index.js:139-142 | the widget lays out February of year 0 from Thursday, the week day of 1 February 1900, though 1 February 0 was a Tuesday, and gives it 29 days where February 1900 has 28 |
| View.MonthsScreen | index.js:168-180 | the title is the year shown; there are twelve cells, and cell `k` shows the abbreviated name of month `k`, links to that month of the year shown, and is marked as `isMonthActive(k)` says |
| View.YearsScreen | index.js:182-194 | the title is a range of 25 years that holds the year shown and starts on the window tiling; cell `k` shows year `first + k`, links to it, and is marked as `isYearActive` says |
| View.Render | index.js:93 | `show-<mode>` gives a month title with `startingDay + daysInMonth` cells in days mode, a year title with 12 cells in months mode, and a year range with 25 cells in years mode |
| View.MonthsActive | index.js:168-180 | twelve cells for months 0..11 of the year shown; the selected month is marked exactly on its own year, and nothing else is marked |
| View.YearsWindow | index.js:182-194 | 25 consecutive years from `getStartYear(display.year)`, titled with the first and last; the window holds the year shown; the selected year is marked exactly when it lies in the window |
| View.PageBack | index.js:78-94 | back moves the page by 1, 12 or 300 months as the mode says, and drops the day |
| View.PageForward | index.js:96-112 | forward moves the page by 1, 12 or 300 months as the mode says, and drops the day |
| View.PagingRoundTrip | index.js:78-112 | back after forward, or forward after back, restores the year and month of the page |
| View.YearsPaging | index.js:88-107 | in years mode, paging moves the years grid by exactly one window |
| Widget.Calendar.constructor | index.js:24-36 | the locale defaults to `en_US`, `weekStarts` to the locale's, and the value to today; the value is set silently; the mode is the requested one or days; `onChange` is not called |
| Widget.Calendar.Show | index.js:93 | the display holds the grid of the current mode |
| Widget.Calendar.Back | index.js:78-94 | only the page shown changes, as `PageBack`; the value, the selection and the mode stay, and the grid is redrawn |
| Widget.Calendar.Forward | index.js:96-112 | only the page shown changes, as `PageForward`; the value, the selection and the mode stay, and the grid is redrawn |
| Widget.Calendar.SetMode | index.js:114-125 | the current mode without `force` changes nothing and renders nothing; no mode means the next mode; otherwise that mode is set and shown |
| Widget.Calendar.Value | index.js:223-247 | the new state is set; years mode settles in months mode without `onChange`; any other mode settles in days mode and calls `onChange` once unless silent, throwing when none was given |
| Widget.Calendar.GetValue | index.js:224-226 | `value()` returns the current date |
| Widget.Calendar.Select | index.js:127-129 | missing parts are taken from the selection, then `value(new Date(y, m, d))` is applied |
| Widget.Calendar.Click | index.js:49-53 | a link's fragment makes exactly the call it names; a fragment naming no action changes nothing |
| Widget.YearsDrillDown | index.js:127-129 | a widget in years mode given `select(year)` keeps the selected month and day, settles in months mode and does not call `onChange` |

## Left out

- The DOM and events are not modelled. This covers `render`, `init`, `addListeners`/`removeListeneres`, `remove`, the HTML markup of the grids and of the title written by `setTitle`, the `flip` layout, and the labels of the back and forward buttons. A grid is modelled as its title and its cells.
- `addDelayRemoveClass` is not modelled, because it is driven by a timer.
- `parse` and `isValidDate` are not modelled, because they rely on the host's date-string parsing.
- Widget.Calendar.Value: requires a valid date, and the constructor requires a valid `opts.value`. The source does not check: an invalid `Date` (`new Date(NaN)`, or a date past the host's range) is stored unchecked, with `NaN` year, month and day. The model does not cover that state.
- `toString` is not modelled, because `toLocaleDateString` is host formatting.
- The wall clock is not read. The constructor takes today's date as the parameter `now` and the loaded `START_YEAR` as `start`.
- Widget.Calendar.Value and Widget.Calendar.GetValue: the source stores the caller's own `Date` object (index.js:228-234), returns that same object from `value()` (index.js:225) and passes it to `onChange` (index.js:243). The model holds the date as a value, so it does not capture that sharing. In the source, a caller or an `onChange` that mutates the object (`cal.value().setFullYear(2000)`, say) leaves `selected` and `display` out of step with `date`. The model's invariant `selected == date` holds only while nobody mutates that object.
- The time of day a `Date` carries (for instance the `new Date()` default at index.js:33) is not modelled; a date is a year, a month and a day.
- `onChange` is a foreign callback. Its calls are recorded in the ghost log `changes`; what the callback itself does, or throws, is not modelled.
- Dispatch.FormatDecimal: formats an unbounded integer as plain digits. A JavaScript number is a double, so `${n}` is exact only up to 2^53 and switches to exponent notation from 1e21; the model does not capture either. Within the host's date range (next line) every year, month and day is far below both bounds.
- `HostDate.NewDate` computes over all integers. It leaves out the host's limit of 8.64e15 ms on either side of 1970, and the `NaN` dates beyond it.
- Widget.Calendar.Click: its contract is weaker than the source for two kinds of fragment.
  - A fragment that would make the source throw or misbehave changes nothing in the model. These are: no action name, an unknown action, `setMode` with a numeric argument (the source sets that number as the mode and then throws), and a non-numeric argument (the source passes `NaN` on).
  - `back` and `forward` ignore a non-numeric argument in the source, but not in the model.
- Dispatch.ParseHash: returns `None` for every fault listed in the previous item, rather than modelling the resulting `TypeError` or `NaN` state.
- Dom.ReplaceClass: the regular expression is modelled as a pure predicate on class names. The `lastIndex` state of a global regular expression is not modelled, nor is a missing `class` attribute. The attribute's read and write are shown as the input and the output.
- Dom.Create: the element is described rather than created, and the `content` argument is not modelled. The DOM's own check of the tag name is not modelled either: a first tag the pattern accepts but `document.createElement` rejects (`*`, or one starting with a digit or `-`, such as `1a` or `-x`) throws an `InvalidCharacterError` in the source, while the model describes an element with that tag. `createNs` (test/test.js:44-63) takes its first token the same way and is not modelled separately.
- The other helpers in test/test.js are DOM plumbing and are not modelled: `get`, `closest`, `attr`, `append*`/`prepend*`, `insert*`, `on`/`off`/`once`, `ready`, `addClass`/`removeClass`/`toggleClass`.
- Two kinds of code appear here only once: the copies of the calendar and date code in test/test.js:281-629, which repeat index.js and dates.js, and the method-name lookup and prototype mixing, which are replaced by the closed `Mode` and `Command` datatypes.
- The day names of `en_US.js` are transcribed in `Locale.EN_US`. The widget never reads them.
- `test.js` is a demo page that only constructs the widget; it is not modelled.

## Findings

| source | as written | input that shows it | evidently intended | confidence | as-written member | corrected member |
|---|---|---|---|---|---|---|
| index.js:139-142 | the blanks come from `new Date(year, month, 1).getDay()`, which reads years 0..99 as 1900..1999, while the day count comes from `daysInMonth(year, month)` of the year itself | a page showing February of year 0, reached by paging back from year 100: it starts on Thursday (1 February 1900) though 1 February 0 was a Tuesday, and it lists 29 days where February 1900 has 28 | the first week day of the month of the year shown itself, as `setFullYear(year, month, 1)` gives it | not executed; high for the arithmetic, low that such pages are meant to be shown | View.TwoDigitYearColumns | View.FullYearColumns |

The widget model (`View.DaysScreen`, `Widget.Calendar`) keeps the layout as written, since it describes what the widget shows. `View.FullYearStart` is the corrected count of blanks. It equals the widget's count outside the years 0..99, and `View.DaysColumns` uses it there.
