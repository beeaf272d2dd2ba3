/**
 * The locale record the widget reads its names and its first day of the
 * week from, and the built-in `en_US` locale.
 */
module Locale {

  /** Month names (January first) and day names (Sunday first) in several widths. */
  datatype Locale = Locale(
    code: string,
    weekStarts: int,
    monthsNarrow: seq<string>,
    monthsAbbreviated: seq<string>,
    monthsWide: seq<string>,
    daysNarrow: seq<string>,
    daysShort: seq<string>,
    daysAbbreviated: seq<string>,
    daysWide: seq<string>)

  /** A locale with a name for each of the twelve months and the seven days in every width. */
  predicate Complete(l: Locale) {
    && |l.monthsNarrow| == 12 && |l.monthsAbbreviated| == 12 && |l.monthsWide| == 12
    && |l.daysNarrow| == 7 && |l.daysShort| == 7 && |l.daysAbbreviated| == 7 && |l.daysWide| == 7
  }

  /**
   * `names[k]` interpolated into a template: an index past the end of the
   * array reads `undefined`, which a template prints as the word itself.
   */
  function Name(names: seq<string>, k: int): (s: string)
    ensures 0 <= k < |names| ==> s == names[k]
    ensures !(0 <= k < |names|) ==> s == "undefined"
  {
    if 0 <= k < |names| then names[k] else "undefined"
  }

  const EN_US: Locale := Locale(
    "en-US",
    0,
    ["J", "F", "M", "A", "M", "J", "J", "A", "S", "O", "N", "D"],
    ["Jan", "Feb", "Mar", "Apr", "May", "Jun", "Jul", "Aug", "Sep", "Oct", "Nov", "Dec"],
    ["January", "February", "March", "April", "May", "June",
     "July", "August", "September", "October", "November", "December"],
    ["S", "M", "T", "W", "T", "F", "S"],
    ["Su", "Mo", "Tu", "We", "Th", "Fr", "Sa"],
    ["Sun", "Mon", "Tue", "Wed", "Thu", "Fri", "Sat"],
    ["Sunday", "Monday", "Tuesday", "Wednesday", "Thursday", "Friday", "Saturday"])

  /** The default locale names every month and day, and its weeks start on Sunday. */
  lemma EnUsComplete()
    ensures Complete(EN_US) && EN_US.weekStarts == 0 && EN_US.code == "en-US"
    ensures forall k :: 0 <= k < 12 ==> Name(EN_US.monthsWide, k) == EN_US.monthsWide[k]
  {
  }
}
