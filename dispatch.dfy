/**
 * The widget's click dispatch: every link it renders carries an address
 * fragment `#/<action>/<n>/<n>/...`; a click splits the fragment on `/`,
 * camel-cases the action name, parses the remaining pieces with
 * `parseInt(piece, 10)` and calls the method of that name with them. Here
 * the method name is resolved against the closed set of actions the widget
 * generates, giving a typed `Command`.
 */
module Dispatch {
  import opened Wrappers
  import opened Text

  // ---------------------------------------------------------------------
  // Decimal numbers: `${n}` and `parseInt(s, 10)`
  // ---------------------------------------------------------------------

  function DigitChar(d: int): (c: char)
    requires 0 <= d < 10
    ensures IsDigit(c)
  {
    ('0' as int + d) as char
  }

  function DigitValue(c: char): (d: int)
    requires IsDigit(c)
    ensures 0 <= d < 10
  {
    c as int - '0' as int
  }

  predicate AllDigits(s: string) {
    forall i :: 0 <= i < |s| ==> IsDigit(s[i])
  }

  /** The decimal digits of a natural number, without leading zeros. */
  function NatDigits(n: nat): (s: string)
    ensures |s| > 0 && AllDigits(s)
  {
    if n < 10 then [DigitChar(n)] else NatDigits(n / 10) + [DigitChar(n % 10)]
  }

  /** The value of a string of decimal digits. */
  function DigitsValue(s: string): (v: nat)
    requires AllDigits(s)
  {
    if |s| == 0 then 0 else DigitsValue(s[..|s| - 1]) * 10 + DigitValue(s[|s| - 1])
  }

  lemma {:induction false} DigitsValueOfNatDigits(n: nat)
    ensures DigitsValue(NatDigits(n)) == n
  {
    if n >= 10 {
      var s := NatDigits(n);
      assert s[..|s| - 1] == NatDigits(n / 10);
      DigitsValueOfNatDigits(n / 10);
    }
  }

  /** The template literal `${n}` for an integer `n`. */
  function FormatDecimal(n: int): (s: string)
    ensures |s| > 0
    ensures forall i :: 0 <= i < |s| ==> IsDigit(s[i]) || (i == 0 && s[i] == '-')
  {
    if n < 0 then "-" + NatDigits(-n) else NatDigits(n)
  }

  /** Length of the longest prefix of `s` made of decimal digits. */
  function DigitRun(s: string): (k: nat)
    ensures k <= |s| && AllDigits(s[..k])
    ensures k == |s| || !IsDigit(s[k])
  {
    if |s| == 0 || !IsDigit(s[0]) then 0
    else
      var k := 1 + DigitRun(s[1..]);
      assert forall i :: 1 <= i < k ==> s[..k][i] == s[1..][..k - 1][i - 1];
      k
  }

  /**
   * `parseInt(s, 10)`: white space and one sign are skipped, then the longest
   * run of digits is read; `NaN`, when there is no digit, is `None`.
   */
  function ParseDecimal(s: string): (r: Option<int>)
    ensures r.None? <==> DigitRun(Unsigned(s)) == 0
  {
    var u := Unsigned(s);
    var k := DigitRun(u);
    if k == 0 then None
    else
      var v: int := DigitsValue(u[..k]);
      Some(if IsNegative(s) then -v else v)
  }

  function Trimmed(s: string): string {
    s[SpaceEnd(s, 0)..]
  }

  predicate IsNegative(s: string) {
    var t := Trimmed(s);
    |t| > 0 && t[0] == '-'
  }

  /** The text after leading white space and an optional sign. */
  function Unsigned(s: string): string {
    var t := Trimmed(s);
    if |t| > 0 && (t[0] == '-' || t[0] == '+') then t[1..] else t
  }

  lemma {:induction false} DigitRunOfDigits(s: string, rest: string)
    requires AllDigits(s)
    requires |rest| == 0 || !IsDigit(rest[0])
    ensures DigitRun(s + rest) == |s|
    decreases |s|
  {
    if |s| > 0 {
      assert (s + rest)[1..] == s[1..] + rest;
      DigitRunOfDigits(s[1..], rest);
    } else {
      assert s + rest == rest;
    }
  }

  /**
   * `parseInt` reads back what `${n}` wrote, whatever non-digit text
   * follows it (`parseInt("12px", 10)` is 12).
   */
  lemma ParseFormatDecimal(n: int, rest: string)
    requires |rest| == 0 || !IsDigit(rest[0])
    ensures ParseDecimal(FormatDecimal(n) + rest) == Some(n)
  {
    var m: nat := if n < 0 then -n else n;
    var ds := NatDigits(m);
    var s := FormatDecimal(n) + rest;
    assert SpaceEnd(s, 0) == 0;
    assert Trimmed(s) == s;
    if n < 0 {
      assert s == ['-'] + (ds + rest);
      assert Unsigned(s) == ds + rest;
      assert IsNegative(s);
    } else {
      assert s == ds + rest;
      assert Unsigned(s) == ds + rest;
      assert !IsNegative(s);
    }
    DigitRunOfDigits(ds, rest);
    assert (ds + rest)[..|ds|] == ds;
    DigitsValueOfNatDigits(m);
  }

  // ---------------------------------------------------------------------
  // Links and commands
  // ---------------------------------------------------------------------

  /** The calls a click can make: the header buttons and the picks of a grid cell. */
  datatype Command =
    | Back
    | Forward
    | SetMode
    | Select(year: Option<int>, month: Option<int>, day: Option<int>)

  /** What a grid cell selects: a year, a month of a year, or a day. */
  datatype Target =
    | YearOf(year: int)
    | MonthOf(year: int, month: int)
    | DayOf(year: int, month: int, day: int)

  /** The `select` call a cell's link makes. */
  function TargetCommand(t: Target): Command {
    match t
    case YearOf(y) => Select(Some(y), None, None)
    case MonthOf(y, m) => Select(Some(y), Some(m), None)
    case DayOf(y, m, d) => Select(Some(y), Some(m), Some(d))
  }

  function TargetNumbers(t: Target): seq<int> {
    match t
    case YearOf(y) => [y]
    case MonthOf(y, m) => [y, m]
    case DayOf(y, m, d) => [y, m, d]
  }

  function FormatAll(ns: seq<int>): (parts: seq<string>)
    ensures |parts| == |ns|
    ensures forall k :: 0 <= k < |ns| ==> parts[k] == FormatDecimal(ns[k])
  {
    if |ns| == 0 then [] else [FormatDecimal(ns[0])] + FormatAll(ns[1..])
  }

  /** The `href` of a cell: `#/select/<year>[/<month>[/<day>]]`. */
  function Href(t: Target): (h: string)
    ensures Split(h, '/') == ["#", "select"] + FormatAll(TargetNumbers(t))
  {
    LinkSplit("select", TargetNumbers(t));
    Join(["#", "select"] + FormatAll(TargetNumbers(t)), '/')
  }

  const BACK_HREF: string := "#/back"
  const FORWARD_HREF: string := "#/forward"
  const SET_MODE_HREF: string := "#/set-mode"

  /** Every piece parsed as a decimal, or `None` when one of them is `NaN`. */
  function ParseArgs(parts: seq<string>): (r: Option<seq<int>>)
    ensures r.Some? ==> |r.value| == |parts|
    ensures r.Some? ==> forall k :: 0 <= k < |parts| ==> ParseDecimal(parts[k]) == Some(r.value[k])
    ensures r.None? ==> exists k :: 0 <= k < |parts| && ParseDecimal(parts[k]).None?
  {
    if |parts| == 0 then Some([])
    else
      var head := ParseDecimal(parts[0]);
      var tail := ParseArgs(parts[1..]);
      if head.None? then None
      else if tail.None? then
        var k :| 0 <= k < |parts[1..]| && ParseDecimal(parts[1..][k]).None?;
        assert ParseDecimal(parts[k + 1]).None?;
        None
      else
        assert forall k :: 1 <= k < |parts| ==> parts[k] == parts[1..][k - 1];
        Some([head.value] + tail.value)
  }

  /** The argument at position `k`, absent (`undefined`) when not given. */
  function Arg(args: seq<int>, k: nat): Option<int> {
    if k < |args| then Some(args[k]) else None
  }

  /**
   * The call a click on a link with address fragment `hash` makes. `None`
   * stands for the faults of the source: no action name, an action that is
   * not one of the widget's, a numeric argument to `setMode`, or an
   * argument that is not a number.
   */
  function ParseHash(hash: string): (c: Option<Command>)
    ensures c.Some? ==> |Split(hash, '/')| >= 2
    ensures c.Some? ==> ParseArgs(Split(hash, '/')[2..]).Some?
    ensures |Split(hash, '/')| >= 2 && ParseArgs(Split(hash, '/')[2..]).Some? ==>
      c == Resolve(ToCamelCase(Split(hash, '/')[1]), ParseArgs(Split(hash, '/')[2..]).value)
  {
    var parts := Split(hash, '/');
    if |parts| < 2 then None
    else
      match ParseArgs(parts[2..])
      case None => None
      case Some(args) => Resolve(ToCamelCase(parts[1]), args)
  }

  /**
   * The method a camel-cased action name calls, with its arguments; JavaScript
   * ignores arguments a method does not declare.
   */
  function Resolve(name: string, args: seq<int>): (c: Option<Command>)
    ensures c == Some(Back) <==> name == "back"
    ensures c == Some(Forward) <==> name == "forward"
    ensures c == Some(SetMode) <==> name == "setMode" && |args| == 0
    ensures c.Some? && c.value.Select? <==> name == "select"
    ensures c.Some? && c.value.Select? ==> c.value == Select(Arg(args, 0), Arg(args, 1), Arg(args, 2))
  {
    if name == "back" then Some(Back)
    else if name == "forward" then Some(Forward)
    else if name == "setMode" && |args| == 0 then Some(SetMode)
    else if name == "select" then Some(Select(Arg(args, 0), Arg(args, 1), Arg(args, 2)))
    else None
  }

  /** A fragment built from an action name and numbers dispatches on exactly those. */
  lemma ParseHashOfLink(name: string, nums: seq<int>)
    requires '/' !in name
    ensures ParseHash(Join(["#", name] + FormatAll(nums), '/'))
      == Resolve(ToCamelCase(name), nums)
  {
    var parts := ["#", name] + FormatAll(nums);
    LinkSplit(name, nums);
    assert parts[1] == name;
    assert parts[2..] == FormatAll(nums);
    ParseAllFormatted(nums);
  }

  /** The pieces of a link come back from splitting it on `/`. */
  lemma LinkSplit(name: string, nums: seq<int>)
    requires '/' !in name
    ensures Split(Join(["#", name] + FormatAll(nums), '/'), '/') == ["#", name] + FormatAll(nums)
  {
    var parts := ["#", name] + FormatAll(nums);
    NoSlashInNumbers(nums);
    forall k | 0 <= k < |parts| ensures '/' !in parts[k] {
      if k >= 2 {
        assert parts[k] == FormatAll(nums)[k - 2];
      }
    }
    SplitJoin(parts, '/');
  }

  lemma NoSlashInNumbers(ns: seq<int>)
    ensures forall k :: 0 <= k < |ns| ==> '/' !in FormatAll(ns)[k]
  {
    forall k | 0 <= k < |ns| ensures '/' !in FormatAll(ns)[k] {
      var s := FormatDecimal(ns[k]);
      assert forall i :: 0 <= i < |s| ==> s[i] != '/';
    }
  }

  lemma ParseAllFormatted(ns: seq<int>)
    ensures ParseArgs(FormatAll(ns)) == Some(ns)
  {
    var parts := FormatAll(ns);
    forall k | 0 <= k < |ns| ensures ParseDecimal(parts[k]) == Some(ns[k]) {
      ParseFormatDecimal(ns[k], "");
      assert FormatDecimal(ns[k]) + "" == FormatDecimal(ns[k]);
    }
    ParseArgsAll(parts, ns);
  }

  lemma {:induction false} ParseArgsAll(parts: seq<string>, ns: seq<int>)
    requires |parts| == |ns|
    requires forall k :: 0 <= k < |ns| ==> ParseDecimal(parts[k]) == Some(ns[k])
    ensures ParseArgs(parts) == Some(ns)
  {
    if |parts| > 0 {
      assert forall k :: 0 <= k < |ns| - 1 ==> parts[1..][k] == parts[k + 1] && ns[1..][k] == ns[k + 1];
      ParseArgsAll(parts[1..], ns[1..]);
      assert ParseDecimal(parts[0]) == Some(ns[0]);
      ConsSplit(ns);
    }
  }

  lemma ConsSplit(ns: seq<int>)
    requires |ns| > 0
    ensures [ns[0]] + ns[1..] == ns
  {
  }

  /**
   * Dispatch round trip: the link of a grid cell, once split and parsed,
   * calls `select` with exactly the cell's year, month and day.
   */
  lemma DispatchRoundTrip(t: Target)
    ensures ParseHash(Href(t)) == Some(TargetCommand(t))
  {
    var nums := TargetNumbers(t);
    ParseHashOfLink("select", nums);
    SelectName();
    assert ParseHash(Href(t)) == Resolve("select", nums);
  }

  lemma SelectName()
    ensures ToCamelCase("select") == "select"
  {
    assert NoSeparator("select");
    ToCamelCaseNoSeparator("select");
  }

  /** A header link `#/<name>`: no numbers, and the action named. */
  lemma ActionLink(name: string, href: string)
    requires '/' !in name && href == "#/" + name
    ensures ParseHash(href) == Resolve(ToCamelCase(name), [])
  {
    ParseHashOfLink(name, []);
    var parts := ["#", name] + FormatAll([]);
    assert parts == ["#", name];
    assert parts[1..] == [name];
    assert Join(parts, '/') == "#" + ['/'] + name;
    assert "#" + ['/'] + name == href;
  }

  /** The back button calls `back()`. */
  lemma BackLink()
    ensures ParseHash(BACK_HREF) == Some(Back)
  {
    var name := "back";
    assert NoSeparator(name) && '/' !in name;
    ToCamelCaseNoSeparator(name);
    ActionLink(name, BACK_HREF);
  }

  /** The forward button calls `forward()`. */
  lemma ForwardLink()
    ensures ParseHash(FORWARD_HREF) == Some(Forward)
  {
    var name := "forward";
    assert NoSeparator(name) && '/' !in name;
    ToCamelCaseNoSeparator(name);
    ActionLink(name, FORWARD_HREF);
  }

  /** The title link calls `setMode()` with no argument. */
  lemma SetModeLink()
    ensures ParseHash(SET_MODE_HREF) == Some(SetMode)
  {
    var name := "set-mode";
    assert '/' !in name;
    SetModeName();
    ActionLink(name, SET_MODE_HREF);
  }
}
