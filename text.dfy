/**
 * String helpers the widget relies on: JavaScript's `String.prototype.split`
 * and `Array.prototype.join` for a one-character separator, ASCII character
 * classes of the regular expressions the widget uses, and `toCamelCase`.
 */
module Text {

  /** The regular-expression class `\w`: ASCII letters, digits and `_`. */
  predicate IsWordChar(c: char) {
    ('a' <= c <= 'z') || ('A' <= c <= 'Z') || ('0' <= c <= '9') || c == '_'
  }

  predicate IsDigit(c: char) {
    '0' <= c <= '9'
  }

  /** The regular-expression class `\s` (white space and line terminators). */
  predicate IsSpace(c: char) {
    c == ' ' || c == '\t' || c == '\n' || c == '\r' || c == '\U{B}' || c == '\U{C}'
    || c == '\U{A0}' || c == '\U{1680}' || ('\U{2000}' <= c <= '\U{200A}')
    || c == '\U{2028}' || c == '\U{2029}' || c == '\U{202F}' || c == '\U{205F}'
    || c == '\U{3000}' || c == '\U{FEFF}'
  }

  predicate IsLower(c: char) {
    'a' <= c <= 'z'
  }

  /** The end of the longest run of characters of class `p` starting at `i`. */
  function RunEnd(s: string, i: nat, p: char -> bool): (j: nat)
    requires i <= |s|
    ensures i <= j <= |s|
    ensures forall k :: i <= k < j ==> p(s[k])
    ensures j == |s| || !p(s[j])
    decreases |s| - i
  {
    if i < |s| && p(s[i]) then RunEnd(s, i + 1, p) else i
  }

  /** Index just past the white space from `i` on. */
  function SpaceEnd(s: string, i: nat): (j: nat)
    requires i <= |s|
    ensures i <= j <= |s|
    ensures forall k :: i <= k < j ==> IsSpace(s[k])
    ensures j == |s| || !IsSpace(s[j])
    decreases |s| - i
  {
    if i < |s| && IsSpace(s[i]) then SpaceEnd(s, i + 1) else i
  }

  /** `toUpperCase` on the ASCII characters the widget ever upper-cases. */
  function ToUpper(c: char): (u: char)
    ensures !IsLower(u)
    ensures IsLower(c) ==> u as int == c as int - 32
    ensures !IsLower(c) ==> u == c
  {
    if IsLower(c) then (c as int - 32) as char else c
  }

  function UpperString(s: string): (u: string)
    ensures |u| == |s|
    ensures forall i :: 0 <= i < |s| ==> u[i] == ToUpper(s[i])
  {
    seq(|s|, i requires 0 <= i < |s| => ToUpper(s[i]))
  }

  /** `s.split(sep)` for a one-character separator: always one more piece than separators. */
  function Split(s: string, sep: char): (parts: seq<string>)
    ensures |parts| >= 1
    ensures forall k :: 0 <= k < |parts| ==> sep !in parts[k]
  {
    if |s| == 0 then [""]
    else if s[0] == sep then [""] + Split(s[1..], sep)
    else
      var rest := Split(s[1..], sep);
      [[s[0]] + rest[0]] + rest[1..]
  }

  /** `parts.join(sep)`. */
  function Join(parts: seq<string>, sep: char): string
  {
    if |parts| == 0 then ""
    else if |parts| == 1 then parts[0]
    else parts[0] + [sep] + Join(parts[1..], sep)
  }

  lemma {:induction false} SplitNoSeparator(s: string, sep: char)
    requires sep !in s
    ensures Split(s, sep) == [s]
  {
    if |s| > 0 {
      assert sep !in s[1..];
      SplitNoSeparator(s[1..], sep);
      assert [s[0]] + s[1..] == s;
    }
  }

  lemma {:induction false} SplitAtFirstSeparator(a: string, sep: char, b: string)
    requires sep !in a
    ensures Split(a + [sep] + b, sep) == [a] + Split(b, sep)
  {
    if |a| == 0 {
      assert a + [sep] + b == [sep] + b;
      assert ([sep] + b)[1..] == b;
    } else {
      var s := a + [sep] + b;
      assert s[0] == a[0] && s[1..] == a[1..] + [sep] + b;
      assert sep !in a[1..];
      SplitAtFirstSeparator(a[1..], sep, b);
      assert [a[0]] + a[1..] == a;
    }
  }

  /** Splitting a join gives back the pieces, provided no piece holds the separator. */
  lemma {:induction false} SplitJoin(parts: seq<string>, sep: char)
    requires |parts| >= 1
    requires forall k :: 0 <= k < |parts| ==> sep !in parts[k]
    ensures Split(Join(parts, sep), sep) == parts
  {
    if |parts| == 1 {
      SplitNoSeparator(parts[0], sep);
    } else {
      SplitJoin(parts[1..], sep);
      SplitAtFirstSeparator(parts[0], sep, Join(parts[1..], sep));
      assert [parts[0]] + parts[1..] == parts;
    }
  }

  /** Joining the pieces of a split gives back the string. */
  lemma {:induction false} JoinSplit(s: string, sep: char)
    ensures Join(Split(s, sep), sep) == s
  {
    if |s| > 0 {
      JoinSplit(s[1..], sep);
      var rest := Split(s[1..], sep);
      if s[0] == sep {
        assert Split(s, sep)[1..] == rest;
      } else {
        var parts := Split(s, sep);
        assert parts[1..] == rest[1..];
        if |rest| == 1 {
          assert parts == [[s[0]] + rest[0]];
        } else {
          assert Join(rest, sep) == rest[0] + [sep] + Join(rest[1..], sep);
        }
      }
      assert [s[0]] + s[1..] == s;
    }
  }

  predicate IsSeparator(c: char) {
    c == '-' || c == '_'
  }

  /**
   * `str.replace(/[-_](\w)/g, (m, letter) => letter.toUpperCase())`: scanning
   * left to right, each `-` or `_` followed by a word character is replaced,
   * together with that character, by the character upper-cased; matches do
   * not overlap.
   */
  function ToCamelCase(s: string): (r: string)
    ensures |r| <= |s|
    ensures |s| > 0 ==> |r| > 0
  {
    if |s| < 2 then s
    else if IsSeparator(s[0]) && IsWordChar(s[1]) then [ToUpper(s[1])] + ToCamelCase(s[2..])
    else [s[0]] + ToCamelCase(s[1..])
  }

  predicate NoSeparator(s: string) {
    forall i :: 0 <= i < |s| ==> !IsSeparator(s[i])
  }

  /** A string without `-` or `_` is left as it is. */
  lemma {:induction false} ToCamelCaseNoSeparator(s: string)
    requires NoSeparator(s)
    ensures ToCamelCase(s) == s
  {
    if |s| >= 2 {
      assert NoSeparator(s[1..]) by {
        forall i | 0 <= i < |s[1..]| ensures !IsSeparator(s[1..][i]) {
          assert s[1..][i] == s[i + 1];
        }
      }
      ToCamelCaseNoSeparator(s[1..]);
      assert [s[0]] + s[1..] == s;
    }
  }

  /** A prefix without separators passes through unchanged. */
  lemma {:induction false} ToCamelCasePrefix(a: string, t: string)
    requires NoSeparator(a)
    ensures ToCamelCase(a + t) == a + ToCamelCase(t)
  {
    if |a| > 0 {
      ConsConcat(a, t);
      NoSeparatorTail(a);
      ToCamelCasePrefix(a[1..], t);
      assert ToCamelCase(a + t) == [a[0]] + ToCamelCase(a[1..] + t);
    } else {
      assert a + t == t;
    }
  }

  lemma ConsConcat(a: string, t: string)
    requires |a| > 0
    ensures (a + t)[0] == a[0] && (a + t)[1..] == a[1..] + t
    ensures a + ToCamelCase(t) == [a[0]] + (a[1..] + ToCamelCase(t))
  {
    assert a == [a[0]] + a[1..];
  }

  /** A word with its first letter upper-cased. */
  function Capitalize(w: string): string
  {
    if |w| == 0 then w else [ToUpper(w[0])] + w[1..]
  }

  function ConcatCapitalized(words: seq<string>): string
  {
    if |words| == 0 then "" else Capitalize(words[0]) + ConcatCapitalized(words[1..])
  }

  /** A word that can follow a dash in a camel-cased name. */
  predicate IsCamelWord(w: string) {
    |w| > 0 && IsWordChar(w[0]) && NoSeparator(w)
  }

  lemma CamelDashStep(c: char, t: string)
    requires IsWordChar(c)
    ensures ToCamelCase(['-', c] + t) == [ToUpper(c)] + ToCamelCase(t)
  {
    assert (['-', c] + t)[2..] == t;
  }

  /** A dash followed by dash-joined words camel-cases to the words capitalized. */
  lemma {:induction false} ToCamelCaseDashTail(words: seq<string>)
    requires |words| > 0
    requires forall k :: 0 <= k < |words| ==> IsCamelWord(words[k])
    ensures ToCamelCase(['-'] + Join(words, '-')) == ConcatCapitalized(words)
    decreases |words|
  {
    var w := words[0];
    var tail := words[1..];
    var rest := if |tail| == 0 then "" else ['-'] + Join(tail, '-');
    JoinCons(words);
    CamelWordThen(w, rest);
    if |tail| > 0 {
      assert forall k :: 0 <= k < |tail| ==> tail[k] == words[k + 1];
      ToCamelCaseDashTail(tail);
    }
  }

  lemma JoinCons(words: seq<string>)
    requires |words| > 0
    ensures Join(words, '-') == words[0] + (if |words| == 1 then "" else ['-'] + Join(words[1..], '-'))
  {
  }

  /** A dash and a word camel-case to the word capitalized; what follows is camel-cased on its own. */
  lemma CamelWordThen(w: string, rest: string)
    requires IsCamelWord(w)
    ensures ToCamelCase(['-'] + (w + rest)) == Capitalize(w) + ToCamelCase(rest)
  {
    DashWord(w, rest);
    CamelDashStep(w[0], w[1..] + rest);
    NoSeparatorTail(w);
    ToCamelCasePrefix(w[1..], rest);
  }

  lemma DashWord(w: string, rest: string)
    requires |w| > 0
    ensures ['-'] + (w + rest) == ['-', w[0]] + (w[1..] + rest)
  {
    assert w == [w[0]] + w[1..];
  }

  lemma NoSeparatorTail(w: string)
    requires |w| > 0 && NoSeparator(w)
    ensures NoSeparator(w[1..])
  {
    forall i | 0 <= i < |w[1..]| ensures !IsSeparator(w[1..][i]) {
      assert w[1..][i] == w[i + 1];
    }
  }

  /**
   * Joining separator-free words with dashes and camel-casing the result
   * keeps the first word and capitalizes every later one: `show-days` becomes
   * `showDays`, `set-mode` becomes `setMode`.
   */
  lemma {:induction false} ToCamelCaseDashed(first: string, words: seq<string>)
    requires NoSeparator(first)
    requires forall k :: 0 <= k < |words| ==> IsCamelWord(words[k])
    ensures ToCamelCase(Join([first] + words, '-')) == first + ConcatCapitalized(words)
  {
    if |words| == 0 {
      assert Join([first], '-') == first;
      ToCamelCaseNoSeparator(first);
    } else {
      assert ([first] + words)[1..] == words;
      assert Join([first] + words, '-') == first + (['-'] + Join(words, '-'));
      ToCamelCasePrefix(first, ['-'] + Join(words, '-'));
      ToCamelCaseDashTail(words);
    }
  }

  /** `a-b` camel-cases to `a` followed by `b` capitalized. */
  lemma CamelPair(a: string, b: string)
    requires NoSeparator(a) && IsCamelWord(b)
    ensures ToCamelCase(a + "-" + b) == a + Capitalize(b)
  {
    ToCamelCaseDashed(a, [b]);
    assert Join([a, b], '-') == a + "-" + b;
    assert ConcatCapitalized([b]) == Capitalize(b) + ConcatCapitalized([]);
  }

  /** `a_b` camel-cases to `a` followed by `b` capitalized: `_` separates words as `-` does. */
  lemma CamelPairUnderscore(a: string, b: string)
    requires NoSeparator(a) && IsCamelWord(b)
    ensures ToCamelCase(a + "_" + b) == a + Capitalize(b)
  {
    var t := ['_', b[0]] + b[1..];
    assert a + "_" + b == a + t;
    ToCamelCasePrefix(a, t);
    assert t[2..] == b[1..];
    assert ToCamelCase(t) == [ToUpper(b[0])] + ToCamelCase(b[1..]);
    NoSeparatorTail(b);
    ToCamelCaseNoSeparator(b[1..]);
  }

  /** The method name the widget builds from its `set-mode` action. */
  lemma SetModeName()
    ensures ToCamelCase("set-mode") == "setMode"
  {
    CamelPair("set", "mode");
    assert "set" + "-" + "mode" == "set-mode";
  }
}
