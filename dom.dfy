/**
 * The string logic of the widget's DOM helpers: the selector tokenizer
 * `query`, the element description `create` takes from a selector's first
 * token, and the class-list rewrite of `replaceClass`. The DOM calls around
 * them (creating the element, reading and writing the `class` attribute) are
 * not modelled; the regular expression `rx` of `replaceClass` is a predicate
 * on class names.
 */
module Dom {
  import opened Wrappers
  import opened Text

  // ---------------------------------------------------------------------
  // query: /^\s*([>+~])?\s*([*\w-]+)?(?:#([\w-]+))?(?:\.([\w.-]+))?\s*/
  // ---------------------------------------------------------------------

  /** One compound selector: combinator, tag, id and class list. */
  datatype Token = Token(rel: Option<char>, tag: string, id: Option<string>, classes: Option<seq<string>>)

  predicate IsRelChar(c: char) {
    c == '>' || c == '+' || c == '~'
  }

  predicate IsTagChar(c: char) {
    c == '*' || IsWordChar(c) || c == '-'
  }

  predicate IsIdChar(c: char) {
    IsWordChar(c) || c == '-'
  }

  predicate IsClassChar(c: char) {
    IsWordChar(c) || c == '.' || c == '-'
  }

  /**
   * What the pattern captures at the front of `s`: the combinator, the tag
   * text, the id and the class group (each absent when its part of the
   * pattern did not take part), and the length of the whole match.
   */
  datatype Groups = Groups(rel: Option<char>, tag: string, id: Option<string>, classGroup: Option<string>, length: nat)

  predicate AllOf(s: string, p: char -> bool) {
    forall k :: 0 <= k < |s| ==> p(s[k])
  }

  lemma SliceAllOf(s: string, i: nat, j: nat, p: char -> bool)
    requires i <= j <= |s|
    requires forall k :: i <= k < j ==> p(s[k])
    ensures AllOf(s[i..j], p)
  {
    assert forall k :: 0 <= k < j - i ==> s[i..j][k] == s[i + k];
  }

  /**
   * The end of an optional group `lead` followed by one or more characters of
   * class `p` at `i`: `i` itself when the group does not match there.
   */
  function GroupEnd(s: string, i: nat, lead: char, p: char -> bool): (j: nat)
    requires i <= |s|
    ensures i <= j <= |s|
    ensures j != i ==> j >= i + 2 && s[i] == lead && forall k :: i + 1 <= k < j ==> p(s[k])
    ensures j != i ==> j == |s| || !p(s[j])
    ensures j == i ==> !(i + 1 < |s| && s[i] == lead && p(s[i + 1]))
  {
    if i + 1 < |s| && s[i] == lead && p(s[i + 1]) then RunEnd(s, i + 1, p) else i
  }

  /** The text of a group that ends at `j` after its lead character at `i`. */
  function GroupText(s: string, i: nat, j: nat, p: char -> bool): (g: Option<string>)
    requires i <= j <= |s|
    requires j != i ==> j >= i + 2 && forall k :: i + 1 <= k < j ==> p(s[k])
    ensures g.Some? ==> |g.value| > 0 && AllOf(g.value, p)
  {
    if j == i then None
    else
      SliceAllOf(s, i + 1, j, p);
      Some(s[i + 1..j])
  }

  /**
   * Where each part of the pattern starts and ends in a match at the front of
   * a string: the combinator at `lead` (taken when `afterRel` is one past
   * it), the tag from `tag` to `tagEnd`, the `#` group up to `idEnd`, the `.`
   * group up to `classEnd`, and the trailing white space up to `end`.
   */
  datatype Stops = Stops(lead: nat, afterRel: nat, tag: nat, tagEnd: nat, idEnd: nat, classEnd: nat, end: nat)

  /** A group `lead` followed by one or more characters of class `p`, from `i` to `j`, or no group (`j == i`). */
  predicate GroupFits(s: string, i: nat, j: nat, lead: char, p: char -> bool)
    requires i <= j <= |s|
  {
    j != i ==> j >= i + 2 && s[i] == lead && forall k :: i + 1 <= k < j ==> p(s[k])
  }

  /** The stops are in order within `s`, and each part holds only characters its class allows. */
  predicate StopsFit(s: string, st: Stops) {
    && st.lead <= st.afterRel <= st.tag <= st.tagEnd <= st.idEnd <= st.classEnd <= st.end <= |s|
    && (st.afterRel != st.lead ==> st.afterRel == st.lead + 1 && IsRelChar(s[st.lead]))
    && (forall k :: st.tag <= k < st.tagEnd ==> IsTagChar(s[k]))
    && GroupFits(s, st.tagEnd, st.idEnd, '#', IsIdChar)
    && GroupFits(s, st.idEnd, st.classEnd, '.', IsClassChar)
  }

  /**
   * The stops of `selector.match(rxQuery)`. Every part of the pattern is
   * optional and the character classes of consecutive parts do not overlap,
   * so the greedy match needs no backtracking: each part takes the longest
   * run it can, a `#` or `.` group only when at least one name character
   * follows it.
   */
  function MatchStops(s: string): (st: Stops)
    ensures StopsFit(s, st)
  {
    var i0 := SpaceEnd(s, 0);
    var i1 := if i0 < |s| && IsRelChar(s[i0]) then i0 + 1 else i0;
    var i2 := SpaceEnd(s, i1);
    var i3 := RunEnd(s, i2, IsTagChar);
    var i4 := GroupEnd(s, i3, '#', IsIdChar);
    var i5 := GroupEnd(s, i4, '.', IsClassChar);
    Stops(i0, i1, i2, i3, i4, i5, SpaceEnd(s, i5))
  }

  /** The captures at the given stops. */
  function GroupsAt(s: string, st: Stops): (g: Groups)
    requires StopsFit(s, st)
    ensures g.length == st.end
    ensures g.rel.None? || IsRelChar(g.rel.value)
    ensures AllOf(g.tag, IsTagChar)
    ensures g.id.Some? ==> |g.id.value| > 0 && AllOf(g.id.value, IsIdChar)
    ensures g.classGroup.Some? ==> |g.classGroup.value| > 0 && AllOf(g.classGroup.value, IsClassChar)
    ensures g.length == 0 ==> g.rel.None? && g.tag == "" && g.id.None? && g.classGroup.None?
  {
    SliceAllOf(s, st.tag, st.tagEnd, IsTagChar);
    Groups(
      if st.afterRel != st.lead then Some(s[st.lead]) else None,
      s[st.tag..st.tagEnd],
      GroupText(s, st.tagEnd, st.idEnd, IsIdChar),
      GroupText(s, st.idEnd, st.classEnd, IsClassChar),
      st.end)
  }

  /** `selector.match(rxQuery)`: the captures of the greedy match at the front of `s`. */
  function MatchGroups(s: string): (g: Groups)
    ensures g.length <= |s|
    ensures g.rel.None? || IsRelChar(g.rel.value)
    ensures AllOf(g.tag, IsTagChar)
    ensures g.id.Some? ==> |g.id.value| > 0 && AllOf(g.id.value, IsIdChar)
    ensures g.classGroup.Some? ==> |g.classGroup.value| > 0 && AllOf(g.classGroup.value, IsClassChar)
    ensures g.length == 0 ==> g.rel.None? && g.tag == "" && g.id.None? && g.classGroup.None?
  {
    GroupsAt(s, MatchStops(s))
  }

  /**
   * The token `query` pushes for a match: the tag upper-cased (`''` when
   * absent) and the class group split on `.`.
   */
  function MatchToken(g: Groups): (t: Token)
    requires AllOf(g.tag, IsTagChar)
    ensures t.rel == g.rel && t.id == g.id
    ensures |t.tag| == |g.tag| && AllOf(t.tag, IsTagChar) && forall k :: 0 <= k < |t.tag| ==> !IsLower(t.tag[k])
    ensures g.classGroup.None? <==> t.classes.None?
    ensures g.classGroup.Some? ==> t.classes.value == Split(g.classGroup.value, '.')
  {
    Token(
      g.rel,
      UpperString(g.tag),
      g.id,
      if g.classGroup.Some? then Some(Split(g.classGroup.value, '.')) else None)
  }

  /** The match of the token pattern at the front of `s`: the token and the length matched. */
  datatype QueryMatch = QueryMatch(token: Token, length: nat)

  function MatchQuery(s: string): (m: QueryMatch)
    ensures m.length <= |s|
  {
    var g := MatchGroups(s);
    QueryMatch(MatchToken(g), g.length)
  }

  /**
   * The tokens `query` produces from a string: matches are taken from the
   * front until the text is used up or nothing matches.
   */
  function Tokens(s: string): (ts: seq<Token>)
    ensures |ts| <= |s|
    decreases |s|
  {
    if |s| == 0 then []
    else
      var m := MatchQuery(s);
      if m.length == 0 then [] else [m.token] + Tokens(s[m.length..])
  }

  /** The text the tokens of `Tokens(s)` were matched from, in order. */
  function Consumed(s: string): (c: string)
    ensures c <= s
    decreases |s|
  {
    if |s| == 0 then ""
    else
      var m := MatchQuery(s);
      if m.length == 0 then ""
      else
        var rest := Consumed(s[m.length..]);
        PrefixExtend(s, m.length, rest);
        s[..m.length] + rest
  }

  lemma PrefixExtend(s: string, n: nat, rest: string)
    requires n <= |s| && rest <= s[n..]
    ensures s[..n] + rest <= s
  {
    assert forall k :: 0 <= k < |rest| ==> rest[k] == s[n + k];
  }

  /**
   * `query(selector)`: a non-string selector (`None`) gives no tokens; a
   * string is matched repeatedly, each match pushing one token and removing
   * the matched text, until the text is empty or the match is empty.
   */
  method Query(selector: Option<string>) returns (out: seq<Token>)
    ensures selector.None? ==> out == []
    ensures selector.Some? ==> out == Tokens(selector.value)
  {
    out := [];
    if selector.Some? {
      var rest := selector.value;
      while |rest| > 0
        invariant out + Tokens(rest) == Tokens(selector.value)
        decreases |rest|
      {
        var f := MatchQuery(rest);
        if f.length == 0 {
          break;
        }
        out := out + [f.token];
        rest := rest[f.length..];
      }
    }
  }

  /**
   * The shape the pattern gives a token: a combinator among `>`, `+`, `~` or
   * none, a tag of tag characters with no lower-case letter (empty when
   * absent), a non-empty id of name characters, and classes that joined by
   * `.` give a non-empty run of class characters.
   */
  predicate WellFormed(t: Token) {
    && (t.rel.None? || IsRelChar(t.rel.value))
    && AllOf(t.tag, IsTagChar) && (forall k :: 0 <= k < |t.tag| ==> !IsLower(t.tag[k]))
    && (t.id.Some? ==> |t.id.value| > 0 && AllOf(t.id.value, IsIdChar))
    && (t.classes.Some? ==> var g := Join(t.classes.value, '.'); |g| > 0 && AllOf(g, IsClassChar))
  }

  /** Every token `query` produces has the shape the pattern allows. */
  lemma {:induction false} TokensWellFormed(s: string)
    ensures forall t :: t in Tokens(s) ==> WellFormed(t)
    decreases |s|
  {
    if |s| > 0 {
      var m := MatchQuery(s);
      if m.length > 0 {
        var g := MatchGroups(s);
        if g.classGroup.Some? {
          JoinSplit(g.classGroup.value, '.');
        }
        TokensWellFormed(s[m.length..]);
      }
    }
  }

  /** Each match consumes at least one character, so the token list is never longer than the selector. */
  lemma TokensConsumeText(s: string)
    ensures |Tokens(s)| <= |Consumed(s)|
    decreases |s|
  {
    if |s| > 0 {
      var m := MatchQuery(s);
      if m.length > 0 {
        TokensConsumeText(s[m.length..]);
      }
    }
  }

  // ---------------------------------------------------------------------
  // create: the element description taken from the first token
  // ---------------------------------------------------------------------

  /**
   * What `create(selector)` makes: a `TypeError` when the selector yields no
   * token, `null` when its first token has no tag, otherwise an element with
   * the tag, the id and the classes joined by spaces.
   */
  datatype Created =
    | Thrown
    | Null
    | Element(tag: string, id: Option<string>, className: Option<string>)

  function Create(selector: Option<string>): (r: Created)
    ensures selector.None? ==> r == Thrown
    ensures selector.Some? ==> (r == Thrown <==> Tokens(selector.value) == [])
    ensures r.Null? ==> selector.Some? && Tokens(selector.value)[0].tag == ""
    ensures r.Element? ==> selector.Some? && r.tag == Tokens(selector.value)[0].tag != ""
    ensures r.Element? ==> r.id == Tokens(selector.value)[0].id
    ensures r.Element? ==> var cs := Tokens(selector.value)[0].classes;
      r.className == (if cs.Some? then Some(Join(cs.value, ' ')) else None)
  {
    var ts := if selector.Some? then Tokens(selector.value) else [];
    if |ts| == 0 then Thrown
    else
      var s := ts[0];
      if s.tag == "" then Null
      else
        Element(
          s.tag,
          s.id,
          if s.classes.Some? then Some(Join(s.classes.value, ' ')) else None)
  }

  /**
   * `create` reads only the first token: once a match of the pattern ends
   * exactly where `a` ends, text appended after `a` changes nothing.
   */
  lemma CreateUsesFirstToken(a: string, b: string)
    requires MatchQuery(a + b).length == |a|
    ensures Create(Some(a + b)) == Create(Some(a))
  {
    if |a| > 0 {
      FirstTokenPrefix(a, b);
    } else {
      assert a + b == b;
    }
  }

  lemma FirstTokenPrefix(a: string, b: string)
    requires |a| > 0 && MatchQuery(a + b).length == |a|
    ensures |Tokens(a + b)| > 0 && |Tokens(a)| > 0 && Tokens(a + b)[0] == Tokens(a)[0]
  {
    var m := MatchQuery(a + b);
    assert (a + b)[..|a|] == a;
    MatchGroupsPrefix(a + b, |a|);
    assert MatchQuery(a) == m;
    assert Tokens(a + b) == [m.token] + Tokens((a + b)[|a|..]);
    assert Tokens(a) == [m.token] + Tokens(a[|a|..]);
  }

  /** A run that stops within the first `n` characters stops at the same place in `s[..n]`. */
  lemma RunEndPrefix(s: string, n: nat, i: nat, p: char -> bool)
    requires i <= n <= |s| && RunEnd(s, i, p) <= n
    ensures RunEnd(s[..n], i, p) == RunEnd(s, i, p)
  {
    assert forall m :: 0 <= m < n ==> s[..n][m] == s[m];
  }

  lemma SpaceEndPrefix(s: string, n: nat, i: nat)
    requires i <= n <= |s| && SpaceEnd(s, i) <= n
    ensures SpaceEnd(s[..n], i) == SpaceEnd(s, i)
  {
    assert forall m :: 0 <= m < n ==> s[..n][m] == s[m];
  }

  lemma GroupEndPrefix(s: string, n: nat, i: nat, lead: char, p: char -> bool)
    requires i <= n <= |s| && GroupEnd(s, i, lead, p) <= n
    ensures GroupEnd(s[..n], i, lead, p) == GroupEnd(s, i, lead, p)
  {
    if i + 1 < n {
      assert s[..n][i] == s[i] && s[..n][i + 1] == s[i + 1];
    }
    if GroupEnd(s, i, lead, p) != i {
      RunEndPrefix(s, n, i + 1, p);
    }
  }

  lemma PrefixSlice(s: string, n: nat, i: nat, j: nat)
    requires i <= j <= n <= |s|
    ensures s[..n][i..j] == s[i..j]
  {
    assert forall k :: 0 <= k < j - i ==> s[..n][i..j][k] == s[i..j][k];
  }

  /** The pattern matches the first `n` characters of `s` as it matches `s`, when its match of `s` is `n` long. */
  lemma MatchGroupsPrefix(s: string, n: nat)
    requires n <= |s| && MatchGroups(s).length == n
    ensures MatchGroups(s[..n]) == MatchGroups(s)
  {
    var st := MatchStops(s);
    MatchStopsPrefix(s, n);
    GroupsAtPrefix(s, n, st);
  }

  /** Each stop of the match of `s` is found at the same place in `s[..n]`, `n` being where the match ends. */
  lemma MatchStopsPrefix(s: string, n: nat)
    requires n <= |s| && MatchStops(s).end == n
    ensures MatchStops(s[..n]) == MatchStops(s)
  {
    var st := MatchStops(s);
    SpaceEndPrefix(s, n, 0);
    if st.lead < n {
      assert s[..n][st.lead] == s[st.lead];
    }
    SpaceEndPrefix(s, n, st.afterRel);
    NameStopsPrefix(s, n, st);
  }

  lemma NameStopsPrefix(s: string, n: nat, st: Stops)
    requires st == MatchStops(s) && n <= |s| && st.end == n
    ensures RunEnd(s[..n], st.tag, IsTagChar) == st.tagEnd
    ensures GroupEnd(s[..n], st.tagEnd, '#', IsIdChar) == st.idEnd
    ensures GroupEnd(s[..n], st.idEnd, '.', IsClassChar) == st.classEnd
    ensures SpaceEnd(s[..n], st.classEnd) == n
  {
    RunEndPrefix(s, n, st.tag, IsTagChar);
    GroupEndPrefix(s, n, st.tagEnd, '#', IsIdChar);
    GroupEndPrefix(s, n, st.idEnd, '.', IsClassChar);
    SpaceEndPrefix(s, n, st.classEnd);
  }

  /** The captures at stops within the first `n` characters are the same in `s[..n]`. */
  lemma GroupsAtPrefix(s: string, n: nat, st: Stops)
    requires StopsFit(s, st) && st.end <= n <= |s|
    ensures StopsFit(s[..n], st) && GroupsAt(s[..n], st) == GroupsAt(s, st)
  {
    var a := s[..n];
    assert forall k :: 0 <= k < n ==> a[k] == s[k];
    PrefixSlice(s, n, st.tag, st.tagEnd);
    if st.tagEnd != st.idEnd {
      PrefixSlice(s, n, st.tagEnd + 1, st.idEnd);
    }
    if st.idEnd != st.classEnd {
      PrefixSlice(s, n, st.idEnd + 1, st.classEnd);
    }
  }

  // ---------------------------------------------------------------------
  // replaceClass
  // ---------------------------------------------------------------------

  /** Each class matching the pattern replaced by `newClass`, the others kept. */
  function Rewrite(classes: seq<string>, rx: string -> bool, newClass: string): (r: seq<string>)
    ensures |r| == |classes|
    ensures forall k :: 0 <= k < |classes| ==> r[k] == (if rx(classes[k]) then newClass else classes[k])
  {
    seq(|classes|, k requires 0 <= k < |classes| => if rx(classes[k]) then newClass else classes[k])
  }

  /** The list with every later repetition of an element dropped. */
  function Dedup(s: seq<string>): (r: seq<string>)
    ensures |r| <= |s|
  {
    if |s| == 0 then []
    else
      var d := Dedup(s[..|s| - 1]);
      if s[|s| - 1] in d then d else d + [s[|s| - 1]]
  }

  predicate NoDuplicates(s: seq<string>) {
    forall i, j :: 0 <= i < j < |s| ==> s[i] != s[j]
  }

  /** `Dedup` drops repetitions only: no duplicates remain, and every element stays. */
  lemma {:induction false} DedupContents(s: seq<string>)
    ensures NoDuplicates(Dedup(s))
    ensures forall x :: x in Dedup(s) <==> x in s
  {
    if |s| > 0 {
      var init := s[..|s| - 1];
      DedupContents(init);
      assert s == init + [s[|s| - 1]];
    }
  }

  /** Position of the first occurrence of `x` in `s`. */
  function FirstIndex(s: seq<string>, x: string): (i: nat)
    requires x in s
    ensures i < |s| && s[i] == x
    ensures forall k :: 0 <= k < i ==> s[k] != x
  {
    if s[0] == x then 0 else 1 + FirstIndex(s[1..], x)
  }

  lemma FirstIndexPrefix(s: seq<string>, n: nat, x: string)
    requires n <= |s| && x in s[..n]
    ensures x in s && FirstIndex(s, x) == FirstIndex(s[..n], x)
  {
    var i := FirstIndex(s[..n], x);
    assert s[i] == x;
  }

  /** `Dedup` keeps the order of first occurrences. */
  lemma {:induction false} DedupOrder(s: seq<string>)
    ensures forall x :: x in Dedup(s) ==> x in s
    ensures forall i, j :: 0 <= i < j < |Dedup(s)| ==> FirstIndex(s, Dedup(s)[i]) < FirstIndex(s, Dedup(s)[j])
  {
    DedupContents(s);
    if |s| > 0 {
      var init := s[..|s| - 1];
      var d := Dedup(init);
      var x := s[|s| - 1];
      DedupOrder(init);
      DedupContents(init);
      forall y | y in d ensures y in s && FirstIndex(s, y) == FirstIndex(init, y) < |s| - 1 {
        FirstIndexPrefix(s, |s| - 1, y);
      }
      if x !in d {
        assert x !in init;
        assert forall k :: 0 <= k < |s| - 1 ==> init[k] == s[k];
        assert FirstIndex(s, x) == |s| - 1;
        var r := d + [x];
        assert Dedup(s) == r;
        forall i, j | 0 <= i < j < |r| ensures FirstIndex(s, r[i]) < FirstIndex(s, r[j]) {
          assert r[i] == d[i] && r[i] in d;
          if j < |d| {
            assert r[j] == d[j] && r[j] in d;
          }
        }
      } else {
        assert Dedup(s) == d;
        forall i, j | 0 <= i < j < |d| ensures FirstIndex(s, d[i]) < FirstIndex(s, d[j]) {
          assert d[i] in d && d[j] in d;
        }
      }
    }
  }

  /**
   * `replaceClass(el, rx, newClass)` on an element whose `class` attribute
   * is `classAttr`: the attribute is split on spaces, each class matching
   * `rx` becomes `newClass`, a class already in the new list is skipped,
   * and the new list is written back joined by spaces. Its length is returned.
   */
  method ReplaceClass(classAttr: string, rx: string -> bool, newClass: string)
    returns (newAttr: string, count: nat)
    ensures var classes := Dedup(Rewrite(Split(classAttr, ' '), rx, newClass));
      newAttr == Join(classes, ' ') && count == |classes|
  {
    var parts := Split(classAttr, ' ');
    var newClasses: seq<string> := [];
    for i := 0 to |parts|
      invariant newClasses == Dedup(Rewrite(parts[..i], rx, newClass))
    {
      var c := if rx(parts[i]) then newClass else parts[i];
      assert Rewrite(parts[..i + 1], rx, newClass)[..i] == Rewrite(parts[..i], rx, newClass);
      if c !in newClasses {
        newClasses := newClasses + [c];
      }
    }
    assert parts[..|parts|] == parts;
    newAttr := Join(newClasses, ' ');
    count := |newClasses|;
  }

  /**
   * The rewritten list: no class twice, every class of it either `newClass`
   * (when some class matched) or an input class that did not match, and
   * every input class either kept or, when it matched, replaced by `newClass`.
   */
  lemma ReplaceClassResult(classes: seq<string>, rx: string -> bool, newClass: string)
    ensures var r := Dedup(Rewrite(classes, rx, newClass));
      && NoDuplicates(r)
      && |r| <= |classes|
      && (forall c :: c in r ==>
            (c == newClass && exists k :: 0 <= k < |classes| && rx(classes[k])) || (c in classes && !rx(c)))
      && (forall k :: 0 <= k < |classes| ==> (if rx(classes[k]) then newClass in r else classes[k] in r))
  {
    var w := Rewrite(classes, rx, newClass);
    DedupContents(w);
    forall c | c in Dedup(w)
      ensures (c == newClass && exists k :: 0 <= k < |classes| && rx(classes[k])) || (c in classes && !rx(c))
    {
      var k :| 0 <= k < |w| && w[k] == c;
      if !rx(classes[k]) {
        assert c == classes[k];
      }
    }
    forall k | 0 <= k < |classes| ensures if rx(classes[k]) then newClass in Dedup(w) else classes[k] in Dedup(w) {
      assert w[k] in w;
    }
  }
}
