/**
 * The selector parser of sizzle/selector.py (the same code as the earlier
 * copy in pysel.py): a selector string becomes one chain of compound
 * selectors per comma-separated piece. The regular expressions of the
 * source are written out as scanners over the string.
 */
module Selectors {
  import opened Wrappers
  import opened Text

  // ---------------------------------------------------------------- the record

  /** `(name, value)` of a `:name(value)` fragment; `value` is left unparsed. */
  datatype PseudoClass = PseudoClass(name: string, value: string)

  /** `[lft op rgt]`, read by the match engine; the parser of this file never produces one. */
  datatype AttrRule = AttrRule(lft: string, op: string, rgt: string)

  /**
   * One compound selector of a chain. `name` is its raw text, `typ` the
   * leading identifier (possibly empty), `id` the identifier after the first
   * `#` (None when there is no `#`), `next` the rest of the chain and
   * `direct` whether the separator before this selector was `>` (the match
   * engine's `combinator == CHILD`).
   */
  datatype Selector = Selector(
    name: string,
    typ: string,
    id: Option<string>,
    classes: seq<string>,
    attrs: seq<AttrRule>,
    pseudos: seq<PseudoClass>,
    next: Option<Selector>,
    direct: bool)

  /** The compound selectors of a chain, head first. */
  function Chain(sel: Selector): (r: seq<Selector>)
    ensures |r| >= 1 && r[0] == sel
    ensures forall i :: 0 <= i < |r| - 1 ==> r[i].next == Some(r[i + 1])
    ensures r[|r| - 1].next.None?
  {
    [sel] + match sel.next case None => [] case Some(n) => Chain(n)
  }

  /** The raw texts of a chain's selectors, concatenated. */
  function Names(sel: Selector): string {
    sel.name + match sel.next case None => [] case Some(n) => Names(n)
  }

  /** How many selectors after the head of a chain were introduced by `>`. */
  function ChildLinks(sel: Selector): nat {
    match sel.next
    case None => 0
    case Some(n) => (if n.direct then 1 else 0) + ChildLinks(n)
  }

  // ---------------------------------------------------------------- the ID pattern

  /** A character of the ID pattern `_?[A-Za-z0-9_]*` (the optional `_` adds nothing to the class). */
  predicate IsIdentChar(c: char) {
    ('A' <= c <= 'Z') || ('a' <= c <= 'z') || ('0' <= c <= '9') || c == '_'
  }

  predicate AllIdent(s: string) {
    forall k :: 0 <= k < |s| ==> IsIdentChar(s[k])
  }

  /** The greedy match of the ID pattern at the start of `s`: the longest prefix of identifier characters. */
  function IdentPrefix(s: string): (r: string)
    ensures |r| <= |s| && r == s[..|r|]
    ensures |r| < |s| ==> !IsIdentChar(s[|r|])
  {
    if s != [] && IsIdentChar(s[0]) then [s[0]] + IdentPrefix(s[1..]) else []
  }

  lemma {:induction false} IdentPrefixIdent(s: string)
    ensures AllIdent(IdentPrefix(s))
  {
    if s != [] && IsIdentChar(s[0]) {
      IdentPrefixIdent(s[1..]);
    }
  }

  // ---------------------------------------------------------------- SUBSEL_RE

  /** A character that can belong to a separator match of `\s*(>)\s*|\s+`. */
  predicate IsSep(c: char) {
    IsSpace(c) || c == '>'
  }

  predicate NoSep(s: string) {
    forall k :: 0 <= k < |s| ==> !IsSep(s[k])
  }

  /** Index of the first separator character, or `|s|`. */
  function FirstSep(s: string): (i: nat)
    ensures i <= |s|
    ensures i < |s| ==> IsSep(s[i])
  {
    if s == [] || IsSep(s[0]) then 0 else 1 + FirstSep(s[1..])
  }

  lemma {:induction false} FirstSepFirst(s: string)
    ensures NoSep(s[..FirstSep(s)])
  {
    if s != [] && !IsSep(s[0]) {
      FirstSepFirst(s[1..]);
      assert s[..FirstSep(s)] == [s[0]] + s[1..][..FirstSep(s[1..])];
    }
  }

  /** Length of the whitespace run at the start of `s` (a greedy `\s*`). */
  function SpaceRun(s: string): (n: nat)
    ensures n <= |s|
    ensures n < |s| ==> !IsSpace(s[n])
  {
    if s != [] && IsSpace(s[0]) then 1 + SpaceRun(s[1..]) else 0
  }

  lemma {:induction false} SpaceRunSpace(s: string)
    ensures AllSpace(s[..SpaceRun(s)])
  {
    if s != [] && IsSpace(s[0]) {
      SpaceRunSpace(s[1..]);
      assert s[..SpaceRun(s)] == [s[0]] + s[1..][..SpaceRun(s[1..])];
    }
  }

  /** `regex.split(SUBSEL_RE, s, 1)` when a separator was found: the text before, the separator matched, the text after. */
  datatype Cut = Cut(head: string, sep: string, tail: string)

  /**
   * What the leftmost match of `\s*(>)\s*|\s+` consumes: whitespace and at
   * most one `>`, all the whitespace that follows, and, when it holds no
   * `>`, it is not followed by one (the first alternative would have won).
   */
  ghost predicate IsSeparator(sep: string, tail: string) {
    sep != [] &&
    (forall k :: 0 <= k < |sep| ==> IsSep(sep[k])) &&
    Count(sep, '>') <= 1 &&
    (tail == [] || !IsSpace(tail[0])) &&
    ('>' !in sep ==> tail == [] || tail[0] != '>')
  }

  /** The split at the first combinator, or None when the text holds no separator character. */
  function SplitCombinator(s: string): (r: Option<Cut>)
    ensures r.None? <==> NoSep(s)
    ensures r.Some? ==>
      s == r.value.head + r.value.sep + r.value.tail &&
      NoSep(r.value.head) && IsSeparator(r.value.sep, r.value.tail)
  {
    var i := FirstSep(s);
    FirstSepFirst(s);
    if i == |s| then
      assert s[..i] == s;
      None
    else
      CutAtSound(s, i);
      Some(CutAt(s, i))
  }

  /** The separator match starting at the separator character `s[i]`, and the text around it. */
  function CutAt(s: string, i: nat): Cut
    requires i < |s|
  {
    var p := SepMatch(s[i..]);
    Cut(s[..i], p.0, p.1)
  }

  /** The match of `\s*(>)\s*|\s+` at the start of `t`, and what follows it. */
  function SepMatch(t: string): (string, string) {
    var n := SpaceRun(t);
    var r := t[n..];
    if r != [] && r[0] == '>' then
      var m := SpaceRun(r[1..]);
      (t[..n] + ">" + r[1..][..m], r[1..][m..])
    else
      (t[..n], r)
  }

  lemma SpaceRunParts(t: string)
    ensures var n := SpaceRun(t);
      t == t[..n] + t[n..] && AllSpace(t[..n]) && (t[n..] == [] || !IsSpace(t[n..][0]))
  {
    SpaceRunSpace(t);
  }

  lemma SeparatorChild(a: string, b: string, tail: string)
    requires AllSpace(a) && AllSpace(b) && (tail == [] || !IsSpace(tail[0]))
    ensures IsSeparator(a + ">" + b, tail)
  {
    CountConcat(a + ">", b, '>');
    CountConcat(a, ">", '>');
    CountZero(a, '>');
    CountZero(b, '>');
  }

  lemma SeparatorBare(a: string, tail: string)
    requires a != [] && AllSpace(a) && (tail == [] || (!IsSpace(tail[0]) && tail[0] != '>'))
    ensures IsSeparator(a, tail)
  {
    CountZero(a, '>');
  }

  /** A text starting with a separator character starts with a separator match. */
  lemma SepMatchSound(t: string)
    requires t != [] && IsSep(t[0])
    ensures var p := SepMatch(t); t == p.0 + p.1 && IsSeparator(p.0, p.1)
  {
    var n := SpaceRun(t);
    SpaceRunParts(t);
    var a, r := t[..n], t[n..];
    if r != [] && r[0] == '>' {
      var r1 := r[1..];
      SpaceRunParts(r1);
      var m := SpaceRun(r1);
      assert r == ">" + r1;
      assert SepMatch(t) == (a + ">" + r1[..m], r1[m..]);
      SoundChild(t, a, r1[..m], r1[m..]);
    } else {
      assert SepMatch(t) == (a, r);
      assert n > 0;
      SeparatorBare(a, r);
    }
  }

  lemma SoundChild(t: string, a: string, b: string, tail: string)
    requires t == a + (">" + (b + tail))
    requires AllSpace(a) && AllSpace(b) && (tail == [] || !IsSpace(tail[0]))
    ensures t == (a + ">" + b) + tail && IsSeparator(a + ">" + b, tail)
  {
    SeparatorChild(a, b, tail);
  }

  lemma CutAtSound(s: string, i: nat)
    requires i < |s| && IsSep(s[i]) && NoSep(s[..i])
    ensures var c := CutAt(s, i);
      s == c.head + c.sep + c.tail && NoSep(c.head) && IsSeparator(c.sep, c.tail)
  {
    SepMatchSound(s[i..]);
    assert s == s[..i] + s[i..];
  }

  // ---------------------------------------------------------------- IDRE, CLSRE

  /** `regex.findall(IDRE, s)[0]`: the identifier after the first `#`, or None (the source's empty list). */
  function FirstId(s: string): (r: Option<string>)
    ensures r.None? <==> '#' !in s
  {
    if s == [] then None
    else if s[0] == '#' then Some(IdentPrefix(s[1..]))
    else FirstId(s[1..])
  }

  /** The ID is the identifier right after the first `#`. */
  lemma {:induction false} FirstIdAfterFirstHash(s: string, i: nat)
    requires i < |s| && s[i] == '#' && '#' !in s[..i]
    ensures FirstId(s) == Some(IdentPrefix(s[i + 1..]))
  {
    if i > 0 {
      assert s[0] == s[..i][0];
      assert s[1..][..i - 1] == s[1..i] && s[1..][i..] == s[i + 1..];
      FirstIdAfterFirstHash(s[1..], i - 1);
    }
  }

  /** `regex.findall(CLSRE, s)`: the scan resumes after each match, the way the regex engine does. */
  function FindClasses(s: string): seq<string>
    decreases |s|
  {
    if s == [] then []
    else if s[0] == '.' then
      var c := IdentPrefix(s[1..]);
      [c] + FindClasses(s[1 + |c|..])
    else FindClasses(s[1..])
  }

  /** Reference reading of the class pattern: every `.` of the text contributes the identifier after it. */
  function ClassesAt(s: string): seq<string> {
    if s == [] then []
    else (if s[0] == '.' then [IdentPrefix(s[1..])] else []) + ClassesAt(s[1..])
  }

  lemma {:induction false} ClassesAtSkip(s: string, n: nat)
    requires n <= |s| && AllIdent(s[..n])
    ensures ClassesAt(s) == ClassesAt(s[n..])
  {
    if n > 0 {
      assert s[0] == s[..n][0];
      assert s[1..][..n - 1] == s[1..n];
      assert s[1..][n - 1..] == s[n..];
      ClassesAtSkip(s[1..], n - 1);
    }
  }

  lemma {:induction false} ClassesAtCount(s: string)
    ensures |ClassesAt(s)| == Count(s, '.')
  {
    if s != [] {
      ClassesAtCount(s[1..]);
    }
  }

  /** Reading a `.`: its identifier, then the text after that identifier, which holds no further dot of it. */
  lemma ClassesAtDot(s: string)
    requires s != [] && s[0] == '.'
    ensures var c := IdentPrefix(s[1..]); ClassesAt(s) == [c] + ClassesAt(s[1 + |c|..])
  {
    var c := IdentPrefix(s[1..]);
    IdentPrefixIdent(s[1..]);
    ClassesAtSkip(s[1..], |c|);
    assert s[1..][|c|..] == s[1 + |c|..];
  }

  /** The class scanner misses no `.`: each dot contributes the identifier after it, in textual order. */
  lemma {:induction false} FindClassesEveryDot(s: string)
    ensures FindClasses(s) == ClassesAt(s)
    decreases |s|
  {
    if s != [] {
      if s[0] == '.' {
        var c := IdentPrefix(s[1..]);
        FindClassesEveryDot(s[1 + |c|..]);
        ClassesAtDot(s);
      } else {
        FindClassesEveryDot(s[1..]);
      }
    }
  }

  /** One class per dot. */
  lemma FindClassesCount(s: string)
    ensures |FindClasses(s)| == Count(s, '.')
  {
    FindClassesEveryDot(s);
    ClassesAtCount(s);
  }

  // ---------------------------------------------------------------- PSEUDORE

  predicate IsParen(c: char) {
    c == '(' || c == ')'
  }

  /** Length of the greedy `[^()]+` candidate at the start of `s`. */
  function NonParenRun(s: string): (n: nat)
    ensures n <= |s|
    ensures forall k :: 0 <= k < n ==> !IsParen(s[k])
    ensures n < |s| ==> IsParen(s[n])
  {
    if s != [] && !IsParen(s[0]) then 1 + NonParenRun(s[1..]) else 0
  }

  /** The text a pseudo-class pair was matched from. */
  function PseudoText(p: PseudoClass): string {
    [':'] + p.name + ['('] + p.value + [')']
  }

  /** Parenthesis depth after reading `s` from depth `d`; None once a `)` has nothing to close. */
  function Depth(s: string, d: nat): Option<nat> {
    if s == [] then Some(d)
    else if s[0] == '(' then Depth(s[1..], d + 1)
    else if s[0] == ')' then (if d == 0 then None else Depth(s[1..], d - 1))
    else Depth(s[1..], d)
  }

  /** Every `)` closes an earlier `(` and every `(` is closed. */
  predicate Balanced(s: string) {
    Depth(s, 0) == Some(0)
  }

  lemma {:induction false} DepthConcat(a: string, b: string, d: nat)
    ensures Depth(a + b, d) == match Depth(a, d) case None => None case Some(e) => Depth(b, e)
  {
    if a == [] {
      assert a + b == b;
    } else {
      assert (a + b)[0] == a[0];
      assert (a + b)[1..] == a[1..] + b;
      if a[0] == '(' {
        DepthConcat(a[1..], b, d + 1);
      } else if a[0] == ')' {
        if d > 0 {
          DepthConcat(a[1..], b, d - 1);
        }
      } else {
        DepthConcat(a[1..], b, d);
      }
    }
  }

  lemma {:induction false} DepthShift(s: string, d: nat, e: nat)
    requires Depth(s, d) == Some(e)
    ensures Depth(s, d + 1) == Some(e + 1)
  {
    if s != [] {
      if s[0] == '(' {
        DepthShift(s[1..], d + 1, e);
      } else if s[0] == ')' {
        DepthShift(s[1..], d - 1, e);
      } else {
        DepthShift(s[1..], d, e);
      }
    }
  }

  lemma {:induction false} DepthNoParens(s: string, d: nat)
    requires forall k :: 0 <= k < |s| ==> !IsParen(s[k])
    ensures Depth(s, d) == Some(d)
  {
    if s != [] {
      DepthNoParens(s[1..], d);
    }
  }

  lemma BalancedConcat(a: string, b: string)
    requires Balanced(a) && Balanced(b)
    ensures Balanced(a + b)
  {
    DepthConcat(a, b, 0);
  }

  /** `:name(value)` is balanced when `value` is. */
  lemma BalancedPseudoText(p: PseudoClass)
    requires AllIdent(p.name) && Balanced(p.value)
    ensures Balanced(PseudoText(p))
  {
    var head := [':'] + p.name;
    assert forall k :: 0 <= k < |head| ==> !IsParen(head[k]) by {
      forall k | 0 <= k < |head| ensures !IsParen(head[k]) {
        if k > 0 {
          assert head[k] == p.name[k - 1];
        }
      }
    }
    DepthNoParens(head, 0);
    DepthShift(p.value, 0, 0);
    assert PseudoText(p) == head + (['('] + (p.value + [')']));
    DepthConcat(head, ['('] + (p.value + [')']), 0);
    assert (['('] + (p.value + [')']))[1..] == p.value + [')'];
    DepthConcat(p.value, [')'], 1);
  }

  /**
   * One match of PSEUDORE `:(ID)\(([^()]+|(?R)+)\)` at the start of `s`:
   * the pair it captures and the length it consumes. The pattern has at
   * most one match at a position, so the alternatives are tried in order
   * and no backtracking is needed.
   */
  function MatchPseudo(s: string): (r: Option<(PseudoClass, nat)>)
    decreases |s|, 0
    ensures r.Some? ==> 4 <= r.value.1 <= |s| && |r.value.0.value| + 3 <= r.value.1
  {
    if s == [] || s[0] != ':' then None
    else
      var name := IdentPrefix(s[1..]);
      var open := 1 + |name|;
      if open >= |s| || s[open] != '(' then None
      else
        var arg := s[open + 1..];
        match MatchArgument(arg)
        case None => None
        case Some(k) => Some((PseudoClass(name, arg[..k]), open + k + 2))
  }

  /**
   * `([^()]+|(?R)+)\)` at the start of `a`: the length of the argument
   * before its closing parenthesis. The plain alternative is tried first.
   */
  function MatchArgument(a: string): (r: Option<nat>)
    decreases |a|, 2
    ensures r.Some? ==> 0 < r.value < |a| && a[r.value] == ')'
  {
    var m := NonParenRun(a);
    if 0 < m < |a| && a[m] == ')' then Some(m)
    else
      match MatchPseudoRun(a)
      case None => None
      case Some(k) => if k < |a| && a[k] == ')' then Some(k) else None
  }

  /** `(?R)+`: the greedy run of consecutive pattern matches at the start of `s`, by its length. */
  function MatchPseudoRun(s: string): (r: Option<nat>)
    decreases |s|, 1
    ensures r.Some? ==> 4 <= r.value <= |s|
  {
    match MatchPseudo(s)
    case None => None
    case Some(first) =>
      var n := first.1;
      match MatchPseudoRun(s[n..])
      case None => Some(n)
      case Some(m) => Some(n + m)
  }

  /**
   * A match consumes exactly `:name(value)`, where the name is an identifier
   * and the value is non-empty with balanced parentheses.
   */
  lemma {:induction false} MatchPseudoSound(s: string)
    requires MatchPseudo(s).Some?
    ensures var (p, n) := MatchPseudo(s).value;
      s[..n] == PseudoText(p) && AllIdent(p.name) && p.value != [] && Balanced(p.value)
    decreases |s|, 0, 0
  {
    var name := IdentPrefix(s[1..]);
    IdentPrefixIdent(s[1..]);
    var arg := s[2 + |name|..];
    var k := MatchArgument(arg).value;
    MatchArgumentBalanced(arg);
    PseudoTextAt(s, name, arg[..k]);
  }

  /** The argument of a match is balanced: free of parentheses, or a run of matches. */
  lemma {:induction false} MatchArgumentBalanced(a: string)
    requires MatchArgument(a).Some?
    ensures Balanced(a[..MatchArgument(a).value])
    decreases |a|, 2, 0
  {
    var m := NonParenRun(a);
    if 0 < m < |a| && a[m] == ')' {
      DepthNoParens(a[..m], 0);
    } else {
      MatchPseudoRunBalanced(a);
    }
  }

  lemma PseudoTextAt(s: string, name: string, value: string)
    requires 3 + |name| + |value| <= |s| && s[0] == ':' && s[1..][..|name|] == name
    requires s[1 + |name|] == '(' && s[2 + |name|..][..|value|] == value && s[2 + |name| + |value|] == ')'
    ensures s[..3 + |name| + |value|] == PseudoText(PseudoClass(name, value))
  {
    var o := 1 + |name|;
    assert s[1..o] == name;
    assert s[o + 1..o + 1 + |value|] == value;
    assert s[..o + 1] == [':'] + name + ['('];
    assert s[..o + 1 + |value|] == s[..o + 1] + value;
  }

  /** A run of matches is balanced, being a concatenation of balanced matches. */
  lemma {:induction false} MatchPseudoRunBalanced(s: string)
    requires MatchPseudoRun(s).Some?
    ensures Balanced(s[..MatchPseudoRun(s).value])
    decreases |s|, 1, 0
  {
    var n := MatchPseudo(s).value.1;
    MatchPseudoBalanced(s);
    match MatchPseudoRun(s[n..])
    case None =>
    case Some(m) =>
      MatchPseudoRunBalanced(s[n..]);
      BalancedSplit(s, n, m);
  }

  /** The text of one match is balanced. */
  lemma {:induction false} MatchPseudoBalanced(s: string)
    requires MatchPseudo(s).Some?
    ensures Balanced(s[..MatchPseudo(s).value.1])
    decreases |s|, 0, 1
  {
    MatchPseudoSound(s);
    BalancedPseudoText(MatchPseudo(s).value.0);
  }

  lemma BalancedSplit(s: string, n: nat, m: nat)
    requires n + m <= |s| && Balanced(s[..n]) && Balanced(s[n..][..m])
    ensures Balanced(s[..n + m])
  {
    assert s[..n + m] == s[..n] + s[n..][..m];
    BalancedConcat(s[..n], s[n..][..m]);
  }

  /** `regex.findall(PSEUDORE, s)`: the scan resumes after each match. */
  function FindPseudos(s: string): (r: seq<PseudoClass>)
    decreases |s|
    ensures forall k :: 0 <= k < |r| ==> |r[k].value| + 3 <= |s|
  {
    if s == [] then []
    else
      match MatchPseudo(s)
      case Some(found) => [found.0] + FindPseudos(s[found.1..])
      case None => FindPseudos(s[1..])
  }

  lemma {:induction false} ContainsDrop(s: string, t: string, n: nat)
    requires n <= |s| && Contains(s[n..], t)
    ensures Contains(s, t)
  {
    if n > 0 {
      assert s[1..][n - 1..] == s[n..];
      ContainsDrop(s[1..], t, n - 1);
    }
  }

  /** `p` was matched from `s`: it occurs there as `:name(value)`, with an identifier name and a non-empty balanced value. */
  predicate MatchedFrom(s: string, p: PseudoClass) {
    Contains(s, PseudoText(p)) && AllIdent(p.name) && p.value != [] && Balanced(p.value)
  }

  lemma MatchedFromDrop(s: string, n: nat, p: PseudoClass)
    requires n <= |s| && MatchedFrom(s[n..], p)
    ensures MatchedFrom(s, p)
  {
    ContainsDrop(s, PseudoText(p), n);
  }

  lemma MatchPseudoMatchedFrom(s: string)
    requires MatchPseudo(s).Some?
    ensures MatchedFrom(s, MatchPseudo(s).value.0)
  {
    MatchPseudoSound(s);
    var (p, n) := MatchPseudo(s).value;
    assert StartsWith(s, PseudoText(p));
  }

  lemma FindPseudosHit(s: string)
    requires MatchPseudo(s).Some?
    ensures FindPseudos(s) == [MatchPseudo(s).value.0] + FindPseudos(s[MatchPseudo(s).value.1..])
  {
  }

  /** Every pair the scanner reports was matched from the text. */
  lemma FindPseudosSound(s: string)
    ensures forall k :: 0 <= k < |FindPseudos(s)| ==> MatchedFrom(s, FindPseudos(s)[k])
  {
    forall k | 0 <= k < |FindPseudos(s)|
      ensures MatchedFrom(s, FindPseudos(s)[k])
    {
      FindPseudosSoundAt(s, k);
    }
  }

  lemma {:induction false} FindPseudosSoundAt(s: string, k: nat)
    requires k < |FindPseudos(s)|
    ensures MatchedFrom(s, FindPseudos(s)[k])
    decreases |s|, 1
  {
    if MatchPseudo(s).Some? {
      FindPseudosSoundHit(s, k);
    } else {
      FindPseudosSoundMiss(s, k);
    }
  }

  lemma {:induction false} FindPseudosSoundHit(s: string, k: nat)
    requires MatchPseudo(s).Some? && k < |FindPseudos(s)|
    ensures MatchedFrom(s, FindPseudos(s)[k])
    decreases |s|, 0
  {
    var found := MatchPseudo(s).value;
    var rest := s[found.1..];
    FindPseudosHit(s);
    if k == 0 {
      MatchPseudoMatchedFrom(s);
    } else {
      FindPseudosSoundAt(rest, k - 1);
      MatchedFromDrop(s, found.1, FindPseudos(rest)[k - 1]);
    }
  }

  lemma {:induction false} FindPseudosSoundMiss(s: string, k: nat)
    requires MatchPseudo(s).None? && k < |FindPseudos(s)|
    ensures MatchedFrom(s, FindPseudos(s)[k])
    decreases |s|, 0
  {
    FindPseudosMiss(s);
    FindPseudosSoundAt(s[1..], k);
    MatchedFromDrop(s, 1, FindPseudos(s[1..])[k]);
  }

  lemma FindPseudosMiss(s: string)
    requires s != [] && MatchPseudo(s).None?
    ensures FindPseudos(s) == FindPseudos(s[1..])
  {
  }

  // ---------------------------------------------------------------- build, build_sub, parse

  /** `Selector.build_sub`: the fields of one compound selector, read off its text. */
  function BuildSub(sub: string, direct: bool, next: Option<Selector>): Selector {
    Selector(sub, IdentPrefix(sub), FirstId(sub), FindClasses(sub), [], FindPseudos(sub), next, direct)
  }

  /**
   * `Selector.build(s, _direct)`: the text up to the first combinator is the
   * head, and the text after it is built recursively, `direct` exactly when
   * the combinator was `>`.
   */
  function Build(s: string, direct: bool): (r: Selector)
    decreases |s|
    ensures r.direct == direct && r.attrs == []
    ensures r.next.None? <==> NoSep(s)
    ensures forall k :: 0 <= k < |r.pseudos| ==> |r.pseudos[k].value| < |s|
  {
    match SplitCombinator(s)
    case None =>
      BuildSub(s, direct, None)
    case Some(cut) =>
      BuildSub(cut.head, direct, Some(Build(cut.tail, '>' in cut.sep)))
  }

  /** The head's text is the longest prefix free of whitespace and `>`. */
  lemma BuildHead(s: string, direct: bool)
    ensures var r := Build(s, direct);
      |r.name| <= |s| && r.name == s[..|r.name|] && NoSep(r.name) &&
      (|r.name| < |s| ==> IsSep(s[|r.name|]))
  {
    match SplitCombinator(s)
    case None =>
    case Some(cut) =>
      assert s[..|cut.head|] == cut.head;
      assert s[|cut.head|] == cut.sep[0];
  }

  /** `Selector.parse`: one chain per comma-separated piece, in order, each built from the stripped piece. */
  function Parse(s: string): (r: seq<Selector>)
    ensures |r| == |Split(s, ',')| >= 1
    ensures forall i :: 0 <= i < |r| ==> r[i] == Build(Strip(Split(s, ',')[i]), false)
  {
    BuildAll(Split(s, ','))
  }

  function BuildAll(pieces: seq<string>): (r: seq<Selector>)
    ensures |r| == |pieces|
    ensures forall i :: 0 <= i < |r| ==> r[i] == Build(Strip(pieces[i]), false)
  {
    if pieces == [] then [] else [Build(Strip(pieces[0]), false)] + BuildAll(pieces[1..])
  }

  /** The chain `pseudo_not` matches against: the first one parsed from the argument. */
  function FirstChain(value: string): (r: Selector)
    ensures forall k :: 0 <= k < |r.pseudos| ==> |r.pseudos[k].value| < |value|
  {
    var pieces := Split(value, ',');
    PieceHead(value, ',');
    Parse(value)[0]
  }

  // ---------------------------------------------------------------- properties of the parser

  /** There is one chain per comma, plus one. */
  lemma ParseCount(s: string)
    ensures |Parse(s)| == Count(s, ',') + 1
  {
    SplitJoin(s, ',');
  }

  /** Parsing distributes over a comma: the chains of `a,b` are those of `a` followed by those of `b`. */
  lemma ParseConcat(a: string, b: string)
    ensures Parse(a + "," + b) == Parse(a) + Parse(b)
  {
    SplitConcat(a, b, ',');
    BuildAllConcat(Split(a, ','), Split(b, ','));
  }

  lemma {:induction false} BuildAllConcat(x: seq<string>, y: seq<string>)
    ensures BuildAll(x + y) == BuildAll(x) + BuildAll(y)
  {
    if x == [] {
      assert x + y == y;
    } else {
      assert (x + y)[0] == x[0];
      assert (x + y)[1..] == x[1..] + y;
      BuildAllConcat(x[1..], y);
    }
  }

  /** No chain produced by `parse` starts with a child combinator. */
  lemma ParseHeadsNotDirect(s: string)
    ensures forall i :: 0 <= i < |Parse(s)| ==> !Parse(s)[i].direct
  {
  }

  /** The selector after the head is a child link exactly when the first non-space character after the head is `>`. */
  lemma BuildDirect(s: string, direct: bool)
    requires Build(s, direct).next.Some?
    ensures var i := |Build(s, direct).name|; var j := i + SpaceRun(s[i..]);
      Build(s, direct).next.value.direct <==> j < |s| && s[j] == '>'
  {
    var cut := SplitCombinator(s).value;
    BuildStep(s, direct);
    DirectCut(cut.head, cut.sep, cut.tail);
  }

  /** After the head, the first non-space character is `>` exactly when the separator holds one. */
  lemma DirectCut(head: string, sep: string, tail: string)
    requires IsSeparator(sep, tail)
    ensures var s := head + sep + tail; var i := |head|; var j := i + SpaceRun(s[i..]);
      '>' in sep <==> j < |s| && s[j] == '>'
  {
    var s := head + sep + tail;
    var i := |head|;
    assert s[i..] == sep + tail;
    if '>' in sep {
      var g :| 0 <= g < |sep| && sep[g] == '>';
      var g0 := FirstGt(sep, g);
      SpaceRunPrefix(sep, tail, g0);
      assert s[i + g0] == (sep + tail)[g0];
    } else {
      assert AllSpace(sep);
      SpaceRunWhole(sep, tail);
      assert s[i + |sep|..] == tail;
    }
  }

  /** The position of the first `>` of a whitespace-and-`>` text that holds one. */
  lemma {:induction false} FirstGt(sep: string, g: nat) returns (g0: nat)
    requires g < |sep| && sep[g] == '>' && forall k :: 0 <= k < |sep| ==> IsSep(sep[k])
    ensures g0 < |sep| && sep[g0] == '>' && forall k :: 0 <= k < g0 ==> IsSpace(sep[k])
  {
    if sep[0] == '>' {
      g0 := 0;
    } else {
      assert g > 0;
      var h := FirstGt(sep[1..], g - 1);
      g0 := h + 1;
      assert forall k :: 1 <= k < g0 ==> sep[k] == sep[1..][k - 1];
    }
  }

  /** A whitespace run inside a pure whitespace-and-`>` text stops at its first `>`. */
  lemma {:induction false} SpaceRunPrefix(sep: string, tail: string, g: nat)
    requires g < |sep| && sep[g] == '>' && forall k :: 0 <= k < g ==> IsSpace(sep[k])
    ensures SpaceRun(sep + tail) == g
  {
    if g > 0 {
      assert (sep + tail)[1..] == sep[1..] + tail;
      SpaceRunPrefix(sep[1..], tail, g - 1);
    }
  }

  lemma {:induction false} SpaceRunWhole(sep: string, tail: string)
    requires AllSpace(sep) && (tail == [] || !IsSpace(tail[0]))
    ensures SpaceRun(sep + tail) == |sep|
  {
    if sep == [] {
      assert sep + tail == tail;
    } else {
      assert (sep + tail)[1..] == sep[1..] + tail;
      SpaceRunWhole(sep[1..], tail);
    }
  }

  /** The characters of `s` that are neither whitespace nor `>`. */
  function RemoveSeps(s: string): string {
    if s == [] then [] else (if IsSep(s[0]) then [] else [s[0]]) + RemoveSeps(s[1..])
  }

  lemma {:induction false} RemoveSepsConcat(a: string, b: string)
    ensures RemoveSeps(a + b) == RemoveSeps(a) + RemoveSeps(b)
  {
    if a == [] {
      assert a + b == b;
    } else {
      assert (a + b)[0] == a[0];
      assert (a + b)[1..] == a[1..] + b;
      RemoveSepsConcat(a[1..], b);
    }
  }

  lemma {:induction false} RemoveSepsNoSep(s: string)
    requires NoSep(s)
    ensures RemoveSeps(s) == s
  {
    if s != [] {
      RemoveSepsNoSep(s[1..]);
    }
  }

  lemma {:induction false} RemoveSepsAllSep(s: string)
    requires forall k :: 0 <= k < |s| ==> IsSep(s[k])
    ensures RemoveSeps(s) == []
  {
    if s != [] {
      RemoveSepsAllSep(s[1..]);
    }
  }

  /** The names of a chain are the text without its separators: no character is lost, none is repeated. */
  lemma {:induction false} BuildNames(s: string, direct: bool)
    ensures Names(Build(s, direct)) == RemoveSeps(s)
    decreases |s|
  {
    match SplitCombinator(s)
    case None =>
      RemoveSepsNoSep(s);
    case Some(cut) =>
      var rest := Build(cut.tail, '>' in cut.sep);
      BuildStep(s, direct);
      BuildNames(cut.tail, '>' in cut.sep);
      RemoveSepsCut(cut.head, cut.sep, cut.tail);
  }

  lemma RemoveSepsCut(head: string, sep: string, tail: string)
    requires NoSep(head) && forall k :: 0 <= k < |sep| ==> IsSep(sep[k])
    ensures RemoveSeps(head + sep + tail) == head + RemoveSeps(tail)
  {
    RemoveSepsConcat(head + sep, tail);
    RemoveSepsConcat(head, sep);
    RemoveSepsNoSep(head);
    RemoveSepsAllSep(sep);
    assert head + [] == head;
  }

  /** One step of `build`: the head and the rest of the chain, as read off the first combinator. */
  lemma BuildStep(s: string, direct: bool)
    ensures match SplitCombinator(s)
      case None => Build(s, direct).name == s && Build(s, direct).next.None?
      case Some(cut) =>
        Build(s, direct).name == cut.head && Build(s, direct).next == Some(Build(cut.tail, '>' in cut.sep))
  {
  }

  /** Every `>` of the text introduces exactly one child link of the chain. */
  lemma {:induction false} BuildChildLinks(s: string, direct: bool)
    ensures ChildLinks(Build(s, direct)) == Count(s, '>')
    decreases |s|
  {
    match SplitCombinator(s)
    case None =>
      CountZero(s, '>');
    case Some(cut) =>
      BuildStep(s, direct);
      BuildChildLinks(cut.tail, '>' in cut.sep);
      CountCut(cut.head, cut.sep, cut.tail);
  }

  /** A split removes as many `>` from the text as its separator holds: one or none. */
  lemma CountCut(head: string, sep: string, tail: string)
    requires NoSep(head) && IsSeparator(sep, tail)
    ensures Count(head + sep + tail, '>') == (if '>' in sep then 1 else 0) + Count(tail, '>')
  {
    CountConcat(head + sep, tail, '>');
    CountConcat(head, sep, '>');
    CountZero(head, '>');
    CountZero(sep, '>');
  }

  /** Length of the run of whitespace and `>` at the start of `s`. */
  function SepRun(s: string): (n: nat)
    ensures n <= |s|
  {
    if s != [] && IsSep(s[0]) then 1 + SepRun(s[1..]) else 0
  }

  /**
   * Number of maximal runs of whitespace and `>` that hold no `>`: each is one
   * descendant separator, while each `>` is one child separator.
   */
  function BareRuns(s: string): nat
    decreases |s|
  {
    if s == [] then 0
    else if !IsSep(s[0]) then BareRuns(s[1..])
    else
      var n := SepRun(s);
      (if '>' in s[..n] then 0 else 1) + BareRuns(s[n..])
  }

  lemma {:induction false} BareRunsSkip(h: string, t: string)
    requires NoSep(h)
    ensures BareRuns(h + t) == BareRuns(t)
  {
    if h == [] {
      assert h + t == t;
    } else {
      assert (h + t)[0] == h[0];
      assert (h + t)[1..] == h[1..] + t;
      BareRunsSkip(h[1..], t);
    }
  }

  lemma {:induction false} SepRunConcat(x: string, t: string)
    requires forall k :: 0 <= k < |x| ==> IsSep(x[k])
    ensures SepRun(x + t) == |x| + SepRun(t)
  {
    if x == [] {
      assert x + t == t;
    } else {
      assert (x + t)[0] == x[0];
      assert (x + t)[1..] == x[1..] + t;
      SepRunConcat(x[1..], t);
    }
  }

  /** The separator taken by one split accounts for one combinator of the count. */
  lemma BareRunsSeparator(sep: string, tail: string)
    requires IsSeparator(sep, tail)
    ensures BareRuns(sep + tail) == (if '>' in sep then 0 else 1) + BareRuns(tail)
  {
    var x := sep + tail;
    SepRunConcat(sep, tail);
    var n := SepRun(x);
    assert x[0] == sep[0];
    assert x[n..] == tail[SepRun(tail)..];
    assert x[..n] == sep + tail[..SepRun(tail)];
    if '>' !in sep {
      assert SepRun(tail) == 0;
      assert x[..n] == sep;
    } else {
      assert '>' in x[..n];
      if tail != [] && IsSep(tail[0]) {
        assert tail[0] == '>';
        assert '>' in tail[..SepRun(tail)];
      } else {
        assert SepRun(tail) == 0;
      }
    }
  }

  /** A chain has one selector per combinator plus one: every `>` and every bare whitespace run separates two selectors. */
  lemma {:induction false} BuildLength(s: string, direct: bool)
    ensures |Chain(Build(s, direct))| == 1 + Count(s, '>') + BareRuns(s)
    decreases |s|
  {
    match SplitCombinator(s)
    case None =>
      CountZero(s, '>');
      BareRunsNoSep(s);
    case Some(cut) =>
      BuildStep(s, direct);
      BuildLength(cut.tail, '>' in cut.sep);
      CountCut(cut.head, cut.sep, cut.tail);
      BareRunsCut(cut.head, cut.sep, cut.tail);
  }

  lemma BareRunsCut(head: string, sep: string, tail: string)
    requires NoSep(head) && IsSeparator(sep, tail)
    ensures BareRuns(head + sep + tail) == (if '>' in sep then 0 else 1) + BareRuns(tail)
  {
    assert head + sep + tail == head + (sep + tail);
    BareRunsSkip(head, sep + tail);
    BareRunsSeparator(sep, tail);
  }

  lemma {:induction false} BareRunsNoSep(s: string)
    requires NoSep(s)
    ensures BareRuns(s) == 0
  {
    if s != [] {
      BareRunsNoSep(s[1..]);
    }
  }

  /** The empty text parses to one selector with no constraint at all. */
  lemma ParseEmpty()
    ensures Parse("") == [Selector("", "", None, [], [], [], None, false)]
  {
    assert Split("", ',') == [""];
    assert Strip("") == "";
    assert SplitCombinator("") == None;
    assert FindPseudos("") == [];
    assert FindClasses("") == [];
  }

  // ---------------------------------------------------------------- reading particular texts

  /** The ID pattern stops at the first character that is not an identifier character. */
  lemma {:induction false} IdentPrefixStop(s: string, t: string)
    requires AllIdent(s) && (t == [] || !IsIdentChar(t[0]))
    ensures IdentPrefix(s + t) == s
  {
    if s == [] {
      assert s + t == t;
    } else {
      assert (s + t)[0] == s[0] && (s + t)[1..] == s[1..] + t;
      IdentPrefixStop(s[1..], t);
    }
  }

  /** Without a `:` there is no pseudo-class. */
  lemma {:induction false} FindPseudosNone(s: string)
    requires ':' !in s
    ensures FindPseudos(s) == []
  {
    if s != [] {
      assert forall c :: c in s[1..] ==> c in s;
      FindPseudosNone(s[1..]);
    }
  }

  /** Without a `.` there is no class. */
  lemma FindClassesNone(s: string)
    requires '.' !in s
    ensures FindClasses(s) == []
  {
    FindClassesCount(s);
    CountZero(s, '.');
  }

  /** The first separator character of a text that starts with a separator-free head. */
  lemma {:induction false} FirstSepAfter(head: string, rest: string)
    requires NoSep(head) && rest != [] && IsSep(rest[0])
    ensures FirstSep(head + rest) == |head|
  {
    if head == [] {
      assert head + rest == rest;
    } else {
      assert (head + rest)[0] == head[0] && (head + rest)[1..] == head[1..] + rest;
      FirstSepAfter(head[1..], rest);
    }
  }

  /** After the one `>` of a separator there is only whitespace. */
  lemma AfterGtSpace(sep: string, g: nat)
    requires g < |sep| && sep[g] == '>' && Count(sep, '>') <= 1
    requires forall k :: 0 <= k < |sep| ==> IsSep(sep[k])
    ensures AllSpace(sep[g + 1..])
  {
    assert sep == sep[..g + 1] + sep[g + 1..];
    CountConcat(sep[..g + 1], sep[g + 1..], '>');
    CountZero(sep[..g + 1], '>');
    assert sep[..g + 1][g] == '>';
    var after := sep[g + 1..];
    CountZero(after, '>');
    forall k | 0 <= k < |after| ensures IsSpace(after[k]) {
      assert after[k] == sep[g + 1 + k];
    }
  }

  /**
   * The contract of SplitCombinator determines its result: a text made of a
   * separator-free head, a separator match and what follows it is split
   * exactly there.
   */
  lemma SplitCombinatorUnique(head: string, sep: string, tail: string)
    requires NoSep(head) && IsSeparator(sep, tail)
    ensures SplitCombinator(head + sep + tail) == Some(Cut(head, sep, tail))
  {
    var s := head + sep + tail;
    assert s[|head|..] == sep + tail;
    FirstSepAfter(head, sep + tail);
    if '>' in sep {
      CutAtUniqueChild(head, sep, tail);
    } else {
      CutAtUniqueBare(head, sep, tail);
    }
  }

  lemma CutAtUniqueChild(head: string, sep: string, tail: string)
    requires IsSeparator(sep, tail) && '>' in sep
    ensures CutAt(head + sep + tail, |head|) == Cut(head, sep, tail)
  {
    var s := head + sep + tail;
    assert s[..|head|] == head && s[|head|..] == sep + tail;
    var g :| 0 <= g < |sep| && sep[g] == '>';
    var g0 := FirstGt(sep, g);
    AfterGtSpace(sep, g0);
    var a, b := sep[..g0], sep[g0 + 1..];
    assert sep == a + ">" + b;
    SepMatchChild(a, b, tail);
  }

  /** The match of a separator with a `>`, given its whitespace on either side. */
  lemma SepMatchChild(a: string, b: string, tail: string)
    requires AllSpace(a) && AllSpace(b) && (tail == [] || !IsSpace(tail[0]))
    ensures SepMatch(a + ">" + b + tail) == (a + ">" + b, tail)
  {
    var t := a + ">" + b + tail;
    var r := ">" + b + tail;
    assert t == a + r;
    SpaceRunWhole(a, r);
    assert t[..|a|] == a && t[|a|..] == r;
    assert r[1..] == b + tail;
    SpaceRunWhole(b, tail);
    assert (b + tail)[..|b|] == b && (b + tail)[|b|..] == tail;
  }

  lemma CutAtUniqueBare(head: string, sep: string, tail: string)
    requires IsSeparator(sep, tail) && '>' !in sep
    ensures CutAt(head + sep + tail, |head|) == Cut(head, sep, tail)
  {
    var s := head + sep + tail;
    assert s[..|head|] == head && s[|head|..] == sep + tail;
    assert AllSpace(sep);
    SpaceRunWhole(sep, tail);
    assert (sep + tail)[..|sep|] == sep && (sep + tail)[|sep|..] == tail;
  }

  /** Characters other than `.` before a text are skipped by the class scanner. */
  lemma {:induction false} FindClassesSkip(s: string, t: string)
    requires '.' !in s
    ensures FindClasses(s + t) == FindClasses(t)
  {
    if s != [] {
      assert (s + t)[0] == s[0] && (s + t)[1..] == s[1..] + t;
      FindClassesSkip(s[1..], t);
    } else {
      assert s + t == t;
    }
  }

  /** `.c` followed by a text that does not continue the identifier: the class `c`, then the classes of that text. */
  lemma ClassAfterDot(c: string, t: string)
    requires AllIdent(c) && (t == [] || !IsIdentChar(t[0]))
    ensures FindClasses("." + c + t) == [c] + FindClasses(t)
  {
    var s := "." + c + t;
    assert s[1..] == c + t;
    IdentPrefixStop(c, t);
    assert s[1 + |c|..] == t;
  }

  /** A text with no separator, no `.` and no `:` is a single compound selector with at most a type and an id. */
  lemma BuildPlain(s: string, direct: bool)
    requires NoSep(s) && '.' !in s && ':' !in s
    ensures Build(s, direct) == Selector(s, IdentPrefix(s), FirstId(s), [], [], [], None, direct)
  {
    FindClassesNone(s);
    FindPseudosNone(s);
  }

  /** A head, a separator match and the rest build the head's selector, followed by the rest's chain. */
  lemma BuildCut(head: string, sep: string, tail: string, direct: bool)
    requires NoSep(head) && IsSeparator(sep, tail)
    ensures Build(head + sep + tail, direct) == BuildSub(head, direct, Some(Build(tail, '>' in sep)))
  {
    SplitCombinatorUnique(head, sep, tail);
  }

  /** A piece without a comma parses to the one chain of its stripped text. */
  lemma ParseSingle(s: string)
    requires ',' !in s
    ensures Parse(s) == [Build(Strip(s), false)]
  {
    SplitNone(s, ',');
  }

  lemma {:induction false} NonParenRunStop(v: string, rest: string)
    requires (forall k :: 0 <= k < |v| ==> !IsParen(v[k])) && rest != [] && IsParen(rest[0])
    ensures NonParenRun(v + rest) == |v|
  {
    if v == [] {
      assert v + rest == rest;
    } else {
      assert (v + rest)[0] == v[0] && (v + rest)[1..] == v[1..] + rest;
      NonParenRunStop(v[1..], rest);
    }
  }

  /** `:name(` followed by an argument that the argument pattern accepts, a `)` and anything. */
  lemma MatchPseudoWith(name: string, arg: string, rest: string)
    requires AllIdent(name) && MatchArgument(arg + ")" + rest) == Some(|arg|)
    ensures MatchPseudo(":" + name + "(" + arg + ")" + rest) == Some((PseudoClass(name, arg), |name| + |arg| + 3))
  {
    var a := arg + ")" + rest;
    var s := ":" + name + "(" + arg + ")" + rest;
    Regroup(":" + name + "(", arg, ")", rest);
    PseudoParts(s, name, a);
    assert a[..|arg|] == arg;
    MatchPseudoAt(s, name, a, arg);
  }

  lemma Regroup(p: string, q: string, r: string, t: string)
    ensures p + q + r + t == p + (q + r + t)
  {
  }

  lemma PseudoParts(s: string, name: string, a: string)
    requires AllIdent(name) && s == ":" + name + "(" + a
    ensures s != [] && s[0] == ':' && IdentPrefix(s[1..]) == name
    ensures 1 + |name| < |s| && s[1 + |name|] == '(' && s[2 + |name|..] == a
  {
    assert s[1..] == name + ("(" + a);
    IdentPrefixStop(name, "(" + a);
  }

  /** One match read off its parts: the `:`, the name, the `(` and the argument the argument pattern accepts. */
  lemma MatchPseudoAt(s: string, name: string, a: string, value: string)
    requires s != [] && s[0] == ':' && IdentPrefix(s[1..]) == name
    requires 1 + |name| < |s| && s[1 + |name|] == '(' && s[2 + |name|..] == a
    requires MatchArgument(a) == Some(|value|) && a[..|value|] == value
    ensures MatchPseudo(s) == Some((PseudoClass(name, value), |name| + |value| + 3))
  {
    MatchPseudoParts(s, name, a, |value|);
  }

  lemma MatchPseudoParts(s: string, name: string, a: string, k: nat)
    requires s != [] && s[0] == ':' && IdentPrefix(s[1..]) == name
    requires 1 + |name| < |s| && s[1 + |name|] == '(' && s[2 + |name|..] == a && MatchArgument(a) == Some(k)
    ensures MatchPseudo(s).Some? && MatchPseudo(s).value.0.name == name && MatchPseudo(s).value.0.value == a[..k]
    ensures MatchPseudo(s).value.1 == 3 + |name| + k
  {
  }

  /** An empty argument matches neither alternative, so `:name()` is no match. */
  lemma NoEmptyArgument(name: string, rest: string)
    requires AllIdent(name)
    ensures MatchPseudo(":" + name + "(" + (")" + rest)) == None
  {
    var a := ")" + rest;
    var s := ":" + name + "(" + a;
    PseudoParts(s, name, a);
    MatchPseudoNone(a);
    MatchArgumentNone(a);
    MatchPseudoNoArgument(s, name, a);
  }

  lemma MatchArgumentNone(a: string)
    requires a != [] && a[0] == ')' && MatchPseudoRun(a) == None
    ensures MatchArgument(a) == None
  {
  }

  lemma MatchPseudoNoArgument(s: string, name: string, a: string)
    requires s != [] && s[0] == ':' && IdentPrefix(s[1..]) == name
    requires 1 + |name| < |s| && s[1 + |name|] == '(' && s[2 + |name|..] == a && MatchArgument(a) == None
    ensures MatchPseudo(s) == None
  {
  }

  /** A non-empty argument free of parentheses is taken by the plain alternative. */
  lemma MatchArgumentPlain(value: string, rest: string)
    requires value != [] && forall k :: 0 <= k < |value| ==> !IsParen(value[k])
    ensures MatchArgument(value + ")" + rest) == Some(|value|)
  {
    assert value + ")" + rest == value + (")" + rest);
    NonParenRunStop(value, ")" + rest);
  }

  /** `:name(value)` with an identifier name and a non-empty value free of parentheses is one match. */
  lemma MatchPseudoSimple(name: string, value: string, rest: string)
    requires AllIdent(name) && value != [] && forall k :: 0 <= k < |value| ==> !IsParen(value[k])
    ensures MatchPseudo(":" + name + "(" + value + ")" + rest) == Some((PseudoClass(name, value), |name| + |value| + 3))
  {
    MatchArgumentPlain(value, rest);
    MatchPseudoWith(name, value, rest);
  }

  /** `:name(:inner(value))`: the argument is itself one match of the pattern, kept unparsed. */
  lemma MatchPseudoNested(name: string, inner: string, value: string, rest: string)
    requires AllIdent(name) && AllIdent(inner) && value != [] && forall k :: 0 <= k < |value| ==> !IsParen(value[k])
    ensures var arg := ":" + inner + "(" + value + ")";
      MatchPseudo(":" + name + "(" + arg + ")" + rest) == Some((PseudoClass(name, arg), |name| + |arg| + 3))
  {
    var arg := ":" + inner + "(" + value + ")";
    MatchArgumentNested(inner, value, rest);
    MatchPseudoWith(name, arg, rest);
  }

  /** An argument `:inner(value)` is taken by the recursive alternative. */
  lemma MatchArgumentNested(inner: string, value: string, rest: string)
    requires AllIdent(inner) && value != [] && forall k :: 0 <= k < |value| ==> !IsParen(value[k])
    ensures MatchArgument(":" + inner + "(" + value + ")" + ")" + rest) == Some(|inner| + |value| + 3)
  {
    var arg := ":" + inner + "(" + value + ")";
    var a := arg + ")" + rest;
    var tail := "(" + value + ")" + ")" + rest;
    assert a == (":" + inner) + tail;
    NonParenRunStop(":" + inner, tail);
    assert a == ":" + inner + "(" + value + ")" + (")" + rest);
    MatchPseudoRunSingle(inner, value, ")" + rest);
    assert a[|arg|] == ')';
  }

  /** A run of one match, followed by a text that does not start with `:`. */
  lemma MatchPseudoRunSingle(inner: string, value: string, rest: string)
    requires AllIdent(inner) && value != [] && forall k :: 0 <= k < |value| ==> !IsParen(value[k])
    requires rest == [] || rest[0] != ':'
    ensures MatchPseudoRun(":" + inner + "(" + value + ")" + rest) == Some(|inner| + |value| + 3)
  {
    var s := ":" + inner + "(" + value + ")" + rest;
    var n := |inner| + |value| + 3;
    MatchPseudoSimple(inner, value, rest);
    assert s[n..] == rest;
    MatchPseudoNone(rest);
    MatchPseudoRunStep(s);
  }

  lemma MatchPseudoNone(s: string)
    requires s == [] || s[0] != ':'
    ensures MatchPseudo(s) == None && MatchPseudoRun(s) == None
  {
  }

  lemma MatchPseudoRunStep(s: string)
    requires MatchPseudo(s).Some?
    ensures var n := MatchPseudo(s).value.1;
      MatchPseudoRun(s) == if MatchPseudoRun(s[n..]).None? then Some(n) else Some(n + MatchPseudoRun(s[n..]).value)
  {
  }
}
