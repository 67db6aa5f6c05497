/**
 * The selectors of the parser's own examples, read by the model of
 * module Selectors: what `parse` returns for each shape of selector the
 * examples use, and then for the example texts themselves.
 */
module SelectorExamples {
  import opened Wrappers
  import opened Text
  import opened Selectors

  /** A compound selector with only a type. */
  function Typed(t: string, next: Option<Selector>, direct: bool): Selector {
    Selector(t, t, None, [], [], [], next, direct)
  }

  /** A compound selector with no type and only pseudo-classes. */
  function Pseudos(text: string, ps: seq<PseudoClass>): Selector {
    Selector(text, "", None, [], [], ps, None, false)
  }

  // ---------------------------------------------------------------- characters

  /** Identifier characters and the punctuation of a pseudo-class. */
  predicate Flat(s: string) {
    forall k :: 0 <= k < |s| ==> IsIdentChar(s[k]) || s[k] == ':' || s[k] == '(' || s[k] == ')'
  }

  lemma FlatFacts(s: string)
    requires Flat(s)
    ensures NoSep(s) && ',' !in s && '.' !in s && '#' !in s
    ensures s != [] ==> !IsSpace(s[0]) && !IsSpace(s[|s| - 1])
  {
    assert forall k :: 0 <= k < |s| ==> s[k] != ',' && s[k] != '.' && s[k] != '#';
  }

  lemma IdentFacts(t: string)
    requires AllIdent(t)
    ensures Flat(t) && ':' !in t && forall k :: 0 <= k < |t| ==> !IsParen(t[k])
  {
    assert forall k :: 0 <= k < |t| ==> t[k] != ':';
  }

  lemma FlatJoin(a: string, b: string)
    requires Flat(a) && Flat(b)
    ensures Flat(a + b)
  {
    assert forall k :: 0 <= k < |a + b| ==> (a + b)[k] == if k < |a| then a[k] else b[k - |a|];
  }

  /** The text of one pseudo-class with an identifier argument. */
  lemma FlatPseudo(name: string, value: string)
    requires AllIdent(name) && AllIdent(value)
    ensures Flat(":" + name + "(" + value + ")")
  {
    IdentFacts(name);
    IdentFacts(value);
    FlatJoin(":", name);
    FlatJoin(":" + name, "(");
    FlatJoin(":" + name + "(", value);
    FlatJoin(":" + name + "(" + value, ")");
  }

  // ---------------------------------------------------------------- reading helpers

  lemma IdentWhole(s: string)
    requires AllIdent(s)
    ensures IdentPrefix(s) == s
  {
    assert s + [] == s;
    IdentPrefixStop(s, []);
  }

  lemma StripWhole(s: string)
    requires s != [] && !IsSpace(s[0]) && !IsSpace(s[|s| - 1])
    ensures Strip(s) == s
  {
    assert [] + s + [] == s;
    StripAround([], s, []);
  }

  /** A text that starts with a character outside the ID pattern has no type. */
  lemma NoType(s: string)
    requires s != [] && !IsIdentChar(s[0])
    ensures IdentPrefix(s) == ""
  {
    assert [] + s == s;
    IdentPrefixStop([], s);
  }

  lemma NoPseudoLeft(s: string, n: nat)
    requires n == |s|
    ensures FindPseudos(s[n..]) == []
  {
    assert s[n..] == [];
  }

  /** A bare identifier is a type selector. */
  lemma BuildTyped(t: string, direct: bool, next: Option<Selector>)
    requires AllIdent(t)
    ensures BuildSub(t, direct, next) == Typed(t, next, direct)
  {
    IdentFacts(t);
    FlatFacts(t);
    IdentWhole(t);
    FindClassesNone(t);
    FindPseudosNone(t);
  }

  /** A text with no separator is one compound selector. */
  lemma BuildAlone(s: string, direct: bool)
    requires NoSep(s)
    ensures Build(s, direct) == BuildSub(s, direct, None)
  {
  }

  /** The one chain of a text that needs no stripping and holds no comma. */
  lemma ParseOne(s: string)
    requires ',' !in s && s != [] && !IsSpace(s[0]) && !IsSpace(s[|s| - 1])
    ensures Parse(s) == [Build(s, false)]
  {
    ParseSingle(s);
    StripWhole(s);
  }

  /** A single compound selector that needs no stripping: its fields read off its text. */
  lemma ParseCompoundText(s: string, typ: string, classes: seq<string>, ps: seq<PseudoClass>)
    requires NoSep(s) && ',' !in s && '#' !in s && s != [] && !IsSpace(s[0]) && !IsSpace(s[|s| - 1])
    requires IdentPrefix(s) == typ && FindClasses(s) == classes && FindPseudos(s) == ps
    ensures Parse(s) == [Selector(s, typ, None, classes, [], ps, None, false)]
  {
    BuildAlone(s, false);
    ParseOne(s);
  }

  // ---------------------------------------------------------------- the shapes

  /** `t`: one chain, one type selector. */
  lemma ParseType(t: string)
    requires AllIdent(t) && t != []
    ensures Parse(t) == [Typed(t, None, false)]
  {
    IdentFacts(t);
    FlatFacts(t);
    BuildAlone(t, false);
    BuildTyped(t, false, None);
    ParseOne(t);
  }

  /** `a, b`: two chains, in order, the second stripped of its leading space. */
  lemma ParseTwo(a: string, b: string)
    requires AllIdent(a) && a != [] && AllIdent(b) && b != []
    ensures Parse(a + ", " + b) == [Typed(a, None, false), Typed(b, None, false)]
  {
    ParseType(a);
    ParseSpaced(b);
    ParseJoin(a, " " + b, Typed(a, None, false), Typed(b, None, false));
    CommaSpace(a, b);
  }

  lemma ParseJoin(x: string, y: string, fx: Selector, fy: Selector)
    requires Parse(x) == [fx] && Parse(y) == [fy]
    ensures Parse(x + "," + y) == [fx, fy]
  {
    PairConcat(fx, fy);
    ParseConcat(x, y);
  }

  lemma PairConcat<T>(a: T, b: T)
    ensures [a] + [b] == [a, b]
  {
  }

  lemma CommaSpace(a: string, b: string)
    ensures a + ", " + b == a + "," + (" " + b)
  {
    assert ", " == "," + " ";
  }

  /** ` t`: the leading space is stripped. */
  lemma ParseSpaced(t: string)
    requires AllIdent(t) && t != []
    ensures Parse(" " + t) == [Typed(t, None, false)]
  {
    IdentFacts(t);
    FlatFacts(t);
    var s := " " + t;
    assert ',' !in s;
    assert " " + t + "" == s;
    StripAround(" ", t, "");
    BuildAlone(t, false);
    BuildTyped(t, false, None);
    ParseSingle(s);
  }

  /** `a > b`: the type selector `b` as a child link after `a`. */
  lemma ParseChild(a: string, b: string)
    requires AllIdent(a) && a != [] && AllIdent(b) && b != []
    ensures Parse(a + " > " + b) == [Typed(a, Some(Typed(b, None, true)), false)]
  {
    IdentFacts(a);
    FlatFacts(a);
    IdentFacts(b);
    FlatFacts(b);
    var s := a + " > " + b;
    assert ',' !in s && s[0] == a[0] && s[|s| - 1] == b[|b| - 1];
    assert " > " == " " + ">" + " ";
    SeparatorChild(" ", " ", b);
    assert '>' in " > ";
    BuildAlone(b, true);
    BuildTyped(b, true, None);
    BuildTyped(a, false, Some(Typed(b, None, true)));
    BuildCut(a, " > ", b, false);
    ParseOne(s);
  }

  /** `a b`: the type selector `b` as a descendant link after `a`. */
  lemma ParseDescendant(a: string, b: string)
    requires AllIdent(a) && a != [] && AllIdent(b) && b != []
    ensures Parse(a + " " + b) == [Typed(a, Some(Typed(b, None, false)), false)]
  {
    IdentFacts(a);
    FlatFacts(a);
    IdentFacts(b);
    FlatFacts(b);
    var s := a + " " + b;
    assert ',' !in s && s[0] == a[0] && s[|s| - 1] == b[|b| - 1];
    assert IsIdentChar(b[0]);
    SeparatorBare(" ", b);
    assert '>' !in " ";
    BuildAlone(b, false);
    BuildTyped(b, false, None);
    BuildTyped(a, false, Some(Typed(b, None, false)));
    BuildCut(a, " ", b, false);
    ParseOne(s);
  }

  /** `.c > b`: a head with the class `c` and no type, then `b` as a child link. */
  lemma ParseClassChild(c: string, b: string)
    requires AllIdent(c) && AllIdent(b) && b != []
    ensures Parse("." + c + " > " + b) ==
      [Selector("." + c, "", None, [c], [], [], Some(Typed(b, None, true)), false)]
  {
    IdentFacts(c);
    FlatFacts(c);
    IdentFacts(b);
    FlatFacts(b);
    var h := "." + c;
    assert NoSep(h);
    var s := h + " > " + b;
    assert ',' !in s && s[0] == '.' && s[|s| - 1] == b[|b| - 1];
    assert " > " == " " + ">" + " ";
    SeparatorChild(" ", " ", b);
    assert '>' in " > ";
    BuildAlone(b, true);
    BuildTyped(b, true, None);
    ClassHead(c, Some(Typed(b, None, true)));
    BuildCut(h, " > ", b, false);
    ParseOne(s);
  }

  /** `.c` alone: no type and the one class `c`. */
  lemma ClassHead(c: string, next: Option<Selector>)
    requires AllIdent(c)
    ensures BuildSub("." + c, false, next) == Selector("." + c, "", None, [c], [], [], next, false)
  {
    IdentFacts(c);
    FlatFacts(c);
    var h := "." + c;
    assert '#' !in h && ':' !in h;
    NoType(h);
    assert h == "." + c + "";
    ClassAfterDot(c, "");
    assert FindClasses("") == [];
    FindPseudosNone(h);
  }

  /** `t.c.d`: the type `t` and the classes `c` and `d`, in order. */
  lemma ParseComposed(t: string, c: string, d: string)
    requires AllIdent(t) && t != [] && AllIdent(c) && AllIdent(d) && d != []
    ensures Parse(t + "." + c + "." + d) == [Selector(t + "." + c + "." + d, t, None, [c, d], [], [], None, false)]
  {
    var s := t + "." + c + "." + d;
    ComposedFacts(t, c, d);
    ComposedClasses(t, c, d);
    ParseCompoundText(s, t, [c, d], []);
  }

  lemma ComposedFacts(t: string, c: string, d: string)
    requires AllIdent(t) && t != [] && AllIdent(c) && AllIdent(d) && d != []
    ensures var s := t + "." + c + "." + d;
      NoSep(s) && ',' !in s && '#' !in s && !IsSpace(s[0]) && !IsSpace(s[|s| - 1]) &&
      IdentPrefix(s) == t && FindPseudos(s) == []
  {
    IdentFacts(t);
    FlatFacts(t);
    IdentFacts(c);
    FlatFacts(c);
    IdentFacts(d);
    FlatFacts(d);
    var u := "." + c + "." + d;
    var s := t + u;
    assert t + "." + c + "." + d == s;
    assert NoSep(s) && ',' !in s && '#' !in s && ':' !in s;
    assert s[0] == t[0] && s[|s| - 1] == d[|d| - 1];
    IdentPrefixStop(t, u);
    FindPseudosNone(s);
  }

  lemma ComposedClasses(t: string, c: string, d: string)
    requires AllIdent(t) && AllIdent(c) && AllIdent(d)
    ensures FindClasses(t + "." + c + "." + d) == [c, d]
  {
    IdentFacts(t);
    FlatFacts(t);
    DotsRegroup(t, c, d);
    FindClassesSkip(t, "." + c + ("." + d));
    TwoClasses(c, d);
  }

  lemma DotsRegroup(t: string, c: string, d: string)
    ensures t + "." + c + "." + d == t + ("." + c + ("." + d))
  {
  }

  lemma TwoClasses(c: string, d: string)
    requires AllIdent(c) && AllIdent(d)
    ensures FindClasses("." + c + ("." + d)) == [c, d]
  {
    ClassAfterDot(c, "." + d);
    OneClass(d);
  }

  lemma OneClass(d: string)
    requires AllIdent(d)
    ensures FindClasses("." + d) == [d]
  {
    assert "." + d == "." + d + "";
    ClassAfterDot(d, "");
    assert FindClasses("") == [];
  }

  /** `t#i`: the type `t` and the ID `i`. */
  lemma ParseTypeId(t: string, i: string)
    requires AllIdent(t) && t != [] && AllIdent(i) && i != []
    ensures Parse(t + "#" + i) == [Selector(t + "#" + i, t, Some(i), [], [], [], None, false)]
  {
    var s := t + "#" + i;
    TypeIdFacts(t, i);
    BuildAlone(s, false);
    ParseOne(s);
  }

  lemma TypeIdFacts(t: string, i: string)
    requires AllIdent(t) && t != [] && AllIdent(i) && i != []
    ensures var s := t + "#" + i;
      NoSep(s) && ',' !in s && !IsSpace(s[0]) && !IsSpace(s[|s| - 1]) &&
      BuildSub(s, false, None) == Selector(s, t, Some(i), [], [], [], None, false)
  {
    IdentFacts(t);
    FlatFacts(t);
    IdentFacts(i);
    FlatFacts(i);
    var s := t + "#" + i;
    assert s == t + ("#" + i);
    assert NoSep(s) && ',' !in s && '.' !in s && ':' !in s;
    assert s[0] == t[0] && s[|s| - 1] == i[|i| - 1];
    IdentPrefixStop(t, "#" + i);
    assert s[|t|] == '#' && s[..|t|] == t && s[|t| + 1..] == i;
    FirstIdAfterFirstHash(s, |t|);
    IdentWhole(i);
    FindClassesNone(s);
    FindPseudosNone(s);
  }

  /** `:n(v)`: one pseudo-class, `n` with the argument `v`. */
  lemma ParsePseudo(n: string, v: string)
    requires AllIdent(n) && AllIdent(v) && v != []
    ensures var s := ":" + n + "(" + v + ")"; Parse(s) == [Pseudos(s, [PseudoClass(n, v)])]
  {
    var s := ":" + n + "(" + v + ")";
    FlatPseudo(n, v);
    FlatFacts(s);
    NoType(s);
    FindClassesNone(s);
    OnePseudo(n, v);
    ParseCompoundText(s, "", [], [PseudoClass(n, v)]);
  }

  lemma OnePseudo(n: string, v: string)
    requires AllIdent(n) && AllIdent(v) && v != []
    ensures FindPseudos(":" + n + "(" + v + ")") == [PseudoClass(n, v)]
  {
    var s := ":" + n + "(" + v + ")";
    IdentFacts(v);
    assert s + "" == s;
    MatchPseudoSimple(n, v, "");
    FindPseudosHit(s);
    NoPseudoLeft(s, |n| + |v| + 3);
  }

  /** `:n(:m(v))`: one pseudo-class, whose argument `:m(v)` is kept as text. */
  lemma ParseNested(n: string, m: string, v: string)
    requires AllIdent(n) && AllIdent(m) && AllIdent(v) && v != []
    ensures var arg := ":" + m + "(" + v + ")"; var s := ":" + n + "(" + arg + ")";
      Parse(s) == [Pseudos(s, [PseudoClass(n, arg)])]
  {
    var arg := ":" + m + "(" + v + ")";
    var s := ":" + n + "(" + arg + ")";
    FlatPseudo(m, v);
    IdentFacts(n);
    FlatJoin(":", n);
    FlatJoin(":" + n, "(");
    FlatJoin(":" + n + "(", arg);
    FlatJoin(":" + n + "(" + arg, ")");
    FlatFacts(s);
    NoType(s);
    FindClassesNone(s);
    NestedPseudo(n, m, v);
    ParseCompoundText(s, "", [], [PseudoClass(n, arg)]);
  }

  lemma NestedPseudo(n: string, m: string, v: string)
    requires AllIdent(n) && AllIdent(m) && AllIdent(v) && v != []
    ensures var arg := ":" + m + "(" + v + ")"; FindPseudos(":" + n + "(" + arg + ")") == [PseudoClass(n, arg)]
  {
    var arg := ":" + m + "(" + v + ")";
    var s := ":" + n + "(" + arg + ")";
    IdentFacts(v);
    assert s + "" == s;
    MatchPseudoNested(n, m, v, "");
    FindPseudosHit(s);
    NoPseudoLeft(s, |n| + |arg| + 3);
  }

  /** `:n(v):m(w)`: two pseudo-classes, in order. */
  lemma ParseCompound(n: string, v: string, m: string, w: string)
    requires AllIdent(n) && AllIdent(v) && v != [] && AllIdent(m) && AllIdent(w) && w != []
    ensures var p := ":" + n + "(" + v + ")"; var q := ":" + m + "(" + w + ")";
      Parse(p + q) == [Pseudos(p + q, [PseudoClass(n, v), PseudoClass(m, w)])]
  {
    var p := ":" + n + "(" + v + ")";
    var q := ":" + m + "(" + w + ")";
    var s := p + q;
    FlatPseudo(n, v);
    FlatPseudo(m, w);
    FlatJoin(p, q);
    FlatFacts(s);
    NoType(s);
    FindClassesNone(s);
    TwoPseudos(n, v, m, w);
    ParseCompoundText(s, "", [], [PseudoClass(n, v), PseudoClass(m, w)]);
  }

  lemma TwoPseudos(n: string, v: string, m: string, w: string)
    requires AllIdent(n) && AllIdent(v) && v != [] && AllIdent(m) && AllIdent(w) && w != []
    ensures var p := ":" + n + "(" + v + ")"; var q := ":" + m + "(" + w + ")";
      FindPseudos(p + q) == [PseudoClass(n, v), PseudoClass(m, w)]
  {
    var p := ":" + n + "(" + v + ")";
    var q := ":" + m + "(" + w + ")";
    var s := p + q;
    IdentFacts(v);
    MatchPseudoSimple(n, v, q);
    FindPseudosHit(s);
    assert s[|n| + |v| + 3..] == q;
    OnePseudo(m, w);
  }

  /** `:n()`: the pseudo-class pattern needs a non-empty argument, so nothing is found and the selector has no test at all. */
  lemma ParseNoArgument(n: string)
    requires AllIdent(n)
    ensures Parse(":" + n + "()") == [Pseudos(":" + n + "()", [])]
  {
    var s := ":" + n + "()";
    IdentFacts(n);
    FlatJoin(":", n);
    FlatJoin(":" + n, "()");
    FlatFacts(s);
    NoType(s);
    FindClassesNone(s);
    EmptyPseudo(n);
    ParseCompoundText(s, "", [], []);
  }

  lemma EmptyPseudo(n: string)
    requires AllIdent(n)
    ensures FindPseudos(":" + n + "()") == []
  {
    var s := ":" + n + "()";
    IdentFacts(n);
    assert s == ":" + n + "(" + (")" + "");
    NoEmptyArgument(n, "");
    FindPseudosMiss(s);
    assert s[1..] == n + "()";
    FindPseudosNone(s[1..]);
  }

  // ---------------------------------------------------------------- the examples

  lemma ParseTypeSelector()
    ensures Parse("class") == [Typed("class", None, false)]
  {
    ParseType("class");
  }

  lemma ParseMultipleSelectors()
    ensures Parse("class, def") == [Typed("class", None, false), Typed("def", None, false)]
  {
    assert "class" + ", " + "def" == "class, def";
    ParseTwo("class", "def");
  }

  lemma ParseChildSelector()
    ensures Parse("class > def") == [Typed("class", Some(Typed("def", None, true)), false)]
  {
    assert "class" + " > " + "def" == "class > def";
    ParseChild("class", "def");
  }

  lemma ParseNonchildSelector()
    ensures Parse("class def") == [Typed("class", Some(Typed("def", None, false)), false)]
  {
    assert "class" + " " + "def" == "class def";
    ParseDescendant("class", "def");
  }

  lemma ParseClassSelectorChild()
    ensures Parse(".class > def") ==
      [Selector(".class", "", None, ["class"], [], [], Some(Typed("def", None, true)), false)]
  {
    assert "." + "class" == ".class";
    assert "." + "class" + " > " + "def" == ".class > def";
    ParseClassChild("class", "def");
  }

  lemma ParseComposedSelector()
    ensures Parse("class.foo.bar") == [Selector("class.foo.bar", "class", None, ["foo", "bar"], [], [], None, false)]
  {
    assert "class" + "." + "foo" + "." + "bar" == "class.foo.bar";
    ParseComposed("class", "foo", "bar");
  }

  lemma ParsePseudoSelector()
    ensures Parse(":not(1)") == [Pseudos(":not(1)", [PseudoClass("not", "1")])]
  {
    assert ":" + "not" + "(" + "1" + ")" == ":not(1)";
    ParsePseudo("not", "1");
  }

  lemma ParseNestedPseudos()
    ensures Parse(":not(:not(1))") == [Pseudos(":not(:not(1))", [PseudoClass("not", ":not(1)")])]
  {
    assert ":" + "not" + "(" + "1" + ")" == ":not(1)";
    assert ":" + "not" + "(" + ":not(1)" + ")" == ":not(:not(1))";
    ParseNested("not", "not", "1");
  }

  lemma ParseCompoundPseudos()
    ensures Parse(":not(1):not(2)") == [Pseudos(":not(1):not(2)", [PseudoClass("not", "1"), PseudoClass("not", "2")])]
  {
    assert ":" + "not" + "(" + "1" + ")" == ":not(1)";
    assert ":" + "not" + "(" + "2" + ")" == ":not(2)";
    assert ":not(1)" + ":not(2)" == ":not(1):not(2)";
    ParseCompound("not", "1", "not", "2");
  }

  lemma ParseDefFoo()
    ensures Parse("def#foo") == [Selector("def#foo", "def", Some("foo"), [], [], [], None, false)]
  {
    assert "def" + "#" + "foo" == "def#foo";
    ParseTypeId("def", "foo");
  }

  lemma ParseEmptyPseudo()
    ensures Parse(":not()") == [Pseudos(":not()", [])]
  {
    assert ":" + "not" + "()" == ":not()";
    ParseNoArgument("not");
  }
}
