/**
 * The forest of the engine's test suite, TestCustomMatcher of
 * test_sizzle.py (the same records as the setUp of pysel.py's
 * TestCustomMatcher), and what the match engine with the test-suite backend
 * yields on it for each selector the suite asks about.
 */
module Fixture {
  import opened Wrappers
  import opened Errors
  import opened Trees
  import opened Selectors
  import opened SelectorExamples
  import opened Engine
  import Prototype

  /** `DEF(name)`: a function record, with no `extends` and no `body`. */
  function Def(name: string): Node {
    Node(FunctionDef, map["name" := name], None, 0, [], Absent)
  }

  /** `CLS(name, extends, body)`. */
  function Cls(name: string, ext: seq<string>, body: seq<Node>): Node {
    Node(ClassDef, map["name" := name], Some(ext), 0, [], Present(body))
  }

  const Foo := Def("foo")
  const Bar := Def("bar")
  const Baz := Def("baz")
  const Test2 := Cls("Test2", [], [Baz])
  const Test := Cls("Test", ["object"], [Foo, Bar, Test2])

  /** `setUp`'s `data`. */
  const Data := [Test, Baz]

  /** The registry of CustomMatchEngine: `not`, then `extends`. */
  const Reg := Prototype.CustomRegistry

  /** `CustomMatchEngine()`. */
  method NewCustomMatchEngine() returns (e: MatchEngine)
    ensures fresh(e) && e.backend == Custom && e.pseudoFns == Reg
  {
    e := new MatchEngine(Custom);
    e.RegisterPseudo("extends", CustomExtends);
  }

  // ---------------------------------------------------------------- the forest

  /** Every node, each before its descendants: the order in which the engine tests them. */
  lemma PreorderData()
    ensures Preorder(Data) == [Test, Foo, Bar, Test2, Baz, Baz]
  {
    assert Preorder([Baz]) == [Baz];
    assert Preorder(Test2.body.nodes) == [Baz];
    assert Preorder([Test2]) == [Test2, Baz];
    assert Preorder([Bar, Test2]) == [Bar, Test2, Baz];
    assert Preorder(Test.body.nodes) == [Foo, Bar, Test2, Baz];
  }

  /** Every node of the forest is one of the five records, and each has a name. */
  lemma DataNodes(n: Node)
    requires n in Preorder(Data)
    ensures n == Test || n == Foo || n == Bar || n == Test2 || n == Baz
    ensures "name" in n.attrs
  {
    PreorderData();
  }

  /** The nodes of `nodes` that satisfy `f`, in order. */
  function Filter(nodes: seq<Node>, f: Node -> bool): (r: seq<Node>)
    ensures forall k :: 0 <= k < |r| ==> r[k] in nodes && f(r[k])
  {
    if nodes == [] then [] else (if f(nodes[0]) then [nodes[0]] else []) + Filter(nodes[1..], f)
  }

  lemma FilterCons(x: Node, r: seq<Node>, f: Node -> bool)
    ensures Filter([x] + r, f) == (if f(x) then [x] else []) + Filter(r, f)
  {
    assert ([x] + r)[1..] == r;
  }

  lemma ConsOne<T>(a: T, b: T)
    ensures [a] + [b] == [a, b]
  {
  }

  lemma ConsTwo<T>(a: T, b: T, c: T)
    ensures [a] + [b, c] == [a, b, c]
  {
  }

  lemma ConsThree<T>(a: T, b: T, c: T, d: T)
    ensures [a] + [b, c, d] == [a, b, c, d]
  {
  }

  lemma ConsFour<T>(a: T, b: T, c: T, d: T, e: T)
    ensures [a] + [b, c, d, e] == [a, b, c, d, e]
  {
  }

  lemma EmptyLeft<T>(r: seq<T>)
    ensures [] + r == r
  {
  }

  lemma EmptyRight<T>(r: seq<T>)
    ensures r + [] == r
  {
  }

  lemma ConsNil<T>(a: T)
    ensures [a] + [] == [a]
  {
  }

  lemma SnocTwo<T>(a: T, b: T, c: T)
    ensures [a, b] + [c] == [a, b, c]
  {
  }

  lemma TwoThenFour<T>(a: T, b: T, c: T, d: T, e: T, f: T)
    ensures [a, b] + [c, d, e, f] == [a, b, c, d, e, f]
  {
  }

  /** `Filter` over the forest, one node at a time. */
  lemma FilterSteps(f: Node -> bool)
    ensures Filter(Preorder(Data), f) == (if f(Test) then [Test] else []) + Filter([Foo, Bar, Test2, Baz, Baz], f)
    ensures Filter([Foo, Bar, Test2, Baz, Baz], f) == (if f(Foo) then [Foo] else []) + Filter([Bar, Test2, Baz, Baz], f)
    ensures Filter([Bar, Test2, Baz, Baz], f) == (if f(Bar) then [Bar] else []) + Filter([Test2, Baz, Baz], f)
    ensures Filter([Test2, Baz, Baz], f) == (if f(Test2) then [Test2] else []) + Filter([Baz, Baz], f)
    ensures Filter([Baz, Baz], f) == (if f(Baz) then [Baz] else []) + Filter([Baz], f)
    ensures Filter([Baz], f) == (if f(Baz) then [Baz] else [])
  {
    PreorderData();
    assert Filter([], f) == [];
    FilterCons(Baz, [], f);
    FilterCons(Baz, [Baz], f);
    FilterCons(Test2, [Baz, Baz], f);
    FilterCons(Bar, [Test2, Baz, Baz], f);
    FilterCons(Foo, [Bar, Test2, Baz, Baz], f);
    FilterCons(Test, [Foo, Bar, Test2, Baz, Baz], f);
  }

  predicate IsClass(n: Node) {
    n.kind == ClassDef
  }

  predicate IsDef(n: Node) {
    n.kind == FunctionDef
  }

  predicate ExtendsObject(n: Node) {
    n.bases.Some? && "object" in n.bases.value
  }

  /** The type test of `t` as a predicate on nodes. */
  function KindOf(t: string): Node -> bool {
    if t == "class" then IsClass else IsDef
  }

  /** A function record named `i`. */
  function DefNamed(i: string): Node -> bool {
    n => IsDef(n) && "name" in n.attrs && n.attrs["name"] == i
  }

  // ---------------------------------------------------------------- walking the forest

  /** A selector text that parses to one chain matches as that chain. */
  lemma OneChain(b: Backend, reg: Registry, selector: string, sel: Selector, data: seq<Node>)
    requires Parse(selector) == [sel]
    ensures MatchSelector(b, reg, selector, data) == MatchData(b, reg, sel, data)
  {
    assert MatchChains(b, reg, [sel], data) == MatchData(b, reg, sel, data).Then(Done([]));
  }

  /** When the node test on every candidate is `f` and never raises, the candidates that pass are those satisfying `f`. */
  lemma {:induction false} SelectBy(b: Backend, reg: Registry, sel: Selector, nodes: seq<Node>, f: Node -> bool)
    requires forall n :: n in nodes ==> MatchNode(b, reg, sel, n) == Success(f(n))
    ensures Select(b, reg, sel, nodes) == Filter(nodes, f)
  {
    if nodes != [] {
      SelectBy(b, reg, sel, nodes[1..], f);
    }
  }

  /** A one-selector chain whose node test is `f` on every node of the forest yields the nodes satisfying `f`, in preorder. */
  lemma Terminal(selector: string, sel: Selector, f: Node -> bool, out: seq<Node>)
    requires Parse(selector) == [sel] && sel.next.None? && !sel.direct
    requires forall n :: n in Preorder(Data) ==> MatchNode(Custom, Reg, sel, n) == Success(f(n))
    requires Filter(Preorder(Data), f) == out
    ensures MatchSelector(Custom, Reg, selector, Data) == Done(out)
  {
    OneChain(Custom, Reg, selector, sel, Data);
    assert Chain(sel) == [sel];
    WalkCompletes(Custom, Reg, sel, Data);
    SingleSelector(Custom, Reg, sel, Data);
    SelectBy(Custom, Reg, sel, Preorder(Data), f);
  }

  /** Two pieces of a selector list that complete yield, joined by a comma, what each yields, in turn. */
  lemma ConcatDone(x: string, y: string, p: seq<Node>, q: seq<Node>)
    requires MatchSelector(Custom, Reg, x, Data) == Done(p)
    requires MatchSelector(Custom, Reg, y, Data) == Done(q)
    ensures MatchSelector(Custom, Reg, x + "," + y, Data) == Done(p + q)
  {
    MatchConcat(Custom, Reg, x, y, Data);
  }

  // ---------------------------------------------------------------- node tests

  /** The type test of the test-suite backend. */
  lemma KindTest(t: string, next: Option<Selector>, direct: bool, node: Node)
    requires t == "class" || t == "def"
    ensures MatchNode(Custom, Reg, Typed(t, next, direct), node) == Success(KindOf(t)(node))
  {
  }

  lemma KindTests(t: string)
    requires t == "class" || t == "def"
    ensures forall n :: n in Preorder(Data) ==> MatchNode(Custom, Reg, Typed(t, None, false), n) == Success(KindOf(t)(n))
  {
    forall n | n in Preorder(Data)
      ensures MatchNode(Custom, Reg, Typed(t, None, false), n) == Success(KindOf(t)(n))
    {
      KindTest(t, None, false, n);
    }
  }

  /** `def#i`: the type test, then the name. */
  lemma IdTest(s: string, i: string, node: Node)
    requires i != "" && "name" in node.attrs
    ensures MatchNode(Custom, Reg, Selector(s, "def", Some(i), [], [], [], None, false), node) == Success(DefNamed(i)(node))
  {
  }

  lemma IdTests(s: string, i: string)
    requires i != ""
    ensures forall n :: n in Preorder(Data) ==>
      MatchNode(Custom, Reg, Selector(s, "def", Some(i), [], [], [], None, false), n) == Success(DefNamed(i)(n))
  {
    forall n | n in Preorder(Data)
      ensures MatchNode(Custom, Reg, Selector(s, "def", Some(i), [], [], [], None, false), n) == Success(DefNamed(i)(n))
    {
      DataNodes(n);
      IdTest(s, i, n);
    }
  }

  /** `:extends(v)` with an argument: membership in `extends`. */
  lemma ExtendsTest(s: string, v: string, node: Node)
    requires v != ""
    ensures MatchNode(Custom, Reg, Pseudos(s, [PseudoClass("extends", v)]), node) ==
      Success(node.bases.Some? && v in node.bases.value)
  {
    var sel := Pseudos(s, [PseudoClass("extends", v)]);
    PseudosOnly(Custom, Reg, sel, node);
    SinglePseudo(Custom, Reg, sel.pseudos, node);
  }

  /** `:not(v)`: the negation of the test of `v`'s first chain. */
  lemma NotTest(s: string, v: string, inner: Selector, node: Node)
    requires Parse(v) == [inner] && MatchNode(Custom, Reg, inner, node).Success?
    ensures MatchNode(Custom, Reg, Pseudos(s, [PseudoClass("not", v)]), node) ==
      Success(!MatchNode(Custom, Reg, inner, node).value)
  {
    var sel := Pseudos(s, [PseudoClass("not", v)]);
    assert FirstChain(v) == inner;
    PseudosOnly(Custom, Reg, sel, node);
    SinglePseudo(Custom, Reg, sel.pseudos, node);
    NotStep(Custom, Reg, v, node);
  }

  /** `:extends(v):not(w)`: the `not` is only evaluated when the `extends` holds. */
  lemma ExtendsNotTest(s: string, v: string, w: string, inner: Selector, node: Node)
    requires v != "" && Parse(w) == [inner] && MatchNode(Custom, Reg, inner, node).Success?
    ensures MatchNode(Custom, Reg, Pseudos(s, [PseudoClass("extends", v), PseudoClass("not", w)]), node) ==
      Success(node.bases.Some? && v in node.bases.value && !MatchNode(Custom, Reg, inner, node).value)
  {
    var sel := Pseudos(s, [PseudoClass("extends", v), PseudoClass("not", w)]);
    assert FirstChain(w) == inner;
    PseudosOnly(Custom, Reg, sel, node);
    assert sel.pseudos[1..] == [PseudoClass("not", w)];
    SinglePseudo(Custom, Reg, sel.pseudos[1..], node);
    NotStep(Custom, Reg, w, node);
  }

  // ---------------------------------------------------------------- which nodes pass

  lemma ClassNodes()
    ensures Filter(Preorder(Data), KindOf("class")) == [Test, Test2]
  {
    var f := KindOf("class");
    assert f(Test) && !f(Foo) && !f(Bar) && f(Test2) && !f(Baz);
    FilterSteps(f);
    EmptyLeft<Node>([]);
    ConsNil(Test2);
    EmptyLeft([Test2]);
    ConsOne(Test, Test2);
  }

  lemma DefNodes()
    ensures Filter(Preorder(Data), KindOf("def")) == [Foo, Bar, Baz, Baz]
  {
    var f := KindOf("def");
    assert !f(Test) && f(Foo) && f(Bar) && !f(Test2) && f(Baz);
    FilterSteps(f);
    ConsOne(Baz, Baz);
    EmptyLeft([Baz, Baz]);
    ConsTwo(Bar, Baz, Baz);
    ConsThree(Foo, Bar, Baz, Baz);
    EmptyLeft([Foo, Bar, Baz, Baz]);
  }

  lemma FooNodes()
    ensures Filter(Preorder(Data), DefNamed("foo")) == [Foo]
  {
    var f := DefNamed("foo");
    assert !f(Test) && f(Foo) && !f(Bar) && !f(Test2) && !f(Baz);
    FilterSteps(f);
    EmptyLeft<Node>([]);
    ConsNil(Foo);
    EmptyLeft([Foo]);
  }

  lemma BlaNodes()
    ensures Filter(Preorder(Data), DefNamed("bla")) == []
  {
    var f := DefNamed("bla");
    assert !f(Test) && !f(Foo) && !f(Bar) && !f(Test2) && !f(Baz);
    FilterSteps(f);
    EmptyLeft<Node>([]);
  }

  /** The one-selector chain `t` alone, whatever text it was parsed from. */
  lemma KindMatch(s: string, t: string, out: seq<Node>)
    requires (t == "class" || t == "def") && Parse(s) == [Typed(t, None, false)]
    requires Filter(Preorder(Data), KindOf(t)) == out
    ensures MatchSelector(Custom, Reg, s, Data) == Done(out)
  {
    KindTests(t);
    Terminal(s, Typed(t, None, false), KindOf(t), out);
  }

  // ---------------------------------------------------------------- test_typ, test_child, test_ids

  /** `class`: the two class records, outer first. */
  lemma MatchClass()
    ensures MatchSelector(Custom, Reg, "class", Data) == Done([Test, Test2])
  {
    ParseTypeSelector();
    ClassNodes();
    KindMatch("class", "class", [Test, Test2]);
  }

  /** ` def`, the second piece of `class, def`: every function record, `baz` twice since it occurs twice. */
  lemma MatchSpacedDef()
    ensures MatchSelector(Custom, Reg, " def", Data) == Done([Foo, Bar, Baz, Baz])
  {
    assert " " + "def" == " def";
    ParseSpaced("def");
    DefNodes();
    KindMatch(" def", "def", [Foo, Bar, Baz, Baz]);
  }

  /** `class, def`: the classes, then the functions; six nodes. */
  lemma MatchClassAndDef()
    ensures MatchSelector(Custom, Reg, "class, def", Data) == Done([Test, Test2, Foo, Bar, Baz, Baz])
  {
    assert "class, def" == "class" + "," + " def";
    TwoThenFour(Test, Test2, Foo, Bar, Baz, Baz);
    MatchClass();
    MatchSpacedDef();
    ConcatDone("class", " def", [Test, Test2], [Foo, Bar, Baz, Baz]);
  }

  /** `def#bla`: no record has that name. */
  lemma MatchDefBla()
    ensures MatchSelector(Custom, Reg, "def#bla", Data) == Done([])
  {
    assert "def" + "#" + "bla" == "def#bla";
    ParseTypeId("def", "bla");
    IdTests("def#bla", "bla");
    BlaNodes();
    Terminal("def#bla", Selector("def#bla", "def", Some("bla"), [], [], [], None, false), DefNamed("bla"), []);
  }

  /** `def#foo`: the one function named `foo`. */
  lemma MatchDefFoo()
    ensures MatchSelector(Custom, Reg, "def#foo", Data) == Done([Foo])
  {
    ParseDefFoo();
    IdTests("def#foo", "foo");
    FooNodes();
    Terminal("def#foo", Selector("def#foo", "def", Some("foo"), [], [], [], None, false), DefNamed("foo"), [Foo]);
  }

  // ---------------------------------------------------------------- test_pseudos, test_pseudos_noargs, test_nested_pseudos

  /** A record whose `extends` lists `v`. */
  function HasBase(v: string): Node -> bool {
    (n: Node) => n.bases.Some? && v in n.bases.value
  }

  lemma ExtendsTests(s: string, v: string)
    requires v != ""
    ensures forall n :: n in Preorder(Data) ==>
      MatchNode(Custom, Reg, Pseudos(s, [PseudoClass("extends", v)]), n) == Success(HasBase(v)(n))
  {
    forall n | n in Preorder(Data)
      ensures MatchNode(Custom, Reg, Pseudos(s, [PseudoClass("extends", v)]), n) == Success(HasBase(v)(n))
    {
      ExtendsTest(s, v, n);
    }
  }

  lemma ObjectNodes()
    ensures Filter(Preorder(Data), HasBase("object")) == [Test]
  {
    var f := HasBase("object");
    assert "object" in Test.bases.value;
    assert f(Test) && !f(Foo) && !f(Bar) && !f(Test2) && !f(Baz);
    FilterSteps(f);
    EmptyLeft<Node>([]);
    ConsNil(Test);
  }

  /** `:extends(object)`: the one class that extends `object`. */
  lemma MatchExtendsObject()
    ensures MatchSelector(Custom, Reg, ":extends(object)", Data) == Done([Test])
  {
    assert ":" + "extends" + "(" + "object" + ")" == ":extends(object)";
    ParsePseudo("extends", "object");
    ExtendsTests(":extends(object)", "object");
    ObjectNodes();
    Terminal(":extends(object)", Pseudos(":extends(object)", [PseudoClass("extends", "object")]), HasBase("object"), [Test]);
  }

  /** A selector that parses to one compound with nothing to test yields every node of the forest. */
  lemma NothingToTest(s: string)
    requires Parse(s) == [Pseudos(s, [])]
    ensures MatchSelector(Custom, Reg, s, Data) == Done(Preorder(Data))
  {
    OneChain(Custom, Reg, s, Pseudos(s, []), Data);
    NothingToTestWalk(s);
  }

  lemma NothingToTestWalk(s: string)
    ensures MatchData(Custom, Reg, Pseudos(s, []), Data) == Done(Preorder(Data))
  {
    var sel := Pseudos(s, []);
    forall n: Node ensures Holds(Custom, Reg, sel, n) {
      EmptySelectorMatchesAll(Custom, Reg, sel, n);
    }
    assert Chain(sel) == [sel];
    WalkCompletes(Custom, Reg, sel, Data);
    SingleSelector(Custom, Reg, sel, Data);
    SelectAll(Custom, Reg, sel, Preorder(Data));
  }

  /**
   * `:extends()`: an empty argument is no pseudo-class at all, so the
   * selector tests nothing and yields all six nodes (the suite expects the
   * one class with an empty `extends`).
   */
  lemma MatchExtendsNoArgument()
    ensures MatchSelector(Custom, Reg, ":extends()", Data) == Done([Test, Foo, Bar, Test2, Baz, Baz])
  {
    assert ":" + "extends" + "()" == ":extends()";
    ParseNoArgument("extends");
    NothingToTest(":extends()");
    PreorderData();
  }

  /** A record that fails `f`. */
  function Fails(f: Node -> bool): Node -> bool {
    n => !f(n)
  }

  lemma NotExtendsTests(s: string, v: string)
    requires v != "" && Parse(":" + "extends" + "(" + v + ")") == [Pseudos(":" + "extends" + "(" + v + ")", [PseudoClass("extends", v)])]
    ensures forall n :: n in Preorder(Data) ==>
      MatchNode(Custom, Reg, Pseudos(s, [PseudoClass("not", ":" + "extends" + "(" + v + ")")]), n) == Success(Fails(HasBase(v))(n))
  {
    var arg := ":" + "extends" + "(" + v + ")";
    forall n | n in Preorder(Data)
      ensures MatchNode(Custom, Reg, Pseudos(s, [PseudoClass("not", arg)]), n) == Success(Fails(HasBase(v))(n))
    {
      ExtendsTest(arg, v, n);
      NotTest(s, arg, Pseudos(arg, [PseudoClass("extends", v)]), n);
    }
  }

  /** `:not(:extends(v))` parses to one compound whose test is the negated `extends` test. */
  lemma NotExtendsFacts(v: string)
    requires AllIdent(v) && v != []
    ensures var arg := ":" + "extends" + "(" + v + ")"; var s := ":" + "not" + "(" + arg + ")";
      var sel := Pseudos(s, [PseudoClass("not", arg)]);
      Parse(s) == [sel] && forall n :: n in Preorder(Data) ==> MatchNode(Custom, Reg, sel, n) == Success(Fails(HasBase(v))(n))
  {
    var arg := ":" + "extends" + "(" + v + ")";
    var s := ":" + "not" + "(" + arg + ")";
    ParseNested("not", "extends", v);
    ParsePseudo("extends", v);
    NotExtendsTests(s, v);
  }

  /** `:not(:extends(v))`: the nodes whose `extends` does not list `v`. */
  lemma NotExtendsMatch(v: string, out: seq<Node>)
    requires AllIdent(v) && v != [] && Filter(Preorder(Data), Fails(HasBase(v))) == out
    ensures MatchSelector(Custom, Reg, ":" + "not" + "(" + (":" + "extends" + "(" + v + ")") + ")", Data) == Done(out)
  {
    var arg := ":" + "extends" + "(" + v + ")";
    var s := ":" + "not" + "(" + arg + ")";
    NotExtendsFacts(v);
    Terminal(s, Pseudos(s, [PseudoClass("not", arg)]), Fails(HasBase(v)), out);
  }

  lemma NotObjectNodes()
    ensures Filter(Preorder(Data), Fails(HasBase("object"))) == [Foo, Bar, Test2, Baz, Baz]
  {
    var f := Fails(HasBase("object"));
    assert "object" in Test.bases.value;
    assert !f(Test) && f(Foo) && f(Bar) && f(Test2) && f(Baz);
    FilterSteps(f);
    ConsOne(Baz, Baz);
    ConsTwo(Test2, Baz, Baz);
    ConsThree(Bar, Test2, Baz, Baz);
    ConsFour(Foo, Bar, Test2, Baz, Baz);
    EmptyLeft([Foo, Bar, Test2, Baz, Baz]);
  }

  /** `:not(:extends(object))`: the five other nodes. */
  lemma MatchNotExtendsObject()
    ensures MatchSelector(Custom, Reg, ":not(:extends(object))", Data) == Done([Foo, Bar, Test2, Baz, Baz])
  {
    assert ":" + "extends" + "(" + "object" + ")" == ":extends(object)";
    assert ":" + "not" + "(" + ":extends(object)" + ")" == ":not(:extends(object))";
    NotObjectNodes();
    NotExtendsMatch("object", [Foo, Bar, Test2, Baz, Baz]);
  }

  lemma NotKindTests(s: string, t: string)
    requires (t == "class" || t == "def") && Parse(t) == [Typed(t, None, false)]
    ensures forall n :: n in Preorder(Data) ==>
      MatchNode(Custom, Reg, Pseudos(s, [PseudoClass("not", t)]), n) == Success(Fails(KindOf(t))(n))
  {
    forall n | n in Preorder(Data)
      ensures MatchNode(Custom, Reg, Pseudos(s, [PseudoClass("not", t)]), n) == Success(Fails(KindOf(t))(n))
    {
      KindTest(t, None, false, n);
      NotTest(s, t, Typed(t, None, false), n);
    }
  }

  /** `:not(t)` parses to one compound whose test is the negated type test. */
  lemma NotKindFacts(t: string)
    requires (t == "class" || t == "def") && AllIdent(t)
    ensures var s := ":" + "not" + "(" + t + ")"; var sel := Pseudos(s, [PseudoClass("not", t)]);
      Parse(s) == [sel] && forall n :: n in Preorder(Data) ==> MatchNode(Custom, Reg, sel, n) == Success(Fails(KindOf(t))(n))
  {
    var s := ":" + "not" + "(" + t + ")";
    ParsePseudo("not", t);
    ParseType(t);
    NotKindTests(s, t);
  }

  /** `:not(t)`: the nodes that fail the type test of `t`. */
  lemma NotKindMatch(t: string, out: seq<Node>)
    requires (t == "class" || t == "def") && AllIdent(t) && Filter(Preorder(Data), Fails(KindOf(t))) == out
    ensures MatchSelector(Custom, Reg, ":" + "not" + "(" + t + ")", Data) == Done(out)
  {
    var s := ":" + "not" + "(" + t + ")";
    NotKindFacts(t);
    Terminal(s, Pseudos(s, [PseudoClass("not", t)]), Fails(KindOf(t)), out);
  }

  lemma NotDefNodes()
    ensures Filter(Preorder(Data), Fails(KindOf("def"))) == [Test, Test2]
  {
    var f := Fails(KindOf("def"));
    assert !KindOf("def")(Test) && KindOf("def")(Foo) && KindOf("def")(Bar) && !KindOf("def")(Test2) && KindOf("def")(Baz);
    assert f(Test) && !f(Foo) && !f(Bar) && f(Test2) && !f(Baz);
    FilterSteps(f);
    EmptyLeft<Node>([]);
    ConsNil(Test2);
    EmptyLeft([Test2]);
    ConsOne(Test, Test2);
  }

  /** `:not(def)`: the two classes. */
  lemma MatchNotDef()
    ensures MatchSelector(Custom, Reg, ":not(def)", Data) == Done([Test, Test2])
  {
    assert ":" + "not" + "(" + "def" + ")" == ":not(def)";
    NotDefNodes();
    NotKindMatch("def", [Test, Test2]);
  }

  /** A record whose `extends` lists `v` and that fails the type test of `t`. */
  function BaseNotKind(v: string, t: string): Node -> bool {
    (n: Node) => n.bases.Some? && v in n.bases.value && !KindOf(t)(n)
  }

  lemma ExtendsNotKindTests(s: string, v: string, t: string)
    requires v != "" && (t == "class" || t == "def") && Parse(t) == [Typed(t, None, false)]
    ensures forall n :: n in Preorder(Data) ==>
      MatchNode(Custom, Reg, Pseudos(s, [PseudoClass("extends", v), PseudoClass("not", t)]), n) == Success(BaseNotKind(v, t)(n))
  {
    forall n | n in Preorder(Data)
      ensures MatchNode(Custom, Reg, Pseudos(s, [PseudoClass("extends", v), PseudoClass("not", t)]), n) == Success(BaseNotKind(v, t)(n))
    {
      KindTest(t, None, false, n);
      ExtendsNotTest(s, v, t, Typed(t, None, false), n);
    }
  }

  /** `:extends(v):not(t)` parses to one compound of the two tests. */
  lemma ExtendsNotKindFacts(v: string, t: string)
    requires AllIdent(v) && v != [] && (t == "class" || t == "def") && AllIdent(t)
    ensures var s := ":" + "extends" + "(" + v + ")" + (":" + "not" + "(" + t + ")");
      var sel := Pseudos(s, [PseudoClass("extends", v), PseudoClass("not", t)]);
      Parse(s) == [sel] && forall n :: n in Preorder(Data) ==> MatchNode(Custom, Reg, sel, n) == Success(BaseNotKind(v, t)(n))
  {
    var s := ":" + "extends" + "(" + v + ")" + (":" + "not" + "(" + t + ")");
    ParseCompound("extends", v, "not", t);
    ParseType(t);
    ExtendsNotKindTests(s, v, t);
  }

  /** `:extends(v):not(t)`. */
  lemma ExtendsNotKindMatch(v: string, t: string, out: seq<Node>)
    requires AllIdent(v) && v != [] && (t == "class" || t == "def") && AllIdent(t)
    requires Filter(Preorder(Data), BaseNotKind(v, t)) == out
    ensures MatchSelector(Custom, Reg, ":" + "extends" + "(" + v + ")" + (":" + "not" + "(" + t + ")"), Data) == Done(out)
  {
    var s := ":" + "extends" + "(" + v + ")" + (":" + "not" + "(" + t + ")");
    ExtendsNotKindFacts(v, t);
    Terminal(s, Pseudos(s, [PseudoClass("extends", v), PseudoClass("not", t)]), BaseNotKind(v, t), out);
  }

  lemma ObjectNotDefNodes()
    ensures Filter(Preorder(Data), BaseNotKind("object", "def")) == [Test]
  {
    var f := BaseNotKind("object", "def");
    assert "object" in Test.bases.value;
    assert !KindOf("def")(Test);
    assert f(Test) && !f(Foo) && !f(Bar) && !f(Test2) && !f(Baz);
    FilterSteps(f);
    EmptyLeft<Node>([]);
    ConsNil(Test);
  }

  /** `:extends(object):not(def)`: the class that extends `object`. */
  lemma MatchExtendsObjectNotDef()
    ensures MatchSelector(Custom, Reg, ":extends(object):not(def)", Data) == Done([Test])
  {
    assert ":" + "extends" + "(" + "object" + ")" + (":" + "not" + "(" + "def" + ")") == ":extends(object):not(def)";
    ObjectNotDefNodes();
    ExtendsNotKindMatch("object", "def", [Test]);
  }

  // ---------------------------------------------------------------- test_child

  /** What one node adds to the walk of `sel`: its contribution when it passes, nothing otherwise. */
  function Yield(sel: Selector, n: Node): seq<Node> {
    if Holds(Custom, Reg, sel, n) then Contribution(Custom, Reg, sel, n) else []
  }

  lemma CollectStep(sel: Selector, x: Node, r: seq<Node>)
    ensures Collect(Custom, Reg, sel, [x] + r) == Yield(sel, x) + Collect(Custom, Reg, sel, r)
  {
    assert ([x] + r)[1..] == r;
  }

  /** The walk's collection over the forest, one node at a time. */
  lemma CollectSteps(sel: Selector)
    ensures Collect(Custom, Reg, sel, Preorder(Data)) == Yield(sel, Test) + Collect(Custom, Reg, sel, [Foo, Bar, Test2, Baz, Baz])
    ensures Collect(Custom, Reg, sel, [Foo, Bar, Test2, Baz, Baz]) == Yield(sel, Foo) + Collect(Custom, Reg, sel, [Bar, Test2, Baz, Baz])
    ensures Collect(Custom, Reg, sel, [Bar, Test2, Baz, Baz]) == Yield(sel, Bar) + Collect(Custom, Reg, sel, [Test2, Baz, Baz])
    ensures Collect(Custom, Reg, sel, [Test2, Baz, Baz]) == Yield(sel, Test2) + Collect(Custom, Reg, sel, [Baz, Baz])
    ensures Collect(Custom, Reg, sel, [Baz, Baz]) == Yield(sel, Baz) + Collect(Custom, Reg, sel, [Baz])
    ensures Collect(Custom, Reg, sel, [Baz]) == Yield(sel, Baz)
  {
    PreorderData();
    assert Collect(Custom, Reg, sel, []) == [];
    CollectStep(sel, Baz, []);
    CollectStep(sel, Baz, [Baz]);
    CollectStep(sel, Test2, [Baz, Baz]);
    CollectStep(sel, Bar, [Test2, Baz, Baz]);
    CollectStep(sel, Foo, [Bar, Test2, Baz, Baz]);
    CollectStep(sel, Test, [Foo, Bar, Test2, Baz, Baz]);
  }

  /** The two selectors of `t > u`, both type tests. */
  function ChildOf(t: string, u: string): Selector {
    Typed(t, Some(Typed(u, None, true)), false)
  }

  lemma ChildNeverRaises(t: string, u: string, nodes: seq<Node>)
    requires (t == "class" || t == "def") && (u == "class" || u == "def")
    ensures NeverRaises(Custom, Reg, ChildOf(t, u), nodes)
    ensures NeverRaises(Custom, Reg, Typed(u, None, true), nodes)
  {
    var sel := ChildOf(t, u);
    assert Chain(Typed(u, None, true)) == [Typed(u, None, true)];
    assert Chain(sel) == [sel, Typed(u, None, true)];
    forall s, n | s in Chain(sel) && n in nodes
      ensures MatchNode(Custom, Reg, s, n).Success?
    {
      if s == sel {
        KindTest(t, Some(Typed(u, None, true)), false, n);
      } else {
        KindTest(u, None, true, n);
      }
    }
  }

  /** A node failing the type test `t` adds nothing to the walk of `t > u`. */
  lemma YieldFails(t: string, u: string, n: Node)
    requires (t == "class" || t == "def") && (u == "class" || u == "def") && !KindOf(t)(n)
    ensures Yield(ChildOf(t, u), n) == []
  {
    KindTest(t, Some(Typed(u, None, true)), false, n);
  }

  /** A node passing the type test `t` adds its direct children that pass `u`. */
  lemma YieldPasses(t: string, u: string, n: Node)
    requires (t == "class" || t == "def") && (u == "class" || u == "def") && KindOf(t)(n)
    ensures Yield(ChildOf(t, u), n) == Filter(Children(n.body), KindOf(u))
  {
    var sel := ChildOf(t, u);
    var child := Typed(u, None, true);
    KindTest(t, Some(child), false, n);
    if Truthy(n.body) {
      ChildNeverRaises(t, u, Preorder(n.body.nodes));
      WalkCompletes(Custom, Reg, child, n.body.nodes);
    }
    ChildContribution(Custom, Reg, sel, n);
    forall m | m in Children(n.body)
      ensures MatchNode(Custom, Reg, child, m) == Success(KindOf(u)(m))
    {
      KindTest(u, None, true, m);
    }
    SelectBy(Custom, Reg, child, Children(n.body), KindOf(u));
  }

  lemma ChildDefs()
    ensures Filter(Children(Test.body), KindOf("def")) == [Foo, Bar]
    ensures Filter(Children(Test2.body), KindOf("def")) == [Baz]
  {
    var f := KindOf("def");
    assert f(Foo) && f(Bar) && !f(Test2) && f(Baz);
    assert Filter([], f) == [];
    FilterCons(Baz, [], f);
    ConsNil(Baz);
    FilterCons(Test2, [], f);
    EmptyLeft<Node>([]);
    FilterCons(Bar, [Test2], f);
    ConsNil(Bar);
    FilterCons(Foo, [Bar, Test2], f);
    ConsOne(Foo, Bar);
  }

  /** What each node adds to the walk of `class > def`. */
  lemma ChildYields()
    ensures Yield(ChildOf("class", "def"), Test) == [Foo, Bar]
    ensures Yield(ChildOf("class", "def"), Test2) == [Baz]
    ensures Yield(ChildOf("class", "def"), Foo) == []
    ensures Yield(ChildOf("class", "def"), Bar) == []
    ensures Yield(ChildOf("class", "def"), Baz) == []
  {
    YieldPasses("class", "def", Test);
    YieldPasses("class", "def", Test2);
    YieldFails("class", "def", Foo);
    YieldFails("class", "def", Bar);
    YieldFails("class", "def", Baz);
    ChildDefs();
  }

  /** What `class > def` collects over the forest. */
  lemma ChildCollect()
    ensures Collect(Custom, Reg, ChildOf("class", "def"), Preorder(Data)) == [Foo, Bar, Baz]
  {
    CollectSteps(ChildOf("class", "def"));
    ChildYields();
    EmptyRight([Baz]);
    EmptyLeft([Baz]);
    EmptyLeft([Baz]);
    EmptyLeft([Baz]);
    SnocTwo(Foo, Bar, Baz);
  }

  /** A chain of `class > def` that completes yields what it collects. */
  lemma ChildWalk()
    ensures MatchData(Custom, Reg, ChildOf("class", "def"), Data) == Done(Collect(Custom, Reg, ChildOf("class", "def"), Preorder(Data)))
  {
    var sel := ChildOf("class", "def");
    ChildNeverRaises("class", "def", Preorder(Data));
    WalkCompletes(Custom, Reg, sel, Data);
    MatchDataCollects(Custom, Reg, sel, Data);
  }

  /** `t > u` over the forest: what the classes and functions yield, in preorder. */
  lemma ChildMatch(selector: string)
    requires Parse(selector) == [ChildOf("class", "def")]
    ensures MatchSelector(Custom, Reg, selector, Data) == Done([Foo, Bar, Baz])
  {
    OneChain(Custom, Reg, selector, ChildOf("class", "def"), Data);
    ChildWalk();
    ChildCollect();
  }

  /** `class > def`: the functions directly in a class body; `baz` once, since the one at the top level is in no class. */
  lemma MatchClassChildDef()
    ensures MatchSelector(Custom, Reg, "class > def", Data) == Done([Foo, Bar, Baz])
  {
    ParseChildSelector();
    ChildMatch("class > def");
  }

  // ---------------------------------------------------------------- the prototype on the same forest

  /** A selector text of one shared chain: the prototype yields what the engine yields. */
  lemma ProtoSame(selector: string, sel: Selector)
    requires Parse(selector) == [sel] && Prototype.SharedChain(sel)
    ensures Prototype.Match(selector, Data) == MatchSelector(Custom, Reg, selector, Data)
  {
    ProtoSameOn(selector, sel, Data);
  }

  lemma ProtoSameOn(selector: string, sel: Selector, data: seq<Node>)
    requires Parse(selector) == [sel] && Prototype.SharedChain(sel)
    ensures Prototype.Match(selector, data) == MatchSelector(Custom, Reg, selector, data)
  {
    Prototype.WalkAgrees(sel, data);
    assert Prototype.MatchAll([sel], data) == Prototype.MatchSub(sel, data).Then(Done([]));
    assert MatchChains(Custom, Reg, [sel], data) == MatchData(Custom, Reg, sel, data).Then(Done([]));
  }

  /** A selector text of two shared chains. */
  lemma ProtoSameTwo(selector: string, a: Selector, b: Selector)
    requires Parse(selector) == [a, b] && Prototype.SharedChain(a) && Prototype.SharedChain(b)
    ensures Prototype.Match(selector, Data) == MatchSelector(Custom, Reg, selector, Data)
  {
    ProtoSameTwoOn(selector, a, b, Data);
  }

  lemma ProtoSameTwoOn(selector: string, a: Selector, b: Selector, data: seq<Node>)
    requires Parse(selector) == [a, b] && Prototype.SharedChain(a) && Prototype.SharedChain(b)
    ensures Prototype.Match(selector, data) == MatchSelector(Custom, Reg, selector, data)
  {
    Prototype.WalkAgrees(a, data);
    Prototype.WalkAgrees(b, data);
    assert [a, b][1..] == [b];
    assert Prototype.MatchAll([b], data) == Prototype.MatchSub(b, data).Then(Done([]));
    assert MatchChains(Custom, Reg, [b], data) == MatchData(Custom, Reg, b, data).Then(Done([]));
  }

  lemma SharedKind(t: string, next: Option<Selector>, direct: bool)
    requires t == "class" || t == "def"
    requires next.Some? ==> Prototype.SharedChain(next.value)
    ensures Prototype.SharedChain(Typed(t, next, direct))
  {
  }

  /** A `:not` argument the prototype rebuilds as the engine reparses it. */
  lemma SharedArgument(v: string, inner: Selector)
    requires Flat(v) && v != [] && Parse(v) == [inner] && Prototype.SharedNode(inner)
    ensures Prototype.SharedPseudos([PseudoClass("not", v)])
  {
    FlatFacts(v);
    StripWhole(v);
    ParseSingle(v);
  }

  lemma SharedExtends(s: string, v: string)
    requires v != ""
    ensures Prototype.SharedChain(Pseudos(s, [PseudoClass("extends", v)]))
  {
  }

  lemma SharedNotKind(s: string, t: string)
    requires (t == "class" || t == "def") && AllIdent(t)
    ensures Prototype.SharedChain(Pseudos(s, [PseudoClass("not", t)]))
  {
    ParseType(t);
    SharedKind(t, None, false);
    IdentFacts(t);
    SharedArgument(t, Typed(t, None, false));
  }

  lemma SharedNotExtends(s: string, arg: string, v: string)
    requires v != [] && Flat(arg) && arg != [] && Parse(arg) == [Pseudos(arg, [PseudoClass("extends", v)])]
    ensures Prototype.SharedChain(Pseudos(s, [PseudoClass("not", arg)]))
  {
    SharedExtends(arg, v);
    SharedArgument(arg, Pseudos(arg, [PseudoClass("extends", v)]));
  }

  lemma SharedExtendsNotKind(s: string, v: string, t: string)
    requires v != [] && (t == "class" || t == "def") && AllIdent(t)
    ensures Prototype.SharedChain(Pseudos(s, [PseudoClass("extends", v), PseudoClass("not", t)]))
  {
    var ps := [PseudoClass("extends", v), PseudoClass("not", t)];
    SharedNotKind(s, t);
    assert ps[1..] == [PseudoClass("not", t)];
  }

  lemma DefIdent()
    ensures AllIdent("def")
  {
    assert IsIdentChar('d') && IsIdentChar('e') && IsIdentChar('f');
  }

  lemma ParseExtendsObject()
    ensures Parse(":extends(object)") == [Pseudos(":extends(object)", [PseudoClass("extends", "object")])]
    ensures Flat(":extends(object)")
  {
    assert ":" + "extends" + "(" + "object" + ")" == ":extends(object)";
    ParsePseudo("extends", "object");
    FlatPseudo("extends", "object");
  }

  lemma ParseNotExtendsObject()
    ensures Parse(":not(:extends(object))") == [Pseudos(":not(:extends(object))", [PseudoClass("not", ":extends(object)")])]
  {
    assert ":" + "extends" + "(" + "object" + ")" == ":extends(object)";
    assert ":" + "not" + "(" + ":extends(object)" + ")" == ":not(:extends(object))";
    ParseNested("not", "extends", "object");
  }

  lemma ParseExtendsObjectNotDef()
    ensures Parse(":extends(object):not(def)") ==
      [Pseudos(":extends(object):not(def)", [PseudoClass("extends", "object"), PseudoClass("not", "def")])]
  {
    assert ":" + "extends" + "(" + "object" + ")" + (":" + "not" + "(" + "def" + ")") == ":extends(object):not(def)";
    ParseCompound("extends", "object", "not", "def");
  }

  /** `class`: the prototype's walk and the engine's agree. */
  lemma PrototypeClass()
    ensures Prototype.Match("class", Data) == Done([Test, Test2])
  {
    ParseTypeSelector();
    SharedKind("class", None, false);
    ProtoSame("class", Typed("class", None, false));
    MatchClass();
  }

  lemma PrototypeClassAndDef()
    ensures Prototype.Match("class, def", Data) == Done([Test, Test2, Foo, Bar, Baz, Baz])
  {
    ParseMultipleSelectors();
    SharedKind("class", None, false);
    SharedKind("def", None, false);
    ProtoSameTwo("class, def", Typed("class", None, false), Typed("def", None, false));
    MatchClassAndDef();
  }

  lemma PrototypeChild()
    ensures Prototype.Match("class > def", Data) == Done([Foo, Bar, Baz])
  {
    ParseChildSelector();
    SharedKind("def", None, true);
    SharedKind("class", Some(Typed("def", None, true)), false);
    ProtoSame("class > def", ChildOf("class", "def"));
    MatchClassChildDef();
  }

  lemma PrototypeDefBla()
    ensures Prototype.Match("def#bla", Data) == Done([])
  {
    assert "def" + "#" + "bla" == "def#bla";
    ParseTypeId("def", "bla");
    ProtoSame("def#bla", Selector("def#bla", "def", Some("bla"), [], [], [], None, false));
    MatchDefBla();
  }

  lemma PrototypeDefFoo()
    ensures Prototype.Match("def#foo", Data) == Done([Foo])
  {
    ParseDefFoo();
    ProtoSame("def#foo", Selector("def#foo", "def", Some("foo"), [], [], [], None, false));
    MatchDefFoo();
  }

  /** `:extends(object)`, whose test the prototype's suite disables, yields the one class there too. */
  lemma PrototypeExtends()
    ensures Prototype.Match(":extends(object)", Data) == Done([Test])
  {
    ParseExtendsObject();
    SharedExtends(":extends(object)", "object");
    ProtoSame(":extends(object)", Pseudos(":extends(object)", [PseudoClass("extends", "object")]));
    MatchExtendsObject();
  }

  lemma ProtoNotKind(s: string, t: string)
    requires (t == "class" || t == "def") && AllIdent(t) && Parse(s) == [Pseudos(s, [PseudoClass("not", t)])]
    ensures Prototype.Match(s, Data) == MatchSelector(Custom, Reg, s, Data)
  {
    SharedNotKind(s, t);
    ProtoSame(s, Pseudos(s, [PseudoClass("not", t)]));
  }

  lemma ProtoNotExtends(s: string, arg: string, v: string)
    requires v != [] && Flat(arg) && arg != [] && Parse(arg) == [Pseudos(arg, [PseudoClass("extends", v)])]
    requires Parse(s) == [Pseudos(s, [PseudoClass("not", arg)])]
    ensures Prototype.Match(s, Data) == MatchSelector(Custom, Reg, s, Data)
  {
    SharedNotExtends(s, arg, v);
    ProtoSame(s, Pseudos(s, [PseudoClass("not", arg)]));
  }

  lemma ProtoExtendsNotKind(s: string, v: string, t: string)
    requires v != [] && (t == "class" || t == "def") && AllIdent(t)
    requires Parse(s) == [Pseudos(s, [PseudoClass("extends", v), PseudoClass("not", t)])]
    ensures Prototype.Match(s, Data) == MatchSelector(Custom, Reg, s, Data)
  {
    SharedExtendsNotKind(s, v, t);
    ProtoSame(s, Pseudos(s, [PseudoClass("extends", v), PseudoClass("not", t)]));
  }

  lemma PrototypeNotDef()
    ensures Prototype.Match(":not(def)", Data) == Done([Test, Test2])
  {
    assert ":" + "not" + "(" + "def" + ")" == ":not(def)";
    ParsePseudo("not", "def");
    ProtoNotKind(":not(def)", "def");
    MatchNotDef();
  }

  lemma PrototypeNotExtends()
    ensures Prototype.Match(":not(:extends(object))", Data) == Done([Foo, Bar, Test2, Baz, Baz])
  {
    ParseExtendsObject();
    ParseNotExtendsObject();
    ProtoNotExtends(":not(:extends(object))", ":extends(object)", "object");
    MatchNotExtendsObject();
  }


  lemma PrototypeExtendsNotDef()
    ensures Prototype.Match(":extends(object):not(def)", Data) == Done([Test])
  {
    ParseExtendsObjectNotDef();
    DefIdent();
    ProtoExtendsNotKind(":extends(object):not(def)", "object", "def");
    MatchExtendsObjectNotDef();
  }

}
