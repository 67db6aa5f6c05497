/**
 * The first matcher of the project, the test helper TestCustomMatcher of
 * pysel.py: the same selector parser (pysel.py's `sel` is module Selectors'
 * Parse) and a walk written directly over `CLS(name, extends, body)` and
 * `DEF(name)` records, modelled as class and function nodes whose `bases`
 * hold `extends`. Its node test looks pseudo-classes up by name instead of
 * in a registry.
 */
module Prototype {
  import opened Wrappers
  import opened Errors
  import opened Text
  import opened Trees
  import opened Selectors
  import AstBackend
  import Engine

  /** `isinstance(d, typcls[typ])`: the two record classes by name; any other name is a missing key. */
  function MatchKind(typ: string, d: Node): (r: Result<bool, Error>)
    ensures r.Failure? <==> typ != "class" && typ != "def"
    ensures r.Failure? ==> r.error == KeyError(typ)
    ensures r.Success? ==> (r.value <==> (typ == "class" && d.kind == ClassDef) || (typ == "def" && d.kind == FunctionDef))
  {
    if typ == "class" then Success(d.kind == ClassDef)
    else if typ == "def" then Success(d.kind == FunctionDef)
    else Failure(KeyError(typ))
  }

  /** `all(_match_item(...))`: the type test when there is a type, then `d.name == id_` when there is a non-empty id. */
  function MatchItem(sel: Selector, d: Node): Result<bool, Error> {
    var t :- if sel.typ != "" then MatchKind(sel.typ, d) else Success(true);
    if !t then Success(false)
    else if sel.id.Some? && sel.id.value != "" then AstBackend.MatchId(sel.id.value, d)
    else Success(true)
  }

  /** `getattr(d, 'extends', [])`. */
  function Extended(d: Node): seq<string> {
    if d.bases.Some? then d.bases.value else []
  }

  /** `_match_rules`: the items, then, if they hold and there are any, the pseudo-classes. */
  function MatchRules(sel: Selector, d: Node): Result<bool, Error>
    decreases Engine.Bound(sel.pseudos), 1
  {
    var m :- MatchItem(sel, d);
    if m && sel.pseudos != [] then MatchPseudos(sel.pseudos, d) else Success(m)
  }

  /**
   * `all(_match_pseudos(...))`: `not` rebuilds its argument as a selector
   * and negates its rules, `extends` tests membership, and any other name
   * yields nothing and so is skipped.
   */
  function MatchPseudos(ps: seq<PseudoClass>, d: Node): Result<bool, Error>
    decreases Engine.Bound(ps), 0, |ps|
  {
    if ps == [] then Success(true)
    else if ps[0].name == "not" then
      var inner := Build(ps[0].value, false);
      Engine.BoundAtMost(inner.pseudos, |ps[0].value|);
      var m :- MatchRules(inner, d);
      if m then Success(false) else MatchPseudos(ps[1..], d)
    else if ps[0].name == "extends" then
      if ps[0].value in Extended(d) then MatchPseudos(ps[1..], d) else Success(false)
    else MatchPseudos(ps[1..], d)
  }

  /**
   * `_match_sub`: for each record in turn, one that passes either continues
   * with the next selector in its body, if it has a `body`, or is yielded;
   * then, unless the selector is a child selector, the same selector is
   * searched in the body.
   */
  function MatchSub(sel: Selector, data: seq<Node>): Trace<Node>
    decreases data
  {
    if data == [] then Done([])
    else
      var d := data[0];
      match MatchRules(sel, d)
      case Failure(e) => Raise(e)
      case Success(m) =>
        var first :=
          if !m then Done([])
          else if sel.next.None? then Done([d])
          else if d.body.Present? then MatchSub(sel.next.value, d.body.nodes)
          else Done([]);
        var deeper := if d.body.Present? && !sel.direct then MatchSub(sel, d.body.nodes) else Done([]);
        first.Then(deeper).Then(MatchSub(sel, data[1..]))
  }

  /** `_match`: each chain in turn. */
  function MatchAll(sobjs: seq<Selector>, data: seq<Node>): Trace<Node> {
    if sobjs == [] then Done([]) else MatchSub(sobjs[0], data).Then(MatchAll(sobjs[1..], data))
  }

  /** The helper `match`: the chains of `sel(selector)`, matched in turn. */
  function Match(selector: string, data: seq<Node>): Trace<Node> {
    MatchAll(Parse(selector), data)
  }

  // ---------------------------------------------------------------- where the prototype differs

  /** A type other than `class` and `def` is a missing key of `typcls`, raised before any other test. */
  lemma UnknownTypeRaises(sel: Selector, d: Node)
    requires sel.typ != "" && sel.typ != "class" && sel.typ != "def"
    ensures MatchRules(sel, d) == Failure(KeyError(sel.typ))
  {
  }

  /** A pseudo-class other than `not` and `extends` is skipped, where the engine raises at its lookup. */
  lemma UnknownPseudoSkipped(p: PseudoClass, ps: seq<PseudoClass>, d: Node)
    requires p.name != "not" && p.name != "extends"
    ensures MatchPseudos([p] + ps, d) == MatchPseudos(ps, d)
  {
    assert ([p] + ps)[1..] == ps;
  }

  // ---------------------------------------------------------------- agreement with the engine

  /** The registry of the test suite's CustomMatchEngine. */
  const CustomRegistry: Engine.Registry := map["not" := Engine.Not, "extends" := Engine.CustomExtends]

  /**
   * A compound selector on which the prototype and the engine read the same
   * tests: no attributes, a type of `class` or `def` if any, and
   * pseudo-classes that are `extends` with an argument, or `not` with an
   * argument free of commas and outer whitespace whose own selector is
   * again of this kind.
   */
  ghost predicate SharedNode(sel: Selector)
    decreases Engine.Bound(sel.pseudos), 1
  {
    sel.attrs == [] && (sel.typ == "" || sel.typ == "class" || sel.typ == "def") && SharedPseudos(sel.pseudos)
  }

  ghost predicate SharedPseudos(ps: seq<PseudoClass>)
    decreases Engine.Bound(ps), 0, |ps|
  {
    if ps == [] then true
    else
      var p := ps[0];
      var here :=
        if p.name == "extends" then p.value != ""
        else if p.name == "not" then
          ',' !in p.value && Strip(p.value) == p.value &&
          (Engine.BoundAtMost(Build(p.value, false).pseudos, |p.value|); SharedNode(Build(p.value, false)))
        else false;
      here && SharedPseudos(ps[1..])
  }

  /** Every selector of the chain is a shared one. */
  ghost predicate SharedChain(sel: Selector) {
    SharedNode(sel) && (sel.next.Some? ==> SharedChain(sel.next.value))
  }

  /** Without a comma and outer whitespace, the engine's reparse of a `:not` argument is the prototype's. */
  lemma FirstChainBuild(v: string)
    requires ',' !in v && Strip(v) == v
    ensures FirstChain(v) == Build(v, false)
  {
    SplitJoin(v, ',');
    CountZero(v, ',');
    assert Split(v, ',') == [Split(v, ',')[0]];
  }

  lemma {:induction false} RulesAgree(sel: Selector, d: Node)
    requires SharedNode(sel)
    ensures MatchRules(sel, d) == Engine.MatchNode(Engine.Custom, CustomRegistry, sel, d)
    decreases Engine.Bound(sel.pseudos), 1
  {
    assert MatchItem(sel, d) == Engine.MatchRules(Engine.Custom, sel, d);
    if MatchItem(sel, d) == Success(true) && sel.pseudos != [] {
      PseudosAgree(sel.pseudos, d);
    }
  }

  lemma {:induction false} PseudosAgree(ps: seq<PseudoClass>, d: Node)
    requires SharedPseudos(ps)
    ensures MatchPseudos(ps, d) == Engine.MatchPseudos(Engine.Custom, CustomRegistry, ps, d)
    decreases Engine.Bound(ps), 0, |ps|
  {
    if ps != [] {
      var v := ps[0].value;
      PseudosAgree(ps[1..], d);
      if ps[0].name == "not" {
        var inner := Build(v, false);
        Engine.BoundAtMost(inner.pseudos, |v|);
        FirstChainBuild(v);
        RulesAgree(inner, d);
        NotAgrees(ps, d);
      } else {
        ExtendsAgrees(ps, d);
      }
    }
  }

  lemma NotAgrees(ps: seq<PseudoClass>, d: Node)
    requires ps != [] && ps[0].name == "not"
    requires MatchRules(Build(ps[0].value, false), d) == Engine.MatchNode(Engine.Custom, CustomRegistry, FirstChain(ps[0].value), d)
    requires MatchPseudos(ps[1..], d) == Engine.MatchPseudos(Engine.Custom, CustomRegistry, ps[1..], d)
    ensures MatchPseudos(ps, d) == Engine.MatchPseudos(Engine.Custom, CustomRegistry, ps, d)
  {
    Engine.NotStep(Engine.Custom, CustomRegistry, ps[0].value, d);
  }

  lemma ExtendsAgrees(ps: seq<PseudoClass>, d: Node)
    requires ps != [] && ps[0].name == "extends" && ps[0].value != ""
    requires MatchPseudos(ps[1..], d) == Engine.MatchPseudos(Engine.Custom, CustomRegistry, ps[1..], d)
    ensures MatchPseudos(ps, d) == Engine.MatchPseudos(Engine.Custom, CustomRegistry, ps, d)
  {
  }

  /** On a chain of shared selectors, the prototype's walk yields exactly what the engine with the test-suite backend yields, and raises what it raises. */
  lemma {:induction false} WalkAgrees(sel: Selector, data: seq<Node>)
    requires SharedChain(sel)
    ensures MatchSub(sel, data) == Engine.MatchData(Engine.Custom, CustomRegistry, sel, data)
    decreases data, 1
  {
    Engine.PairsComplete(Engine.Custom, data);
    PairsAgree(sel, data, 0);
    assert data[0..] == data;
  }

  lemma {:induction false} PairsAgree(sel: Selector, data: seq<Node>, i: nat)
    requires SharedChain(sel) && i <= |data|
    ensures MatchSub(sel, data[i..]) == Engine.MatchPairs(Engine.Custom, CustomRegistry, sel, data, |data|, i)
    decreases data, 0, |data| - i
  {
    if i < |data| {
      var d := data[i];
      assert data[i..][0] == d && data[i..][1..] == data[i + 1..];
      RulesAgree(sel, d);
      PairsAgree(sel, data, i + 1);
      if d.body.Present? {
        if sel.next.Some? {
          WalkAgrees(sel.next.value, d.body.nodes);
        }
        WalkAgrees(sel, d.body.nodes);
      }
    }
  }

  /** For a selector whose chains are all shared, the prototype and the engine match alike. */
  lemma MatchAgrees(selector: string, data: seq<Node>)
    requires forall i :: 0 <= i < |Parse(selector)| ==> SharedChain(Parse(selector)[i])
    ensures Match(selector, data) == Engine.MatchSelector(Engine.Custom, CustomRegistry, selector, data)
  {
    ChainsAgree(Parse(selector), data);
  }

  lemma {:induction false} ChainsAgree(chains: seq<Selector>, data: seq<Node>)
    requires forall i :: 0 <= i < |chains| ==> SharedChain(chains[i])
    ensures MatchAll(chains, data) == Engine.MatchChains(Engine.Custom, CustomRegistry, chains, data)
  {
    if chains != [] {
      WalkAgrees(chains[0], data);
      ChainsAgree(chains[1..], data);
    }
  }
}
