/**
 * The match engine of sizzle/match.py: a recursive walk over the
 * `(node, body)` pairs of a forest that tests each node against one
 * compound selector of a chain and either continues with the rest of the
 * chain inside the node's body or yields the node.
 *
 * The selector fields the engine reads are those of Selectors.Selector:
 * `next_selector` is `next`, `combinator == Selector.CHILD` is `direct`,
 * and `attrs` is empty for everything the parser builds.
 */
module Engine {
  import opened Wrappers
  import opened Errors
  import opened Trees
  import opened Text
  import opened Selectors
  import AstBackend
  import CustomBackend

  /**
   * Who answers the node tests: the base class, whose backend methods
   * raise NotImplementedError; the Python-AST backend of pyq; the backend
   * of the engine's test suite.
   */
  datatype Backend = Unimplemented | Ast | Custom

  /** The pseudo-class functions that the matching engines register: `pseudo_not` and the two `pseudo_extends`. */
  datatype PseudoFn = Not | AstExtends | CustomExtends

  /** `pseudo_fns`: pseudo-class name to function. */
  type Registry = map<string, PseudoFn>

  // ---------------------------------------------------------------- backend dispatch

  function MatchType(b: Backend, typ: string, node: Node): Result<bool, Error> {
    match b
    case Unimplemented => Failure(NotImplemented("match_type"))
    case Ast => Success(AstBackend.MatchType(typ, node))
    case Custom => CustomBackend.MatchType(typ, node)
  }

  /** Both backends compare `node.name`, with the same code. */
  function MatchId(b: Backend, id: string, node: Node): Result<bool, Error> {
    match b
    case Unimplemented => Failure(NotImplemented("match_id"))
    case _ => AstBackend.MatchId(id, node)
  }

  /** The test-suite backend does not override `match_attr`. */
  function MatchAttr(b: Backend, a: AttrRule, node: Node): Result<bool, Error> {
    match b
    case Ast => AstBackend.MatchAttr(a.lft, a.op, a.rgt, node)
    case _ => Failure(NotImplemented("match_attr"))
  }

  /** Both backends yield `(node, getattr(node, 'body', None))`, with the same code. */
  function IterData(b: Backend, data: seq<Node>): (r: Result<seq<Tuple>, Error>)
    ensures r.Failure? <==> b == Unimplemented
    ensures b == Unimplemented ==> r.error == NotImplemented("iter_data")
    ensures r.Success? ==> |r.value| == |data|
    ensures r.Success? ==> forall i :: 0 <= i < |data| ==> r.value[i] == Tuple(data[i], [data[i].body])
  {
    match b
    case Unimplemented => Failure(NotImplemented("iter_data"))
    case _ => Success(AstBackend.IterData(data))
  }

  // ---------------------------------------------------------------- _iter_data

  /**
   * `_iter_data`: passes the tuples on while they are pairs and raises at
   * the first one that is not, after the pairs before it.
   */
  function CheckPairs(ts: seq<Tuple>): (r: Trace<(Node, Body)>)
    ensures |r.out| <= |ts|
    ensures forall i :: 0 <= i < |r.out| ==> ts[i].IsPair() && r.out[i] == (ts[i].node, ts[i].others[0])
    ensures r.Completed() <==> |r.out| == |ts|
    ensures !r.Completed() ==> r.err == Some(BadPair) && !ts[|r.out|].IsPair()
  {
    if ts == [] then Done([])
    else if !ts[0].IsPair() then Raise(BadPair)
    else Done([(ts[0].node, ts[0].others[0])]).Then(CheckPairs(ts[1..]))
  }

  /** The pairs the walk reads for a forest: those of `iter_data`, checked by `_iter_data`. */
  function Pairs(b: Backend, data: seq<Node>): (r: Trace<(Node, Body)>)
    ensures |r.out| <= |data|
    ensures forall i :: 0 <= i < |r.out| ==> r.out[i] == (data[i], data[i].body)
  {
    match IterData(b, data)
    case Failure(e) => Raise(e)
    case Success(ts) => CheckPairs(ts)
  }

  /** With either backend every tuple is a pair: the check never raises and every node is paired with its body. */
  lemma PairsComplete(b: Backend, data: seq<Node>)
    requires b != Unimplemented
    ensures Pairs(b, data).Completed() && |Pairs(b, data).out| == |data|
  {
  }

  /** Tuples that are not pairs: everything before the first of them is passed on, then the check raises. */
  lemma {:induction false} CheckPairsStopsAtFirstBad(ts: seq<Tuple>, k: nat)
    requires k < |ts| && !ts[k].IsPair() && forall i :: 0 <= i < k ==> ts[i].IsPair()
    ensures CheckPairs(ts) == Trace(seq(k, i requires 0 <= i < k => (ts[i].node, ts[i].others[0])), Some(BadPair))
  {
    if k > 0 {
      CheckPairsStopsAtFirstBad(ts[1..], k - 1);
    }
  }

  // ---------------------------------------------------------------- match_node

  function Max(a: nat, b: nat): nat {
    if a >= b then a else b
  }

  /** One more than the longest pseudo-class argument: what bounds the reparsing of `:not` arguments. */
  function Bound(ps: seq<PseudoClass>): (r: nat)
    ensures forall k :: 0 <= k < |ps| ==> |ps[k].value| < r
  {
    if ps == [] then 0 else Max(|ps[0].value| + 1, Bound(ps[1..]))
  }

  lemma {:induction false} BoundAtMost(ps: seq<PseudoClass>, n: nat)
    requires forall k :: 0 <= k < |ps| ==> |ps[k].value| < n
    ensures Bound(ps) <= n
  {
    if ps != [] {
      BoundAtMost(ps[1..], n);
    }
  }

  /**
   * `match_node`: the type and id rules, then the attribute rules if those
   * hold and there are any, then the pseudo-classes if everything so far
   * holds and there are any. Each group stops at its first false test, as
   * `all` does.
   */
  function MatchNode(b: Backend, reg: Registry, sel: Selector, node: Node): Result<bool, Error>
    decreases Bound(sel.pseudos), 2, 0
  {
    var rules :- MatchRules(b, sel, node);
    var attrs :- if rules && sel.attrs != [] then MatchAttrs(b, sel.attrs, node) else Success(rules);
    if attrs && sel.pseudos != [] then MatchPseudos(b, reg, sel.pseudos, node) else Success(attrs)
  }

  /** `all(match_rules(...))`: the type test when there is a type, then the id test when there is a non-empty id. */
  function MatchRules(b: Backend, sel: Selector, node: Node): Result<bool, Error> {
    var t :- if sel.typ != "" then MatchType(b, sel.typ, node) else Success(true);
    if !t then Success(false)
    else if sel.id.Some? && sel.id.value != "" then MatchId(b, sel.id.value, node)
    else Success(true)
  }

  /** `all(match_attrs(...))`. */
  function MatchAttrs(b: Backend, attrs: seq<AttrRule>, node: Node): Result<bool, Error> {
    if attrs == [] then Success(true)
    else
      var v :- MatchAttr(b, attrs[0], node);
      if !v then Success(false) else MatchAttrs(b, attrs[1..], node)
  }

  /** `all(match_pseudos(...))`: each name is looked up in the registry when its turn comes. */
  function MatchPseudos(b: Backend, reg: Registry, ps: seq<PseudoClass>, node: Node): Result<bool, Error>
    decreases Bound(ps), 1, |ps|
  {
    if ps == [] then Success(true)
    else if ps[0].name !in reg then Failure(KeyError(ps[0].name))
    else
      var v :- EvalPseudo(b, reg, reg[ps[0].name], ps[0].value, node);
      if !v then Success(false) else MatchPseudos(b, reg, ps[1..], node)
  }

  /** Calls one registered pseudo-class function. `pseudo_not` reparses its argument and negates the first chain's node test. */
  function EvalPseudo(b: Backend, reg: Registry, f: PseudoFn, value: string, node: Node): Result<bool, Error>
    decreases |value| + 1, 0, 0
  {
    match f
    case Not =>
      var inner := FirstChain(value);
      BoundAtMost(inner.pseudos, |value|);
      var m :- MatchNode(b, reg, inner, node);
      Success(!m)
    case AstExtends => AstBackend.Extends(node, value)
    case CustomExtends => CustomBackend.Extends(node, value)
  }

  // ---------------------------------------------------------------- match_data, match

  /**
   * `match_data`: for each pair in turn, a node that passes the test either
   * continues with the next selector in its body or is yielded; then,
   * unless the selector is a child selector, the same selector is searched
   * in the body. What `_iter_data` raises comes after the pairs before it.
   */
  function MatchData(b: Backend, reg: Registry, sel: Selector, data: seq<Node>): Trace<Node>
    decreases data, 1
  {
    var pairs := Pairs(b, data);
    MatchPairs(b, reg, sel, data, |pairs.out|, 0).Then(Trace([], pairs.err))
  }

  /** The loop of `match_data` over the pairs `i..n`, the pair `i` being `(data[i], data[i].body)`. */
  function MatchPairs(b: Backend, reg: Registry, sel: Selector, data: seq<Node>, n: nat, i: nat): Trace<Node>
    requires i <= n <= |data|
    decreases data, 0, n - i
  {
    if i == n then Done([])
    else
      var node := data[i];
      match MatchNode(b, reg, sel, node)
      case Failure(e) => Raise(e)
      case Success(m) =>
        var first :=
          if !m then Done([])
          else if sel.next.None? then Done([node])
          else if Truthy(node.body) then MatchData(b, reg, sel.next.value, node.body.nodes)
          else Done([]);
        var deeper := if Truthy(node.body) && !sel.direct then MatchData(b, reg, sel, node.body.nodes) else Done([]);
        first.Then(deeper).Then(MatchPairs(b, reg, sel, data, n, i + 1))
  }

  /** `match`: each chain of the comma-separated selector in turn, with no deduplication. */
  function MatchSelector(b: Backend, reg: Registry, selector: string, data: seq<Node>): Trace<Node> {
    MatchChains(b, reg, Parse(selector), data)
  }

  function MatchChains(b: Backend, reg: Registry, chains: seq<Selector>, data: seq<Node>): Trace<Node> {
    if chains == [] then Done([]) else MatchData(b, reg, chains[0], data).Then(MatchChains(b, reg, chains[1..], data))
  }

  // ---------------------------------------------------------------- the engine object

  /** A MatchEngine instance: its backend and its pseudo-class registry. */
  class MatchEngine {
    const backend: Backend
    var pseudoFns: Registry

    /** `__init__`: registers `not`. */
    constructor(backend: Backend)
      ensures this.backend == backend && pseudoFns == map["not" := Not]
    {
      this.backend := backend;
      pseudoFns := map[];
      new;
      RegisterPseudo("not", Not);
    }

    /** `register_pseudo`: adds or replaces one entry, so the last registration of a name wins. */
    method RegisterPseudo(name: string, f: PseudoFn)
      modifies this
      ensures pseudoFns == old(pseudoFns)[name := f]
      ensures pseudoFns[name] == f && forall other :: other != name && other in old(pseudoFns) ==> other in pseudoFns && pseudoFns[other] == old(pseudoFns)[other]
    {
      pseudoFns := pseudoFns[name := f];
    }

    /** `match`, with the registry as it stands. */
    function Match(selector: string, data: seq<Node>): Trace<Node>
      reads this
    {
      MatchSelector(backend, pseudoFns, selector, data)
    }
  }

  // ---------------------------------------------------------------- properties of the node test

  /** The node test passes without raising. */
  predicate Holds(b: Backend, reg: Registry, sel: Selector, node: Node) {
    MatchNode(b, reg, sel, node) == Success(true)
  }

  /** A selector with no type, no id, no attributes and no pseudo-classes matches every node, and asks the backend nothing. */
  lemma EmptySelectorMatchesAll(b: Backend, reg: Registry, sel: Selector, node: Node)
    requires sel.typ == "" && (sel.id.None? || sel.id == Some("")) && sel.attrs == [] && sel.pseudos == []
    ensures Holds(b, reg, sel, node)
  {
  }

  /** The classes of a selector are never consulted: `match_node` has no class test. */
  lemma ClassesIgnored(b: Backend, reg: Registry, sel: Selector, node: Node, classes: seq<string>)
    ensures MatchNode(b, reg, sel, node) == MatchNode(b, reg, sel.(classes := classes), node)
  {
  }

  /** When the type or id test fails, neither attributes nor pseudo-classes are looked at, so an unregistered pseudo-class does not raise. */
  lemma RulesShortCircuit(b: Backend, reg: Registry, sel: Selector, node: Node)
    requires MatchRules(b, sel, node) == Success(false)
    ensures MatchNode(b, reg, sel, node) == Success(false)
  {
  }

  /** When the rules hold and there are no attributes, an unregistered first pseudo-class raises KeyError at its lookup. */
  lemma UnknownPseudoRaises(b: Backend, reg: Registry, sel: Selector, node: Node)
    requires MatchRules(b, sel, node) == Success(true) && sel.attrs == []
    requires sel.pseudos != [] && sel.pseudos[0].name !in reg
    ensures MatchNode(b, reg, sel, node) == Failure(KeyError(sel.pseudos[0].name))
  {
  }

  /** A node passes exactly when its rules, its attribute rules and its pseudo-classes all pass. */
  lemma HoldsConjunction(b: Backend, reg: Registry, sel: Selector, node: Node)
    ensures Holds(b, reg, sel, node) <==>
      MatchRules(b, sel, node) == Success(true) &&
      (sel.attrs == [] || MatchAttrs(b, sel.attrs, node) == Success(true)) &&
      (sel.pseudos == [] || MatchPseudos(b, reg, sel.pseudos, node) == Success(true))
  {
  }

  /** The selector `:not(v)`: its node test is the negation of the node test of the first chain parsed from `v`, errors included. */
  lemma NotNegates(b: Backend, reg: Registry, sel: Selector, v: string, node: Node)
    requires sel.typ == "" && sel.id.None? && sel.attrs == [] && sel.pseudos == [PseudoClass("not", v)]
    requires "not" in reg && reg["not"] == Not
    ensures MatchNode(b, reg, FirstChain(v), node).Success? <==> MatchNode(b, reg, sel, node).Success?
    ensures MatchNode(b, reg, FirstChain(v), node).Success? ==>
      (Holds(b, reg, sel, node) <==> !Holds(b, reg, FirstChain(v), node))
  {
    PseudosOnly(b, reg, sel, node);
    SinglePseudo(b, reg, sel.pseudos, node);
    NotStep(b, reg, v, node);
  }

  lemma PseudosOnly(b: Backend, reg: Registry, sel: Selector, node: Node)
    requires sel.typ == "" && sel.id.None? && sel.attrs == [] && sel.pseudos != []
    ensures MatchNode(b, reg, sel, node) == MatchPseudos(b, reg, sel.pseudos, node)
  {
  }

  lemma SinglePseudo(b: Backend, reg: Registry, ps: seq<PseudoClass>, node: Node)
    requires |ps| == 1 && ps[0].name in reg
    ensures MatchPseudos(b, reg, ps, node) == EvalPseudo(b, reg, reg[ps[0].name], ps[0].value, node)
  {
  }

  lemma NotStep(b: Backend, reg: Registry, v: string, node: Node)
    ensures EvalPseudo(b, reg, Not, v, node) ==
      match MatchNode(b, reg, FirstChain(v), node)
      case Success(m) => Success(!m)
      case Failure(e) => Failure(e)
  {
  }

  // ---------------------------------------------------------------- properties of the walk

  /** The nodes a selector is tried on: the top level alone for a child selector, every node at every depth otherwise. */
  function Candidates(sel: Selector, data: seq<Node>): seq<Node> {
    if sel.direct then data else Preorder(data)
  }

  /** What a node that passes contributes: itself at the end of the chain, else what the rest of the chain finds in its body. */
  function Contribution(b: Backend, reg: Registry, sel: Selector, node: Node): seq<Node> {
    if sel.next.None? then [node]
    else if Truthy(node.body) then MatchData(b, reg, sel.next.value, node.body.nodes).out
    else []
  }

  /** The contributions of the candidates that pass, in candidate order. */
  function Collect(b: Backend, reg: Registry, sel: Selector, cands: seq<Node>): seq<Node> {
    if cands == [] then []
    else (if Holds(b, reg, sel, cands[0]) then Contribution(b, reg, sel, cands[0]) else []) + Collect(b, reg, sel, cands[1..])
  }

  lemma {:induction false} CollectConcat(b: Backend, reg: Registry, sel: Selector, x: seq<Node>, y: seq<Node>)
    ensures Collect(b, reg, sel, x + y) == Collect(b, reg, sel, x) + Collect(b, reg, sel, y)
  {
    if x == [] {
      assert x + y == y;
    } else {
      assert (x + y)[0] == x[0];
      assert (x + y)[1..] == x[1..] + y;
      var h := if Holds(b, reg, sel, x[0]) then Contribution(b, reg, sel, x[0]) else [];
      assert Collect(b, reg, sel, x + y) == h + Collect(b, reg, sel, x[1..] + y);
      CollectConcat(b, reg, sel, x[1..], y);
      SeqAssoc(h, Collect(b, reg, sel, x[1..]), Collect(b, reg, sel, y));
    }
  }

  lemma SeqAssoc<T>(a: seq<T>, b: seq<T>, c: seq<T>)
    ensures a + (b + c) == a + b + c
  {
  }

  /**
   * The walk, when nothing raises, yields the contributions of the
   * candidate nodes that pass the test, in preorder: so a node is yielded
   * before its matching descendants, a child selector is only tried on
   * the top level it is given, and the same node can be yielded twice.
   */
  lemma {:induction false} MatchDataCollects(b: Backend, reg: Registry, sel: Selector, data: seq<Node>)
    ensures MatchData(b, reg, sel, data).Completed() ==>
      MatchData(b, reg, sel, data).out == Collect(b, reg, sel, Candidates(sel, data))
    decreases data, 1
  {
    var pairs := Pairs(b, data);
    if MatchData(b, reg, sel, data).Completed() {
      MatchPairsCollects(b, reg, sel, data, |pairs.out|, 0);
      assert pairs.Completed();
      PairsCompleted(b, data);
      assert data[0..] == data;
    }
  }

  lemma PairsCompleted(b: Backend, data: seq<Node>)
    requires Pairs(b, data).Completed()
    ensures |Pairs(b, data).out| == |data|
  {
  }

  lemma {:induction false} MatchPairsCollects(b: Backend, reg: Registry, sel: Selector, data: seq<Node>, n: nat, i: nat)
    requires i <= n == |data|
    ensures MatchPairs(b, reg, sel, data, n, i).Completed() ==>
      MatchPairs(b, reg, sel, data, n, i).out == Collect(b, reg, sel, Candidates(sel, data[i..]))
    decreases data, 0, n - i
  {
    var r := MatchPairs(b, reg, sel, data, n, i);
    if i < n && r.Completed() {
      var node := data[i];
      MatchPairsStep(b, reg, sel, data, n, i);
      var m := MatchNode(b, reg, sel, node).value;
      var first := FirstPart(b, reg, sel, node, m);
      var deeper := DeeperPart(b, reg, sel, node);
      var rest := MatchPairs(b, reg, sel, data, n, i + 1);
      ThenCompleted(first, deeper, rest);
      MatchPairsCollects(b, reg, sel, data, n, i + 1);
      FirstPartOut(b, reg, sel, node);
      if !sel.direct && Truthy(node.body) {
        MatchDataCollects(b, reg, sel, node.body.nodes);
      }
      DeeperPartOut(b, reg, sel, node);
      CandidatesStep(sel, data, i);
      CollectCons(b, reg, sel, node, if sel.direct then [] else PreorderBody(node.body), Candidates(sel, data[i + 1..]));
    }
  }

  lemma ThenCompleted<T>(t: Trace<T>, u: Trace<T>, v: Trace<T>)
    requires t.Then(u).Then(v).Completed()
    ensures t.Completed() && u.Completed() && v.Completed()
    ensures t.Then(u).Then(v).out == t.out + u.out + v.out
  {
  }

  lemma CollectCons(b: Backend, reg: Registry, sel: Selector, node: Node, below: seq<Node>, after: seq<Node>)
    ensures Collect(b, reg, sel, [node] + below + after) ==
      (if Holds(b, reg, sel, node) then Contribution(b, reg, sel, node) else []) + Collect(b, reg, sel, below) + Collect(b, reg, sel, after)
  {
    CollectConcat(b, reg, sel, [node], below);
    CollectConcat(b, reg, sel, [node] + below, after);
  }

  /** What one pair yields when its node passes or fails the test: the rest of the chain in its body, or the node itself. */
  ghost function FirstPart(b: Backend, reg: Registry, sel: Selector, node: Node, m: bool): Trace<Node> {
    if !m then Done([])
    else if sel.next.None? then Done([node])
    else if Truthy(node.body) then MatchData(b, reg, sel.next.value, node.body.nodes)
    else Done([])
  }

  /** What one pair yields from the deeper search with the same selector. */
  ghost function DeeperPart(b: Backend, reg: Registry, sel: Selector, node: Node): Trace<Node> {
    if Truthy(node.body) && !sel.direct then MatchData(b, reg, sel, node.body.nodes) else Done([])
  }

  lemma MatchPairsStep(b: Backend, reg: Registry, sel: Selector, data: seq<Node>, n: nat, i: nat)
    requires i < n <= |data|
    ensures MatchNode(b, reg, sel, data[i]).Failure? ==>
      MatchPairs(b, reg, sel, data, n, i) == Raise(MatchNode(b, reg, sel, data[i]).error)
    ensures MatchNode(b, reg, sel, data[i]).Success? ==>
      MatchPairs(b, reg, sel, data, n, i) ==
        FirstPart(b, reg, sel, data[i], MatchNode(b, reg, sel, data[i]).value)
          .Then(DeeperPart(b, reg, sel, data[i]))
          .Then(MatchPairs(b, reg, sel, data, n, i + 1))
  {
  }

  lemma FirstPartOut(b: Backend, reg: Registry, sel: Selector, node: Node)
    requires MatchNode(b, reg, sel, node).Success?
    ensures var m := MatchNode(b, reg, sel, node).value;
      FirstPart(b, reg, sel, node, m).out == if Holds(b, reg, sel, node) then Contribution(b, reg, sel, node) else []
  {
  }

  lemma DeeperPartOut(b: Backend, reg: Registry, sel: Selector, node: Node)
    requires !sel.direct && Truthy(node.body) && MatchData(b, reg, sel, node.body.nodes).Completed() ==>
      MatchData(b, reg, sel, node.body.nodes).out == Collect(b, reg, sel, Candidates(sel, node.body.nodes))
    requires DeeperPart(b, reg, sel, node).Completed()
    ensures DeeperPart(b, reg, sel, node).out == if sel.direct then [] else Collect(b, reg, sel, PreorderBody(node.body))
  {
  }

  lemma CandidatesStep(sel: Selector, data: seq<Node>, i: nat)
    requires i < |data|
    ensures Candidates(sel, data[i..]) == [data[i]] + (if sel.direct then [] else PreorderBody(data[i].body)) + Candidates(sel, data[i + 1..])
  {
    assert data[i..][1..] == data[i + 1..];
  }

  /** The candidates that pass the node test, in order. */
  function Select(b: Backend, reg: Registry, sel: Selector, cands: seq<Node>): (r: seq<Node>)
    ensures |r| <= |cands|
    ensures forall k :: 0 <= k < |r| ==> r[k] in cands && Holds(b, reg, sel, r[k])
  {
    if cands == [] then []
    else (if Holds(b, reg, sel, cands[0]) then [cands[0]] else []) + Select(b, reg, sel, cands[1..])
  }

  /** At the end of a chain every passing candidate is yielded, once per time it is a candidate. */
  lemma {:induction false} CollectTerminal(b: Backend, reg: Registry, sel: Selector, cands: seq<Node>)
    requires sel.next.None?
    ensures Collect(b, reg, sel, cands) == Select(b, reg, sel, cands)
  {
    if cands != [] {
      CollectTerminal(b, reg, sel, cands[1..]);
    }
  }

  /** `class`-like selectors: one selector, no combinator, so every node at every depth that passes is yielded, in preorder. */
  lemma SingleSelector(b: Backend, reg: Registry, sel: Selector, data: seq<Node>)
    requires sel.next.None? && !sel.direct
    ensures MatchData(b, reg, sel, data).Completed() ==>
      MatchData(b, reg, sel, data).out == Select(b, reg, sel, Preorder(data))
  {
    MatchDataCollects(b, reg, sel, data);
    CollectTerminal(b, reg, sel, Preorder(data));
  }

  /** `a > b`-like chains end: what a passing node contributes is its direct children that pass the last selector. */
  lemma ChildContribution(b: Backend, reg: Registry, sel: Selector, node: Node)
    requires sel.next.Some? && sel.next.value.direct && sel.next.value.next.None?
    requires Truthy(node.body) ==> MatchData(b, reg, sel.next.value, node.body.nodes).Completed()
    ensures Contribution(b, reg, sel, node) == Select(b, reg, sel.next.value, Children(node.body))
  {
    if Truthy(node.body) {
      MatchDataCollects(b, reg, sel.next.value, node.body.nodes);
      CollectTerminal(b, reg, sel.next.value, node.body.nodes);
    }
  }

  /** Whatever the chain and whatever is raised, every yielded node is a node of the forest, at some depth. */
  lemma {:induction false} MatchDataWithin(b: Backend, reg: Registry, sel: Selector, data: seq<Node>)
    ensures forall k :: 0 <= k < |MatchData(b, reg, sel, data).out| ==> MatchData(b, reg, sel, data).out[k] in Preorder(data)
    decreases data, 1
  {
    var pairs := Pairs(b, data);
    MatchPairsWithin(b, reg, sel, data, |pairs.out|, 0);
    assert data[0..] == data;
  }

  lemma {:induction false} MatchPairsWithin(b: Backend, reg: Registry, sel: Selector, data: seq<Node>, n: nat, i: nat)
    requires i <= n <= |data|
    ensures forall k :: 0 <= k < |MatchPairs(b, reg, sel, data, n, i).out| ==>
      MatchPairs(b, reg, sel, data, n, i).out[k] in Preorder(data[i..])
    decreases data, 0, n - i, 1
  {
    if i < n {
      MatchPairsWithin(b, reg, sel, data, n, i + 1);
      PairsWithinStep(b, reg, sel, data, n, i, i + 1);
    }
  }

  lemma {:induction false} PairsWithinStep(b: Backend, reg: Registry, sel: Selector, data: seq<Node>, n: nat, i: nat, j: nat)
    requires i < n <= |data| && j == i + 1
    requires forall x :: x in MatchPairs(b, reg, sel, data, n, j).out ==> x in Preorder(data[j..])
    ensures forall x :: x in MatchPairs(b, reg, sel, data, n, i).out ==> x in Preorder(data[i..])
    decreases data, 0, n - i, 0
  {
    var node := data[i];
    MatchPairsStep(b, reg, sel, data, n, i);
    CandidatesStep(sel.(direct := false), data, i);
    var within := Preorder(data[i..]);
    assert within == [node] + PreorderBody(node.body) + Preorder(data[i + 1..]);
    if MatchNode(b, reg, sel, node).Success? {
      var m := MatchNode(b, reg, sel, node).value;
      PartsWithin(b, reg, sel, node, m, Preorder(data[j..]));
      ThenWithin(FirstPart(b, reg, sel, node, m).Then(DeeperPart(b, reg, sel, node)), MatchPairs(b, reg, sel, data, n, j), within);
    }
  }

  /** What one passing node yields lies in its own walk. */
  lemma {:induction false} PartsWithin(b: Backend, reg: Registry, sel: Selector, node: Node, m: bool, after: seq<Node>)
    ensures forall x :: x in FirstPart(b, reg, sel, node, m).Then(DeeperPart(b, reg, sel, node)).out ==>
      x in [node] + PreorderBody(node.body) + after
    decreases node, 0
  {
    var within := [node] + PreorderBody(node.body) + after;
    var first := FirstPart(b, reg, sel, node, m);
    var deeper := DeeperPart(b, reg, sel, node);
    if Truthy(node.body) {
      MatchDataWithin(b, reg, sel, node.body.nodes);
      if sel.next.Some? {
        MatchDataWithin(b, reg, sel.next.value, node.body.nodes);
      }
    }
    assert forall x :: x in first.out ==> x in within;
    assert forall x :: x in deeper.out ==> x in within;
    ThenWithin(first, deeper, within);
  }

  lemma ThenWithin(t: Trace<Node>, u: Trace<Node>, within: seq<Node>)
    requires forall x :: x in t.out ==> x in within
    requires forall x :: x in u.out ==> x in within
    ensures forall x :: x in t.Then(u).out ==> x in within
  {
  }

  /** No selector of the chain raises on any of the nodes. */
  ghost predicate NeverRaises(b: Backend, reg: Registry, sel: Selector, nodes: seq<Node>) {
    forall s, n :: s in Chain(sel) && n in nodes ==> MatchNode(b, reg, s, n).Success?
  }

  /** With a backend that pairs every node, a walk whose node tests never raise completes. */
  lemma {:induction false} WalkCompletes(b: Backend, reg: Registry, sel: Selector, data: seq<Node>)
    requires b != Unimplemented && NeverRaises(b, reg, sel, Preorder(data))
    ensures MatchData(b, reg, sel, data).Completed()
    decreases data, 1
  {
    PairsComplete(b, data);
    assert data[0..] == data;
    WalkPairsComplete(b, reg, sel, data, |data|, 0);
  }

  lemma {:induction false} WalkPairsComplete(b: Backend, reg: Registry, sel: Selector, data: seq<Node>, n: nat, i: nat)
    requires b != Unimplemented && i <= n == |data|
    requires NeverRaises(b, reg, sel, Preorder(data[i..]))
    ensures MatchPairs(b, reg, sel, data, n, i).Completed()
    decreases data, 0, n - i
  {
    if i < n {
      var node := data[i];
      MatchPairsStep(b, reg, sel, data, n, i);
      PreorderStep(data, i);
      NeverRaisesWithin(b, reg, sel, Preorder(data[i..]), [node]);
      NeverRaisesWithin(b, reg, sel, Preorder(data[i..]), Preorder(data[i + 1..]));
      if Truthy(node.body) {
        NeverRaisesWithin(b, reg, sel, Preorder(data[i..]), Preorder(node.body.nodes));
        WalkCompletes(b, reg, sel, node.body.nodes);
        if sel.next.Some? {
          NeverRaisesNext(b, reg, sel, Preorder(node.body.nodes));
          WalkCompletes(b, reg, sel.next.value, node.body.nodes);
        }
      }
      WalkPairsComplete(b, reg, sel, data, n, i + 1);
    }
  }

  lemma NeverRaisesWithin(b: Backend, reg: Registry, sel: Selector, xs: seq<Node>, ys: seq<Node>)
    requires NeverRaises(b, reg, sel, xs) && forall y :: y in ys ==> y in xs
    ensures NeverRaises(b, reg, sel, ys)
  {
  }

  lemma NeverRaisesNext(b: Backend, reg: Registry, sel: Selector, xs: seq<Node>)
    requires sel.next.Some? && NeverRaises(b, reg, sel, xs)
    ensures NeverRaises(b, reg, sel.next.value, xs)
  {
  }

  /** The base engine raises NotImplementedError from `iter_data` before yielding anything, whatever the selector. */
  lemma BaseEngineRaises(reg: Registry, selector: string, data: seq<Node>)
    ensures MatchSelector(Unimplemented, reg, selector, data) == Raise(NotImplemented("iter_data"))
  {
    var chains := Parse(selector);
    BaseMatchDataRaises(reg, chains[0], data);
    assert MatchChains(Unimplemented, reg, chains, data) == MatchData(Unimplemented, reg, chains[0], data).Then(MatchChains(Unimplemented, reg, chains[1..], data));
  }

  lemma BaseMatchDataRaises(reg: Registry, sel: Selector, data: seq<Node>)
    ensures MatchData(Unimplemented, reg, sel, data) == Raise(NotImplemented("iter_data"))
  {
    assert Pairs(Unimplemented, data) == Raise(NotImplemented("iter_data"));
  }

  /** Alternatives are matched one after the other: the results for `a,b` are those for `a` followed by those for `b`. */
  lemma MatchConcat(b: Backend, reg: Registry, x: string, y: string, data: seq<Node>)
    ensures MatchSelector(b, reg, x + "," + y, data) == MatchSelector(b, reg, x, data).Then(MatchSelector(b, reg, y, data))
  {
    ParseConcat(x, y);
    MatchChainsConcat(b, reg, Parse(x), Parse(y), data);
  }

  lemma {:induction false} MatchChainsConcat(b: Backend, reg: Registry, p: seq<Selector>, q: seq<Selector>, data: seq<Node>)
    ensures MatchChains(b, reg, p + q, data) == MatchChains(b, reg, p, data).Then(MatchChains(b, reg, q, data))
  {
    if p == [] {
      assert p + q == q;
    } else {
      assert (p + q)[0] == p[0];
      assert (p + q)[1..] == p[1..] + q;
      MatchChainsConcat(b, reg, p[1..], q, data);
      ThenAssoc(MatchData(b, reg, p[0], data), MatchChains(b, reg, p[1..], data), MatchChains(b, reg, q, data));
    }
  }

  /** Chained `yield from` groups either way: the engine's nesting of generators does not change what is yielded or raised. */
  lemma ThenAssoc<T>(t: Trace<T>, u: Trace<T>, v: Trace<T>)
    ensures t.Then(u).Then(v) == t.Then(u.Then(v))
  {
  }

  /** No deduplication: repeating an alternative repeats its results. */
  lemma NoDeduplication(b: Backend, reg: Registry, x: string, data: seq<Node>)
    requires MatchSelector(b, reg, x, data).Completed()
    ensures MatchSelector(b, reg, x + "," + x, data).out == MatchSelector(b, reg, x, data).out + MatchSelector(b, reg, x, data).out
  {
    MatchConcat(b, reg, x, x, data);
  }

  /** The empty selector yields every node of the forest, in preorder. */
  lemma EmptySelectorYieldsAll(b: Backend, reg: Registry, data: seq<Node>)
    requires b != Unimplemented
    ensures MatchSelector(b, reg, "", data) == Done(Preorder(data))
  {
    var sel := Selector("", "", None, [], [], [], None, false);
    ParseEmpty();
    assert MatchSelector(b, reg, "", data) == MatchData(b, reg, sel, data).Then(MatchChains(b, reg, [], data));
    forall n: Node ensures MatchNode(b, reg, sel, n).Success? {
      EmptySelectorMatchesAll(b, reg, sel, n);
    }
    WalkCompletes(b, reg, sel, data);
    SingleSelector(b, reg, sel, data);
    SelectAll(b, reg, sel, Preorder(data));
  }

  lemma {:induction false} SelectAll(b: Backend, reg: Registry, sel: Selector, cands: seq<Node>)
    requires forall n: Node :: Holds(b, reg, sel, n)
    ensures Select(b, reg, sel, cands) == cands
  {
    if cands != [] {
      SelectAll(b, reg, sel, cands[1..]);
    }
  }
}
