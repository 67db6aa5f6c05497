/**
 * The ASTMatchEngine of pyq/astmatch.py: the match engine over the
 * Python-AST backend, its registration of `extends`, the loop form of
 * `pseudo_extends`, and `match`, which reports each matched node with its
 * line. The parsed file is given as its node list; reading and parsing the file
 * is not part of this model.
 */
module AstEngine {
  import opened Wrappers
  import opened Errors
  import opened Text
  import opened Trees
  import opened Engine
  import AstBackend

  /** `ASTMatchEngine()`: the base registration of `not`, then `extends`. */
  method NewAstMatchEngine() returns (e: MatchEngine)
    ensures fresh(e) && e.backend == Ast
    ensures e.pseudoFns == map["not" := Not, "extends" := AstExtends]
  {
    e := new MatchEngine(Ast);
    e.RegisterPseudo("extends", AstExtends);
  }

  /** `pseudo_extends` as written: a loop over the bases that returns at the first match and falls through to a falsy `None`. */
  method PseudoExtends(node: Node, value: string) returns (r: Result<bool, Error>)
    ensures r == AstBackend.Extends(node, value)
  {
    if node.bases.None? {
      return Failure(AttributeError("bases"));
    }
    var bases := node.bases.value;
    var i := 0;
    while i < |bases|
      invariant 0 <= i <= |bases|
      invariant AstBackend.AnyBase(bases, value) == AstBackend.AnyBase(bases[i..], value)
    {
      var base := bases[i];
      assert bases[i..][1..] == bases[i + 1..];
      if base == value {
        return Success(true);
      } else if '.' in base && Contains(base, value) {
        var parts := Split(base, '.');
        if value in parts {
          return Success(true);
        }
      }
      i := i + 1;
    }
    return Success(false);
  }

  /** The loop of `match`: each node with its line moved down by one for each decorator of a class or function definition. */
  method WithLines(nodes: seq<Node>) returns (matches: seq<(Node, int)>)
    ensures |matches| == |nodes|
    ensures forall i :: 0 <= i < |nodes| ==> matches[i] == (nodes[i], AstBackend.ReportedLine(nodes[i]))
  {
    matches := [];
    var k := 0;
    while k < |nodes|
      invariant 0 <= k <= |nodes| && |matches| == k
      invariant forall i :: 0 <= i < k ==> matches[i] == (nodes[i], AstBackend.ReportedLine(nodes[i]))
    {
      var m := nodes[k];
      var lineno := m.lineno;
      if m.kind == ClassDef || m.kind == FunctionDef {
        var j := 0;
        while j < |m.decorators|
          invariant 0 <= j <= |m.decorators| && lineno == m.lineno + j
        {
          lineno := lineno + 1;
          j := j + 1;
        }
      }
      matches := matches + [(m, lineno)];
      k := k + 1;
    }
  }

  /**
   * `match`: every node the engine yields, with its reported line; what the
   * engine raises is raised after the nodes before it.
   */
  method Match(e: MatchEngine, selector: string, tree: seq<Node>) returns (matches: seq<(Node, int)>, err: Option<Error>)
    ensures var t := e.Match(selector, tree);
      |matches| == |t.out| && err == t.err &&
      forall i :: 0 <= i < |t.out| ==> matches[i] == (t.out[i], AstBackend.ReportedLine(t.out[i]))
  {
    var t := e.Match(selector, tree);
    matches := WithLines(t.out);
    err := t.err;
  }
}
