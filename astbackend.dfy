/**
 * The predicates of the Python-AST backend, pyq/astmatch.py. Nodes are the
 * abstract nodes of module Trees; the text of each base class (what
 * `astor.to_source(base).rstrip()` gives) is taken as given.
 */
module AstBackend {
  import opened Wrappers
  import opened Errors
  import opened Text
  import opened Trees

  /** `match_type`: `class` tests for a class definition, `def` for a function definition, any other name gives a falsy `None`. */
  function MatchType(typ: string, node: Node): (r: bool)
    ensures r ==> typ == "class" || typ == "def"
    ensures typ == "class" ==> (r <==> node.kind == ClassDef)
    ensures typ == "def" ==> (r <==> node.kind == FunctionDef)
  {
    if typ == "class" then node.kind == ClassDef
    else if typ == "def" then node.kind == FunctionDef
    else false
  }

  /** `match_id`: compares `node.name`, which a node without a name cannot give. */
  function MatchId(id: string, node: Node): (r: Result<bool, Error>)
    ensures "name" !in node.attrs <==> r == Failure(AttributeError("name"))
    ensures r.Success? ==> (r.value <==> node.attrs["name"] == id)
  {
    if "name" in node.attrs then Success(node.attrs["name"] == id) else Failure(AttributeError("name"))
  }

  /** `getattr(node, lft, None)`. */
  function Attr(node: Node, lft: string): Option<string> {
    if lft in node.attrs then Some(node.attrs[lft]) else None
  }

  /**
   * `match_attr`: the operators are tried in the order `=`, `!=`, `*=`, `^=`,
   * `$=`; a missing attribute reads as `None`, which only `=` and `!=` can
   * compare, and any other operator raises.
   */
  function MatchAttr(lft: string, op: string, rgt: string, node: Node): Result<bool, Error> {
    var value := Attr(node, lft);
    if op == "=" then Success(value == Some(rgt))
    else if op == "!=" then Success(value != Some(rgt))
    else if op == "*=" then
      (if value.None? then Failure(TypeError) else Success(Contains(value.value, rgt)))
    else if op == "^=" then
      (if value.None? then Failure(AttributeError("startswith")) else Success(StartsWith(value.value, rgt)))
    else if op == "$=" then
      (if value.None? then Failure(AttributeError("endswith")) else Success(EndsWith(value.value, rgt)))
    else Failure(UnknownOperator(op))
  }

  /** On a present attribute each operator is its string relation: equality, inequality, substring, prefix, suffix. */
  lemma MatchAttrPresent(lft: string, rgt: string, node: Node)
    requires lft in node.attrs
    ensures var v := node.attrs[lft];
      MatchAttr(lft, "=", rgt, node) == Success(v == rgt) &&
      MatchAttr(lft, "!=", rgt, node) == Success(v != rgt) &&
      MatchAttr(lft, "*=", rgt, node) == Success(Contains(v, rgt)) &&
      MatchAttr(lft, "^=", rgt, node) == Success(StartsWith(v, rgt)) &&
      MatchAttr(lft, "$=", rgt, node) == Success(EndsWith(v, rgt))
  {
  }

  /** A missing attribute: `=` is false, `!=` is true, the three string operators raise. */
  lemma MatchAttrMissing(lft: string, rgt: string, node: Node)
    requires lft !in node.attrs
    ensures MatchAttr(lft, "=", rgt, node) == Success(false)
    ensures MatchAttr(lft, "!=", rgt, node) == Success(true)
    ensures MatchAttr(lft, "*=", rgt, node) == Failure(TypeError)
    ensures MatchAttr(lft, "^=", rgt, node) == Failure(AttributeError("startswith"))
    ensures MatchAttr(lft, "$=", rgt, node) == Failure(AttributeError("endswith"))
  {
  }

  /** `!=` is the negation of `=`, whether or not the attribute exists. */
  lemma MatchAttrNotEqual(lft: string, rgt: string, node: Node)
    ensures MatchAttr(lft, "!=", rgt, node).Success? && MatchAttr(lft, "=", rgt, node).Success?
    ensures MatchAttr(lft, "!=", rgt, node).value == !MatchAttr(lft, "=", rgt, node).value
  {
  }

  /** Equality implies prefix and suffix, and each of those implies substring. */
  lemma MatchAttrImplications(lft: string, rgt: string, node: Node)
    requires lft in node.attrs
    ensures MatchAttr(lft, "=", rgt, node).value ==> MatchAttr(lft, "^=", rgt, node).value && MatchAttr(lft, "$=", rgt, node).value
    ensures MatchAttr(lft, "^=", rgt, node).value ==> MatchAttr(lft, "*=", rgt, node).value
    ensures MatchAttr(lft, "$=", rgt, node).value ==> MatchAttr(lft, "*=", rgt, node).value
  {
    var v := node.attrs[lft];
    if StartsWith(v, rgt) {
      ContainsAt(v, rgt, 0);
    }
    if EndsWith(v, rgt) {
      EndsWithContains(v, rgt);
    }
    if v == rgt {
      assert v[..|rgt|] == rgt && v[|v| - |rgt|..] == rgt;
    }
  }

  /** Any operator outside the five raises. */
  lemma MatchAttrUnknown(lft: string, op: string, rgt: string, node: Node)
    requires op !in {"=", "!=", "*=", "^=", "$="}
    ensures MatchAttr(lft, op, rgt, node) == Failure(UnknownOperator(op))
  {
  }

  /** One base of `pseudo_extends`: the exact text, or one `.`-separated part of a dotted name that contains the value. */
  predicate BaseMatches(base: string, value: string) {
    base == value || ('.' in base && Contains(base, value) && value in Split(base, '.'))
  }

  function AnyBase(bases: seq<string>, value: string): bool {
    bases != [] && (BaseMatches(bases[0], value) || AnyBase(bases[1..], value))
  }

  /** `pseudo_extends`: some base matches; a node without `bases` raises, and no match gives a falsy `None`. */
  function Extends(node: Node, value: string): (r: Result<bool, Error>)
    ensures node.bases.None? <==> r == Failure(AttributeError("bases"))
  {
    match node.bases
    case None => Failure(AttributeError("bases"))
    case Some(bases) => Success(AnyBase(bases, value))
  }

  lemma {:induction false} AnyBaseExists(bases: seq<string>, value: string)
    ensures AnyBase(bases, value) <==> exists i :: 0 <= i < |bases| && BaseMatches(bases[i], value)
  {
    if bases != [] {
      AnyBaseExists(bases[1..], value);
      if AnyBase(bases[1..], value) {
        var i :| 0 <= i < |bases[1..]| && BaseMatches(bases[1..][i], value);
        assert BaseMatches(bases[i + 1], value);
      }
      if exists i :: 0 <= i < |bases| && BaseMatches(bases[i], value) {
        var i :| 0 <= i < |bases| && BaseMatches(bases[i], value);
        if i > 0 {
          assert BaseMatches(bases[1..][i - 1], value);
        }
      }
    }
  }

  /** The substring pre-check of the dotted case never decides anything: every part of a split is a substring. */
  lemma BaseMatchesParts(base: string, value: string)
    ensures BaseMatches(base, value) <==> base == value || ('.' in base && value in Split(base, '.'))
  {
    if value in Split(base, '.') {
      var i :| 0 <= i < |Split(base, '.')| && Split(base, '.')[i] == value;
      SplitPieceContained(base, '.', i);
    }
  }

  /** A dotted value only matches a base with exactly that text: no part of a split holds a `.`. */
  lemma BaseMatchesDotted(base: string, value: string)
    requires '.' in value
    ensures BaseMatches(base, value) <==> base == value
  {
    SplitJoin(base, '.');
  }

  /** Under `pseudo_extends`, a node matches exactly when one of its bases does. */
  lemma ExtendsIff(node: Node, value: string)
    requires node.bases.Some?
    ensures Extends(node, value).Success?
    ensures Extends(node, value).value <==>
      exists i :: 0 <= i < |node.bases.value| && BaseMatches(node.bases.value[i], value)
  {
    AnyBaseExists(node.bases.value, value);
  }

  /** `iter_data`: one `(node, getattr(node, 'body', None))` pair per node, in order. */
  function IterData(data: seq<Node>): (r: seq<Tuple>)
    ensures |r| == |data|
    ensures forall i :: 0 <= i < |data| ==> r[i] == Tuple(data[i], [data[i].body]) && r[i].IsPair()
  {
    if data == [] then [] else [Tuple(data[0], [data[0].body])] + IterData(data[1..])
  }

  /** The line `match` reports: decorators shift class and function definitions down by one line each. */
  function ReportedLine(node: Node): int {
    if node.kind == ClassDef || node.kind == FunctionDef then node.lineno + |node.decorators| else node.lineno
  }
}
