/**
 * The backend of the engine's own test suite, the CustomMatchEngine of
 * test_sizzle.py: its nodes are `CLS(name, extends, body)` and
 * `DEF(name)` records, read here as class and function nodes whose
 * `bases` hold the `extends` list.
 */
module CustomBackend {
  import opened Wrappers
  import opened Errors
  import opened Trees

  /** `match_type`: a name other than `class` or `def` leaves `cls` unassigned. */
  function MatchType(typ: string, node: Node): (r: Result<bool, Error>)
    ensures r.Failure? <==> typ != "class" && typ != "def"
    ensures r.Failure? ==> r.error == UnboundLocal("cls")
    ensures typ == "class" ==> r == Success(node.kind == ClassDef)
    ensures typ == "def" ==> r == Success(node.kind == FunctionDef)
  {
    if typ == "class" then Success(node.kind == ClassDef)
    else if typ == "def" then Success(node.kind == FunctionDef)
    else Failure(UnboundLocal("cls"))
  }

  /** `pseudo_extends`: an empty value asks for an empty `extends` list, any other value for membership in it. */
  function Extends(node: Node, value: string): (r: Result<bool, Error>)
    ensures r.Success?
    ensures value == [] ==> (r.value <==> node.bases == Some([]))
    ensures value != [] ==> (r.value <==> node.bases.Some? && value in node.bases.value)
  {
    if value == [] then Success(node.bases.Some? && node.bases.value == [])
    else Success(value in (if node.bases.Some? then node.bases.value else []))
  }
}
