/**
 * The trees the match engine walks: nodes with an optional `body` list of
 * child nodes. The attributes the backends read (`name`, `bases`, `lineno`,
 * `decorator_list` and any other named attribute) are carried explicitly,
 * so the node classes themselves stay abstract.
 */
module Trees {
  import opened Wrappers

  /** The node class, as far as `isinstance` tests in the backends distinguish it. */
  datatype Kind = ClassDef | FunctionDef | OtherKind(cls: string)

  /**
   * A node. `attrs` holds the string-valued attributes (`getattr(node, name)`
   * succeeds exactly for the keys), `bases` the source text of the base
   * classes when the node has a `bases` attribute, `decorators` the
   * decorator list and `body` the children.
   */
  datatype Node = Node(
    kind: Kind,
    attrs: map<string, string>,
    bases: Option<seq<string>>,
    lineno: int,
    decorators: seq<string>,
    body: Body)

  /** `getattr(node, 'body', None)`: no attribute, or a (possibly empty) list of children. */
  datatype Body = Absent | Present(nodes: seq<Node>)

  /**
   * A tuple yielded by a backend's `iter_data`: a node followed by
   * `others`, so of length `1 + |others|`; `(node, body)` is the pair the
   * engine expects.
   */
  datatype Tuple = Tuple(node: Node, others: seq<Body>) {
    predicate IsPair() {
      |others| == 1
    }
  }

  /** Python truthiness of a body: `None` and `[]` are false. */
  predicate Truthy(b: Body) {
    b.Present? && b.nodes != []
  }

  function Children(b: Body): seq<Node> {
    if b.Present? then b.nodes else []
  }

  /** Every node of the forest `data`, each before its descendants, siblings in order. */
  function Preorder(data: seq<Node>): (r: seq<Node>)
    decreases data, 1
    ensures |r| >= |data|
  {
    if data == [] then [] else [data[0]] + PreorderBody(data[0].body) + Preorder(data[1..])
  }

  function PreorderBody(b: Body): seq<Node>
    decreases b, 0
  {
    match b
    case Absent => []
    case Present(nodes) => Preorder(nodes)
  }

  /** Every root of the forest is visited. */
  lemma {:induction false} PreorderHasRoots(data: seq<Node>)
    ensures forall i :: 0 <= i < |data| ==> data[i] in Preorder(data)
  {
    if data != [] {
      PreorderHasRoots(data[1..]);
      forall i | 1 <= i < |data| ensures data[i] in Preorder(data) {
        assert data[i] == data[1..][i - 1];
      }
    }
  }

  lemma {:induction false} PreorderConcat(a: seq<Node>, b: seq<Node>)
    ensures Preorder(a + b) == Preorder(a) + Preorder(b)
  {
    if a == [] {
      assert a + b == b;
    } else {
      assert (a + b)[0] == a[0];
      assert (a + b)[1..] == a[1..] + b;
      PreorderConcat(a[1..], b);
    }
  }

  /** The preorder of a suffix: its first node, that node's descendants, then the rest. */
  lemma PreorderStep(data: seq<Node>, i: nat)
    requires i < |data|
    ensures Preorder(data[i..]) == [data[i]] + PreorderBody(data[i].body) + Preorder(data[i + 1..])
  {
    assert data[i..][1..] == data[i + 1..];
  }
}
