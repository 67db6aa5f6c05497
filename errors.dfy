/**
 * The exceptions the core can raise, and the output of a generator that may
 * stop with one of them.
 */
module Errors {
  import opened Wrappers

  /** The Python exceptions raised by the matching code. */
  datatype Error =
    | NotImplemented(operation: string)   // a backend method of the base class (NotImplementedError)
    | KeyError(key: string)               // a missing dictionary key, such as an unregistered pseudo-class
    | AttributeError(attribute: string)   // a node without the attribute that is read
    | TypeError                           // `rgt in None` for a missing attribute
    | UnknownOperator(op: string)         // the attribute-operator exception of the AST backend
    | BadPair                             // `_iter_data` got a tuple that is not a pair
    | UnboundLocal(name: string)          // a local variable read before any branch assigned it

  /**
   * What a generator produced: the values it yielded, in order, and the
   * exception that ended it, if any. Values yielded before an exception stay
   * valid.
   */
  datatype Trace<+T> = Trace(out: seq<T>, err: Option<Error>) {

    predicate Completed() {
      err.None?
    }

    /** `yield from this` followed by `yield from next`; `next` only runs when this one completed. */
    function Then(next: Trace<T>): (r: Trace<T>)
      ensures Completed() ==> r.out == out + next.out && r.err == next.err
      ensures !Completed() ==> r == this
      ensures out <= r.out
      ensures r.Completed() <==> Completed() && next.Completed()
    {
      if err.Some? then this else Trace(out + next.out, next.err)
    }
  }

  function Done<T>(out: seq<T>): Trace<T> {
    Trace(out, None)
  }

  function Raise<T>(e: Error): Trace<T> {
    Trace([], Some(e))
  }
}
