/** Failure-compatible datatypes shared by every module of the model. */
module Wrappers {

  /** A value or Python's absence of one: `None`, or the `VOID` sentinel of the JSON layer. */
  datatype Option<+T> = None | Some(value: T) {
    function GetOr(default: T): T {
      match this
      case Some(v) => v
      case None => default
    }
  }

  /** The exceptions the modelled code raises, by kind; message texts are not modelled. */
  datatype Error =
    | ValueErr      // ValueError from pointer, number, range or reference parsing
    | PatchErr      // PatchError
    | SchemaErr     // SchemaError

  datatype Result<+R, +E> = Success(value: R) | Failure(error: E) {
    predicate IsFailure() {
      Failure?
    }

    function PropagateFailure<U>(): (r: Result<U, E>)
      requires Failure?
    {
      Failure(this.error)
    }

    function Extract(): R
      requires Success?
    {
      value
    }
  }
}
