/** Failure-carrying datatypes shared by every module of the bot model.

- Option<T>: a value that may be absent.
- Result<T>: either a value or an error message (the error path of a parser).
- Returned<T>: the (value, error) pair a Go function returns; both halves are
  present at once, which matters where a caller uses the value even after an
  error was reported.
 */
module Wrappers {

  datatype Option<+T> = None | Some(value: T) {

    function GetOr(default: T): T {
      match this
      case Some(v) => v
      case None => default
    }
  }

  /** A value or a textual error; errors in the bot are only ever shown as text. */
  datatype Result<+T> = Success(value: T) | Failure(error: string) {

    predicate IsFailure() {
      Failure?
    }

    function PropagateFailure<U>(): Result<U>
      requires Failure?
    {
      Failure(error)
    }

    function Extract(): T
      requires Success?
    {
      value
    }
  }

  /** The pair `(value, err)` a Go function hands back.  `err == None` is Go's `nil`. */
  datatype Returned<+T> = Returned(value: T, err: Option<string>) {

    predicate Failed() {
      err.Some?
    }
  }

  /** The conventional Go success return `(v, nil)`. */
  function Ok<T>(v: T): Returned<T> {
    Returned(v, None)
  }
}
