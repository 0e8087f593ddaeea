/** Outcomes of the template compiler: a value, or one of the JavaScript
    exceptions the compiler throws. */
module Errors {

  /** The exception classes the compiler can raise, with their message. */
  datatype Error =
    | SyntaxError(msg: string)
    | ReferenceError(msg: string)
    | TypeError(msg: string)

  datatype Result<+T> = Ok(value: T) | Err(error: Error) {
    predicate IsFailure() { Err? }

    function PropagateFailure<U>(): Result<U>
      requires Err?
    {
      Err(error)
    }

    function Extract(): T
      requires Ok?
    {
      value
    }
  }

  datatype Option<+T> = None | Some(value: T) {
    function GetOr(default: T): T {
      match this
      case Some(v) => v
      case None => default
    }
  }
}
