/**
 * Failure-carrying results. The Kotlin code signals failure by throwing; each
 * exception class it can raise on the modelled paths becomes one `Failure`
 * constructor, and a call that may throw returns a `Result`.
 */
module Errors {

  /** An optional value (Kotlin's nullable `T?`). */
  datatype Option<+T> = None | Some(value: T)

  /** The exceptions the modelled code raises. */
  datatype Failure =
    | IllegalArgument(message: string)  // `require(...)` and `throw IllegalArgumentException(...)`
    | NumberFormat(input: string)       // `String.toInt()` on text that is not an Int
    | IndexOutOfBounds(index: nat)      // `list[index]` past the end of a list

  /** Either a value or the exception that ended the computation. */
  datatype Result<+T> = Ok(value: T) | Err(failure: Failure) {

    predicate IsFailure() {
      Err?
    }

    function PropagateFailure<U>(): Result<U>
      requires Err?
    {
      Err(failure)
    }

    function Extract(): T
      requires Ok?
    {
      value
    }
  }

  /** The failure Kotlin's `require(condition) { message }` raises. */
  function Require(condition: bool, message: string): (r: Result<()>)
    ensures r.Ok? <==> condition
    ensures r.Err? ==> r.failure == IllegalArgument(message)
  {
    if condition then Ok(()) else Err(IllegalArgument(message))
  }
}
