/** Failure-compatible wrappers shared by every module of the model. */
module Wrappers {

  /** A value that may be absent (Kotlin's nullable types). */
  datatype Option<+T> = None | Some(value: T) {

    predicate IsFailure() {
      None?
    }

    function PropagateFailure<U>(): Option<U>
      requires None?
    {
      None
    }

    function Extract(): T
      requires Some?
    {
      value
    }

    /** The value, or the given fault when it is absent. */
    function ToResult(e: Fault): (r: Result<T>)
      ensures r.Success? <==> Some?
      ensures r.Success? ==> r.value == value
      ensures r.Failure? ==> r.error == e
    {
      match this
      case Some(v) => Success(v)
      case None => Failure(e)
    }

    function GetOr(default: T): T {
      match this
      case Some(v) => v
      case None => default
    }
  }

  /** The ways the modelled Kotlin code can end abruptly. Each constructor names the
      exception the JVM / Kotlin runtime would raise. */
  datatype Fault =
    | IllegalArgument     // `require(...)` failing, or an explicit IllegalArgumentException
    | IndexOutOfBounds    // an array or string index outside its bounds
    | NegativeArraySize   // allocating an array with a negative length
    | ArithmeticError     // integer division or remainder by zero
    | NumberFormat        // `String.toLong(radix)` on text that is not a number
    | NoSuchElement       // `minOf` / `maxOf` on an empty collection
    | Diverges            // a loop that never ends; the model stops it after a fuel budget
    | IllegalState        // an `IllegalStateException`, e.g. a platform call reporting an error

  /** Either the value an operation returns or the fault it ends with. */
  datatype Result<+T> = Success(value: T) | Failure(error: Fault) {

    predicate IsFailure() {
      Failure?
    }

    function PropagateFailure<U>(): Result<U>
      requires Failure?
    {
      Failure(error)
    }

    function Extract(): T
      requires Success?
    {
      value
    }
  }
}
