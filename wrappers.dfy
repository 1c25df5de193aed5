/** Failure-compatible result types used throughout the model, and the Java
    exceptions that the modelled code throws or propagates. */
module Wrappers {

  /** Java's `null` versus a present reference. */
  datatype Option<+T> = None | Some(value: T)

  /** A value, or the exception that replaced it. */
  datatype Result<+T, +E> = Success(value: T) | Failure(error: E) {
    predicate IsFailure() {
      Failure?
    }

    function PropagateFailure<U>(): Result<U, E>
      requires Failure?
    {
      Failure(error)
    }

    function Extract(): T
      requires Success?
    {
      value
    }
  }

  /** A void method that either returns normally or throws. */
  datatype Outcome<+E> = Pass | Fail(error: E) {
    predicate IsFailure() {
      Fail?
    }

    function PropagateFailure(): Outcome<E>
      requires Fail?
    {
      this
    }
  }

  /** The exceptions thrown by the modelled code. */
  datatype JavaException =
    | RejectException                 // older data point or mixed numeric kind
    | PerformantException             // the older engines' mixed-kind rejection
    | ItemNotFoundException(what: string)
    | IllegalArgumentException        // unknown time unit, subMap(from > to)
    | ArithmeticException             // integer division by zero
    | NumberFormatException
    | ArrayIndexOutOfBoundsException
    | NullPointerException
    | IOException                     // end of a bucket reader's snapshot
    | ReplaySignal                    // a ByteBuf read past its readable bytes
}
