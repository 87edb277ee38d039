/** Failure-compatible wrappers used across the model: an optional value for the
    nullable columns of the entities, and a result that is either a value or the
    error a service raises. */
module Wrappers {

  /** A value that may be absent (a nullable column or reference). */
  datatype Option<+T> = None | Some(value: T)

  /** The outcome of a service call: a value, or the exception it throws. */
  datatype Result<+T, +E> = Success(value: T) | Failure(error: E) {
    predicate IsFailure() {
      Failure?
    }

    function PropagateFailure<U>(): Result<U, E>
      requires Failure?
    {
      Failure(error)
    }

    function Extract(): T
      requires Success?
    {
      value
    }
  }
}

/** Identifiers. Every entity's primary key is a server-generated UUID; the model
    only needs equality on them, and uses naturals so that examples can name them. */
module Ids {
  type Uuid = nat
}
