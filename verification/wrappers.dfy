/** Failure-carrying datatypes shared by every module of the model. */
module Wrappers {

  /** Rust's `Option<T>`. */
  datatype Option<+T> = None | Some(value: T) {
    predicate IsFailure() { None? }

    function PropagateFailure<U>(): Option<U>
      requires None?
    {
      None
    }

    function Extract(): T
      requires Some?
    {
      value
    }
  }

  /** Rust's `Result<T, E>`. */
  datatype Result<+T, +E> = Ok(value: T) | Err(error: E) {
    predicate IsFailure() { Err? }

    function PropagateFailure<U>(): Result<U, E>
      requires Err?
    {
      Err(error)
    }

    function Extract(): T
      requires Ok?
    {
      value
    }
  }

  /** How a call of the modelled Rust code ends: it returns a value, it
      panics (a failed slice, `expect` or overflow check), or it never
      returns (a loop whose state no longer changes). */
  datatype Run<+T> = Returns(value: T) | Panics | Hangs {
    predicate IsFailure() { !Returns? }

    function PropagateFailure<U>(): Run<U>
      requires !Returns?
    {
      if Panics? then Panics else Hangs
    }

    function Extract(): T
      requires Returns?
    {
      value
    }
  }
}
