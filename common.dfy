/** Small value types shared by every module of the model. */
module Common {

  /** A value that may be absent. `None` stands for a Go `nil`, a missing DOM
      match or a failed decode, depending on where it is used. */
  datatype Option<+T> = None | Some(value: T) {

    predicate IsFailure() {
      None?
    }

    function PropagateFailure<U>(): Option<U>
      requires None?
    {
      None
    }

    function Extract(): T
      requires Some?
    {
      value
    }

    /** The contained value, or `default` when there is none. */
    function GetOr(default: T): (r: T)
      ensures Some? ==> r == value
      ensures None? ==> r == default
    {
      match this
      case Some(v) => v
      case None => default
    }
  }

  /** A Go `(value, error)` pair in which exactly one side is meaningful. */
  datatype Result<+T> = Ok(value: T) | Err(message: string)

  /** The outcome of code that may call `log.Fatal`: either it returns, or
      the whole process exits and nothing after the call happens. */
  datatype Run<+T> = Completed(value: T) | Terminated(reason: string)
}
