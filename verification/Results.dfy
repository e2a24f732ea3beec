/** Option and Result: absent values and error returns, both usable with `:-`. */
module Results {

  datatype Option<+T> = None | Some(value: T) {
    function GetOr(default: T): T {
      match this
      case Some(v) => v
      case None => default
    }
  }

  datatype Result<+T, +E> = Ok(value: T) | Err(error: E) {
    function GetOr(default: T): T {
      match this
      case Ok(v) => v
      case Err(_) => default
    }

    predicate IsFailure() {
      Err?
    }

    function PropagateFailure<U>(): Result<U, E>
      requires Err?
    {
      Err(this.error)
    }

    function Extract(): T
      requires Ok?
    {
      value
    }
  }
}
