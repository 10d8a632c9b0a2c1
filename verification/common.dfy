/** Small failure-carrying datatypes shared by every module of the model. */
module Common {

  /** A value that may be absent: a missing hash field, an empty pop, a null JSON value. */
  datatype Option<+T> = None | Some(value: T) {
    function GetOr(default: T): T {
      match this
      case Some(v) => v
      case None => default
    }
  }

  /** A computation that either produced a value or raised an exception. */
  datatype Result<+T> = Ok(value: T) | Err(reason: string)

  function Min(a: int, b: int): int { if a <= b then a else b }

  function Max(a: int, b: int): int { if a <= b then b else a }
}
