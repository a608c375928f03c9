/** Failure-carrying values shared by every stage of the pipeline model.
    The Python code raises exceptions; the model returns `Err` with a tagged
    reason instead, so that callers (and contracts) can tell the cases apart. */
module Results {

  /** A value that may be absent: a JSON key that is missing or null. */
  datatype Option<+T> = None | Some(value: T) {

    /** `d.get(key, default)`. */
    function GetOr(default: T): T {
      if Some? then value else default
    }
  }

  /** The outcome of a step that either produces a value or raises. */
  datatype Result<+T, +E> = Ok(value: T) | Err(error: E) {

    predicate IsFailure() {
      Err?
    }

    function PropagateFailure<U>(): Result<U, E>
      requires Err?
    {
      Err(error)
    }

    function Extract(): T
      requires Ok?
    {
      value
    }
  }
}
