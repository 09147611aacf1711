/** A success value or a typed error, usable with `:-` to propagate the error. */
module Results {

  datatype Result<R, E> = Ok(value: R) | Err(error: E) {

    predicate IsFailure() {
      Err?
    }

    function PropagateFailure<U>(): (r: Result<U, E>)
      requires Err?
    {
      Err(error)
    }

    function Extract(): (v: R)
      requires Ok?
    {
      value
    }
  }
}
