/** Option and Result, the failure-carrying types every layer of the model returns. */
module Wrappers {

  datatype Option<+T> = None | Some(value: T) {
    function UnwrapOr(default: T): T {
      match this
      case Some(v) => v
      case None => default
    }
  }

  datatype Result<+T, +E> = Ok(value: T) | Err(error: E)

  /** A success that carries nothing is `Ok(())`. */
  lemma OkUnit<E>(r: Result<(), E>)
    requires r.Ok?
    ensures r == Ok(())
  {
    match r.value {
      case () =>
    }
  }
}
