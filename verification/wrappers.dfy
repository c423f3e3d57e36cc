/** Option and outcome datatypes used for the source's optional inputs and raised errors. */
module Wrappers {

  datatype Option<T> = None | Some(value: T)

  /** Pass, or the error the source would raise. */
  datatype Outcome<E> = Pass | Fail(error: E)
}
