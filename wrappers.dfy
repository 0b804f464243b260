/** Outcomes of Python calls that may raise. An exception that the code does
    not catch is a `Raised` value that the callers pass on unchanged. */
module Wrappers {
  datatype Option<+T> = None | Some(value: T)

  /** The exceptions the pipeline can raise or catch. */
  datatype Exception = IndexError | KeyError | TypeError | ValueError | AttributeError

  datatype Result<+T> = Ok(value: T) | Raised(error: Exception) {
    predicate IsFailure() {
      Raised?
    }

    function PropagateFailure<U>(): Result<U>
      requires Raised?
    {
      Raised(error)
    }

    function Extract(): T
      requires Ok?
    {
      value
    }
  }
}
