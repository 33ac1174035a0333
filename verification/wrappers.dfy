/** Nullable references and exception-or-value results, as the model's stand-ins
    for C# `null` and thrown exceptions. */
module Wrappers {

  /** A C# reference or nullable value: `None` is `null`. */
  datatype Option<+T> = None | Some(value: T) {

    /** The C# `??` operator: the value, or `default` when null. */
    function GetOr(default: T): T {
      match this
      case Some(v) => v
      case None => default
    }
  }

  /** Either a value or the exception that the operation throws instead. */
  datatype Result<+T, +E> = Success(value: T) | Failure(error: E)
}
