/** Nullable values and results with an error case, standing in for Java's null and exceptions. */
module Wrappers {

  /** A value that may be absent (a Java reference that may be null). */
  datatype Option<T> = None | Some(value: T) {

    /** The value, or the given default when absent (Guava's Optional.or). */
    function GetOr(default: T): T
    {
      match this
      case Some(v) => v
      case None => default
    }
  }

  /** A value, or the IllegalArgumentException CostModuleV1 throws instead. */
  datatype Result<T> = Ok(value: T) | IllegalArgument(message: string)
}
