/** Option and Result: the shapes used for the source's nullable returns and thrown exceptions. */
module Wrappers {

  /** A nullable value: `None` stands for C#'s `null` (or an empty `T?`). */
  datatype Option<+T> = None | Some(value: T)

  /** The outcome of an operation that either returns a value or throws. */
  datatype Result<+T, +E> = Success(value: T) | Failure(error: E)
}

/** The exceptions the core throws, as values. */
module Exceptions {
  import opened Wrappers

  datatype Error =
      /** System.ArgumentException, with its optional parameter name. */
    | ArgumentError(message: string, paramName: Option<string>)
      /** System.InvalidOperationException. */
    | InvalidOperation(message: string)
      /** System.OverflowException thrown by int.Parse and rethrown unchanged. */
    | Overflow
      /** A write error from the document store (duplicate `_id`). */
    | StorageError(message: string)
}
