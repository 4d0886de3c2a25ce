/** Results and the exceptions the generator can raise, as values. */
module Outcomes {

  /** An optional value; `None` stands for a null reference in the source. */
  datatype Option<+T> = None | Some(value: T)

  /** The .NET exceptions the modelled code raises on its error paths. */
  datatype Exception =
    | ArgumentNullException(paramName: string)
    | ArgumentException(message: string)
    | NullReferenceException
    | OperationCanceledException

  /** Either the value an operation returns or the exception it throws. */
  datatype Result<+T> = Success(value: T) | Failure(error: Exception)
}
