/** Option and Result values, and the exceptions the modelled code can raise. */
module Wrappers {

  /** A value that may be absent: a C# `null` reference or an empty `Nullable<T>`. */
  datatype Option<T> = None | Some(value: T)
  {
    function GetOr(default: T): T
    {
      match this
      case None => default
      case Some(v) => v
    }
  }

  /** The exceptions thrown by the modelled code, with the message where the code builds one. */
  datatype Exception =
    | ArgumentException(message: string)
    | ArgumentNullException(paramName: string)
    | ArgumentOutOfRangeException
    | InvalidOperationException(message: string)
    | NullReferenceException
    | KeyNotFoundException(key: string)
    | FormatException
    | SemanticVersionException(message: string)
    | BaseVersionException(message: string)
    | ConfigurationException(message: string)
    | HgConfigurationException(message: string)
      /** The call stack overflowed: a recursion that does not end. */
    | StackOverflow

  /** Either a returned value or a thrown exception. */
  datatype Result<T> = Ok(value: T) | Err(error: Exception)
  {
    predicate IsFailure()
    {
      Err?
    }

    function PropagateFailure<U>(): Result<U>
      requires Err?
    {
      Err(error)
    }

    function Extract(): T
      requires Ok?
    {
      value
    }
  }
}
