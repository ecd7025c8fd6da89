/** Option and Result types shared by the model: a Result stands for a value or the
    exception the .NET code would have thrown instead. */
module Wrappers {

  datatype Option<+T> = None | Some(value: T)

  /** The .NET exception kinds the modelled code can raise. */
  datatype Error =
    | ArgumentOutOfRange
    | Argument
    | IndexOutOfRange
    | InvalidOperation
    | NotImplemented
    | Overflow
    | DivideByZero
    | NullReference

  datatype Result<+T> = Ok(value: T) | Err(error: Error) {
    predicate IsFailure() { Err? }

    function PropagateFailure<U>(): Result<U>
      requires Err?
    {
      Err(error)
    }

    function Extract(): T
      requires Ok?
    {
      value
    }
  }
}
