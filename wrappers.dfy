/** Optional values, results, and the error conditions the calibration code can raise. */
module Wrappers {

  datatype Option<T> = None | Some(value: T)

  /** The exceptions (or NaN-producing divisions) of the modelled code. */
  datatype Error =
    | IndexOutOfRange      // Python IndexError
    | EmptyReduction       // ValueError from min()/max() of an empty array
    | NotANumber           // division by zero: numpy yields NaN/inf
    | MissingParameter     // None passed where a number is needed
    | UnknownCurve         // ValueError: unknown curve name and no custom path
    | FileNotFound         // FileNotFoundError for a custom curve path
    | MissingColumns       // ValueError: curve file lacks a required column
    | InvalidCurve         // ValueError from CubicSpline: the curve cannot be fitted

  datatype Result<T> = Ok(value: T) | Err(error: Error) {
    predicate IsFailure() { Err? }

    function PropagateFailure<U>(): Result<U>
      requires Err?
    {
      Err(error)
    }

    function Extract(): T
      requires Ok?
    {
      value
    }
  }
}
