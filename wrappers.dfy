/** Option and Result, the two failure-carrying types the model uses in place of
    Rust's `Option` and `anyhow::Result`. */
module Wrappers {

  datatype Option<+T> = None | Some(value: T)

  /** An error carries the human-readable context message the source attaches
      with `anyhow!`, `bail!`, `ensure!` or `.context(..)`.  The three members
      let `:-` stand for Rust's `?`. */
  datatype Result<+T> = Ok(value: T) | Err(message: string)
  {
    predicate IsFailure()
    {
      Err?
    }

    function PropagateFailure<U>(): Result<U>
      requires Err?
    {
      Err(message)
    }

    function Extract(): T
      requires Ok?
    {
      value
    }
  }

  /** `opt.unwrap_or(default)` */
  function GetOr<T>(o: Option<T>, default: T): T
  {
    match o
    case Some(v) => v
    case None => default
  }

  /** `opt.ok_or(anyhow!(message))` */
  function OkOr<T>(o: Option<T>, message: string): Result<T>
  {
    match o
    case Some(v) => Ok(v)
    case None => Err(message)
  }

  /** `result.context(message)`: a failure is reported under `message`,
      followed by the cause (the `{:#}` form the program prints). */
  function Context<T>(r: Result<T>, message: string): Result<T>
  {
    match r
    case Ok(v) => Ok(v)
    case Err(e) => Err(message + ": " + e)
  }
}
