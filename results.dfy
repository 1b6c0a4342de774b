/**
 * Outcomes of operations that can throw. A JavaScript exception becomes an
 * `Err` carrying what went wrong; `Ok` carries the normal return value.
 */
module Results {
  import opened Rows

  datatype Option<+T> = None | Some(value: T)

  datatype Result<+T> = Ok(value: T) | Err(error: Error)

  /** The exceptions the pipeline can raise. */
  datatype Error =
    | UnmatchedTicker(ticker: Value)   // destructuring the `undefined` that `find` returned
    | NullishLength(prop: string)      // reading `.length` of null or undefined
    | NotAFunction                     // calling something that is not a function

  /** `.then`-style chaining: an error short-circuits the rest. */
  function Bind<T, U>(r: Result<T>, f: T -> Result<U>): Result<U>
  {
    match r
    case Ok(v) => f(v)
    case Err(e) => Err(e)
  }
}
