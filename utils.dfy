/**
 * `pipe`: left-to-right composition of transforms. A transform may throw, so each
 * one returns a `Result`; the first error ends the chain.
 */
module Utils {
  import opened Results

  /** `pipe(...fns)(data)`: `fns.reduce((prev, curr) => curr(prev), data)`. */
  function Pipe<T>(fns: seq<T -> Result<T>>, data: T): Result<T>
  {
    if fns == [] then Ok(data)
    else
      match fns[0](data)
      case Err(e) => Err(e)
      case Ok(next) => Pipe(fns[1..], next)
  }

  /** `pipe()` is the identity. */
  lemma PipeEmpty<T>(data: T)
    ensures Pipe([], data) == Ok(data)
  {
  }

  /** `pipe(f)` is f. */
  lemma PipeSingle<T>(f: T -> Result<T>, data: T)
    ensures Pipe([f], data) == f(data)
  {
    assert [f][1..] == [];
    match f(data)
    case Err(e) =>
    case Ok(next) => assert Pipe([f][1..], next) == Ok(next);
  }

  /** Appending a function applies it last: `pipe(...fs, g)(x) == g(pipe(...fs)(x))`. */
  lemma {:induction false} PipeSnoc<T>(fns: seq<T -> Result<T>>, g: T -> Result<T>, data: T)
    ensures Pipe(fns + [g], data) == Bind(Pipe(fns, data), g)
    decreases |fns|
  {
    if fns == [] {
      assert fns + [g] == [g];
      PipeSingle(g, data);
    } else {
      assert (fns + [g])[0] == fns[0];
      assert (fns + [g])[1..] == fns[1..] + [g];
      match fns[0](data)
      case Err(e) =>
      case Ok(next) => PipeSnoc(fns[1..], g, next);
    }
  }

  /** Piping a concatenation is piping the second part after the first. */
  lemma {:induction false} PipeAppend<T>(fns: seq<T -> Result<T>>, gns: seq<T -> Result<T>>, data: T)
    ensures Pipe(fns + gns, data) ==
      match Pipe(fns, data)
      case Ok(mid) => Pipe(gns, mid)
      case Err(e) => Err(e)
    decreases |fns|
  {
    if fns == [] {
      assert fns + gns == gns;
    } else {
      assert (fns + gns)[0] == fns[0];
      assert (fns + gns)[1..] == fns[1..] + gns;
      match fns[0](data)
      case Err(e) =>
      case Ok(next) => PipeAppend(fns[1..], gns, next);
    }
  }
}
