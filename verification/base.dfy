/** Shared vocabulary of the model: bytes, optional values and Go-style errors. */
module Base {

  /** One octet, the element type of Go's `[]byte`. */
  newtype byte = x: int | 0 <= x < 256

  /** Go's nil-able values (a stored callback, a nil pointer). */
  datatype Option<+T> = None | Some(value: T) {
    function GetOr(default: T): T {
      match this
      case Some(v) => v
      case None => default
    }
  }

  /** A Go `error` value reduced to its message; `nil` is `None` at the use site. */
  datatype Error = Error(msg: string)

  /** The outcome of a Go call that returns `(T, error)`; `Fault` is a run-time panic
      (index out of range, nil dereference, division by zero). */
  datatype Result<+T> = Ok(value: T) | Err(error: Error) | Fault

  /** The outcome of a Go call that returns only an `error`: nil, an error value, or a
      run-time panic. */
  datatype Outcome = Success | Failure(error: Error) | Panic

  /** `xs` back to front. */
  function Reverse<T>(xs: seq<T>): (r: seq<T>)
    ensures |r| == |xs|
    ensures forall j :: 0 <= j < |xs| ==> r[j] == xs[|xs| - 1 - j]
  {
    if xs == [] then [] else Reverse(xs[1..]) + [xs[0]]
  }

  /** The sequence of `n` zero bytes that Go's `make` produces. */
  function Zeros(n: nat): (z: seq<byte>)
    ensures |z| == n
  {
    seq(n, _ => 0)
  }
}
