/** Failure-carrying results for the Python functions that raise.  Each
    `Error` names the exception (and the situation) the source raises. */
module Wrappers {

  datatype Option<+T> = None | Some(value: T)

  datatype Error =
    | EncodingTooLong     // ValueError: modulus too short for hash + salt
    | MaskTooLong         // ValueError: MGF1 mask length above 2^32 * hLen
    | NoInverse           // ValueError: gcd(e, m) != 1, no modular inverse
    | DivisionByZero      // ZeroDivisionError: `x % 0`
    | ZeroModulus         // ValueError: `pow(x, y, 0)` or `pow(e, -1, 0)`
    | IndexOutOfRange     // IndexError on a byte string
    | IntTooBig           // OverflowError from `int.to_bytes`
    | NegativeShift       // ValueError: `1 << -1`, a shift by a negative count

  datatype Result<+T> = Success(value: T) | Failure(error: Error) {
    predicate IsFailure() { Failure? }

    function PropagateFailure<U>(): Result<U>
      requires Failure?
    {
      Failure(error)
    }

    function Extract(): T
      requires Success?
    {
      value
    }
  }
}
