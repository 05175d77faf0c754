/** Failure-compatible result types shared by the whole model. */
module Wrappers {

  /** An optional value; stands in for a possibly-null `Node*`. */
  datatype Option<+T> = None | Some(value: T)

  /** The ways reading a compressed container can fail. */
  datatype Error =
    | MalformedHeader   // the header announces more entries than the bytes hold
    | CorruptPayload    // the bit walk needs a child that does not exist
    | TruncatedPayload  // the bits run out before every character is decoded

  /** A value, or the reason it could not be produced; usable with `:-`. */
  datatype Result<+T> = Success(value: T) | Failure(error: Error) {

    predicate IsFailure() {
      Failure?
    }

    function PropagateFailure<U>(): Result<U>
      requires Failure?
    {
      Failure(error)
    }

    function Extract(): T
      requires Success?
    {
      value
    }
  }
}
