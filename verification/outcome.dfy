/** Result type for the codec's two failure modes.  The program turns
    every exception into an error string; here each failure is a value. */
module Outcome {

  /** Why an embedding or extraction produced no result. */
  datatype CodecError =
    | CapacityExceeded   // payload bits plus terminator do not fit in the carrier
    | SeedOutOfRange     // the password's code-point sum is not a valid generator seed

  datatype Result<+T> = Success(value: T) | Failure(error: CodecError)
}
