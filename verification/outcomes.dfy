/**
 * Failure-carrying values shared by the three codec drivers. The sources
 * throw (TypeScript), return `Err(String)` (Rust) or return a non-nil
 * `error` (Go); here every failure is a `Failure` value naming its cause.
 */
module Outcomes {

  datatype Option<+T> = None | Some(value: T)

  /** Why an encode or decode call was refused. */
  datatype Error =
    | NotAlphanumeric     // decoder input holds a character outside 0-9A-Za-z
    | UnknownDigit        // a character has no index in the alphabet
    | UnalignedLength     // encoder input length is not a multiple of 4 (TypeScript only)
    | ChunkMismatch       // chunk length disagrees with its size, or has no width (TypeScript only)
    | NoGroupWidth        // fewer characters left than the narrowest group (TypeScript only)
    | GroupOrder          // a group is not narrower than the previous short one (TypeScript only)
    | UnknownGroupLength  // a group length that no chunk size encodes to
    | Overflow            // a group's value does not fit in its chunk's bytes

  datatype Result<+T> = Success(value: T) | Failure(error: Error) {

    predicate IsFailure() {
      Failure?
    }

    function PropagateFailure<U>(): Result<U>
      requires Failure?
    {
      Failure(error)
    }

    function Extract(): T
      requires Success?
    {
      value
    }
  }
}
