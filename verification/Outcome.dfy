// The outcome of an operation that the library guards with YACL_ENFORCE:
// either its value, or the exception.
module Outcome {
  datatype Result<+T> = Ok(value: T) | Err
}
