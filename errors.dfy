/** Failures of the object storage service. The Java code raises each of them as an
    unchecked exception; here they are values of a Result. */
module Errors {

  datatype Error =
    | IllegalEscape     // URLDecoder rejects a '%' escape of the object name
    | InvalidUrlFormat  // splitting the URL on "/o/" does not leave exactly two parts
    | UploadFailed      // the putObject request failed
    | DeleteFailed      // the deleteObject request failed

  /** Either a value or the error that stopped the computation; usable with `:-`. */
  datatype Result<+T> = Ok(value: T) | Err(error: Error) {

    predicate IsFailure() {
      Err?
    }

    function PropagateFailure<U>(): Result<U>
      requires Err?
    {
      Err(error)
    }

    function Extract(): T
      requires Ok?
    {
      value
    }
  }

  /** An optional value, as Java's null-or-object references. */
  datatype Option<+T> = None | Some(value: T)
}
