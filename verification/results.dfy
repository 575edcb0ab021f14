/** Failure-carrying values used by every operation of the model: `Option`
    stands for a Java reference that may be null or an `Optional` that may be
    empty, `Result` for a return value or a thrown exception, and `Outcome` for
    a `void` validation routine that either returns or throws. */
module Results {

  datatype Option<+T> = None | Some(value: T)

  datatype Result<+T, +E> = Ok(value: T) | Err(error: E)

  datatype Outcome<+E> = Pass | Fail(error: E)
}
