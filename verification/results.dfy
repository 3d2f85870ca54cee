/** Failure-carrying return values used in place of the source's exceptions and null pointers. */
module Results {

  datatype Option<+T> = None | Some(value: T)

  datatype Result<+T, +E> = Success(value: T) | Failure(error: E)

  /** Which reading of the source a definition follows: the code as written, or with a defect repaired. */
  datatype Variant = AsWritten | Corrected
}
