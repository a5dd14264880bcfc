/** Failure-carrying values used where the source throws or holds a null pointer. */
module Results {

  /** A value that may be absent (a null `OctreeNode*`). */
  datatype Option<+T> = None | Some(value: T)

  /** The outcome of an operation that may throw. */
  datatype Result<+T, +E> = Ok(value: T) | Err(error: E)
}
