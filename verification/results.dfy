/** Optional values and results with an error, the shapes the rule uses for Java's
    null and for methods that either return or throw. */
module Results {

  /** A value that may be absent; `None` stands for Java's `null`. */
  datatype Option<+T> = None | Some(value: T)

  /** The outcome of a computation that either yields a value or fails with a reason. */
  datatype Result<+T, +E> = Success(value: T) | Failure(error: E)
}
