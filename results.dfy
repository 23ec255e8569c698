/** Optional values and decode outcomes shared by the catalog modules. */
module Results {

  /** Swift's `Optional`: `nil` is `None`. */
  datatype Option<+T> = None | Some(value: T)

  /** The outcome of a decoder that can trap: `Failure` stands for the process stopping. */
  datatype Result<+R, +E> = Success(value: R) | Failure(error: E)
}
