/** Optional values and exception results shared by the model.
    `Option` stands for a Java reference that may be null; `Result` for a
    value or one of the unchecked exceptions the collections throw. */
module Results {

  datatype Option<T> = None | Some(value: T)

  /** The Java exceptions the modelled code can raise. */
  datatype Exception =
    | IllegalArgument       // java.lang.IllegalArgumentException
    | NoSuchElement         // java.util.NoSuchElementException
    | IndexOutOfBounds      // java.lang.IndexOutOfBoundsException
    | UnsupportedOperation  // java.lang.UnsupportedOperationException

  datatype Result<T> = Ok(value: T) | Err(error: Exception)
}
