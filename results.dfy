/** The exceptions the modelled code raises, and the Result/Outcome wrappers
    that carry them instead of a thrown exception. */
module Results {

  /** One constructor per .NET exception type the core can raise. */
  datatype Error =
    | ArgumentNull        // ArgumentNullException
    | Argument            // ArgumentException (bad argument other than a duplicate key)
    | DuplicateKey        // ArgumentException thrown when a key is added twice
    | ArgumentOutOfRange  // ArgumentOutOfRangeException from a list indexer or insert
    | NullReference       // NullReferenceException (invoking a null delegate, enumerating null)
    | ItemNotFound        // ArgumentException thrown when an item is not in the collection

  /** The value of an operation that returns something or throws. */
  datatype Result<+T> = Ok(value: T) | Err(error: Error)

  /** The outcome of an operation that returns nothing or throws. */
  datatype Outcome = Pass | Fail(error: Error)

  /** C#'s nullable reference: None stands for null. */
  datatype Option<+T> = None | Some(value: T)
}
