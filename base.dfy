/** Outcome types shared by every layer of the employee service. */
module Base {

  /** A Java reference that may be null (`None`), or an `Optional` that may be empty. */
  datatype Option<+T> = None | Some(value: T)

  /** What an operation that may throw returns: its value, or the error it raised. */
  datatype Result<+T> = Success(value: T) | Failure(error: Error)

  /** The failures the core can raise.  The store raises the first three, the service the last. */
  datatype Error =
    | NullColumn       // a NOT NULL column would receive null
    | MissingRow       // an entity with a non-zero id is saved but no row has that id
    | NonUniqueResult  // a single-result query matched several rows
    | DuplicateEmail   // saveEmployee refused an email that is already stored
}
