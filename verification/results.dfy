/** Failure-carrying values shared by the list and the queue models.
    Java signals misuse with unchecked exceptions; here each exception the
    containers may throw is an `Error` value returned in a `Failure`. */
module Results {

  /** The exceptions the two containers throw. */
  datatype Error =
    | IndexOutOfBounds   // an index argument outside the operation's bound
    | IllegalArgument    // subList(from, to) with from > to
    | NoSuchElement      // poll / element on an empty queue

  /** A Java reference that may be null: the content of an array slot, or
      the result of `peek`. */
  datatype Option<T> = None | Some(value: T)

  /** Either the value an operation returns or the exception it throws. */
  datatype Result<T> = Success(value: T) | Failure(error: Error)
}
