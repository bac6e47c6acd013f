/** Helper types shared by every module: Java's nullable references and thrown exceptions. */
module Common {
  /** A Java reference that may be null. */
  datatype Option<T> = None | Some(value: T)

  /** The exceptions the modelled Java code can throw. */
  datatype Failure =
    | NullPointer
    | IndexOutOfBounds
    | IllegalArgument
    | NoSuchElement
    | NegativeArraySize
    | Diverges

  /** A Java call that either returns a value or throws. */
  datatype Outcome<T> = Ok(value: T) | Thrown(failure: Failure)
}
