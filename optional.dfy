/** Java's nullable references and thrown precondition failures, as values. */
module Optional {

  /** A slot or result that may hold Java's `null` (`None`). */
  datatype Option<+T> = None | Some(value: T)

  /** Why an operation was refused before it changed anything. */
  datatype Error = NullElement

  /** The outcome of an operation that returns nothing or throws. */
  datatype Outcome = Pass | Fail(error: Error)
}
