/** The failure-carrying result shared by the ledger and blog models. */
module Wrappers {

  /** Either a value or the error that prevented computing it. */
  datatype Result<+R, +E> = Success(value: R) | Failure(error: E)
}
