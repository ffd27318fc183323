/** Vocabulary of both models of the cancellation tree. */
module Cancellation {
  type Error = string

  datatype CancelResult = CanceledByUs | AlreadyCanceled
}
