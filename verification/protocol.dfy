// Vocabulary shared by the request handlers.
module Protocol {
  datatype Code = Ok | InvalidRequest | Overflow | Forbidden | FailureToProceed | ProcessAgain
}
