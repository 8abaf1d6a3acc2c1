/** What an operation of the indexer can end in besides a value. */
module Errors {

  /** The library's `UntarLightError` cases, plus `Trap` for a Swift runtime precondition failure
      (the program aborts; nothing can catch it). `pointorHandlingError` has no case: it is thrown
      only when a buffer has no base address, which bounds-checked sequences never lack. */
  datatype TarError =
    | HeaderCheckSumError
    | CannotLoadBlock
    | UnknownError
    | DecodeStringError
    | EndOfFile
    | Trap
}
