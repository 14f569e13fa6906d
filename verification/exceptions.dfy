/** The exceptions the borrowing service raises or receives, by kind. */
module Exceptions {
  import opened Wrappers

  /** One failed constraint: the field (or property path) and its message,
      which may be null. */
  datatype Violation = Violation(field: string, message: Option<string>)

  /** Exception kinds that reach the global exception handler. Messages are
      nullable, as `Throwable.getMessage()` is. */
  datatype Exception =
    | MethodArgumentNotValid(fieldErrors: seq<Violation>)
    | ConstraintViolation(violations: seq<Violation>)
    | ResourceNotFound(message: Option<string>)
    | MethodNotSupported(message: Option<string>)
    | IllegalState(message: Option<string>)
    | IllegalArgument(message: Option<string>)
    | Runtime(message: Option<string>)
    /** A transaction whose commit failed: the update flushed at commit time
        broke the constraints listed, and everything was rolled back. */
    | TransactionSystem(message: Option<string>, violations: seq<Violation>)
}
