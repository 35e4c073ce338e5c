/** Failure-carrying wrappers shared by every module of the model.
    `Option` stands for a C# reference or nullable value that may be null;
    `Result` stands for a call that either returns or throws. */
module Wrappers {

  datatype Option<+T> = None | Some(value: T) {

    /** The carried value, or `default` when there is none. */
    function GetOr(default: T): T {
      match this
      case Some(v) => v
      case None => default
    }
  }

  /** The exceptions the modelled code raises. */
  datatype Error =
    | ArgumentOutOfRange
    | IndexOutOfRange
    | InvalidArgument
    | DivideByZero
    | NullReference
    | NotImplemented

  datatype Result<+R> = Success(value: R) | Failure(error: Error)
}
