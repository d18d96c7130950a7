/** The checked and unchecked Java exceptions that travel from the data layer
    up to the servlet, and the small result types that stand for "returns
    normally or throws". */
module Errors {

  datatype Option<+T> = None | Some(value: T)

  /** A thrown exception, by class, with its detail message. */
  datatype Failure =
    | ParseException(message: string)
    | NumberFormatException(message: string)
    | SqlException(message: string)
    | ClassNotFoundException(message: string)

  /** A call that either returns a value or throws. */
  datatype Result<+T> = Ok(value: T) | Err(error: Failure)

  /** A void call that either returns or throws. */
  datatype Outcome = Pass | Fail(error: Failure)

  /** Fully qualified Java class name of each exception kind. */
  function ClassName(e: Failure): string
  {
    match e
    case ParseException(_) => "java.text.ParseException"
    case NumberFormatException(_) => "java.lang.NumberFormatException"
    case SqlException(_) => "java.sql.SQLException"
    case ClassNotFoundException(_) => "java.lang.ClassNotFoundException"
  }

  /** Throwable.toString(): the class name, a colon and the message; this is
      what string concatenation with an exception produces. */
  function Describe(e: Failure): string
  {
    ClassName(e) + ": " + e.message
  }
}
