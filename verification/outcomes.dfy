/** Error values and the optional/fallible results the index operations return. */
module Outcomes {

  /** A value that may be absent; also used for the outcome of a foreign call (None = no error). */
  datatype Option<T> = None | Some(value: T)

  /** The errors the index reports to its caller. */
  datatype Error =
    | MissingId                 // construction refused: no field is named "id"
    | Engine(message: string)   // an error raised by the storage engine or the row scanner, passed on unchanged
    | ScanFailed(cause: string) // a row of a search result could not be scanned into a record

  /** The text of an error as the caller sees it. */
  function Message(e: Error): string {
    match e
    case MissingId => "Id field is missing"
    case Engine(m) => m
    case ScanFailed(c) => "struct scan failed: " + c
  }

  datatype Result<T> = Success(value: T) | Failure(error: Error)

  /** Turns the error outcome of a foreign call into the index's own error. */
  function AsError(outcome: Option<string>): Option<Error> {
    match outcome
    case None => None
    case Some(m) => Some(Engine(m))
  }
}
