/**
  The exceptions the engine raises, as values.

  `WireProtocolException` (a `WireException`) becomes `ProtocolError`, carrying its
  message. The two exceptions the .NET library raises on the paths modelled here get
  their own variants, so that a caller can tell them apart from protocol errors.
 */
module Errors {

  datatype Option<T> = None | Some(value: T) {
    /** `x ?? d` */
    function GetOr(default: T): T {
      if Some? then value else default
    }
  }

  datatype Error =
    | ProtocolError(message: string)
      /** ArgumentOutOfRangeException, raised by `Encoding.GetString` for a negative count. */
    | ArgumentOutOfRange
      /** KeyNotFoundException, raised by `PostgresTypeInformation.Mapping[kind]`. */
    | MissingTypeMapping

  datatype Result<T> = Ok(value: T) | Err(error: Error)
}
