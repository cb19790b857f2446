/**
 * The failures a database load or a lookup can end in, and the Result type
 * that carries them (the model of the source's `anyhow::Result`).
 */
module Outcomes {

  datatype Error =
    /** A slice or index past the end of the buffer: the source panics here
        instead of returning an error. */
    | Panic
    /** The metadata block after the length prefix does not deserialize. */
    | MetadataInvalid
    /** `total_size + header length` differs from the buffer length. */
    | FileSizeMismatch
    /** A leaf value maps to an offset at or past the end of the data. */
    | ResolveOffset
    /** A record's length prefix runs it to or past the end of the data. */
    | ResolveSize
    /** The walk used up every address bit without reaching a leaf. */
    | NotFound
    /** The metadata lists no fields. */
    | FieldsEmpty
    /** The requested language has no column offset. */
    | UnknownLanguage
    /** An IPv4 lookup in a database whose `ip_version` lacks bit 0. */
    | Ipv4Unsupported
    /** An IPv6 lookup in a database whose `ip_version` lacks bit 1. */
    | Ipv6Unsupported

  datatype Result<+T> = Ok(value: T) | Err(error: Error) {

    predicate IsFailure() {
      Err?
    }

    function PropagateFailure<U>(): Result<U>
      requires Err?
    {
      Err(error)
    }

    function Extract(): T
      requires Ok?
    {
      value
    }
  }

  datatype Option<+T> = None | Some(value: T)
}
