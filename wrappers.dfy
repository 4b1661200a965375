/** Failure-compatible return types standing in for Rust's `Option` and `anyhow::Result`. */
module Wrappers {

  datatype Option<+T> = None | Some(value: T)

  datatype Result<+T, +E> = Ok(value: T) | Err(error: E) {

    predicate IsFailure() {
      Err?
    }

    function PropagateFailure<U>(): Result<U, E>
      requires Err?
    {
      Err(error)
    }

    function Extract(): T
      requires Ok?
    {
      value
    }
  }
}

/** The error messages the codec, the connection handler and the example router can fail with.
    Each parse error stands for the `anyhow!` message of the same name; the later groups stand
    for panics (`unimplemented!()`, `unwrap` on a failed result, an end of stream) that end the
    connection's task.
    The "start-line not found", "method not found" and "header key not found" messages have no
    counterpart: they guard the first fragment of a split, which always exists. */
module Errors {

  datatype Error =
    // start-line section of a message
    | UnknownMethod
    | RequestUriNotFound
    | ProtocolVersionNotFound
    | UnknownProtocolVersion
    // header section of a message
    | HeaderValueNotFound
    | HeaderSectionEndedUnexpectedly
    // status-line decoding, an `unimplemented!()` panic
    | StatusLineDecodeUnimplemented
    // connection handling
    | StreamEnded
    | ContentLengthNotANumber
    | BodyTruncated
    // example router
    | UserAgentMissing
}
