/** Optional values and the Python exceptions the modelled code can raise.

    A Python call that either returns a value or raises is modelled as a
    `Result`; the exception kinds are the ones the modelled code raises
    itself or lets through from a call it makes.
 */
module Outcomes {

  datatype Option<+T> = None | Some(value: T)

  /** The exceptions raised along the modelled paths. */
  datatype PyError =
    | ConnectionRefused(message: string)  // raised by the send-once lock
    | ConnectionAborted(message: string)  // raised by filter_report before a send
    | AssertionFailed(message: string)    // the output-path assertions of filter_report
    | AttributeError                      // `.group(...)` called on a failed regex search
    | ValueError                          // `int(...)` of a string that is not an integer
    | IndexError                          // list index out of range
    | TypeError                           // `str + int`
    | NotEmptyError                       // `OSError` of `rmdir` on a directory that still holds files
    | HostError                           // raised inside the detection-service client library

  datatype Result<+T> = Ok(value: T) | Err(error: PyError)
}
