/** Optional values and the opaque I/O errors that the URL reader and the
    HTTP exchange can report. */
module Errors {

  /** Go's nilable `error` and "no value": None stands for nil. */
  datatype Option<+T> = None | Some(value: T)

  /** An error raised by code outside the model (file system, scanner,
      HTTP client); only its identity matters here. */
  datatype IoError = IoError(reason: string)
}
