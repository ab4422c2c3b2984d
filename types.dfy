/** Option and Result wrappers, and the error taxonomy of the backend with the
    HTTP status each error is reported with. */
module Types {

  /** Python's `None` / a present value. */
  datatype Option<+T> = None | Some(value: T)

  /** The ways a request can fail in the backend. */
  datatype Error =
    | NotFound                    // unknown file id (404)
    | PayloadTooLarge             // upload over the size limit (413)
    | NotImplemented(name: string)  // lzma, flif, heic (501)
    | UnsupportedType             // no executor for this MIME type / extension (415)
    | ExecutorFailed              // Ghostscript, PIL, ffmpeg or gzip raised (500)
    | InvalidMethod               // method name outside the CompressionMethod enum (422)
    | MissingField                // a required key is absent from a request item (KeyError)
    | InternalError               // an uncaught Python exception, e.g. `None.startswith` (500)

  datatype Result<+T> = Ok(value: T) | Err(error: Error)

  /** The HTTP status code each error surfaces as. */
  function StatusCode(e: Error): (code: nat)
    ensures 400 <= code < 600
    ensures code == 404 <==> e == NotFound
    ensures code == 501 <==> e.NotImplemented?
  {
    match e
    case NotFound => 404
    case PayloadTooLarge => 413
    case NotImplemented(_) => 501
    case UnsupportedType => 415
    case ExecutorFailed => 500
    case InvalidMethod => 422
    case MissingField => 500
    case InternalError => 500
  }
}
