/** Optional values and the one failure urlMerge can report. */
module Outcomes {

  /** A value that may be absent (an options field that was not supplied, a key not in a map). */
  datatype Option<T> = None | Some(value: T)

  /** The result of an operation that may throw. The only exception urlMerge lets escape
      is the `URIError` that `decodeURIComponent` throws on a malformed escape. */
  datatype Result<T> = Ok(value: T) | UriError
}
