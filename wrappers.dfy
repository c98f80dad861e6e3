/** Option and Result: the model's stand-ins for JavaScript's `null`/`undefined`
    and for a thrown exception. */
module Wrappers {

  datatype Option<+T> = None | Some(value: T)

  datatype Result<+T, +E> = Ok(value: T) | Err(error: E)
}

/** Octets, as held by a `Uint8Array`. */
module Bytes {

  type byte = b: int | 0 <= b < 256
}
