/** Optional values and fallible results. */
module Wrappers {

  datatype Option<+T> = None | Some(value: T)

  /** Why a voice datagram or packet is refused. */
  datatype DecryptError = Io | Eof | Repeat | Late | Mac

  datatype Result<+T> = Ok(value: T) | Err(error: DecryptError)
}
