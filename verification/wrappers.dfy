/**
 Result types shared by the codec, the link layer and
 discovery: `Option` for "no value" outcomes (a timeout, a dropped frame) and
 `Result` for operations that raise in the original program.
 */
module Wrappers {

  datatype Option<+T> = None | Some(value: T)

  datatype Result<+T, +E> = Success(value: T) | Failure(error: E)
}
