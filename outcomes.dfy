/** Error values and the failure-carrying wrappers shared by the codec modules. */
module Outcomes {

  /** The exceptions the converter can raise, one constructor per cause. */
  datatype Error =
    | AmbiguousDirection   // ValueError: both or neither path is a BIP file
    | EmptyName            // ValueError from with_suffix on a path without a name
    | Overflow             // OverflowError from int.to_bytes: the value needs more bytes
    | BadMagic             // ValueError: the input does not start with BIP2
    | NegativeSeek         // OSError: a seek to a position before the start of the file
    | NotEnoughImageData   // ValueError from Image.frombytes: the pixel buffer is too short

  datatype Option<T> = None | Some(value: T)

  datatype Result<T> = Success(value: T) | Failure(error: Error)

  datatype Outcome = Pass | Fail(error: Error)
}
