/** Result types shared by the models: a Go value that may be nil, and a Go (value, error) pair. */
module Wrappers {
  datatype Option<+T> = None | Some(value: T)

  datatype Result<+T, +E> = Success(value: T) | Failure(error: E)

  datatype Error =
    | PlaceNotFound
    | NoPlacesFound
    | ExtractionFailed
    | DuplicateKey
    | InvalidType
    | InvalidLength
    | InvalidHex
    | External(message: string)
}
