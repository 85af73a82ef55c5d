/** Values shared by every part of the image service model. */
module Common {

  /** One octet of an object's content or of a random buffer. */
  type Byte = b: int | 0 <= b < 256

  datatype Option<+T> = None | Some(value: T)

  datatype Result<+T, +E> = Success(value: T) | Failure(error: E)

  /** What a handler writes back: a JSON error body with its HTTP status, or a JSON body with status 200. */
  datatype Reply<+T> = ErrorReply(message: string, status: nat) | OkReply(body: T)

  const StatusOK: nat := 200
  const StatusBadRequest: nat := 400
  const StatusInternalServerError: nat := 500
}
