/** Shared vocabulary of the chirpy model: optional values, results, the
    identifiers and clock readings the handlers exchange, and the shape of an
    HTTP reply. */
module Base {

  /** A value that may be absent (a missing row, a failed parse). */
  datatype Option<+T> = None | Some(value: T)

  /** The result of an operation that can fail with a typed error. */
  datatype Result<+T, +E> = Success(value: T) | Failure(error: E)

  /** One byte, as produced by `crypto/rand`. */
  newtype Byte = x: int | 0 <= x < 256

  /** A UUID is 128 bits; only its identity matters to the handlers. */
  newtype Uuid = x: int | 0 <= x < 0x1_0000_0000_0000_0000_0000_0000_0000_0000

  /** Wall-clock instants and durations, in whole seconds since the Unix epoch. */
  type Time = int
  type Duration = int

  const Second: Duration := 1
  const Hour: Duration := 3600 * Second
  const Day: Duration := 24 * Hour

  /** HTTP status codes the handlers write. */
  const StatusOK := 200
  const StatusCreated := 201
  const StatusNoContent := 204
  const StatusBadRequest := 400
  const StatusUnauthorized := 401
  const StatusForbidden := 403
  const StatusNotFound := 404
  const StatusInternalServerError := 500

  /** The body a handler writes: nothing (a bare `WriteHeader`), the JSON
      error object of `respondWithError`, or a JSON document. */
  datatype Body<+T> = Empty | Error(message: string) | Json(value: T)

  /** What a handler sends back to the client. */
  datatype Reply<+T> = Reply(status: int, body: Body<T>)
  {
    predicate IsError() { body.Error? }
  }

  /** A reply together with the store it leaves behind. */
  datatype Effect<+T, S> = Effect(reply: Reply<T>, store: S)

  /** The reply `respondWithError` writes. */
  function Fail<T>(status: int, message: string): Reply<T>
  {
    Reply(status, Error(message))
  }
}
