/**
 * Values shared by every part of the backend model: an optional value, the
 * reply a route handler sends, and the pair of a reply and the state a
 * handler leaves behind.
 */
module Common {

  datatype Option<+T> = None | Some(value: T)

  /**
   * What a route handler answers: a success status with its JSON body, or a
   * failure status with the `message` field of the JSON error body.
   */
  datatype Reply<+T> = Ok(status: int, body: T) | Fail(status: int, message: string)

  /** The reply of a state-changing handler together with the state it leaves behind. */
  datatype Step<+T, +S> = Step(reply: Reply<T>, state: S)

  const Success := 200
  const Created := 201
  const BadRequest := 400
  const Unauthorized := 401
  const Forbidden := 403
  const NotFound := 404
  const ServerError := 500

  /** The body of every reply produced by a handler's catch block. */
  const ServerErrorMessage := "Server error"
}
