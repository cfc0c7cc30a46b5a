/** The part of the web framework that the helpers hand back to callers: its error value. */
module Fiber {

  /** `*fiber.Error`, built by `fiber.NewError(code, message)`: an HTTP status code and one message. */
  datatype Error = Error(code: int, message: string)

  /** `fiber.ErrNotFound`: the framework's 404 error, whose message is the status text. */
  const ErrNotFound := Error(404, "Not Found")

  const StatusBadRequest := 400
  const StatusUnauthorized := 401
}
