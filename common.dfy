/** Values shared by every part of the model: optional values, the ways a
    request handler can fail, the HTTP status codes the handlers use, and bytes. */
module Common {

  datatype Option<+T> = None | Some(value: T)

  /** How a request ends when a handler throws. `Abort` carries the HTTP status
      the framework answers with (a thrown error that is not an abort, such as a
      failed database write or a failed hash, is answered with 500). An
      `AbortRedirect` is turned into a redirect to `location`. `DecodeError` is
      a response body that did not decode into the expected structure. */
  datatype Failure = Abort(status: nat) | AbortRedirect(location: string) | DecodeError

  /** The result of one handler: a value, or the failure it was aborted with. */
  datatype Outcome<+T> = Done(value: T) | Fail(failure: Failure)

  /** What a web handler answers with when it does not render a page. */
  datatype Response = Redirect(location: string) | Status(code: nat)

  const StatusOk: nat := 200
  const StatusCreated: nat := 201
  const StatusNoContent: nat := 204
  const StatusBadRequest: nat := 400
  const StatusUnauthorized: nat := 401
  const StatusNotFound: nat := 404
  const StatusInternalServerError: nat := 500

  type byte = b: int | 0 <= b < 256
}
