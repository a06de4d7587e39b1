/** internal/handler/response.go and what the handlers share: an error
    answer is a status and a message; a successful answer is status 200 with
    a body. */
module Handler {
  import opened Common

  /** newErrorResponse(status, message), or echo.NewHTTPError with a
      Message body. */
  datatype HttpError = HttpError(status: int, message: string)

  /** Ok(body) is the 200 answer. */
  type Response<T> = Result<T, HttpError>

  /** The two sentinel errors of pkg/tokens, and any other failure of the
      token manager. */
  datatype TokenError = ErrTokenExpired | ErrTokenInvalid | OtherTokenError

  const InternalServerError: HttpError := HttpError(500, "Internal server error")
}
