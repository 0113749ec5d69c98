/** The outcomes a service call ends in when it does not return normally (`shared/restapi`). */
module RestApi {
  datatype HttpStatus = BadRequest | Unauthorized | Forbidden | NotFound | Conflict

  function StatusCode(s: HttpStatus): int {
    match s
    case BadRequest => 400
    case Unauthorized => 401
    case Forbidden => 403
    case NotFound => 404
    case Conflict => 409
  }

  /**
   * `ApiException(status, reason)`, or any other runtime exception (the `parse` failures,
   * `orElseThrow()` on an empty `Optional`), which the controller advice reports as a
   * server error.
   */
  datatype ApiError =
    | ApiException(status: HttpStatus, reason: string)
    | ServerError(message: string)

  /** The message of `Optional.orElseThrow()` on an empty value. */
  const NoValuePresent: string := "No value present"
}
