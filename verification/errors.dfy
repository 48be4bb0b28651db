/** The HTTP errors the services raise, as status code plus detail text. */
module Errors {

  /** Status codes used by the services. */
  const BadRequest := 400
  const Unauthorized := 401
  const NotFound := 404

  /** An `HTTPException(status_code, detail)`. */
  datatype HttpError = HttpError(status: int, detail: string)
}
