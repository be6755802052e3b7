/** The error statuses the handlers answer with, other than the 500 of a failing store. */
module Http {
  /** 400: a missing or invalid field; 404: no record under the key the path names. */
  datatype HttpError = BadRequest | NotFound
}
