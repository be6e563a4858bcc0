// Vocabulary shared by the request handlers: optional values, request-body
// fields as the schema validator sees them, and the HTTP errors the handlers
// throw.
module Http {

  datatype Option<+T> = None | Some(value: T)

  /** A field of a JSON request body as a schema validator sees it: missing,
      present with a value of the expected JSON type, or present with any
      other value (JSON null included). */
  datatype Field<+T> = Absent | Present(value: T) | Invalid

  /** The status code and status message of a thrown `createError`. */
  datatype HttpError = HttpError(status: nat, message: string)

  /** What a handler produces: its response value, or the error it throws. */
  datatype Result<+T> = Ok(value: T) | Err(error: HttpError)

  /** Thrown by the body readers when the schema rejects the body. */
  const ValidationError := HttpError(400, "Validation Error")

  /** Thrown by the session guard when the request carries no user session. */
  const Unauthorized := HttpError(401, "Unauthorized")

  /** What an uncaught exception (a failing library call) becomes. */
  const InternalError := HttpError(500, "Internal Server Error")

  /** JavaScript truthiness of a string that may be undefined. */
  predicate Truthy(s: Option<string>) {
    s.Some? && s.value != ""
  }

  /** A required string field with a minimum length of one. */
  predicate NonEmpty(f: Field<string>) {
    f.Present? && |f.value| >= 1
  }

  /** An optional field passes when it is missing or of the expected type. */
  predicate Optional<T>(f: Field<T>) {
    !f.Invalid?
  }

  /** The value an optional field leaves in a record: undefined or the value. */
  function ValueOf<T>(f: Field<T>): Option<T> {
    if f.Present? then Some(f.value) else None
  }
}
