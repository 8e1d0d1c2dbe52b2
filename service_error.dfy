/**
 * The errors the services throw: a machine-readable code, a message and the HTTP status the
 * API layer answers with.
 */
module ServiceErrors {
  datatype ServiceError = ServiceError(code: string, message: string, statusCode: int)

  /** `new ServiceError('VALIDATION_ERROR', message, 400)`. */
  function ValidationError(message: string): ServiceError {
    ServiceError("VALIDATION_ERROR", message, 400)
  }

  /** What an entry point throws for a request body its schema refuses. */
  function ValidationFailed(): ServiceError {
    ValidationError("Validation failed")
  }
}
