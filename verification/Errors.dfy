/** The error codes of saga::error and saga::adaptors::error. The numbers matter: the most
    specific error has the least code. */
module Errors {
  type ErrorCode = c: nat | c <= 15

  const NOT_IMPLEMENTED: ErrorCode := 1
  const INCORRECT_URL: ErrorCode := 2
  const BAD_PARAMETER: ErrorCode := 3
  const ALREADY_EXISTS: ErrorCode := 4
  const DOES_NOT_EXIST: ErrorCode := 5
  const INCORRECT_STATE: ErrorCode := 6
  const PERMISSION_DENIED: ErrorCode := 7
  const NO_SUCCESS: ErrorCode := 11
  const ADAPTOR_DECLINED: ErrorCode := 12

  datatype Result<+T> = Ok(value: T) | Err(error: ErrorCode)
}
